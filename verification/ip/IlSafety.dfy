/** Every step of either end keeps the invariant, whatever the network and the user do. */
module IlSafety {
  import opened IlSpec
  import opened IlSystem

  ghost predicate Good(e: End, peer: End) {
    var whole := Own(e) && Received(e, peer) && Flow(e, peer);
    whole
  }

  /** An end only ever picks its start once and adds to what it sent and delivered. */
  predicate Grows(e: End, e': End) {
    && (e'.start == e.start || e.start == 0)
    && |e.sent| <= |e'.sent| && e'.sent[..|e.sent|] == e.sent
    && |e.delivered| <= |e'.delivered| && e'.delivered[..|e.delivered|] == e.delivered
  }

  ghost predicate StepOk(e: End, peer: End, r: Out) {
    && Good(r.0, peer) && Grows(e, r.0)
    && (forall k | k in r.1 :: WellSent(k, r.0, peer))
  }

  // ---------- acknowledgements ----------

  /** What `ilackto` leaves: the queue without those of its ids that are covered. */
  lemma {:induction false} UnackedLeft(u: seq<Packet>, ack: nat) returns (n: nat)
    ensures n <= |u| && Unacked(u, ack) == u[n..]
    ensures forall i | 0 <= i < n :: u[i].id <= ack
    ensures n < |u| ==> ack < u[n].id
  {
    if u == [] || ack < u[0].id {
      n := 0;
    } else {
      var m := UnackedLeft(u[1..], ack);
      n := m + 1;
      forall i | 0 <= i < n ensures u[i].id <= ack {
        if i > 0 {
          assert u[1..][i - 1].id <= ack;
        }
      }
    }
  }

  lemma AckToKeeps(e: End, peer: End, ack: nat)
    requires Good(e, peer) && Live(e) && ack <= e.start + |peer.delivered|
    ensures Good(AckTo(e, ack), peer) && Grows(e, AckTo(e, ack))
  {
    var n := UnackedLeft(e.unacked, ack);
    if n > 0 {
      assert e.unacked[n - 1].id <= ack;
    }
    LaterUnacked(e, n);
  }

  /** The end of an unacked queue is one. */
  lemma LaterUnacked(e: End, n: nat)
    requires UnackedOk(e) && n <= |e.unacked|
    ensures UnackedOk(e.(unacked := e.unacked[n..])) && UnackedOk(e.(unacked := e.unacked[n..], rexmit := 0))
  {
  }

  // ---------- the out of order queue ----------

  predicate HasId(q: seq<Packet>, id: nat) {
    exists i :: 0 <= i < |q| && q[i].id == id
  }

  lemma InFront(h: Packet, r: seq<Packet>)
    requires Ascending(r) && forall j | j in r :: h.id < j.id
    ensures Ascending([h] + r)
  {
    var q := [h] + r;
    forall a, b | 0 <= a < b < |q| ensures q[a].id < q[b].id {
      assert q[b] == r[b - 1];
    }
  }

  lemma {:induction false} InsertKeeps(q: seq<Packet>, k: Packet)
    requires Ascending(q)
    ensures Ascending(Insert(q, k)) && HasId(Insert(q, k), k.id)
    ensures forall j | j in Insert(q, k) :: j in q || j == k
    ensures q != [] ==> Insert(q, k)[0].id == (if k.id < q[0].id then k.id else q[0].id)
  {
    if q == [] || k.id < q[0].id {
      assert Insert(q, k)[0] == k;
    } else if k.id == q[0].id {
      assert Insert(q, k)[0] == q[0];
    } else {
      Rest(q);
      InsertKeeps(q[1..], k);
      var r := Insert(q[1..], k);
      var i :| 0 <= i < |r| && r[i].id == k.id;
      assert Insert(q, k)[i + 1] == r[i];
      InFront(q[0], r);
    }
  }

  /** A queue that may be pulled up. */
  ghost predicate Pullable(recvd: nat, q: seq<Packet>, up: seq<Msg>, peer: End, top: nat) {
    && Ascending(q) && (forall k | k in q :: k.id <= top && IsData(k, peer))
    && recvd == peer.start + |up| && |up| <= |peer.sent| && up == peer.sent[..|up|]
  }

  /** `ilpullup` passes up the next messages in order, as far as the queue goes. */
  lemma {:induction false} PullKeeps(recvd: nat, q: seq<Packet>, up: seq<Msg>, peer: End, top: nat)
    requires Pullable(recvd, q, up, peer, top)
    ensures var (r', q', up') := Pull(recvd, q, up);
      && Pullable(r', q', up', peer, top) && recvd <= r' && |up| <= |up'| && up'[..|up|] == up
      && (q' != [] ==> r' + 1 < q'[0].id) && (HasId(q, recvd + 1) ==> recvd < r')
    decreases |q|
  {
    if q != [] {
      if q[0].id <= recvd {
        Rest(q);
        PullKeeps(recvd, q[1..], up, peer, top);
        if HasId(q, recvd + 1) {
          var i :| 0 <= i < |q| && q[i].id == recvd + 1;
          assert q[1..][i - 1].id == recvd + 1;
        }
      } else if q[0].id == recvd + 1 {
        Rest(q);
        assert q[0] in q;
        var up1 := up + [q[0].data];
        assert up1 == peer.sent[..|up1|];
        PullKeeps(q[0].id, q[1..], up1, peer, top);
      }
    }
  }

  lemma Rest(q: seq<Packet>)
    requires q != [] && Ascending(q)
    ensures Ascending(q[1..]) && forall k | k in q[1..] :: k in q && q[0].id < k.id
  {
  }

  /** The same, for an end. */
  lemma PullupKeeps(e: End, peer: End, top: nat)
    requires Own(e) && Flow(e, peer) && e.state == Established && peer.start > 0 && e.rstart == peer.start
    requires Pullable(e.recvd, e.outoforder, e.delivered, peer, top) && top <= e.recvd + WINDOW
    ensures Good(Pullup(e), peer) && Grows(e, Pullup(e)) && e.recvd <= Pullup(e).recvd
    ensures HasId(e.outoforder, e.recvd + 1) ==> e.recvd < Pullup(e).recvd
  {
    PullKeeps(e.recvd, e.outoforder, e.delivered, peer, top);
    var e' := Pullup(e);
    forall i | 0 <= i < |e'.outoforder|
      ensures e'.recvd + 1 < e'.outoforder[i].id <= e'.recvd + WINDOW && IsData(e'.outoforder[i], peer)
    {
      assert e'.outoforder[i] in e'.outoforder;
    }
  }

  lemma AcceptKeeps(e: End, peer: End, k: Packet)
    requires Good(e, peer) && e.state == Established && WellSent(k, peer, e) && k.ty in {Data, DataQuery}
    ensures Good(Accept(e, k), peer) && Grows(e, Accept(e, k)) && e.recvd <= Accept(e, k).recvd
    ensures k.id <= e.recvd + 1 ==> k.id <= Accept(e, k).recvd
  {
    AckToKeeps(e, peer, k.ack);
    var e1 := AckTo(e, k.ack);
    QueuedKeeps(e1, peer, k);
    PullupKeeps(OutOfOrder(e1, k), peer, e.recvd + WINDOW);
  }

  /** With the packet put in its place the queue can be pulled up, past the packet if it is the next. */
  lemma QueuedKeeps(e: End, peer: End, k: Packet)
    requires Good(e, peer) && e.state == Established && IsData(k, peer)
    ensures var e2 := OutOfOrder(e, k);
      && e2 == e.(outoforder := e2.outoforder) && Pullable(e.recvd, e2.outoforder, e.delivered, peer, e.recvd + WINDOW)
      && (k.id == e.recvd + 1 ==> HasId(e2.outoforder, k.id))
  {
    InsertKeeps(e.outoforder, k);
    assert forall j | j in e.outoforder :: j.id <= e.recvd + WINDOW && IsData(j, peer);
  }

  // ---------- the steps ----------

  lemma NextQtKeeps(e: End, peer: End)
    requires Good(e, peer)
    ensures Good(NextQt(e), peer) && Grows(e, NextQt(e))
  {
  }

  lemma RexmitKeeps(e: End, peer: End)
    requires Good(e, peer) && e.state == Established
    ensures StepOk(e, peer, Rexmit(e))
  {
    if e.unacked != [] {
      NextQtKeeps(e, peer);
    }
  }

  lemma StateKeeps(e: End, peer: End, k: Packet)
    requires Good(e, peer) && e.state == Established && WellSent(k, peer, e) && k.ty == State
    ensures StepOk(e, peer, ProcessEstablished(e, k))
  {
    AckToKeeps(e, peer, k.ack);
    RexmitKeeps(AckTo(e, k.ack), peer);
  }

  lemma DataKeeps(e: End, peer: End, k: Packet)
    requires Good(e, peer) && e.state == Established && WellSent(k, peer, e) && k.ty in {Data, DataQuery}
    ensures StepOk(e, peer, ProcessEstablished(e, k))
  {
    AcceptKeeps(e, peer, k);
  }

  lemma AckKeeps(e: End, peer: End, k: Packet)
    requires Good(e, peer) && e.state == Established && WellSent(k, peer, e) && k.ty in {Ack, Query}
    ensures StepOk(e, peer, ProcessEstablished(e, k))
  {
    AckToKeeps(e, peer, k.ack);
  }

  lemma OtherKeeps(e: End, peer: End, k: Packet)
    requires Good(e, peer) && e.state == Established && WellSent(k, peer, e) && k.ty in {Sync, Close}
    ensures StepOk(e, peer, ProcessEstablished(e, k))
  {
  }

  lemma EstablishedKeeps(e: End, peer: End, k: Packet)
    requires Good(e, peer) && e.state == Established && WellSent(k, peer, e)
    ensures StepOk(e, peer, ProcessEstablished(e, k))
  {
    if k.ty in {Data, DataQuery} {
      DataKeeps(e, peer, k);
    } else if k.ty in {Ack, Query} {
      AckKeeps(e, peer, k);
    } else if k.ty == State {
      StateKeeps(e, peer, k);
    } else {
      OtherKeeps(e, peer, k);
    }
  }

  lemma SyncerKeeps(e: End, peer: End, k: Packet)
    requires Good(e, peer) && e.state == Syncer && WellSent(k, peer, e)
    ensures StepOk(e, peer, ProcessSyncer(e, k))
  {
  }

  lemma SynceeKeeps(e: End, peer: End, k: Packet)
    requires Good(e, peer) && e.state == Syncee && WellSent(k, peer, e)
    ensures StepOk(e, peer, ProcessSyncee(e, k))
  {
    if k.ty == Data && k.ack == e.start {
      EstablishedKeeps(Establish(e), peer, k);
    }
  }

  lemma ListenKeeps(e: End, peer: End, k: Packet, start: nat)
    requires Good(e, peer) && WellSent(k, peer, e) && e.state == Listening
    ensures StepOk(e, peer, Input(e, k, start))
  {
    if k.ty == Sync && start > 0 {
      var e1 := Init(e, start).(state := Syncee, rstart := k.id);
      assert k.id == peer.start;
    }
  }

  lemma InputKeeps(e: End, peer: End, k: Packet, start: nat)
    requires Good(e, peer) && WellSent(k, peer, e)
    ensures StepOk(e, peer, Input(e, k, start))
  {
    match e.state
    case Closed =>
    case Listening =>
      ListenKeeps(e, peer, k, start);
    case Syncer => SyncerKeeps(e, peer, k);
    case Syncee => SynceeKeeps(e, peer, k);
    case Established => EstablishedKeeps(e, peer, k);
    case Closing =>
  }

  lemma KickKeeps(e: End, peer: End, m: Msg)
    requires Good(e, peer)
    ensures StepOk(e, peer, Kick(e, m))
  {
  }

  /** Two steps, one after the other. */
  lemma Compose(e: End, peer: End, r: Out, r': Out)
    requires StepOk(e, peer, r) && StepOk(r.0, peer, r')
    ensures StepOk(e, peer, (r'.0, r.1 + r'.1))
  {
    forall k | k in r.1 + r'.1 ensures WellSent(k, r'.0, peer) {
      if k in r.1 {
        assert WellSent(k, r.0, peer);
      }
    }
  }

  lemma TickQueryKeeps(e: End, peer: End, due: bool)
    requires Good(e, peer) && e.state == Established
    ensures StepOk(e, peer, TickQuery(e, due)) && TickQuery(e, due).0.state == Established
  {
    NextQtKeeps(e, peer);
  }

  lemma TickTimeoutKeeps(e: End, peer: End, due: bool)
    requires Good(e, peer) && e.state == Established
    ensures StepOk(e, peer, TickTimeout(e, due))
  {
    NextQtKeeps(e, peer);
  }

  lemma TickEstablishedKeeps(e: End, peer: End, due: Due)
    requires Good(e, peer) && e.state == Established
    ensures StepOk(e, peer, TickEstablished(e, due))
  {
    var r1 := TickAck(e, due.ack);
    assert StepOk(e, peer, r1) && r1.0.state == Established;
    if !(due.query && due.death) {
      var r2 := TickQuery(r1.0, due.query);
      TickQueryKeeps(r1.0, peer, due.query);
      Compose(e, peer, r1, r2);
      TickTimeoutKeeps(r2.0, peer, due.timeout);
      Compose(e, peer, (r2.0, r1.1 + r2.1), TickTimeout(r2.0, due.timeout));
    }
  }

  lemma TickKeeps(e: End, peer: End, due: Due)
    requires Good(e, peer)
    ensures StepOk(e, peer, Tick(e, due))
  {
    if e.state == Established {
      TickEstablishedKeeps(e, peer, due);
    } else {
      TickOthersKeep(e, peer, due);
    }
  }

  lemma TickOthersKeep(e: End, peer: End, due: Due)
    requires Good(e, peer) && e.state != Established
    ensures StepOk(e, peer, Tick(e, due))
  {
    if due.timeout {
      if e.state == Closing {
        TickClosingKeeps(e, peer);
      } else if e.state in {Syncer, Syncee} {
        TickHandshakeKeeps(e, peer);
      }
    }
  }

  lemma TickClosingKeeps(e: End, peer: End)
    requires Good(e, peer) && e.state == Closing
    ensures StepOk(e, peer, TickClosing(e))
  {
  }

  lemma TickHandshakeKeeps(e: End, peer: End)
    requires Good(e, peer) && e.state in {Syncer, Syncee}
    ensures StepOk(e, peer, TickHandshake(e))
  {
  }

  lemma HangupKeeps(e: End, peer: End)
    requires Good(e, peer)
    ensures StepOk(e, peer, UserClose(e))
  {
    if Live(e) {
      HangupLive(e, peer);
    }
  }

  lemma HangupLive(e: End, peer: End)
    requires Good(e, peer) && Live(e)
    ensures StepOk(e, peer, UserClose(e))
  {
  }

  lemma AdviseKeeps(e: End, peer: End)
    requires Good(e, peer)
    ensures StepOk(e, peer, Advise(e))
  {
  }

  lemma BeginKeeps(e: End, peer: End, start: nat)
    requires Good(e, peer) && e.start == 0
    ensures start > 0 ==> StepOk(e, peer, Connect(e, start))
    ensures StepOk(e, peer, Announce(e))
  {
  }

  lemma EndKeeps(e: End, peer: End, arriving: set<Packet>, ev: Event)
    requires Good(e, peer) && Wire(peer, e, arriving) && Possible(e, arriving, ev)
    ensures StepOk(e, peer, EndStep(e, ev))
  {
    match ev
    case Dial(start) => BeginKeeps(e, peer, start);
    case Announcing => BeginKeeps(e, peer, 0);
    case Write(m) => KickKeeps(e, peer, m);
    case Hangup => HangupKeeps(e, peer);
    case Receive(k, start) => InputKeeps(e, peer, k, start);
    case Clock(due) => TickKeeps(e, peer, due);
    case Unreachable => AdviseKeeps(e, peer);
  }

  /** What the other end knows of this one stays true when this one grows. */
  lemma PeerKept(peer: End, e: End, e': End, out: set<Packet>)
    requires Half(peer, e, out) && Own(e) && Own(e') && Grows(e, e')
    ensures Half(peer, e', out)
  {
    forall k | IsData(k, e) ensures IsData(k, e') {
    }
    assert Wire(peer, e', out) by {
      forall k | k in out ensures WellSent(k, peer, e') {
        assert WellSent(k, peer, e);
      }
    }
  }

  lemma WireKept(e: End, e': End, peer: End, out: set<Packet>)
    requires Wire(e, peer, out) && Own(e) && Own(e') && Grows(e, e')
    ensures Wire(e', peer, out)
  {
    forall k | k in out ensures WellSent(k, e', peer) {
      assert WellSent(k, e, peer);
    }
  }

  lemma StepAKeeps(s: Sys, ev: Event)
    requires Inv(s) && Possible(s.a, s.ba, ev)
    ensures Inv(StepA(s, ev))
  {
    EndKeeps(s.a, s.b, s.ba, ev);
    var a' := EndStep(s.a, ev).0;
    WireKept(s.a, a', s.b, s.ab);
    PeerKept(s.b, s.a, a', s.ba);
  }
}
