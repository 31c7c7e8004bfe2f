/** What every event does at an end, over all states a run can reach: which state it leads to, what is
    sent, and what becomes of the messages; and how a connection ends. */
module IlSteps {
  import opened IlSpec
  import opened IlSystem
  import opened IlSafety
  import opened IlRuns

  // ---------- states ----------

  /** The state after an event. */
  function Becomes(e: End, ev: Event): CState {
    match e.state
    case Closed =>
      if ev.Dial? then Syncer else if ev.Announcing? then Listening else Closed
    case Listening =>
      if ev.Hangup? then Closed
      else if ev.Receive? && ev.k.ty == Sync && ev.start > 0 then (if ev.k.ack == 0 then Syncee else Closed)
      else Listening
    case Syncer =>
      if ev.Hangup? then Closing
      else if ev.Unreachable? || Expired(e, ev) then Closed
      else if ev.Receive? && ev.k.ty == Sync then (if ev.k.ack == e.start then Established else Closed)
      else if ev.Receive? && ev.k.ty == Close && ev.k.ack == e.start then Closed
      else Syncer
    case Syncee =>
      if ev.Hangup? then Closing
      else if Expired(e, ev) then Closed
      else if ev.Receive? && ev.k.ty == Sync then (if ev.k.ack == 0 then Syncee else Closed)
      else if ev.Receive? && ev.k.ty in {Ack, Data} && ev.k.ack == e.start then Established
      else if ev.Receive? && ev.k.ty == Close && ev.k.ack == e.start then Closed
      else Syncee
    case Established =>
      if ev.Hangup? || (ev.Receive? && ev.k.ty == Close && e.start <= ev.k.ack <= e.next) then Closing
      else if ev.Clock? && ((ev.due.query && ev.due.death) || (e.unacked != [] && Expired(e, ev))) then Closed
      else Established
    case Closing =>
      if (ev.Receive? && ev.k.ty == Close && ev.k.ack == e.next) || Expired(e, ev) then Closed else Closing
  }

  /** A timeout after more than 16 retransmissions. */
  predicate Expired(e: End, ev: Event) {
    ev.Clock? && ev.due.timeout && e.rexmit > 16
  }

  /** In every reachable state every possible event leads to just that state. */
  lemma Transitions(s: Sys, ev: Event)
    requires Reachable(s) && Enabled(s, Act(true, ev))
    ensures Step(s, Act(true, ev)).a.state == Becomes(s.a, ev)
  {
    ReachableInv(s);
    if s.a.state == Established {
      StaysEstablished(s, ev);
    } else if ev.Receive? {
      assert WellSent(ev.k, s.b, s.a);
      StateReceived(s.a, s.b, ev.k, ev.start);
    }
  }

  lemma StateReceived(e: End, peer: End, k: Packet, start: nat)
    requires Good(e, peer) && WellSent(k, peer, e) && e.state != Established
    ensures Input(e, k, start).0.state == Becomes(e, Receive(k, start))
  {
  }

  /** An end that is closing ends exactly by a close that acknowledges its own, or by the timer. */
  lemma LeavesClosing(s: Sys, ev: Event)
    requires Reachable(s) && Enabled(s, Act(true, ev)) && s.a.state == Closing
    ensures Step(s, Act(true, ev)).a.state == Closed <==>
      (ev.Receive? && ev.k.ty == Close && ev.k.ack == s.a.next) || (ev.Clock? && ev.due.timeout && s.a.rexmit > 16)
    ensures Step(s, Act(true, ev)).a.state in {Closing, Closed}
  {
    Transitions(s, ev);
  }

  // ---------- what is sent ----------

  /** What the header of a packet says of the end that sends it. */
  ghost predicate Header(e: End, e': End, ev: Event, k: Packet) {
    match k.ty
    case Sync => k.id == e'.start && k.ack == (if e'.state == Syncer then 0 else e'.rstart)
    case Data => ev.Write? && k.id == e.next == e'.next - 1 && k.ack == e'.recvd && k.data == ev.m
    case DataQuery =>
      e'.unacked != [] && k.id == e'.unacked[0].id && k.data == e'.unacked[0].data && k.ack == e'.recvd
      && 1 <= k.spec <= 8 < |e'.qt| && e'.qt[k.spec] == e'.next - 1
    case Ack => k.id == e'.next && k.ack == (if ev.Receive? && e.state == Established then e'.rstart else e'.recvd)
    case Query => k.id == e'.next && k.ack == e'.recvd && 1 <= k.spec <= 8 < |e'.qt| && e'.qt[k.spec] == e'.next - 1
    case State => ev.Receive? && k.id == e'.next && k.ack == e'.recvd && k.spec == ev.k.spec
    case Close =>
      if e.state in {Closed, Listening} then ev.Receive? && k.id == ev.k.ack && k.ack == ev.k.id
      else k.id == e'.next && k.ack == e'.recvd
  }

  /** Only queries and their answers name a slot, and only data has any. */
  predicate Bare(k: Packet) {
    (k.ty in {DataQuery, Query, State} || k.spec == 0) && (k.ty in {Data, DataQuery} || k.data == [])
  }

  lemma BareEstablished(e: End, k0: Packet, k: Packet)
    requires |e.qt| == 9 && e.state == Established && k in ProcessEstablished(e, k0).1
    ensures Bare(k)
  {
  }

  lemma BareTimers(e: End, due: Due, k: Packet)
    requires |e.qt| == 9 && e.state == Established && k in TickEstablished(e, due).1
    ensures Bare(k)
  {
  }

  lemma AllBare(e: End, ev: Event, k: Packet)
    requires |e.qt| == 9 && (ev.Dial? ==> ev.start > 0) && k in EndStep(e, ev).1
    ensures Bare(k)
  {
    if ev.Receive? {
      if e.state == Established {
        BareEstablished(e, ev.k, k);
      }
    } else if ev.Clock? && e.state == Established {
      BareTimers(e, ev.due, k);
    }
  }

  lemma HeadersReceived(e: End, peer: End, k0: Packet, start: nat, k: Packet)
    requires Good(e, peer) && WellSent(k0, peer, e) && k in Input(e, k0, start).1
    ensures Header(e, Input(e, k0, start).0, Receive(k0, start), k)
  {
    if e.state == Established {
      HeadersEstablished(e, peer, k0, start, k);
    }
  }

  lemma HeadersEstablished(e: End, peer: End, k0: Packet, start: nat, k: Packet)
    requires Good(e, peer) && WellSent(k0, peer, e) && e.state == Established && k in ProcessEstablished(e, k0).1
    ensures Header(e, ProcessEstablished(e, k0).0, Receive(k0, start), k)
  {
    if k0.ty in {Data, DataQuery} {
      AcceptKeeps(e, peer, k0);
    } else if k0.ty in {Ack, Query, State} {
      AckToKeeps(e, peer, k0.ack);
    }
  }

  lemma HeadersClock(e: End, peer: End, due: Due, k: Packet)
    requires Good(e, peer) && k in Tick(e, due).1
    ensures Header(e, Tick(e, due).0, Clock(due), k)
  {
    if e.state == Established {
      HeadersTimers(e, peer, due, k);
    }
  }

  /** A timer's query leaves what its headers speak of as it is. */
  ghost predicate Alike(e: End, e': End) {
    && e'.next == e.next && e'.recvd == e.recvd && |e'.qt| == |e.qt|
    && forall i | 0 < i < |e.qt| && e.qt[i] == e.next - 1 :: e'.qt[i] == e.next - 1
  }

  /** A query says where in the table the highest id sent now stands. */
  ghost predicate QueryOf(e: End, k: Packet) {
    && k.ty == Query && k.id == e.next && k.ack == e.recvd
    && 1 <= k.spec <= 8 < |e.qt| && e.qt[k.spec] == e.next - 1
  }

  lemma QueryOut(e: End)
    requires |e.qt| == NQT + 1 && e.next > 0
    ensures var (e', out) := SendQuery(e); Alike(e, e') && |out| == 1 && QueryOf(e', out[0])
  {
  }

  lemma TimeoutOut(e: End, due: bool)
    requires |e.qt| == NQT + 1 && e.next > 0
    ensures var (e', out) := TickTimeout(e, due); Alike(e, e') && |out| <= 1 && (out != [] ==> QueryOf(e', out[0]))
  {
    QueryOut(e);
  }

  lemma HeadersTimers(e: End, peer: End, due: Due, k: Packet)
    requires Good(e, peer) && e.state == Established && k in TickEstablished(e, due).1
    ensures Header(e, TickEstablished(e, due).0, Clock(due), k)
  {
    var (e1, out1) := TickAck(e, due.ack);
    if !(due.query && due.death) {
      var (e2, out2) := TickQuery(e1, due.query);
      QueryOut(e1);
      TimeoutOut(e2, due.timeout);
      assert k in out1 || k in out2 || k in TickTimeout(e2, due.timeout).1;
    }
  }

  /** Every packet carries the end's own ids as they then are, and acknowledges what it has received. */
  lemma Headers(s: Sys, ev: Event, k: Packet)
    requires Reachable(s) && Enabled(s, Act(true, ev)) && k in EndStep(s.a, ev).1
    ensures Header(s.a, EndStep(s.a, ev).0, ev, k) && Bare(k)
  {
    ReachableInv(s);
    AllBare(s.a, ev, k);
    if ev.Receive? {
      assert WellSent(ev.k, s.b, s.a);
      HeadersReceived(s.a, s.b, ev.k, ev.start, k);
    } else if ev.Clock? {
      HeadersClock(s.a, s.b, ev.due, k);
    }
  }

  /** A state leaves unacknowledged what had been sent when its query was, and something to resend. */
  predicate Behind(e: End, k: Packet) {
    var slot := if k.spec > 8 then 0 else k.spec;
    slot < |e.qt| && e.qt[slot] > k.ack && exists i :: 0 <= i < |e.unacked| && e.unacked[i].id > k.ack
  }

  /** Which packets an arriving packet draws, in order. */
  function Replies(e: End, k: Packet, start: nat): seq<PType> {
    match e.state
    case Closed => if (k.ty == Sync) != e.listener then [Close] else []
    case Listening => if k.ty != Sync || start == 0 then [Close] else if k.ack == 0 then [Sync] else []
    case Syncer => if k.ty == Sync && k.ack == e.start then [Ack] else []
    case Syncee => if k.ty == Sync && k.ack == 0 then [Sync] else []
    case Established =>
      if k.ty == Sync then [Ack]
      else if k.ty in {DataQuery, Query} then [State]
      else if k.ty == State && Behind(e, k) then [DataQuery]
      else if k.ty == Close && e.start <= k.ack <= e.next then [Close]
      else []
    case Closing => if k.ty == Close then [Close] else []
  }

  function Types(ks: seq<Packet>): (ts: seq<PType>)
    ensures |ts| == |ks| && forall i | 0 <= i < |ks| :: ts[i] == ks[i].ty
  {
    if ks == [] then [] else [ks[0].ty] + Types(ks[1..])
  }

  lemma Draws(s: Sys, k: Packet, start: nat)
    requires Reachable(s) && Enabled(s, Act(true, Receive(k, start)))
    ensures Types(EndStep(s.a, Receive(k, start)).1) == Replies(s.a, k, start)
  {
    ReachableInv(s);
    assert WellSent(k, s.b, s.a);
    var out := Input(s.a, k, start).1;
    OneType(out);
    if s.a.state == Established && k.ty == State {
      LeftOver(s.a, k.ack);
    }
  }

  lemma OneType(ks: seq<Packet>)
    ensures |ks| == 1 ==> Types(ks) == [ks[0].ty]
    ensures ks == [] ==> Types(ks) == []
  {
  }

  lemma LeftOver(e: End, ack: nat)
    requires UnackedOk(e)
    ensures AckTo(e, ack).unacked != [] <==> exists i :: 0 <= i < |e.unacked| && e.unacked[i].id > ack
  {
    var n := UnackedLeft(e.unacked, ack);
  }

  /** Which packets the timers send, in order. */
  function Rings(e: End, due: Due): seq<PType> {
    match e.state
    case Closed => []
    case Listening => []
    case Closing => if due.timeout && e.rexmit <= 16 then [Close] else []
    case Syncer => if due.timeout && e.rexmit <= 16 then [Sync] else []
    case Syncee => if due.timeout && e.rexmit <= 16 then [Sync] else []
    case Established =>
      (if due.ack && e.recvd != e.acksent then [Ack] else []) +
      if due.query && due.death then []
      else (if due.query then [Query] else []) + if due.timeout && e.unacked != [] && e.rexmit <= 16 then [Query] else []
  }

  lemma {:induction false} TypesJoin(a: seq<Packet>, b: seq<Packet>)
    ensures Types(a + b) == Types(a) + Types(b)
  {
    if a == [] {
      assert a + b == b;
    } else {
      assert (a + b)[1..] == a[1..] + b;
      TypesJoin(a[1..], b);
    }
  }

  lemma RingsOut(e: End, due: Due)
    requires |e.qt| == NQT + 1
    ensures Types(Tick(e, due).1) == Rings(e, due)
    ensures e.state in {Closing, Syncer, Syncee} && due.timeout && e.rexmit <= 16 ==> Tick(e, due).0.rexmit == e.rexmit + 1
    ensures e.state == Established && !(due.query && due.death) && due.timeout && e.unacked != [] && e.rexmit <= 16 ==>
      Tick(e, due).0.rexmit == e.rexmit + 1
  {
    if e.state == Established {
      RingsUp(e, due);
    } else {
      OneType(Tick(e, due).1);
    }
  }

  lemma RingsUp(e: End, due: Due)
    requires |e.qt| == NQT + 1 && e.state == Established
    ensures Types(TickEstablished(e, due).1) == Rings(e, due)
    ensures !(due.query && due.death) && due.timeout && e.unacked != [] && e.rexmit <= 16 ==>
      TickEstablished(e, due).0.rexmit == e.rexmit + 1
  {
    var (e1, out1) := TickAck(e, due.ack);
    if !(due.query && due.death) {
      var (e2, out2) := TickQuery(e1, due.query);
      var (e3, out3) := TickTimeout(e2, due.timeout);
      ThreeTypes(out1, out2, out3);
      TimeoutSends(e2, due.timeout);
    } else {
      OneType(out1);
      assert Types(out1) + [] == Types(out1);
    }
  }

  lemma TimeoutSends(e: End, due: bool)
    requires |e.qt| == NQT + 1
    ensures var (e', out) := TickTimeout(e, due);
      if due && e.unacked != [] && e.rexmit <= 16 then |out| == 1 && out[0].ty == Query && e'.rexmit == e.rexmit + 1 else out == []
  {
  }

  lemma ThreeTypes(a: seq<Packet>, b: seq<Packet>, c: seq<Packet>)
    requires |a| <= 1 && |b| <= 1 && |c| <= 1
    ensures Types(a + b + c) == (if a == [] then [] else [a[0].ty]) + ((if b == [] then [] else [b[0].ty]) + if c == [] then [] else [c[0].ty])
  {
    OneType(a);
    OneType(b);
    OneType(c);
    TypesJoin(a + b, c);
    TypesJoin(a, b);
  }

  // ---------- what becomes of the messages ----------

  /** Every packet of an established connection but its sync and close takes from the queue what it
      acknowledges, and nothing else. */
  lemma Acknowledges(e: End, peer: End, k: Packet)
    requires Good(e, peer) && e.state == Established && k.ty in {Data, DataQuery, Ack, Query, State}
    ensures exists n: nat :: Covers(e.unacked, k.ack, n) && ProcessEstablished(e, k).0.unacked == e.unacked[n..]
  {
    var n := CoversSome(e, k.ack);
    QueueAfter(e, k);
  }

  lemma CoversSome(e: End, ack: nat) returns (n: nat)
    requires UnackedOk(e)
    ensures Covers(e.unacked, ack, n) && AckTo(e, ack).unacked == e.unacked[n..]
  {
    n := UnackedLeft(e.unacked, ack);
  }

  lemma QueueAfter(e: End, k: Packet)
    requires |e.qt| == NQT + 1 && e.state == Established && k.ty in {Data, DataQuery, Ack, Query, State}
    ensures ProcessEstablished(e, k).0.unacked == AckTo(e, k.ack).unacked
  {
  }

  /** An acknowledgement covers just the first n of a queue. */
  predicate Covers(u: seq<Packet>, ack: nat, n: nat) {
    && n <= |u| && (forall i | 0 <= i < n :: u[i].id <= ack) && (forall i | n <= i < |u| :: u[i].id > ack)
  }

  /** The end has the message with this id, passed up or waiting. */
  predicate Has(e: End, id: nat) {
    id <= e.recvd || HasId(e.outoforder, id)
  }

  lemma {:induction false} InsertIds(q: seq<Packet>, k: Packet, id: nat)
    ensures HasId(Insert(q, k), id) <==> HasId(q, id) || id == k.id
  {
    if q == [] || k.id < q[0].id {
      IdsCons(k, q, id);
    } else if k.id == q[0].id {
      assert q[0].id == k.id;
    } else {
      InsertIds(q[1..], k, id);
      IdsCons(q[0], q[1..], id);
      IdsCons(q[0], Insert(q[1..], k), id);
      assert q == [q[0]] + q[1..];
    }
  }

  lemma IdsCons(k: Packet, q: seq<Packet>, id: nat)
    ensures HasId([k] + q, id) <==> k.id == id || HasId(q, id)
  {
    assert ([k] + q)[0] == k;
    if HasId(q, id) {
      var i :| 0 <= i < |q| && q[i].id == id;
      assert ([k] + q)[i + 1].id == id;
    }
    if HasId([k] + q, id) {
      var i :| 0 <= i < |[k] + q| && ([k] + q)[i].id == id;
      if i > 0 {
        assert q[i - 1].id == id;
      }
    }
  }

  lemma IdsHead(q: seq<Packet>, id: nat)
    requires q != []
    ensures HasId(q, id) <==> q[0].id == id || HasId(q[1..], id)
  {
    IdsCons(q[0], q[1..], id);
    assert [q[0]] + q[1..] == q;
  }

  lemma NoneBelow(q: seq<Packet>, id: nat)
    requires Ascending(q) && q != [] && id < q[0].id
    ensures !HasId(q, id)
  {
  }

  lemma {:induction false} PullIds(recvd: nat, q: seq<Packet>, up: seq<Msg>, id: nat)
    requires Ascending(q)
    ensures var (r', q', up') := Pull(recvd, q, up);
      && (id <= r' || HasId(q', id) <==> id <= recvd || HasId(q, id)) && !HasId(q', r' + 1)
    decreases |q|
  {
    if q != [] {
      Rest(q);
      IdsHead(q, id);
      if q[0].id <= recvd {
        PullIds(recvd, q[1..], up, id);
      } else if q[0].id == recvd + 1 {
        PullIds(q[0].id, q[1..], up + [q[0].data], id);
      } else {
        NoneBelow(q, recvd + 1);
      }
    }
  }

  /** A message that arrives is taken exactly when it is at most 20 ahead of the last passed up; none is
      lost, and none waits that could be passed up. */
  lemma Takes(s: Sys, k: Packet, start: nat, id: nat)
    requires Reachable(s) && s.a.state == Established && k in s.ba && k.ty in {Data, DataQuery}
    ensures |s.a.qt| == NQT + 1
    ensures var e' := EndStep(s.a, Receive(k, start)).0;
      && (Has(e', id) <==> Has(s.a, id) || (id == k.id && id <= s.a.recvd + 20)) && !HasId(e'.outoforder, e'.recvd + 1)
  {
    ReachableInv(s);
    AcceptIds(s.a, k, id);
  }

  lemma AcceptIds(e: End, k: Packet, id: nat)
    requires e.state == Established && Ascending(e.outoforder)
    ensures var e' := Accept(e, k);
      (Has(e', id) <==> Has(e, id) || (id == k.id && id <= e.recvd + 20)) && !HasId(e'.outoforder, e'.recvd + 1)
  {
    var e1 := AckTo(e, k.ack);
    InsertIds(e1.outoforder, k, id);
    InsertKeeps(e1.outoforder, k);
    var e2 := OutOfOrder(e1, k);
    PullIds(e2.recvd, e2.outoforder, e2.delivered, id);
  }

  // ---------- the end of a connection ----------

  predicate NoClock(acts: seq<Act>) {
    forall act | act in acts :: !act.ev.Clock?
  }

  /** After a hang-up three deliveries close both ends, without any timer. */
  lemma Shutdown(s: Sys) returns (acts: seq<Act>, t: Sys)
    requires Reachable(s) && BothUp(s)
    ensures acts != [] && acts[0] == Act(true, Hangup) && NoClock(acts)
    ensures Runs(s, acts, t) && t.a.state == Closed == t.b.state
  {
    ReachableInv(s);
    var s1 := Step(s, Act(true, Hangup));
    var c1 := Packet(Close, s.a.next, s.a.recvd, 0, []);
    var s2 := Step(s1, Act(false, Receive(c1, 0)));
    var c2 := Packet(Close, s.b.next, s.a.next, 0, []);
    var s3 := Step(s2, Act(true, Receive(c2, 0)));
    var c3 := Packet(Close, s.a.next, s.b.next, 0, []);
    t := Step(s3, Act(false, Receive(c3, 0)));
    assert c1 in s1.ab && c2 in s2.ba && c3 in s3.ab;
    acts := [Act(true, Hangup), Act(false, Receive(c1, 0)), Act(true, Receive(c2, 0)), Act(false, Receive(c3, 0))];
    assert Runs(s3, acts[3..], t);
    assert Runs(s2, acts[2..], t);
    assert Runs(s1, acts[1..], t);
  }

  /** So they do when both hang up at once. */
  lemma ShutdownBoth(s: Sys) returns (acts: seq<Act>, t: Sys)
    requires Reachable(s) && BothUp(s)
    ensures |acts| > 1 && acts[..2] == [Act(true, Hangup), Act(false, Hangup)] && NoClock(acts)
    ensures Runs(s, acts, t) && t.a.state == Closed == t.b.state
  {
    ReachableInv(s);
    var s1 := Step(s, Act(true, Hangup));
    var s2 := Step(s1, Act(false, Hangup));
    var c1 := Packet(Close, s.b.next, s.b.recvd, 0, []);
    var s3 := Step(s2, Act(true, Receive(c1, 0)));
    var c2 := Packet(Close, s.a.next, s.b.next, 0, []);
    var s4 := Step(s3, Act(false, Receive(c2, 0)));
    var c3 := Packet(Close, s.b.next, s.a.next, 0, []);
    t := Step(s4, Act(true, Receive(c3, 0)));
    assert c1 in s2.ba && c2 in s3.ab && c3 in s4.ba;
    acts := [Act(true, Hangup), Act(false, Hangup), Act(true, Receive(c1, 0)), Act(false, Receive(c2, 0)), Act(true, Receive(c3, 0))];
    assert Runs(s4, acts[4..], t);
    assert Runs(s3, acts[3..], t);
    assert Runs(s2, acts[2..], t);
    assert Runs(s1, acts[1..], t);
  }

  // ---------- bookkeeping ----------

  /** Nothing sent but a retransmission or a refusal. */
  predicate Uncounted(e: End, out: seq<Packet>) {
    out == [] || out[|out| - 1].ty == DataQuery || (out[|out| - 1].ty == Close && e.state in {Closed, Listening})
  }

  /** A delayed acknowledgement knows what was last acknowledged: that of the last packet sent, but for
      retransmissions and refusals. */
  lemma AckSent(e: End, ev: Event)
    requires |e.qt| == NQT + 1 && (ev.Dial? ==> ev.start > 0)
    ensures var (e', out) := EndStep(e, ev);
      if Uncounted(e, out) then e'.acksent == e.acksent else e'.acksent == out[|out| - 1].ack
  {
    if ev.Clock? {
      AckSentClock(e, ev.due);
    } else if ev.Receive? {
      AckSentReceived(e, ev.k, ev.start);
    }
  }

  lemma AckSentClock(e: End, due: Due)
    requires |e.qt| == NQT + 1
    ensures var (e', out) := Tick(e, due);
      if Uncounted(e, out) then e'.acksent == e.acksent else e'.acksent == out[|out| - 1].ack
  {
    if e.state == Established {
      AckSentTimers(e, due);
    }
  }

  lemma AckSentTimers(e: End, due: Due)
    requires |e.qt| == NQT + 1 && e.state == Established
    ensures var (e', out) := TickEstablished(e, due);
      (out != [] ==> out[|out| - 1].ty in {Ack, Query}) && e'.acksent == if out == [] then e.acksent else out[|out| - 1].ack
  {
  }

  lemma AckSentReceived(e: End, k: Packet, start: nat)
    requires |e.qt| == NQT + 1
    ensures var (e', out) := Input(e, k, start);
      if Uncounted(e, out) then e'.acksent == e.acksent else e'.acksent == out[|out| - 1].ack
  {
    if e.state == Established {
      AckSentUp(e, k);
    } else if e.state == Syncee && k.ty == Data {
      AckSentUp(Establish(e), k);
    }
  }

  lemma AckSentUp(e: End, k: Packet)
    requires |e.qt| == NQT + 1 && e.state == Established
    ensures var (e', out) := ProcessEstablished(e, k);
      if out == [] || out[|out| - 1].ty == DataQuery then e'.acksent == e.acksent else e'.acksent == out[|out| - 1].ack
  {
  }

  /** The query table: the slots are used one after the other, round and round, and the others stay. */
  lemma NextSlot(e: End)
    requires |e.qt| == 9 && 1 <= e.qtx <= 8 && e.next > 0
    ensures var e' := NextQt(e);
      && e'.qtx == e.qtx % 8 + 1 && e'.qt[e'.qtx] == e'.qt[0] == e.next - 1
      && forall i | 0 < i <= 8 && i != e'.qtx :: e'.qt[i] == e.qt[i]
  {
  }
}
