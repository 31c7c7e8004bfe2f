/** The control block as the kernel keeps it: fields and lists changed in place.  Every method makes
    the change, and sends the packets, that IlSpec says. */
module Il {
  import opened IlSpec

  class Ilcb {
    var state: CState
    var start: nat
    var next: nat
    var recvd: nat
    var rstart: nat
    var acksent: nat
    var rexmit: nat
    var unacked: seq<Packet>
    var outoforder: seq<Packet>
    const qt: array<nat>
    var qtx: nat
    var listener: bool
    /** What the user wrote. */
    ghost var sent: seq<Msg>
    /** The read queue of the conversation, with everything ever put on it. */
    var rq: seq<Msg>
    /** Packets handed to IP. */
    var wire: seq<Packet>

    constructor ()
      ensures Cb() == IDLE && wire == [] && qt.Length == NQT + 1 && fresh(qt)
    {
      state, start, next, recvd, rstart, acksent, rexmit := Closed, 0, 0, 0, 0, 0, 0;
      unacked, outoforder, qtx, listener, sent, rq, wire := [], [], 1, false, [], [], [];
      qt := new nat[NQT + 1](_ => 0);
      new;
      assert qt[..] == ZEROS;
    }

    ghost function Cb(): End
      reads this, qt
    {
      End(state, start, next, recvd, rstart, acksent, rexmit, unacked, outoforder, qt[..], qtx, listener, sent, rq)
    }

    /** The step r has been taken, its packets sent after those of w. */
    ghost predicate Did(w: seq<Packet>, r: Out)
      reads this, qt
    {
      Cb() == r.0 && wire == w + r.1
    }

    method IlSendCtl(ty: PType, id: nat, ack: nat, spec: nat)
      modifies this`wire, this`acksent
      ensures Did(old(wire), SendCtl(old(Cb()), ty, id, ack, spec))
    {
      wire := wire + [Packet(ty, id, ack, spec, [])];
      acksent := ack;
    }

    method IlReject(k: Packet)
      modifies this`wire
      ensures Did(old(wire), (old(Cb()), [Reject(k)]))
    {
      wire := wire + [Packet(Close, k.ack, k.id, 0, [])];
    }

    method IlLocalClose()
      modifies this`state
      ensures Cb() == LocalClose(old(Cb()))
    {
      state := Closed;
    }

    method IlFreeq()
      modifies this`unacked, this`outoforder
      ensures Cb() == FreeQueues(old(Cb()))
    {
      unacked := [];
      outoforder := [];
    }

    method IlCbInit(start: nat)
      modifies this
      ensures Cb() == Init(old(Cb()), start) && wire == old(wire)
    {
      this.start := start;
      next := start + 1;
      recvd := 0;
      unacked := [];
      outoforder := [];
      rexmit := 0;
      qtx := 1;
    }

    method IlAckTo(ack: nat)
      modifies this`unacked, this`rexmit
      ensures Cb() == AckTo(old(Cb()), ack)
    {
      ghost var u := unacked;
      while unacked != []
        invariant Unacked(unacked, ack) == Unacked(u, ack) && |unacked| <= |u|
        invariant if unacked == u then rexmit == old(rexmit) else rexmit == 0 && |unacked| < |u|
        decreases |unacked|
      {
        if ack < unacked[0].id {
          break;
        }
        unacked := unacked[1..];
        rexmit := 0;
      }
    }

    /** The search for the place of a packet, and its linking in. */
    method IlOutOfOrder(k: Packet)
      modifies this`outoforder
      ensures Cb() == OutOfOrder(old(Cb()), k)
    {
      if k.id <= recvd || k.id > recvd + WINDOW {
        return;
      }
      var l := 0;
      while l < |outoforder|
        invariant l <= |outoforder| && outoforder[..l] + Insert(outoforder[l..], k) == Insert(outoforder, k)
      {
        var newid := outoforder[l].id;
        if k.id <= newid {
          if k.id != newid {
            outoforder := outoforder[..l] + [k] + outoforder[l..];
          } else {
            assert outoforder == outoforder[..l] + outoforder[l..];
          }
          return;
        }
        assert outoforder[..l + 1] == outoforder[..l] + [outoforder[l]];
        assert outoforder[l..][1..] == outoforder[l + 1..];
        l := l + 1;
      }
      outoforder := outoforder + [k];
    }

    method IlPullup()
      modifies this`recvd, this`outoforder, this`rq
      ensures Cb() == Pullup(old(Cb()))
    {
      if state != Established {
        return;
      }
      while outoforder != []
        invariant Pull(recvd, outoforder, rq) == Pull(old(recvd), old(outoforder), old(rq))
        decreases |outoforder|
      {
        var k := outoforder[0];
        if k.id <= recvd {
          outoforder := outoforder[1..];
          continue;
        }
        if k.id != recvd + 1 {
          break;
        }
        recvd := k.id;
        outoforder := outoforder[1..];
        rq := rq + [k.data];
      }
    }

    method IlNextQt() returns (x: nat)
      requires qt.Length == NQT + 1
      modifies this`qtx, qt
      ensures Cb() == NextQt(old(Cb())) && x == qtx
    {
      x := qtx + 1;
      if x > NQT {
        x := 1;
      }
      qtx := x;
      qt[x] := if next > 0 then next - 1 else 0;
      qt[0] := qt[x];
    }

    method IlRexmit()
      requires qt.Length == NQT + 1
      modifies this`qtx, this`rexmit, this`wire, qt
      ensures Did(old(wire), Rexmit(old(Cb())))
    {
      if unacked == [] {
        return;
      }
      var head := unacked[0];
      var spec := IlNextQt();
      rexmit := rexmit + 1;
      wire := wire + [Packet(DataQuery, head.id, recvd, spec, head.data)];
    }

    method Establish()
      modifies this`state, this`rexmit
      ensures Cb() == IlSpec.Establish(old(Cb()))
    {
      state := Established;
      rexmit := 0;
    }

    // ---------- packets ----------

    method ProcessSyncer(k: Packet)
      requires state == Syncer
      modifies this
      ensures Did(old(wire), IlSpec.ProcessSyncer(old(Cb()), k))
    {
      match k.ty {
        case Sync =>
          if k.ack != start {
            IlLocalClose();
          } else {
            recvd := k.id;
            rstart := k.id;
            IlSendCtl(Ack, next, recvd, 0);
            Establish();
            IlPullup();
          }
        case Close =>
          if k.ack == start {
            IlLocalClose();
          }
        case _ =>
      }
    }

    method ProcessSyncee(k: Packet)
      requires state == Syncee && qt.Length == NQT + 1
      modifies this, qt
      ensures Did(old(wire), IlSpec.ProcessSyncee(old(Cb()), k))
    {
      match k.ty {
        case Sync =>
          if k.id != rstart || k.ack != 0 {
            IlLocalClose();
          } else {
            recvd := k.id;
            IlSendCtl(Sync, start, recvd, 0);
          }
        case Ack =>
          if k.ack == start {
            Establish();
            IlPullup();
          }
        case Data =>
          if k.ack == start {
            Establish();
            ProcessEstablished(k);
          }
        case Close =>
          if k.ack == start {
            IlLocalClose();
          }
        case _ =>
      }
    }

    method ProcessEstablished(k: Packet)
      requires state == Established && qt.Length == NQT + 1
      modifies this, qt
      ensures Did(old(wire), IlSpec.ProcessEstablished(old(Cb()), k))
    {
      match k.ty {
        case Sync =>
          if k.id != rstart {
            IlLocalClose();
          } else {
            IlSendCtl(Ack, next, rstart, 0);
          }
        case Data =>
          IlAckTo(k.ack);
          IlOutOfOrder(k);
          IlPullup();
        case DataQuery =>
          IlAckTo(k.ack);
          IlOutOfOrder(k);
          IlPullup();
          IlSendCtl(State, next, recvd, k.spec);
        case Ack =>
          IlAckTo(k.ack);
        case Query =>
          IlAckTo(k.ack);
          IlSendCtl(State, next, recvd, k.spec);
        case State =>
          IlAckTo(k.ack);
          var spec := if k.spec > NQT then 0 else k.spec;
          if qt[spec] > k.ack {
            IlRexmit();
          }
        case Close =>
          if k.ack < start || k.ack > next {
            return;
          }
          recvd := k.id;
          IlSendCtl(Close, next, recvd, 0);
          state := Closing;
          IlFreeq();
      }
    }

    method ProcessClosing(k: Packet)
      requires state == Closing
      modifies this
      ensures Did(old(wire), IlSpec.ProcessClosing(old(Cb()), k))
    {
      if k.ty == Close {
        recvd := k.id;
        IlSendCtl(Close, next, recvd, 0);
        if k.ack == next {
          IlLocalClose();
        }
      }
    }

    /** `_ilprocess`. */
    method IlProcess(k: Packet)
      requires qt.Length == NQT + 1
      modifies this, qt
      ensures Did(old(wire), Process(old(Cb()), k))
    {
      match state {
        case Syncer => ProcessSyncer(k);
        case Syncee => ProcessSyncee(k);
        case Established => ProcessEstablished(k);
        case Closing => ProcessClosing(k);
        case _ =>
      }
    }

    /** `iliput`; newstart is the start a new conversation picks, 0 when there is none to be had. */
    method IlInput(k: Packet, newstart: nat)
      requires qt.Length == NQT + 1
      modifies this, qt
      ensures Did(old(wire), Input(old(Cb()), k, newstart))
    {
      if state == Closed {
        if (k.ty == Sync) != listener {
          IlReject(k);
        }
        return;
      }
      if state == Listening {
        if k.ty != Sync || newstart == 0 {
          IlReject(k);
          return;
        }
        state := Syncee;
        IlCbInit(newstart);
        rstart := k.id;
      }
      IlProcess(k);
    }

    // ---------- the user ----------

    method IlConnect(start: nat)
      requires start > 0
      modifies this
      ensures Did(old(wire), Connect(old(Cb()), start))
    {
      if state != Closed {
        return;
      }
      IlCbInit(start);
      state := Syncer;
      IlSendCtl(Sync, this.start, recvd, 0);
    }

    method IlAnnounce()
      modifies this
      ensures Did(old(wire), Announce(old(Cb())))
    {
      if state == Closed {
        state := Listening;
        listener := true;
      }
    }

    method IlKick(m: Msg)
      modifies this
      ensures Did(old(wire), Kick(old(Cb()), m))
    {
      if state in {Closed, Listening, Closing} {
        return;
      }
      var id := next;
      next := next + 1;
      acksent := recvd;
      var k := Packet(Data, id, recvd, 0, m);
      unacked := unacked + [k];
      sent := sent + [m];
      wire := wire + [k];
    }

    method IlClose()
      modifies this
      ensures Did(old(wire), UserClose(old(Cb())))
    {
      match state {
        case Closing =>
        case Closed =>
        case Listening =>
          listener := false;
          IlLocalClose();
        case _ =>
          state := Closing;
          IlSendCtl(Close, next, recvd, 0);
      }
      IlFreeq();
    }

    // ---------- timers ----------

    method HandshakeTimer()
      requires state in {Syncer, Syncee}
      modifies this
      ensures Did(old(wire), TickHandshake(old(Cb())))
    {
      if rexmit > MAX_REXMIT {
        IlLocalClose();
        return;
      }
      IlSendCtl(Sync, start, recvd, 0);
      rexmit := rexmit + 1;
    }

    method ClosingTimer()
      requires state == Closing
      modifies this
      ensures Did(old(wire), TickClosing(old(Cb())))
    {
      if rexmit > MAX_REXMIT {
        IlLocalClose();
        return;
      }
      IlSendCtl(Close, next, recvd, 0);
      rexmit := rexmit + 1;
    }

    method EstablishedTimers(due: Due)
      requires state == Established && qt.Length == NQT + 1
      modifies this, qt
      ensures Did(old(wire), TickEstablished(old(Cb()), due))
    {
      if recvd != acksent && due.ack {
        IlSendCtl(Ack, next, recvd, 0);
      }
      if due.query {
        if due.death {
          IlLocalClose();
          return;
        }
        var x := IlNextQt();
        IlSendCtl(Query, next, recvd, x);
      }
      if unacked != [] && due.timeout {
        if rexmit > MAX_REXMIT {
          IlLocalClose();
          return;
        }
        var x := IlNextQt();
        IlSendCtl(Query, next, recvd, x);
        rexmit := rexmit + 1;
      }
    }

    /** This conversation's turn in `ilackproc`. */
    method IlAckProc(due: Due)
      requires qt.Length == NQT + 1
      modifies this, qt
      ensures Did(old(wire), Tick(old(Cb()), due))
    {
      match state {
        case Closing =>
          if due.timeout {
            ClosingTimer();
          }
        case Syncer =>
          if due.timeout {
            HandshakeTimer();
          }
        case Syncee =>
          if due.timeout {
            HandshakeTimer();
          }
        case Established =>
          EstablishedTimers(due);
        case _ =>
      }
    }

    method IlAdvise()
      modifies this
      ensures Did(old(wire), Advise(old(Cb())))
    {
      if state == Syncer {
        IlLocalClose();
      }
    }
  }
}
