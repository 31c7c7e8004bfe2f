/** The rest of what every event does at an end: to its count of retransmissions, at the start of a
    connection, and to its queues at the end. */
module IlCounts {
  import opened IlSpec
  import opened IlSystem
  import opened IlSafety
  import opened IlRuns
  import opened IlSteps

  /** The packet acknowledges the oldest message waiting. */
  predicate Clears(e: End, k: Packet) {
    e.unacked != [] && e.unacked[0].id <= k.ack
  }

  /** The count of retransmissions after an event. */
  predicate CountIs(e: End, ev: Event, n: nat) {
    match ev
    case Dial(start) => n == if e.state == Closed then 0 else e.rexmit
    case Receive(k, start) =>
      if e.state == Listening then n == if k.ty == Sync && start > 0 then 0 else e.rexmit
      else if e.state in {Syncer, Syncee} then n == if Becomes(e, ev) == Established then 0 else e.rexmit
      else if e.state == Established then n == CountAfter(e, k)
      else n == e.rexmit
    case Clock(due) => n == e.rexmit + if Resends(e, due) then 1 else 0
    case _ => n == e.rexmit
  }

  /** Progress starts it again, and a retransmission counts. */
  function CountAfter(e: End, k: Packet): nat {
    if k.ty in {Sync, Close} then e.rexmit
    else (if Clears(e, k) then 0 else e.rexmit) + if k.ty == State && Behind(e, k) then 1 else 0
  }

  /** A timeout that has the sync, the close or a query sent again. */
  predicate Resends(e: End, due: Due) {
    && due.timeout && e.rexmit <= 16
    && match e.state
       case Closed => false
       case Listening => false
       case Established => e.unacked != [] && !(due.query && due.death)
       case _ => true
  }

  lemma CountsUp(e: End, k: Packet)
    requires |e.qt| == 9 && UnackedOk(e) && e.state == Established
    ensures ProcessEstablished(e, k).0.rexmit == CountAfter(e, k)
  {
    LeftOver(e, k.ack);
    AckCounts(e, k.ack);
  }

  lemma AckCounts(e: End, ack: nat)
    ensures AckTo(e, ack).rexmit == if e.unacked != [] && e.unacked[0].id <= ack then 0 else e.rexmit
  {
    var n := UnackedLeft(e.unacked, ack);
  }

  /** In every reachable state the count goes up by one with each retransmission, and back to none when
      the connection begins, when it is established, and when a message is acknowledged. */
  lemma Counts(s: Sys, ev: Event)
    requires Reachable(s) && Enabled(s, Act(true, ev))
    ensures CountIs(s.a, ev, EndStep(s.a, ev).0.rexmit)
  {
    ReachableInv(s);
    if ev.Receive? {
      if s.a.state == Established {
        CountsUp(s.a, ev.k);
      } else if s.a.state in {Syncer, Syncee} {
        CountsBefore(s.a, s.b, ev.k, ev.start);
      }
    } else if ev.Clock? {
      RingsOut(s.a, ev.due);
      CountsClock(s.a, ev.due);
    }
  }

  lemma CountsBefore(e: End, peer: End, k: Packet, start: nat)
    requires Good(e, peer) && WellSent(k, peer, e) && e.state in {Syncer, Syncee}
    ensures CountIs(e, Receive(k, start), Input(e, k, start).0.rexmit)
  {
    StateReceived(e, peer, k, start);
    AckCounts(Establish(e), k.ack);
  }

  lemma CountsClock(e: End, due: Due)
    requires |e.qt| == 9
    ensures Resends(e, due) || Tick(e, due).0.rexmit == e.rexmit
  {
  }

  /** A call made or taken starts afresh under the id picked. */
  lemma Afresh(e: End, ev: Event)
    requires |e.qt| == 9
    requires (ev.Dial? && ev.start > 0 && e.state == Closed) || (ev.Receive? && ev.start > 0 && e.state == Listening && ev.k.ty == Sync)
    ensures var e' := EndStep(e, ev).0;
      && e'.start == ev.start && e'.next == ev.start + 1 && e'.rexmit == 0 && e'.qtx == 1
      && e'.unacked == [] && e'.outoforder == []
      && (ev.Dial? ==> e'.recvd == 0) && (ev.Receive? ==> e'.rstart == ev.k.id && (ev.k.ack == 0 ==> e'.recvd == ev.k.id))
  {
  }

  /** In every run an end that is closing holds no messages, sent or received. */
  lemma Emptied(s: Sys)
    requires Reachable(s) && s.a.state == Closing
    ensures s.a.unacked == [] && s.a.outoforder == []
  {
    var acts :| Runs(INIT, acts, s);
    EmptyRun(INIT, acts, s);
  }

  predicate Drained(e: End) {
    e.state == Closing ==> e.unacked == [] && e.outoforder == []
  }

  lemma {:induction false} EmptyRun(s: Sys, acts: seq<Act>, t: Sys)
    requires Runs(s, acts, t) && Drained(s.a) && Drained(s.b)
    ensures Drained(t.a)
    decreases |acts|
  {
    if acts != [] {
      EmptyStep(if acts[0].atA then s.a else s.b, acts[0].ev);
      EmptyRun(Step(s, acts[0]), acts[1..], t);
    }
  }

  lemma EmptyStep(e: End, ev: Event)
    requires |e.qt| == 9 && (ev.Dial? ==> ev.start > 0) && Drained(e)
    ensures Drained(EndStep(e, ev).0)
  {
    if ev.Receive? && e.state == Established && ev.k.ty != Close {
      NotClosing(e, ev.k);
    }
  }

  lemma NotClosing(e: End, k: Packet)
    requires |e.qt| == 9 && e.state == Established && k.ty != Close
    ensures ProcessEstablished(e, k).0.state != Closing
  {
  }

  /** Only an announcement has an end listen on its port, and only its own hang-up ends that. */
  lemma Listens(e: End, ev: Event)
    requires |e.qt| == 9 && (ev.Dial? ==> ev.start > 0)
    ensures EndStep(e, ev).0.listener ==
      if ev.Announcing? && e.state == Closed then true else if ev.Hangup? && e.state == Listening then false else e.listener
  {
    if ev.Receive? && e.state == Established {
      ListensUp(e, ev.k);
    }
  }

  lemma ListensUp(e: End, k: Packet)
    requires |e.qt| == 9 && e.state == Established
    ensures ProcessEstablished(e, k).0.listener == e.listener
  {
  }
}
