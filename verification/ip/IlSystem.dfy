/** Two ends over a network that loses, repeats and reorders packets: what every step keeps, and so
    what holds in every run. */
module IlSystem {
  import opened IlSpec

  /** A network keeps every packet ever sent; losing one is never delivering it, and delivering one
      twice is repeating it. */
  datatype Sys = Sys(a: End, b: End, ab: set<Packet>, ba: set<Packet>)

  datatype Event =
    | Dial(start: nat)
    | Announcing
    | Write(m: Msg)
    | Hangup
    | Receive(k: Packet, start: nat)
    | Clock(due: Due)
    | Unreachable

  datatype Act = Act(atA: bool, ev: Event)

  function Flip(s: Sys): Sys {
    Sys(s.b, s.a, s.ba, s.ab)
  }

  /** An event is possible at an end: a packet must have been sent by the other end, and an end that
      has had its connection does not get another. */
  predicate Possible(e: End, arriving: set<Packet>, ev: Event) {
    match ev
    case Dial(start) => start > 0 && e.start == 0
    case Announcing => e.start == 0
    case Receive(k, start) => k in arriving
    case _ => true
  }

  function EndStep(e: End, ev: Event): Out
    requires |e.qt| == NQT + 1 && (ev.Dial? ==> ev.start > 0)
  {
    match ev
    case Dial(start) => Connect(e, start)
    case Announcing => Announce(e)
    case Write(m) => Kick(e, m)
    case Hangup => UserClose(e)
    case Receive(k, start) => Input(e, k, start)
    case Clock(due) => Tick(e, due)
    case Unreachable => Advise(e)
  }

  function StepA(s: Sys, ev: Event): Sys
    requires |s.a.qt| == NQT + 1 && (ev.Dial? ==> ev.start > 0)
  {
    var (a, out) := EndStep(s.a, ev);
    s.(a := a, ab := s.ab + (set k | k in out))
  }

  // ---------- the invariant ----------

  predicate Live(e: End) {
    e.state in {Syncer, Syncee, Established}
  }

  /** k is one of the messages e has sent. */
  predicate IsData(k: Packet, e: End) {
    e.start < k.id <= e.start + |e.sent| && k.data == e.sent[k.id - e.start - 1]
  }

  /** The counters and queues of one end. */
  ghost predicate Own(e: End) {
    && |e.qt| == NQT + 1 && 1 <= e.qtx <= NQT
    && (e.start == 0 ==> e.next == 0 && e.sent == [] && e.delivered == [] && e.state in {Closed, Listening})
    && (e.start > 0 ==> e.next == e.start + 1 + |e.sent| && e.state != Listening)
    && (forall i | 0 <= i <= NQT :: e.qt[i] == 0 || e.qt[i] < e.next)
    && (Live(e) ==> UnackedOk(e))
  }

  /** The unacked queue holds the last messages sent, with consecutive ids up to next - 1. */
  ghost predicate UnackedOk(e: End) {
    && |e.unacked| <= |e.sent|
    && (forall i | 0 <= i < |e.unacked| :: e.unacked[i].id == e.next - |e.unacked| + i && IsData(e.unacked[i], e))
  }

  /** What a packet on the wire says of its sender, and of what the sender had received. */
  predicate WellSent(k: Packet, e: End, peer: End) {
    match k.ty
    case Sync => e.start > 0 && k.id == e.start
    case Data => IsData(k, e) && k.ack <= peer.start + |e.delivered|
    case DataQuery => IsData(k, e) && k.ack <= peer.start + |e.delivered|
    case Ack => k.ack <= peer.start + |e.delivered|
    case Query => k.ack <= peer.start + |e.delivered|
    case State => k.ack <= peer.start + |e.delivered|
    case Close => true
  }

  ghost predicate Wire(e: End, peer: End, out: set<Packet>) {
    forall k | k in out :: WellSent(k, e, peer)
  }

  ghost predicate Ascending(q: seq<Packet>) {
    forall i, j | 0 <= i < j < |q| :: q[i].id < q[j].id
  }

  /** The out of order queue: sorted, inside the window and past the next id, all real messages. */
  ghost predicate Ordered(e: End, peer: End) {
    && Ascending(e.outoforder)
    && (forall i | 0 <= i < |e.outoforder| ::
         e.recvd + 1 < e.outoforder[i].id <= e.recvd + WINDOW && IsData(e.outoforder[i], peer))
  }

  /** What an end has received from its peer. */
  ghost predicate Received(e: End, peer: End) {
    && |e.delivered| <= |peer.sent| && e.delivered == peer.sent[..|e.delivered|]
    && (e.state == Syncer ==> e.recvd == 0 && e.delivered == [] && e.outoforder == [])
    && (e.state == Syncee ==> peer.start > 0 && e.recvd == e.rstart == peer.start && e.delivered == [] && e.outoforder == [])
    && (e.state == Established ==>
         peer.start > 0 && e.rstart == peer.start && e.recvd == peer.start + |e.delivered| && Ordered(e, peer))
  }

  /** Whatever has left the unacked queue has been delivered. */
  predicate Flow(e: End, peer: End) {
    Live(e) ==> |e.sent| <= |e.unacked| + |peer.delivered|
  }

  ghost predicate Half(e: End, peer: End, out: set<Packet>) {
    Own(e) && Wire(e, peer, out) && Received(e, peer) && Flow(e, peer)
  }

  ghost predicate Inv(s: Sys) {
    Half(s.a, s.b, s.ab) && Half(s.b, s.a, s.ba)
  }
}
