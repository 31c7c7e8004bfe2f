/** One end of an IL connection as a value, and every step it takes: packets received, user calls
    and timer firings.  Each step gives the new state and the packets handed to IP. */
module IlSpec {
  type Msg = seq<nat>

  const WINDOW: nat := 20
  const MAX_REXMIT: nat := 16
  const NQT: nat := 8

  datatype PType = Sync | Data | DataQuery | Ack | Query | State | Close

  datatype Packet = Packet(ty: PType, id: nat, ack: nat, spec: nat, data: Msg)

  datatype CState = Closed | Syncer | Syncee | Established | Listening | Closing

  /** The control block.  `sent` and `delivered` are what the user wrote and what was passed up;
      `listener` says that an announced conversation waits on the same port.  A start of 0 means
      that the connection has not begun. */
  datatype End = End(state: CState, start: nat, next: nat, recvd: nat, rstart: nat, acksent: nat, rexmit: nat,
                     unacked: seq<Packet>, outoforder: seq<Packet>, qt: seq<nat>, qtx: nat, listener: bool,
                     sent: seq<Msg>, delivered: seq<Msg>)

  const ZEROS: seq<nat> := [0, 0, 0, 0, 0, 0, 0, 0, 0]

  const IDLE: End := End(Closed, 0, 0, 0, 0, 0, 0, [], [], ZEROS, 1, false, [], [])

  /** The state and the packets sent. */
  type Out = (End, seq<Packet>)

  // ---------- the pieces ----------

  /** `ilsendctl`, with no packet to answer. */
  function SendCtl(e: End, ty: PType, id: nat, ack: nat, spec: nat): Out {
    (e.(acksent := ack), [Packet(ty, id, ack, spec, [])])
  }

  /** `ilreject`: the ids of the packet, swapped. */
  function Reject(k: Packet): Packet {
    Packet(Close, k.ack, k.id, 0, [])
  }

  function LocalClose(e: End): End {
    e.(state := Closed)
  }

  function FreeQueues(e: End): End {
    e.(unacked := [], outoforder := [])
  }

  /** `ilcbinit`. */
  function Init(e: End, start: nat): End {
    e.(start := start, next := start + 1, recvd := 0, rexmit := 0, unacked := [], outoforder := [], qtx := 1)
  }

  /** `ilackto`: drop what an acknowledgement covers from the front of the queue. */
  function Unacked(u: seq<Packet>, ack: nat): seq<Packet> {
    if u == [] || ack < u[0].id then u else Unacked(u[1..], ack)
  }

  function AckTo(e: End, ack: nat): End {
    var u := Unacked(e.unacked, ack);
    e.(unacked := u, rexmit := if u == e.unacked then e.rexmit else 0)
  }

  /** The place of a packet in the sorted queue; one already there is dropped. */
  function Insert(q: seq<Packet>, k: Packet): seq<Packet> {
    if q == [] then [k]
    else if k.id < q[0].id then [k] + q
    else if k.id == q[0].id then q
    else [q[0]] + Insert(q[1..], k)
  }

  /** `iloutoforder`. */
  function OutOfOrder(e: End, k: Packet): End {
    if k.id <= e.recvd || k.id > e.recvd + WINDOW then e else e.(outoforder := Insert(e.outoforder, k))
  }

  /** The loop of `ilpullup`: recvd, the queue and what has been passed up. */
  function Pull(recvd: nat, q: seq<Packet>, up: seq<Msg>): (nat, seq<Packet>, seq<Msg>)
    decreases |q|
  {
    if q == [] then (recvd, q, up)
    else if q[0].id <= recvd then Pull(recvd, q[1..], up)
    else if q[0].id != recvd + 1 then (recvd, q, up)
    else Pull(q[0].id, q[1..], up + [q[0].data])
  }

  function Pullup(e: End): End {
    if e.state != Established then e
    else
      var (recvd, q, up) := Pull(e.recvd, e.outoforder, e.delivered);
      e.(recvd := recvd, outoforder := q, delivered := up)
  }

  /** `ilnextqt`: the next slot of the query table remembers the highest id sent. */
  function NextQt(e: End): (r: End)
    requires |e.qt| == NQT + 1
    ensures |r.qt| == NQT + 1 && r.qtx <= NQT
  {
    var x := if e.qtx + 1 > NQT then 1 else e.qtx + 1;
    var high := if e.next > 0 then e.next - 1 else 0;
    e.(qtx := x, qt := e.qt[x := high][0 := high])
  }

  /** `ilrexmit`: the head of the queue goes out again, asking for the receiver's state. */
  function Rexmit(e: End): Out
    requires |e.qt| == NQT + 1
  {
    if e.unacked == [] then (e, [])
    else
      var e1 := NextQt(e);
      (e1.(rexmit := e1.rexmit + 1), [Packet(DataQuery, e.unacked[0].id, e.recvd, e1.qtx, e.unacked[0].data)])
  }

  // ---------- packets received ----------

  function Establish(e: End): End {
    e.(state := Established, rexmit := 0)
  }

  function ProcessSyncer(e: End, k: Packet): Out {
    match k.ty
    case Sync =>
      if k.ack != e.start then (LocalClose(e), [])
      else
        var (e1, out) := SendCtl(e.(recvd := k.id, rstart := k.id), Ack, e.next, k.id, 0);
        (Pullup(Establish(e1)), out)
    case Close => if k.ack == e.start then (LocalClose(e), []) else (e, [])
    case _ => (e, [])
  }

  function ProcessSyncee(e: End, k: Packet): Out
    requires |e.qt| == NQT + 1
  {
    match k.ty
    case Sync =>
      if k.id != e.rstart || k.ack != 0 then (LocalClose(e), [])
      else SendCtl(e.(recvd := k.id), Sync, e.start, k.id, 0)
    case Ack => if k.ack == e.start then (Pullup(Establish(e)), []) else (e, [])
    case Data => if k.ack == e.start then ProcessEstablished(Establish(e), k) else (e, [])
    case Close => if k.ack == e.start then (LocalClose(e), []) else (e, [])
    case _ => (e, [])
  }

  /** Data in an established connection. */
  function Accept(e: End, k: Packet): End {
    Pullup(OutOfOrder(AckTo(e, k.ack), k))
  }

  function ProcessEstablished(e: End, k: Packet): Out
    requires |e.qt| == NQT + 1
  {
    match k.ty
    case Sync => if k.id != e.rstart then (LocalClose(e), []) else SendCtl(e, Ack, e.next, e.rstart, 0)
    case Data => (Accept(e, k), [])
    case DataQuery =>
      var e1 := Accept(e, k);
      SendCtl(e1, State, e1.next, e1.recvd, k.spec)
    case Ack => (AckTo(e, k.ack), [])
    case Query =>
      var e1 := AckTo(e, k.ack);
      SendCtl(e1, State, e1.next, e1.recvd, k.spec)
    case State =>
      var e1 := AckTo(e, k.ack);
      if e1.qt[if k.spec > NQT then 0 else k.spec] > k.ack then Rexmit(e1) else (e1, [])
    case Close =>
      if k.ack < e.start || k.ack > e.next then (e, [])
      else
        var (e1, out) := SendCtl(e.(recvd := k.id), Close, e.next, k.id, 0);
        (FreeQueues(e1.(state := Closing)), out)
  }

  function ProcessClosing(e: End, k: Packet): Out {
    if k.ty != Close then (e, [])
    else
      var (e1, out) := SendCtl(e.(recvd := k.id), Close, e.next, k.id, 0);
      (if k.ack == e.next then LocalClose(e1) else e1, out)
  }

  /** `_ilprocess`. */
  function Process(e: End, k: Packet): Out
    requires |e.qt| == NQT + 1
  {
    match e.state
    case Closed => (e, [])
    case Syncer => ProcessSyncer(e, k)
    case Syncee => ProcessSyncee(e, k)
    case Established => ProcessEstablished(e, k)
    case Listening => (e, [])
    case Closing => ProcessClosing(e, k)
  }

  /** `iliput`: find the conversation, or open one for a sync that finds a listener.  `start` is the
      id a new conversation picks, 0 when none can be had. */
  function Input(e: End, k: Packet, start: nat): Out
    requires |e.qt| == NQT + 1
  {
    match e.state
    case Closed =>
      if (k.ty == Sync) != e.listener then (e, [Reject(k)]) else (e, [])
    case Listening =>
      if k.ty != Sync || start == 0 then (e, [Reject(k)])
      else Process(Init(e, start).(state := Syncee, rstart := k.id), k)
    case _ => Process(e, k)
  }

  // ---------- the user ----------

  /** `ilstart` for a call out. */
  function Connect(e: End, start: nat): Out
    requires start > 0
  {
    if e.state != Closed then (e, [])
    else
      var e1 := Init(e, start).(state := Syncer);
      SendCtl(e1, Sync, e1.start, e1.recvd, 0)
  }

  function Announce(e: End): Out {
    if e.state != Closed then (e, []) else (e.(state := Listening, listener := true), [])
  }

  /** `ilkick`: a message to send. */
  function Kick(e: End, m: Msg): Out {
    if e.state in {Closed, Listening, Closing} then (e, [])
    else
      var k := Packet(Data, e.next, e.recvd, 0, m);
      (e.(next := e.next + 1, acksent := e.recvd, unacked := e.unacked + [k], sent := e.sent + [m]), [k])
  }

  /** `ilclose`. */
  function UserClose(e: End): Out {
    match e.state
    case Listening => (FreeQueues(LocalClose(e).(listener := false)), [])
    case Closed => (FreeQueues(e), [])
    case Closing => (FreeQueues(e), [])
    case _ =>
      var (e1, out) := SendCtl(e.(state := Closing), Close, e.next, e.recvd, 0);
      (FreeQueues(e1), out)
  }

  // ---------- timers ----------

  /** Which of the clock comparisons of `ilackproc` come out true. */
  datatype Due = Due(timeout: bool, ack: bool, query: bool, death: bool)

  function TickHandshake(e: End): Out {
    if e.rexmit > MAX_REXMIT then (LocalClose(e), [])
    else
      var (e1, out) := SendCtl(e, Sync, e.start, e.recvd, 0);
      (e1.(rexmit := e1.rexmit + 1), out)
  }

  function TickClosing(e: End): Out {
    if e.rexmit > MAX_REXMIT then (LocalClose(e), [])
    else
      var (e1, out) := SendCtl(e, Close, e.next, e.recvd, 0);
      (e1.(rexmit := e1.rexmit + 1), out)
  }

  function SendQuery(e: End): Out
    requires |e.qt| == NQT + 1
  {
    var e1 := NextQt(e);
    SendCtl(e1, Query, e1.next, e1.recvd, e1.qtx)
  }

  function TickAck(e: End, due: bool): Out {
    if due && e.recvd != e.acksent then SendCtl(e, Ack, e.next, e.recvd, 0) else (e, [])
  }

  function TickQuery(e: End, due: bool): Out
    requires |e.qt| == NQT + 1
  {
    if due then SendQuery(e) else (e, [])
  }

  function TickTimeout(e: End, due: bool): Out
    requires |e.qt| == NQT + 1
  {
    if !due || e.unacked == [] then (e, [])
    else if e.rexmit > MAX_REXMIT then (LocalClose(e), [])
    else
      var (e1, out) := SendQuery(e);
      (e1.(rexmit := e1.rexmit + 1), out)
  }

  function TickEstablished(e: End, due: Due): Out
    requires |e.qt| == NQT + 1
  {
    var (e1, out1) := TickAck(e, due.ack);
    if due.query && due.death then (LocalClose(e1), out1)
    else
      var (e2, out2) := TickQuery(e1, due.query);
      var (e3, out3) := TickTimeout(e2, due.timeout);
      (e3, out1 + out2 + out3)
  }

  /** One conversation's turn in `ilackproc`. */
  function Tick(e: End, due: Due): Out
    requires |e.qt| == NQT + 1
  {
    match e.state
    case Closed => (e, [])
    case Listening => (e, [])
    case Closing => if due.timeout then TickClosing(e) else (e, [])
    case Syncer => if due.timeout then TickHandshake(e) else (e, [])
    case Syncee => if due.timeout then TickHandshake(e) else (e, [])
    case Established => TickEstablished(e, due)
  }

  /** `iladvise`: news that the far end cannot be reached. */
  function Advise(e: End): Out {
    if e.state == Syncer then (LocalClose(e), []) else (e, [])
  }
}
