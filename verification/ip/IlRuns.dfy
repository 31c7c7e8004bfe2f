/** Whole runs of the two ends: safety of every run, and a way out of every state with messages
    still unacknowledged. */
module IlRuns {
  import opened IlSpec
  import opened IlSystem
  import opened IlSafety

  const INIT: Sys := Sys(IDLE, IDLE, {}, {})

  function Step(s: Sys, act: Act): Sys
    requires |s.a.qt| == |s.b.qt| == NQT + 1 && (act.ev.Dial? ==> act.ev.start > 0)
  {
    if act.atA then StepA(s, act.ev) else Flip(StepA(Flip(s), act.ev))
  }

  predicate Enabled(s: Sys, act: Act) {
    && |s.a.qt| == |s.b.qt| == NQT + 1
    && (if act.atA then Possible(s.a, s.ba, act.ev) else Possible(s.b, s.ab, act.ev))
  }

  /** The run leads from s to t. */
  predicate Runs(s: Sys, acts: seq<Act>, t: Sys)
    decreases |acts|
  {
    if acts == [] then s == t else Enabled(s, acts[0]) && Runs(Step(s, acts[0]), acts[1..], t)
  }

  ghost predicate Reachable(s: Sys) {
    exists acts :: Runs(INIT, acts, s)
  }

  lemma StepKeeps(s: Sys, act: Act)
    requires Inv(s) && Enabled(s, act)
    ensures Inv(Step(s, act))
  {
    if act.atA {
      StepAKeeps(s, act.ev);
    } else {
      assert Inv(Flip(s));
      StepAKeeps(Flip(s), act.ev);
    }
  }

  lemma {:induction false} RunKeeps(s: Sys, acts: seq<Act>, t: Sys)
    requires Inv(s) && Runs(s, acts, t)
    ensures Inv(t)
    decreases |acts|
  {
    if acts != [] {
      StepKeeps(s, acts[0]);
      RunKeeps(Step(s, acts[0]), acts[1..], t);
    }
  }

  lemma ReachableInv(s: Sys)
    requires Reachable(s)
    ensures Inv(s)
  {
    var acts :| Runs(INIT, acts, s);
    RunKeeps(INIT, acts, s);
  }

  /** The ends are alike: what is shown of one holds of the other. */
  lemma Mirror(s: Sys)
    requires Reachable(s)
    ensures Reachable(Flip(s))
  {
    var acts :| Runs(INIT, acts, s);
    var back := Mirrored(INIT, acts, s);
  }

  lemma {:induction false} Mirrored(s: Sys, acts: seq<Act>, t: Sys) returns (back: seq<Act>)
    requires Runs(s, acts, t)
    ensures Runs(Flip(s), back, Flip(t))
    decreases |acts|
  {
    if acts == [] {
      back := [];
    } else {
      var rest := Mirrored(Step(s, acts[0]), acts[1..], t);
      back := [Act(!acts[0].atA, acts[0].ev)] + rest;
      assert back[1..] == rest;
    }
  }

  // ---------- safety ----------

  /** In every run, what one end passes up is always a prefix of what the other end accepted. */
  lemma DeliveredPrefix(s: Sys)
    requires Reachable(s)
    ensures s.b.delivered <= s.a.sent && s.a.delivered <= s.b.sent
  {
    ReachableInv(s);
  }

  /** Once established, an end knows the other's start, and has received exactly what it passed up. */
  lemma StartsAgree(s: Sys)
    requires Reachable(s)
    ensures s.a.state == Established ==> s.a.rstart == s.b.start && s.a.recvd == s.b.start + |s.a.delivered|
    ensures s.b.state == Established ==> s.b.rstart == s.a.start && s.b.recvd == s.a.start + |s.b.delivered|
  {
    ReachableInv(s);
  }

  /** Every message sent is still in the unacked queue or has been delivered; the queue's ids run up
      to next - 1, and its head is at most one past what the receiver has. */
  lemma NothingLost(s: Sys, i: nat)
    requires Reachable(s) && s.a.state == Established == s.b.state && i < |s.a.sent|
    ensures s.a.next == s.a.start + 1 + |s.a.sent|
    ensures (i < |s.b.delivered| && s.b.delivered[i] == s.a.sent[i]) ||
      (exists k | k in s.a.unacked :: k.id == s.a.start + 1 + i && k.data == s.a.sent[i])
    ensures forall j | 0 <= j < |s.a.unacked| :: s.a.unacked[j].id == s.a.next - |s.a.unacked| + j
    ensures s.a.unacked != [] ==> s.a.unacked[0].id <= s.b.recvd + 1
  {
    ReachableInv(s);
    if i >= |s.b.delivered| {
      var j := i - (|s.a.sent| - |s.a.unacked|);
      assert s.a.unacked[j] in s.a.unacked && s.a.unacked[j].id == s.a.start + 1 + i;
    }
  }

  /** The out of order queue is strictly ascending inside the window, so it stays below the window. */
  lemma QueueBounded(s: Sys)
    requires Reachable(s) && s.a.state == Established
    ensures Ascending(s.a.outoforder) && |s.a.outoforder| < WINDOW
    ensures forall i | 0 <= i < |s.a.outoforder| :: s.a.recvd + 1 < s.a.outoforder[i].id <= s.a.recvd + WINDOW
  {
    ReachableInv(s);
    AscendingSpread(s.a.outoforder, s.a.recvd + 1, s.a.recvd + WINDOW);
  }

  lemma {:induction false} AscendingSpread(q: seq<Packet>, low: nat, high: nat)
    requires Ascending(q) && low <= high && forall i | 0 <= i < |q| :: low < q[i].id <= high
    ensures |q| <= high - low
  {
    if q != [] {
      forall i | 0 <= i < |q[1..]| ensures q[0].id < q[1..][i].id <= high {
        assert q[1..][i] == q[i + 1];
      }
      Rest(q);
      AscendingSpread(q[1..], q[0].id, high);
    }
  }

  /** The user's close, one from the peer that acknowledges something sent, a peer silent for too
      long, and too many retransmissions. */
  predicate Ends(e: End, ev: Event) {
    match ev
    case Hangup => true
    case Receive(k, start) => k.ty == Close && e.start <= k.ack <= e.next
    case Clock(due) => (due.query && due.death) || (due.timeout && e.unacked != [] && e.rexmit > MAX_REXMIT)
    case _ => false
  }

  /** Exactly these take an established end out of that state: no other event, and no other packet that
      can be in the network, old or repeated as it may be. */
  lemma StaysEstablished(s: Sys, ev: Event)
    requires Reachable(s) && s.a.state == Established && Enabled(s, Act(true, ev))
    ensures Step(s, Act(true, ev)).a.state == Established <==> !Ends(s.a, ev)
  {
    ReachableInv(s);
    if ev.Receive? {
      assert WellSent(ev.k, s.b, s.a);
    }
  }

  /** A call and a listener can come up, with any pair of starts. */
  lemma Handshake(x: nat, y: nat) returns (acts: seq<Act>, t: Sys)
    requires x > 0 && y > 0
    ensures Runs(INIT, acts, t) && t.a.state == Established == t.b.state && t.a.start == x && t.b.start == y
  {
    var s1 := Step(INIT, Act(true, Dial(x)));
    var k1 := Packet(Sync, x, 0, 0, []);
    var s2 := Step(s1, Act(false, Announcing));
    var s3 := Step(s2, Act(false, Receive(k1, y)));
    var k2 := Packet(Sync, y, x, 0, []);
    assert k2 in s3.ba;
    var s4 := Step(s3, Act(true, Receive(k2, 0)));
    var k3 := Packet(Ack, x + 1, y, 0, []);
    assert k3 in s4.ab;
    t := Step(s4, Act(false, Receive(k3, 0)));
    acts := [Act(true, Dial(x)), Act(false, Announcing), Act(false, Receive(k1, y)), Act(true, Receive(k2, 0)), Act(false, Receive(k3, 0))];
    assert Runs(s4, acts[4..], t);
    assert Runs(s3, acts[3..], t);
    assert Runs(s2, acts[2..], t);
    assert Runs(s1, acts[1..], t);
  }

  // ---------- recovery ----------

  /** A retransmitted head is answered with a state that covers it. */
  lemma QueryAnswered(b: End, a: End, k: Packet)
    requires Good(b, a) && b.state == Established && WellSent(k, a, b) && k.ty == DataQuery && k.id <= b.recvd + 1
    ensures var (b', out) := ProcessEstablished(b, k);
      b'.state == Established && b'.sent == b.sent && |out| == 1 && out[0].ty == State && out[0].ack >= k.id
  {
    AcceptKeeps(b, a, k);
  }

  /** A state that covers the head shrinks the unacked queue. */
  lemma StateShrinks(a: End, k: Packet)
    requires Own(a) && a.state == Established && k.ty == State && a.unacked != [] && k.ack >= a.unacked[0].id
    ensures var (a', out) := ProcessEstablished(a, k);
      a'.state == Established && a'.sent == a.sent && |a'.unacked| < |a.unacked|
  {
    var n := UnackedLeft(a.unacked, k.ack);
  }

  /** A state that leaves any message unacknowledged that was sent before its query draws a
      retransmission of the head. */
  lemma StateRetransmits(a: End, k: Packet)
    requires Own(a) && a.state == Established && k.ty == State && k.spec <= NQT && a.qt[k.spec] > k.ack && a.unacked != []
    requires a.qt[k.spec] == a.next - 1
    ensures var (a', out) := ProcessEstablished(a, k);
      && a'.state == Established && a'.sent == a.sent && a'.unacked != [] && |a'.unacked| <= |a.unacked|
      && |out| == 1 && out[0].ty == DataQuery && out[0].id == a'.unacked[0].id
  {
    var n := UnackedLeft(a.unacked, k.ack);
    assert a.unacked[|a.unacked| - 1].id == a.next - 1;
  }

  /** A query of either timer carries the slot that remembers the highest id sent. */
  lemma QuerySent(a: End)
    requires Own(a) && a.state == Established
    ensures var (a', out) := Tick(a, Due(false, false, true, false));
      && a'.state == Established && a'.sent == a.sent && a'.unacked == a.unacked && a'.next == a.next
      && |out| == 1 && out[0].ty == Query && 1 <= out[0].spec <= NQT && a'.qt[out[0].spec] == a.next - 1
  {
  }

  predicate BothUp(s: Sys) {
    s.a.state == Established == s.b.state
  }

  ghost predicate Later(s: Sys, acts: seq<Act>, t: Sys) {
    Runs(s, acts, t) && BothUp(t) && Inv(t) && t.a.sent == s.a.sent
  }

  lemma OneMore(s: Sys, acts: seq<Act>, t: Sys, act: Act) returns (acts': seq<Act>, t': Sys)
    requires Later(s, acts, t) && Enabled(t, act)
    ensures acts' == acts + [act] && t' == Step(t, act) && Runs(s, acts', t') && Inv(t')
  {
    acts', t' := acts + [act], Step(t, act);
    StepKeeps(t, act);
    RunsAppend(s, acts, t, [act], t');
  }

  lemma {:induction false} RunsAppend(s: Sys, acts: seq<Act>, t: Sys, more: seq<Act>, u: Sys)
    requires Runs(s, acts, t) && Runs(t, more, u)
    ensures Runs(s, acts + more, u)
    decreases |acts|
  {
    if acts == [] {
      assert acts + more == more;
    } else {
      AppendTail(acts, more);
      RunsAppend(Step(s, acts[0]), acts[1..], t, more, u);
    }
  }

  lemma AppendTail(acts: seq<Act>, more: seq<Act>)
    requires acts != []
    ensures (acts + more)[0] == acts[0] && (acts + more)[1..] == acts[1..] + more
  {
  }

  /** The exchange of a query and its state: either everything is acknowledged, or the head has been
      sent again. */
  lemma AskState(s: Sys) returns (acts: seq<Act>, t: Sys)
    requires Inv(s) && BothUp(s) && s.a.unacked != []
    ensures Later(s, acts, t) && |t.a.unacked| <= |s.a.unacked|
    ensures |t.a.unacked| == |s.a.unacked| ==>
      exists k | k in t.ab :: k.ty == DataQuery && k.id == t.a.unacked[0].id
  {
    var due := Clock(Due(false, false, true, false));
    QuerySent(s.a);
    var q := EndStep(s.a, due).1[0];
    var s1, s2;
    acts, s1 := OneMore(s, [], s, Act(true, due));
    var ask := Receive(q, 0);
    assert q in s1.ab && WellSent(q, s1.a, s1.b);
    AckToKeeps(s1.b, s1.a, q.ack);
    var r := EndStep(s1.b, ask).1[0];
    acts, s2 := OneMore(s, acts, s1, Act(false, ask));
    assert r in s2.ba && r.ty == State && r.spec == q.spec && s2.a == s1.a;
    assert Later(s, acts, s2);
    acts, t := Told(s, acts, s2, r);
  }

  lemma Told(s: Sys, acts: seq<Act>, s2: Sys, r: Packet) returns (acts': seq<Act>, t: Sys)
    requires Inv(s) && Later(s, acts, s2) && s2.a.unacked != [] && r in s2.ba && r.ty == State
    requires r.spec <= NQT && s2.a.qt[r.spec] == s2.a.next - 1
    ensures Later(s, acts', t) && |t.a.unacked| <= |s2.a.unacked|
    ensures |t.a.unacked| == |s2.a.unacked| ==>
      exists k | k in t.ab :: k.ty == DataQuery && k.id == t.a.unacked[0].id
  {
    var tell := Receive(r, 0);
    acts', t := OneMore(s, acts, s2, Act(true, tell));
    var (a', out) := EndStep(s2.a, tell);
    if s2.a.qt[r.spec] > r.ack {
      StateRetransmits(s2.a, r);
      assert out[0] in t.ab;
    } else {
      StateShrinks(s2.a, r);
    }
  }

  /** From every state with both ends up and something unacknowledged, five steps shrink the queue. */
  lemma Recover(s: Sys) returns (acts: seq<Act>, t: Sys)
    requires Inv(s) && BothUp(s) && s.a.unacked != []
    ensures Later(s, acts, t) && |t.a.unacked| < |s.a.unacked|
  {
    acts, t := AskState(s);
    if |t.a.unacked| == |s.a.unacked| {
      var k :| k in t.ab && k.ty == DataQuery && k.id == t.a.unacked[0].id;
      assert WellSent(k, t.a, t.b);
      QueryAnswered(t.b, t.a, k);
      var ask := Receive(k, 0);
      var r := EndStep(t.b, ask).1[0];
      var s1;
      acts, s1 := OneMore(s, acts, t, Act(false, ask));
      assert r in s1.ba && s1.a == t.a;
      StateShrinks(s1.a, r);
      acts, t := OneMore(s, acts, s1, Act(true, Receive(r, 0)));
    }
  }

  /** So a run always exists after which everything sent has been delivered and acknowledged. */
  lemma {:induction false} CatchUp(s: Sys) returns (acts: seq<Act>, t: Sys)
    requires Inv(s) && BothUp(s)
    ensures Later(s, acts, t) && t.a.unacked == [] && t.b.delivered == s.a.sent
    decreases |s.a.unacked|
  {
    if s.a.unacked == [] {
      acts, t := [], s;
    } else {
      var acts1, s1 := Recover(s);
      var acts2;
      acts2, t := CatchUp(s1);
      RunsAppend(s, acts1, s1, acts2, t);
      acts := acts1 + acts2;
    }
  }

  /** Recovery from every state a run can reach, whatever was lost on the way. */
  lemma AlwaysRecovers(s: Sys)
    requires Reachable(s) && BothUp(s)
    ensures exists acts, t :: Runs(s, acts, t) && BothUp(t) && t.a.sent == s.a.sent && t.b.delivered == s.a.sent && t.a.unacked == []
  {
    ReachableInv(s);
    var acts, t := CatchUp(s);
  }
}
