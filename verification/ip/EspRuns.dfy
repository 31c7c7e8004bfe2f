/** What the stream cipher's receiver makes of whole runs, told from what arrived: how far it is, which
    gaps it still remembers, and which late packets it can take. */
module EspRuns {
  import opened EspSpec

  /** A stretch of the stream that was passed over. */
  datatype Gap = Gap(lo: nat, hi: nat)

  /** The end of the furthest packet taken, and the gaps remembered, oldest first. */
  datatype Seen = Seen(cur: nat, gaps: seq<Gap>)

  /** One arrival of n bytes that stand at pos.  The next packet goes on from where the last one ended,
      and the gaps are forgotten once the last is more than 102400 bytes back.  One further on, but not
      by more than 10485760, leaves a gap.  A late one changes nothing. */
  function Arrives(v: Seen, pos: nat, n: nat): Seen {
    if pos == v.cur then
      Seen(v.cur + n, if v.gaps != [] && v.cur + n - v.gaps[|v.gaps| - 1].hi > 102400 then [] else v.gaps)
    else if v.cur < pos <= v.cur + 10485760 then Seen(pos + n, v.gaps + [Gap(v.cur, pos)])
    else v
  }

  /** What can be taken: the next, one not too far ahead, and a late one no older than the first gap and
      no more than 102400 bytes back. */
  predicate Takeable(v: Seen, pos: nat) {
    || v.cur <= pos <= v.cur + 10485760
    || (v.gaps != [] && pos < v.cur && v.gaps[0].lo <= pos && v.cur - pos <= 102400)
  }

  /** What has been seen of a run. */
  function View(plains: seq<Bytes>, order: seq<nat>): Seen
    requires forall j | 0 <= j < |order| :: order[j] < |plains|
  {
    if order == [] then Seen(0, [])
    else
      var k := order[|order| - 1];
      Arrives(View(plains, order[..|order| - 1]), PosOf(plains, k), |plains[k]|)
  }

  function Max(a: int, b: int): int {
    if a > b then a else b
  }

  /** The receiver's state is just that: the old state stands where the first gap began, moved up to at
      most 102400 behind. */
  predicate Matches(s: Rc4State, v: Seen) {
    && s.current == v.cur && s.cseq == v.cur % 0x1_0000_0000
    && (s.ovalid <==> v.gaps != [])
    && (v.gaps != [] ==>
         var last := v.gaps[|v.gaps| - 1];
         && v.gaps[0].lo <= v.cur && s.back == Max(v.gaps[0].lo, v.cur - 102400) && s.oseq == s.back % 0x1_0000_0000
         && last.hi <= v.cur <= last.hi + 102400 && s.lgseq == last.hi % 0x1_0000_0000)
  }

  lemma MatchesInStep(s: Rc4State, v: Seen)
    requires Matches(s, v)
    ensures InStep(s) && forall pos: nat :: Acceptable(s, pos) <==> Takeable(v, pos)
  {
  }

  /** The old state moved up. */
  lemma SkipIs(s: Rc4State)
    requires s.cseq == s.current % 0x1_0000_0000
    requires s.ovalid ==> s.oseq == s.back % 0x1_0000_0000 && s.back <= s.current < s.back + 0x4000_0000
    ensures Skip(s).current == s.current && Skip(s).cseq == s.cseq && Skip(s).ovalid == s.ovalid && Skip(s).lgseq == s.lgseq
    ensures s.ovalid ==> Skip(s).back == Max(s.back, s.current - 102400) && Skip(s).oseq == Skip(s).back % 0x1_0000_0000
  {
    if s.ovalid {
      PlusRest(s.current, -102400, s.cseq);
      SignedOff(s.current - 102400, s.back, s.cseq - 102400, s.oseq);
      PlusRest(s.back, Signed(s.cseq - 102400 - s.oseq), s.oseq);
    }
  }

  lemma NextMatches(ks: Keystream, s: Rc4State, v: Seen, data: Bytes)
    requires Matches(s, v) && |data| < 0x1_0000
    ensures Matches(Receive(ks, s, v.cur % 0x1_0000_0000, data).0, Arrives(v, v.cur, |data|))
  {
    var n := |data|;
    SignedIs(v.cur, v.cur);
    PlusRest(v.cur, n, v.cur % 0x1_0000_0000);
    var s1 := s.(current := s.current + n, cseq := (s.cseq + n) % 0x1_0000_0000);
    if v.gaps != [] {
      Forgets(s, v, n);
    }
    SkipIs(if s1.ovalid && Signed(s1.cseq - s1.lgseq) > RC4BACK then s1.(ovalid := false) else s1);
  }

  lemma Forgets(s: Rc4State, v: Seen, n: nat)
    requires Matches(s, v) && n < 0x1_0000 && v.gaps != []
    ensures Signed((s.cseq + n) % 0x1_0000_0000 - s.lgseq) == v.cur + n - v.gaps[|v.gaps| - 1].hi
  {
    PlusRest(v.cur, n, s.cseq);
    SignedIs(v.cur + n, v.gaps[|v.gaps| - 1].hi);
  }

  lemma AheadMatches(ks: Keystream, s: Rc4State, v: Seen, pos: nat, data: Bytes)
    requires Matches(s, v) && |data| < 0x1_0000 && v.cur < pos < v.cur + 0x8000_0000
    ensures Matches(Receive(ks, s, pos % 0x1_0000_0000, data).0, Arrives(v, pos, |data|))
  {
    var n, sn, d := |data|, pos % 0x1_0000_0000, pos - v.cur;
    SignedIs(pos, v.cur);
    PlusRest(pos, n, sn);
    if d <= 10485760 {
      var s1 := s.(lgseq := sn);
      var s2 := if s1.ovalid then s1 else s1.(ovalid := true, oseq := s.cseq, back := s.current);
      SkipIs(s2.(current := s.current + d + n, cseq := (sn + n) % 0x1_0000_0000));
      assert (v.gaps + [Gap(v.cur, pos)])[0] == if v.gaps == [] then Gap(v.cur, pos) else v.gaps[0];
    }
  }

  lemma LateMatches(ks: Keystream, s: Rc4State, v: Seen, pos: nat, data: Bytes)
    requires Matches(s, v) && pos < v.cur <= pos + 0x8000_0000
    ensures Matches(Receive(ks, s, pos % 0x1_0000_0000, data).0, Arrives(v, pos, |data|))
  {
    SignedIs(pos, v.cur);
  }

  /** Every packet goes out under its place in the stream, combined with the keystream from there on. */
  lemma SentIs(ks: Keystream, plains: seq<Bytes>, i: nat)
    requires i < |plains|
    ensures Sent(ks, plains, i) == (Total(plains[..i]) % 0x1_0000_0000, Stream(ks, Total(plains[..i]), plains[i]))
  {
    SenderAt(ks, plains[..i]);
  }

  /** Every packet comes within half the range of numbers of the receiver. */
  predicate AllInRange(ks: Keystream, plains: seq<Bytes>, order: seq<nat>)
    requires forall j | 0 <= j < |order| :: order[j] < |plains|
  {
    order == [] ||
    var init, k := order[..|order| - 1], order[|order| - 1];
    AllInRange(ks, plains, init) && InRange(After(ks, plains, init), PosOf(plains, k))
  }

  ghost predicate Small(plains: seq<Bytes>) {
    forall p | p in plains :: |p| < 0x1_0000
  }

  predicate Indices(plains: seq<Bytes>, order: seq<nat>) {
    forall j | 0 <= j < |order| :: order[j] < |plains|
  }

  lemma {:induction false} RunMatches(ks: Keystream, plains: seq<Bytes>, order: seq<nat>)
    requires Small(plains) && Indices(plains, order) && AllInRange(ks, plains, order)
    ensures Matches(After(ks, plains, order), View(plains, order))
  {
    if order != [] {
      var init, k := order[..|order| - 1], order[|order| - 1];
      RunMatches(ks, plains, init);
      SenderAt(ks, plains[..k]);
      StepMatches(ks, After(ks, plains, init), View(plains, init), PosOf(plains, k), Stream(ks, PosOf(plains, k), plains[k]));
    }
  }

  lemma StepMatches(ks: Keystream, s: Rc4State, v: Seen, pos: nat, data: Bytes)
    requires Matches(s, v) && |data| < 0x1_0000 && InRange(s, pos)
    ensures Matches(Receive(ks, s, pos % 0x1_0000_0000, data).0, Arrives(v, pos, |data|))
  {
    if pos == v.cur {
      NextMatches(ks, s, v, data);
    } else if pos > v.cur {
      AheadMatches(ks, s, v, pos, data);
    } else {
      LateMatches(ks, s, v, pos, data);
    }
  }

  /** After a run whose packets came in range, a packet comes out as it was sent if it can be taken by
      what arrived before it, and otherwise not at all. */
  lemma RunTakes(ks: Keystream, plains: seq<Bytes>, order: seq<nat>, i: nat)
    requires Small(plains) && Indices(plains, order) && i < |plains|
    requires AllInRange(ks, plains, order) && InRange(After(ks, plains, order), PosOf(plains, i))
    ensures Matches(After(ks, plains, order), View(plains, order))
    ensures var (sn, data) := Sent(ks, plains, i);
      Receive(ks, After(ks, plains, order), sn, data).1 ==
        if Takeable(View(plains, order), PosOf(plains, i)) then Some(plains[i]) else None
  {
    RunMatches(ks, plains, order);
    MatchesInStep(After(ks, plains, order), View(plains, order));
    AnyOrder(ks, plains, order, i);
  }

  // ---------- how far the receiver is ----------

  /** The n-th arrival was taken, not being late. */
  predicate Forward(plains: seq<Bytes>, order: seq<nat>, n: nat)
    requires Indices(plains, order) && n < |order|
  {
    var v, pos := View(plains, order[..n]), PosOf(plains, order[n]);
    v.cur <= pos <= v.cur + 10485760
  }

  function EndOf(plains: seq<Bytes>, i: nat): nat
    requires i < |plains|
  {
    PosOf(plains, i) + |plains[i]|
  }

  lemma ForwardBefore(plains: seq<Bytes>, order: seq<nat>, n: nat)
    requires Indices(plains, order) && n + 1 < |order|
    ensures Indices(plains, order[..|order| - 1]) && (Forward(plains, order, n) <==> Forward(plains, order[..|order| - 1], n))
  {
    assert order[..n] == order[..|order| - 1][..n];
  }

  lemma LastForward(plains: seq<Bytes>, order: seq<nat>)
    requires Indices(plains, order) && order != []
    ensures var v, v' := View(plains, order[..|order| - 1]), View(plains, order);
      if Forward(plains, order, |order| - 1) then v'.cur == EndOf(plains, order[|order| - 1]) && v'.cur >= v.cur else v'.cur == v.cur
  {
  }

  /** No packet taken ends further on. */
  lemma {:induction false} NoneFurther(plains: seq<Bytes>, order: seq<nat>, n: nat)
    requires Indices(plains, order) && n < |order| && Forward(plains, order, n)
    ensures EndOf(plains, order[n]) <= View(plains, order).cur
    decreases |order|
  {
    LastForward(plains, order);
    if n + 1 < |order| {
      ForwardBefore(plains, order, n);
      NoneFurther(plains, order[..|order| - 1], n);
    }
  }

  /** The receiver is at the end of one of them, once it has taken any. */
  lemma {:induction false} Furthest(plains: seq<Bytes>, order: seq<nat>) returns (n: nat)
    requires Indices(plains, order) && View(plains, order).cur > 0
    ensures n < |order| && Forward(plains, order, n) && EndOf(plains, order[n]) == View(plains, order).cur
  {
    LastForward(plains, order);
    if Forward(plains, order, |order| - 1) {
      n := |order| - 1;
    } else {
      n := Furthest(plains, order[..|order| - 1]);
      ForwardBefore(plains, order, n);
    }
  }

  // ---------- late packets ----------

  /** A gap stays remembered until the receiver is more than 102400 bytes past its end. */
  lemma {:induction false} GapStays(plains: seq<Bytes>, A: seq<nat>, j: nat, B: seq<nat>)
    requires Indices(plains, A + [j] + B) && Indices(plains, A) && j < |plains|
    requires var c := View(plains, A).cur; c < PosOf(plains, j) <= c + 10485760
    ensures var v, c := View(plains, A + [j] + B), View(plains, A).cur;
      && v.cur >= PosOf(plains, j) && (v.gaps != [] ==> v.gaps[0].lo <= v.cur)
      && (v.cur - PosOf(plains, j) <= 102400 ==> v.gaps != [] && v.gaps[0].lo <= c && v.gaps[|v.gaps| - 1].hi >= PosOf(plains, j))
    decreases |B|
  {
    var all := A + [j] + B;
    if B == [] {
      assert all[..|all| - 1] == A && all[|all| - 1] == j;
      GapsBehind(plains, A);
    } else {
      var init := B[..|B| - 1];
      assert all[..|all| - 1] == A + [j] + init && all[|all| - 1] == B[|B| - 1];
      GapStays(plains, A, j, init);
    }
  }

  lemma {:induction false} GapsBehind(plains: seq<Bytes>, order: seq<nat>)
    requires Indices(plains, order)
    ensures View(plains, order).gaps != [] ==> View(plains, order).gaps[0].lo <= View(plains, order).cur
  {
    if order != [] {
      GapsBehind(plains, order[..|order| - 1]);
    }
  }

  /** A packet that another ran ahead of is still taken when it comes, whatever came in between, until
      the receiver is more than 102400 bytes past it. */
  lemma LateTaken(ks: Keystream, plains: seq<Bytes>, A: seq<nat>, j: nat, B: seq<nat>, i: nat)
    requires Small(plains) && Indices(plains, A) && Indices(plains, A + [j] + B) && i < |plains| && j < |plains|
    requires AllInRange(ks, plains, A + [j] + B) && InRange(After(ks, plains, A + [j] + B), PosOf(plains, i))
    requires var c := View(plains, A).cur; c <= PosOf(plains, i) < PosOf(plains, j) <= c + 10485760 && c < PosOf(plains, j)
    requires View(plains, A + [j] + B).cur - PosOf(plains, i) <= 102400
    ensures var (sn, data) := Sent(ks, plains, i);
      Receive(ks, After(ks, plains, A + [j] + B), sn, data).1 == Some(plains[i])
  {
    GapStays(plains, A, j, B);
    RunTakes(ks, plains, A + [j] + B, i);
  }

  /** The first k packets in sequence. */
  function InSequence(k: nat): (order: seq<nat>)
    ensures |order| == k && forall j | 0 <= j < k :: order[j] == j
  {
    seq(k, j requires 0 <= j => j)
  }

  lemma {:induction false} SequenceView(plains: seq<Bytes>, k: nat)
    requires k <= |plains|
    ensures View(plains, InSequence(k)) == Seen(PosOf(plains, k), [])
  {
    if k == 0 {
      assert plains[..0] == [];
    } else {
      SequenceView(plains, k - 1);
      assert InSequence(k)[..k - 1] == InSequence(k - 1);
      PosNext(plains, k - 1);
    }
  }

  lemma PosNext(plains: seq<Bytes>, k: nat)
    requires k < |plains|
    ensures PosOf(plains, k + 1) == PosOf(plains, k) + |plains[k]|
  {
    assert plains[..k + 1] == plains[..k] + [plains[k]];
    TotalAppend(plains[..k], plains[k]);
  }

  lemma {:induction false} SequenceRange(ks: Keystream, plains: seq<Bytes>, k: nat)
    requires Small(plains) && k <= |plains|
    ensures AllInRange(ks, plains, InSequence(k)) && After(ks, plains, InSequence(k)).current == PosOf(plains, k)
  {
    if k == 0 {
      assert plains[..0] == [];
    } else {
      SequenceRange(ks, plains, k - 1);
      assert InSequence(k)[..k - 1] == InSequence(k - 1);
      RunMatches(ks, plains, InSequence(k));
      SequenceView(plains, k);
    }
  }

  /** Two packets that change places, after any number in sequence: both come out. */
  lemma Swapped(ks: Keystream, plains: seq<Bytes>, k: nat)
    requires Small(plains) && k + 1 < |plains| && plains[k] != [] && |plains[k]| + |plains[k + 1]| <= 102400
    ensures var order := InSequence(k) + [k + 1];
      && Receive(ks, After(ks, plains, InSequence(k)), Sent(ks, plains, k + 1).0, Sent(ks, plains, k + 1).1).1 == Some(plains[k + 1])
      && Receive(ks, After(ks, plains, order), Sent(ks, plains, k).0, Sent(ks, plains, k).1).1 == Some(plains[k])
  {
    var A := InSequence(k);
    SequenceView(plains, k);
    SequenceRange(ks, plains, k);
    PosNext(plains, k);
    RunTakes(ks, plains, A, k + 1);
    assert A + [k + 1] + [] == A + [k + 1] && (A + [k + 1])[..k] == A;
    RunMatches(ks, plains, A + [k + 1]);
    LateTaken(ks, plains, A, k + 1, [], k);
  }

  /** Within the first half of the range every run is in range. */
  lemma {:induction false} ShortRange(ks: Keystream, plains: seq<Bytes>, order: seq<nat>)
    requires Total(plains) < 0x8000_0000 && Small(plains) && Indices(plains, order)
    ensures AllInRange(ks, plains, order)
  {
    if order != [] {
      ShortRange(ks, plains, order[..|order| - 1]);
      ShortRun(ks, plains, order[..|order| - 1]);
    }
  }
}
