/** Whole runs of additions to and removals from the cache of own addresses. */
module SelfRuns {
  import opened SelfCache

  datatype Op = Added(c: Lifc, a: Addr, kind: nat) | Removed(c: Lifc, a: Addr)

  ghost function Step(t: Tab, op: Op): Tab
    requires Inv(t)
  {
    if op.Added? then Add(t, op.c, op.a, op.kind) else Rem(t, op.c, op.a)
  }

  /** A new table. */
  predicate Blank(t: Tab) {
    && t.selfs == map[] && t.lifcs == map[] && t.links == map[] && !t.acceptall
    && |t.hash| == NHASH && forall h | 0 <= h < NHASH :: t.hash[h] == []
  }

  /** The calls, made one after the other, lead to t. */
  ghost predicate Leads(ops: seq<Op>, t: Tab) {
    if ops == [] then Blank(t)
    else exists t0 :: Leads(ops[..|ops| - 1], t0) && Inv(t0) && t == Step(t0, ops[|ops| - 1])
  }

  lemma {:induction false} LeadsKeeps(ops: seq<Op>, t: Tab)
    requires Leads(ops, t)
    ensures Inv(t)
  {
    if ops != [] {
      var op := ops[|ops| - 1];
      var t0 :| Leads(ops[..|ops| - 1], t0) && Inv(t0) && t == Step(t0, op);
      if op.Added? {
        AddKeeps(t0, op.c, op.a, op.kind);
      } else {
        RemKeeps(t0, op.c, op.a);
      }
    }
  }

  /** Every sequence of calls leads somewhere. */
  lemma {:induction false} LeadsOn(ops: seq<Op>) returns (t: Tab)
    ensures Leads(ops, t)
  {
    if ops == [] {
      t := Tab(seq(NHASH, _ => []), map[], map[], map[], 0, false);
    } else {
      var t0 := LeadsOn(ops[..|ops| - 1]);
      LeadsKeeps(ops[..|ops| - 1], t0);
      t := Step(t0, ops[|ops| - 1]);
    }
  }

  // ---------- what should be there, from the calls alone ----------

  /** How often an address was added on an interface and not removed. */
  function Count(ops: seq<Op>, c: Lifc, a: Addr): nat {
    if ops == [] then 0
    else
      var n := Count(ops[..|ops| - 1], c, a);
      match ops[|ops| - 1]
      case Added(d, b, kind) => if d == c && b == a then n + 1 else n
      case Removed(d, b) => if d == c && b == a && n > 0 then n - 1 else n
  }

  /** Some interface still has it. */
  ghost predicate Owned(ops: seq<Op>, a: Addr) {
    exists c :: Count(ops, c, a) > 0
  }

  /** The call that entered the address: the last addition made when no interface had it. */
  ghost predicate EnteredBy(ops: seq<Op>, a: Addr, n: nat) {
    && n < |ops| && ops[n].Added? && ops[n].a == a && !Owned(ops[..n], a)
    && forall m | n < m <= |ops| :: Owned(ops[..m], a)
  }

  // ---------- what is there ----------

  lemma {:induction false} RunCounts(ops: seq<Op>, t: Tab, c: Lifc, a: Addr)
    requires Leads(ops, t)
    ensures Refs(t, c, a) == Count(ops, c, a)
  {
    if ops != [] {
      var init, op := ops[..|ops| - 1], ops[|ops| - 1];
      var t0 :| Leads(init, t0) && Inv(t0) && t == Step(t0, op);
      RunCounts(init, t0, c, a);
      if op.Added? {
        AddCounts(t0, op.c, op.a, op.kind, c, a);
      } else {
        RemCounts(t0, op.c, op.a, c, a);
      }
    }
  }

  /** In every run, an address is the stack's own exactly when some interface still has it. */
  lemma RunOwned(ops: seq<Op>, t: Tab, a: Addr)
    requires Leads(ops, t)
    ensures Inv(t) && (a in t.selfs <==> Owned(ops, a)) && (Held(t, a) <==> Owned(ops, a))
  {
    LeadsKeeps(ops, t);
    InTable(t, a);
    forall c ensures Refs(t, c, a) == Count(ops, c, a) {
      RunCounts(ops, t, c, a);
    }
  }

  /** Some interface has the address. */
  ghost predicate Held(t: Tab, a: Addr) {
    exists d :: Refs(t, d, a) > 0
  }

  /** A new entry gets the kind given; every other keeps its own. */
  lemma AddKinds(t: Tab, c: Lifc, a: Addr, kind: nat)
    requires Inv(t)
    ensures var t' := Add(t, c, a, kind);
      && (Held(t, a) ==> a in t.selfs) && a in t'.selfs && t'.selfs[a].kind == (if Held(t, a) then t.selfs[a].kind else kind)
      && forall b | b != a :: (b in t'.selfs <==> b in t.selfs) && (b in t.selfs ==> t'.selfs[b].kind == t.selfs[b].kind)
  {
    InTable(t, a);
  }

  /** A removal changes the kind of no entry that stays. */
  lemma RemKinds(t: Tab, c: Lifc, a: Addr)
    requires Inv(t)
    ensures var t' := Rem(t, c, a); forall b | b in t'.selfs :: b in t.selfs && t'.selfs[b].kind == t.selfs[b].kind
  {
    var s := LifcChain(t, c);
    var i := FindSelf(s, t.links, a);
    if i < |s| {
      assert s[i] in s;
    }
  }

  /** A step changes the kind of an address only when it enters it. */
  lemma StepKinds(t: Tab, op: Op, a: Addr)
    requires Inv(t) && a in Step(t, op).selfs
    ensures Held(t, a) ==> a in t.selfs && Step(t, op).selfs[a].kind == t.selfs[a].kind
    ensures !Held(t, a) ==> op.Added? && op.a == a && Step(t, op).selfs[a].kind == op.kind
  {
    InTable(t, a);
    if op.Added? {
      AddKinds(t, op.c, op.a, op.kind);
    } else {
      RemKinds(t, op.c, op.a);
    }
  }

  /** The addition that entered an address. */
  ghost function Entry(ops: seq<Op>, a: Addr): (n: nat)
    requires Owned(ops, a)
    ensures n < |ops| && ops[n].Added? && ops[n].a == a
  {
    NotBlank(ops, a);
    if Owned(ops[..|ops| - 1], a) then Entry(ops[..|ops| - 1], a)
    else
      FirstOwned(ops, a);
      |ops| - 1
  }

  /** It is the last one made when no interface had the address. */
  lemma {:induction false} EntryIs(ops: seq<Op>, a: Addr)
    requires Owned(ops, a)
    ensures EnteredBy(ops, a, Entry(ops, a))
    decreases |ops|
  {
    NotBlank(ops, a);
    if Owned(ops[..|ops| - 1], a) {
      EntryIs(ops[..|ops| - 1], a);
      EnteredStill(ops, a, Entry(ops, a));
    } else {
      FirstOwned(ops, a);
      EnteredNow(ops, a);
    }
  }

  lemma FirstOwned(ops: seq<Op>, a: Addr)
    requires Owned(ops, a) && ops != [] && !Owned(ops[..|ops| - 1], a)
    ensures ops[|ops| - 1].Added? && ops[|ops| - 1].a == a
  {
    var c :| Count(ops, c, a) > 0;
    assert Count(ops[..|ops| - 1], c, a) == 0;
  }

  /** In every run an entry has the kind of the addition that entered its address. */
  lemma {:induction false} RunKinds(ops: seq<Op>, t: Tab, a: Addr)
    requires Leads(ops, t) && Owned(ops, a)
    ensures a in t.selfs && t.selfs[a].kind == ops[Entry(ops, a)].kind
    decreases |ops|
  {
    RunOwned(ops, t, a);
    NotBlank(ops, a);
    var t0 := LastStep(ops, t, a);
    if Owned(ops[..|ops| - 1], a) {
      RunKinds(ops[..|ops| - 1], t0, a);
    }
  }

  /** The last call, as it bears on a's kind. */
  lemma LastStep(ops: seq<Op>, t: Tab, a: Addr) returns (t0: Tab)
    requires ops != [] && Leads(ops, t) && a in t.selfs
    ensures Leads(ops[..|ops| - 1], t0)
    ensures Owned(ops[..|ops| - 1], a) ==> a in t0.selfs && t.selfs[a].kind == t0.selfs[a].kind
    ensures var op := ops[|ops| - 1];
      !Owned(ops[..|ops| - 1], a) ==> op.Added? && op.a == a && t.selfs[a].kind == op.kind
  {
    var op := ops[|ops| - 1];
    t0 :| Leads(ops[..|ops| - 1], t0) && Inv(t0) && t == Step(t0, op);
    RunOwned(ops[..|ops| - 1], t0, a);
    StepKinds(t0, op, a);
  }

  lemma NotBlank(ops: seq<Op>, a: Addr)
    requires Owned(ops, a)
    ensures ops != []
  {
  }

  lemma EnteredNow(ops: seq<Op>, a: Addr)
    requires ops != [] && ops[|ops| - 1].Added? && ops[|ops| - 1].a == a && !Owned(ops[..|ops| - 1], a) && Owned(ops, a)
    ensures EnteredBy(ops, a, |ops| - 1)
  {
    forall m | |ops| - 1 < m <= |ops| ensures Owned(ops[..m], a) {
      assert ops[..m] == ops;
    }
  }

  lemma EnteredStill(ops: seq<Op>, a: Addr, n: nat)
    requires ops != [] && EnteredBy(ops[..|ops| - 1], a, n) && Owned(ops, a)
    ensures EnteredBy(ops, a, n)
  {
    var init := ops[..|ops| - 1];
    assert ops[..n] == init[..n] && ops[..|ops|] == ops;
    forall m | n < m <= |ops| ensures Owned(ops[..m], a) {
      if m < |ops| {
        assert ops[..m] == init[..m];
      }
    }
  }

  // ---------- packets for everyone ----------

  /** The two null addresses, as numbers of 128 bits: all zeros, and ::ffff:0.0.0.0. */
  lemma Nulls(a: Addr)
    ensures IsNull(a) <==> a == 0 || a == 0xFFFF * 0x1_0000_0000
  {
  }

  /** The chain of an address is told by its last two octets. */
  lemma HashOctets(front: nat, x: nat, y: nat)
    requires x < 256 && y < 256
    ensures Hash(front * 0x1_0000 + x * 256 + y) == (x * 256 + y) % 64
  {
    assert (front * 0x1_0000 + (x * 256 + y)) % 0x1_0000 == x * 256 + y;
  }

  /** Whether packets for everyone are taken: since a null address was last entered, and not since one
      last went. */
  ghost function Open(ops: seq<Op>): bool {
    if ops == [] then false
    else
      var init, op := ops[..|ops| - 1], ops[|ops| - 1];
      if op.Added? then Open(init) || (IsNull(op.a) && !Owned(init, op.a))
      else Open(init) && !(IsNull(op.a) && Owned(init, op.a) && !Owned(ops, op.a))
  }

  lemma AddFlag(t: Tab, c: Lifc, a: Addr, kind: nat)
    requires Inv(t)
    ensures Add(t, c, a, kind).acceptall <==> t.acceptall || (IsNull(a) && !Held(t, a))
  {
    InTable(t, a);
  }

  lemma RemFlag(t: Tab, c: Lifc, a: Addr)
    requires Inv(t)
    ensures Rem(t, c, a).acceptall <==> t.acceptall && !(IsNull(a) && Held(t, a) && !Held(Rem(t, c, a), a))
  {
    InTable(t, a);
    RemKeeps(t, c, a);
    InTable(Rem(t, c, a), a);
    var s := LifcChain(t, c);
    var i := FindSelf(s, t.links, a);
    if a in t.selfs && i < |s| {
      assert s[i] in s;
      if t.links[s[i]].ref == 1 {
        UnlinkHash(t, s[i]);
      }
    }
  }

  lemma {:induction false} RunFlag(ops: seq<Op>, t: Tab)
    requires Leads(ops, t)
    ensures t.acceptall <==> Open(ops)
  {
    if ops != [] {
      var init, op := ops[..|ops| - 1], ops[|ops| - 1];
      var t0 :| Leads(init, t0) && Inv(t0) && t == Step(t0, op);
      RunFlag(init, t0);
      RunOwned(init, t0, op.a);
      RunOwned(ops, t, op.a);
      if op.Added? {
        AddFlag(t0, op.c, op.a, op.kind);
      } else {
        RemFlag(t0, op.c, op.a);
      }
    }
  }

  /** What `ipforme` answers after any calls: the kind an address was entered with; of any other, that
      of a unicast address while packets for everyone are taken. */
  lemma RunAnswer(ops: seq<Op>, t: Tab, a: Addr)
    requires Leads(ops, t)
    ensures Inv(t) && ForMe(t, a) == if Owned(ops, a) then ops[Entry(ops, a)].kind else if Open(ops) then 8 else 0
  {
    RunOwned(ops, t, a);
    RunFlag(ops, t);
    if Owned(ops, a) {
      RunKinds(ops, t, a);
    }
  }
}
