/** The whole v4 forest, on values: 1024 trees selected by a hash of the address, each route copied
    into every tree its range reaches. */
module RouteTable {
  import opened Arith
  import opened RouteTree

  const NROOT: nat := 1024

  /** V4H: address bits 17 to 26. */
  function V4H(a: nat): (h: nat)
    ensures h < NROOT
  {
    a % 0x800_0000 / 0x2_0000
  }

  // ---------- CIDR blocks ----------

  /** The block of 2^host addresses number a. */
  function Block(a: nat, host: nat): Range {
    ShlIs(a + 1, host);
    Range(Shl(a, host), if Shl(a + 1, host) > 0 then Shl(a + 1, host) - 1 else 0)
  }

  function Shr(a: nat, k: nat): nat {
    if k == 0 then a else Shr(a / 2, k - 1)
  }

  /** The block of 2^host addresses around a. */
  function Covering(a: nat, host: nat): Range {
    Block(Shr(a, host), host)
  }

  ghost predicate Cidr(r: Range) {
    exists a: nat, host: nat :: r == Block(a, host) && host <= 32 && r.hi < 0x1_0000_0000
  }

  lemma {:induction false} ShrShl(a: nat, k: nat)
    ensures Shl(Shr(a, k), k) <= a < Shl(Shr(a, k) + 1, k)
  {
    if k > 0 {
      ShrShl(a / 2, k - 1);
    }
  }

  lemma {:induction false} ShlShr(a: nat, k: nat)
    ensures Shr(Shl(a, k), k) == a
  {
    if k > 0 {
      ShlShr(a, k - 1);
    }
  }

  lemma BlockProper(a: nat, host: nat)
    ensures Shl(a + 1, host) >= Shl(a, host) + 1 && Proper(Block(a, host))
  {
    ShlPlus(a, 1, host);
    ShlGrows(1, host);
  }

  /** The block of an address, for any mask, contains the address and stays in 32 bits. */
  lemma CoveringCidr(a: nat, host: nat)
    requires a < 0x1_0000_0000 && host <= 32
    ensures Cidr(Covering(a, host)) && Proper(Covering(a, host)) && Has(Covering(a, host), a)
  {
    ShrShl(a, host);
    BlockProper(Shr(a, host), host);
    TopBlock(Shr(a, host), host);
  }

  lemma Pow32()
    ensures Shl(1, 32) == 0x1_0000_0000 && Shl(1, 27) == 0x800_0000
  {
    ShlShl(1, 8, 8);
    ShlShl(1, 16, 16);
    assert Shl(1, 8) == 256;
    ShlIs(256, 8);
    ShlIs(0x1_0000, 16);
    ShlShl(1, 16, 11);
    assert Shl(1, 11) == 2048;
    ShlIs(0x1_0000, 11);
  }

  lemma TopBlock(a: nat, host: nat)
    requires host <= 32 && Shl(a, host) < 0x1_0000_0000
    ensures Shl(a + 1, host) <= 0x1_0000_0000
  {
    Pow32();
    ShlShl(1, 32 - host, host);
    ShlOrder(a, Shl(1, 32 - host), host);
    ShlOrder(a + 1, Shl(1, 32 - host), host);
  }

  // ---------- masks as words ----------

  /** Bitwise operations on the low k bits. */
  function And(a: nat, b: nat, k: nat): nat {
    if k == 0 then 0 else 2 * And(a / 2, b / 2, k - 1) + if a % 2 == 1 && b % 2 == 1 then 1 else 0
  }

  function Or(a: nat, b: nat, k: nat): nat {
    if k == 0 then 0 else 2 * Or(a / 2, b / 2, k - 1) + if a % 2 == 1 || b % 2 == 1 then 1 else 0
  }

  function Xor(a: nat, b: nat, k: nat): nat {
    if k == 0 then 0 else 2 * Xor(a / 2, b / 2, k - 1) + if a % 2 != b % 2 then 1 else 0
  }

  /** Ones for the network bits, then host zeros. */
  function Mask(host: nat): (m: nat)
    requires host <= 32
    ensures m < 0x1_0000_0000
  {
    Pow32();
    ShlGrows(1, host);
    ShlShl(1, host, 32 - host);
    ShlGrows(Shl(1, host), 32 - host);
    0x1_0000_0000 - Shl(1, host)
  }

  /** The range `v4addroute` makes of an address and a mask. */
  function Masked(a: nat, mask: nat): Range
    requires mask < 0x1_0000_0000
  {
    var sa := And(a, mask, 32);
    Range(sa, Or(sa, 0xFFFF_FFFF - mask, 32))
  }

  /** The mask `convroute` makes of a range. */
  function ConvMask(r: Range): int {
    0xFFFF_FFFF - Xor(r.hi, r.lo, 32)
  }

  lemma {:induction false} AndMask(a: nat, host: nat, k: nat)
    requires host <= k && a < Shl(1, k)
    ensures Shl(1, host) <= Shl(1, k) && And(a, Shl(1, k) - Shl(1, host), k) == Shl(Shr(a, host), host)
    decreases k
  {
    ShlShl(1, host, k - host);
    ShlGrows(Shl(1, host), k - host);
    if host > 0 {
      AndMask(a / 2, host - 1, k - 1);
      assert Shl(1, k) - Shl(1, host) == 2 * (Shl(1, k - 1) - Shl(1, host - 1));
    } else if k > 0 {
      AndMask(a / 2, 0, k - 1);
      assert Shl(1, k) - Shl(1, 0) == 2 * (Shl(1, k - 1) - Shl(1, 0)) + 1;
    }
  }

  lemma OrEvenOdd(a: nat, b: nat, k: nat)
    requires k > 0
    ensures Or(2 * a, 2 * b + 1, k) == 2 * Or(a, b, k - 1) + 1
  {
    assert 2 * a / 2 == a && (2 * b + 1) / 2 == b;
  }

  lemma {:induction false} OrZero(a: nat, k: nat)
    requires a < Shl(1, k)
    ensures Or(a, 0, k) == a
  {
    if k > 0 {
      OrZero(a / 2, k - 1);
    }
  }

  lemma {:induction false} OrLow(c: nat, host: nat, k: nat)
    requires host <= k && Shl(c, host) < Shl(1, k)
    ensures Shl(1, host) >= 1 && Or(Shl(c, host), Shl(1, host) - 1, k) == Shl(c, host) + Shl(1, host) - 1
    decreases k
  {
    ShlGrows(1, host);
    if host > 0 {
      OrLow(c, host - 1, k - 1);
      OrEvenOdd(Shl(c, host - 1), Shl(1, host - 1) - 1, k);
    } else {
      OrZero(c, k);
    }
  }

  lemma {:induction false} XorSelf(a: nat, k: nat)
    ensures Xor(a, a, k) == 0
  {
    if k > 0 {
      XorSelf(a / 2, k - 1);
    }
  }

  lemma {:induction false} XorBlock(a: nat, host: nat, k: nat)
    requires host <= k
    ensures Shl(1, host) >= 1 && Shl(a + 1, host) >= 1 && Xor(Shl(a + 1, host) - 1, Shl(a, host), k) == Shl(1, host) - 1
    decreases k
  {
    ShlGrows(1, host);
    ShlGrows(a + 1, host);
    if host > 0 {
      XorBlock(a, host - 1, k - 1);
      assert Shl(a + 1, host) - 1 == 2 * (Shl(a + 1, host - 1) - 1) + 1;
    } else {
      XorSelf(a, k);
    }
  }

  /** A word masked, and its host bits filled, is the block around it. */
  lemma MaskedIs(a: nat, host: nat)
    requires a < 0x1_0000_0000 && host <= 32
    ensures Masked(a, Mask(host)) == Covering(a, host)
  {
    Pow32();
    AndMask(a, host, 32);
    ShrShl(a, host);
    OrLow(Shr(a, host), host, 32);
    ShlPlus(Shr(a, host), 1, host);
    ShlGrows(1, host);
  }

  /** `convroute` finds the mask again from the two ends of a block, and with the first address it
      makes the same block. */
  lemma ConvRoute(a: nat, host: nat)
    requires host <= 32 && Block(a, host).hi < 0x1_0000_0000
    ensures ConvMask(Block(a, host)) == Mask(host) && Masked(Block(a, host).lo, Mask(host)) == Block(a, host)
  {
    BlockProper(a, host);
    XorBlock(a, host, 32);
    MaskedIs(Block(a, host).lo, host);
    ShlShr(a, host);
  }

  /** So `delroute`, which goes by the address and mask of `convroute`, deletes the range it was given. */
  lemma CidrConv(r: Range)
    requires Cidr(r)
    ensures 0 <= ConvMask(r) < 0x1_0000_0000 && Masked(r.lo, ConvMask(r)) == r
  {
    var a: nat, i: nat :| r == Block(a, i) && i <= 32 && r.hi < 0x1_0000_0000;
    ConvRoute(a, i);
  }

  /** A smaller block lies wholly inside or wholly outside a larger one. */
  lemma BlocksNest(a: nat, i: nat, b: nat, j: nat)
    requires i <= j
    ensures Disjoint(Block(a, i), Block(b, j)) || Within(Block(a, i), Block(b, j))
  {
    var c, d := Shl(b, j - i), Shl(b + 1, j - i);
    ShlShl(b, j - i, i);
    ShlShl(b + 1, j - i, i);
    BlockProper(a, i);
    BlockProper(b, j);
    if a < c {
      ShlOrder(a + 1, c, i);
    } else if a >= d {
      ShlOrder(d, a, i);
    } else {
      ShlOrder(c, a, i);
      ShlOrder(a + 1, d, i);
    }
  }

  lemma CidrLaminar(r: Range, s: Range)
    requires Cidr(r) && Cidr(s)
    ensures Laminar(r, s) && Proper(r)
  {
    var a: nat, i: nat :| r == Block(a, i) && i <= 32 && r.hi < 0x1_0000_0000;
    var b: nat, j: nat :| s == Block(b, j) && j <= 32 && s.hi < 0x1_0000_0000;
    BlockProper(a, i);
    if i <= j { BlocksNest(a, i, b, j); } else { BlocksNest(b, j, a, i); }
  }

  // ---------- which buckets a range reaches ----------

  predicate Reaches(r: Range, h: nat) {
    V4H(r.lo) <= h <= V4H(r.hi)
  }

  /** In a block of up to 2^27 addresses the bits above do not change. */
  lemma HashSmall(a: nat, i: nat, x: nat)
    requires i <= 27 && Has(Block(a, i), x)
    ensures Reaches(Block(a, i), V4H(x))
  {
    var r := Block(a, i);
    var q := r.lo / 0x800_0000;
    Pow32();
    ShlIs(q, 27);
    ShlIs(q + 1, 27);
    BlocksNest(a, i, q, 27);
    BlockProper(a, i);
    SameTop(q, r.lo, x, r.hi);
  }

  /** A larger one goes through all hashes. */
  lemma HashLarge(a: nat, i: nat, x: nat)
    requires i > 27 && Has(Block(a, i), x)
    ensures Reaches(Block(a, i), V4H(x))
  {
    var b, c := Shl(a, i - 27), Shl(a + 1, i - 27);
    Pow32();
    ShlShl(a, i - 27, 27);
    ShlShl(a + 1, i - 27, 27);
    ShlIs(b, 27);
    ShlIs(c, 27);
    BlockProper(a, i);
    EndHashes(b, c, Block(a, i));
  }

  /** Every address of a block hashes between the hashes of the block's ends. */
  lemma HashInside(r: Range, x: nat)
    requires Cidr(r) && Has(r, x)
    ensures Reaches(r, V4H(x))
  {
    var a: nat, i: nat :| r == Block(a, i) && i <= 32 && r.hi < 0x1_0000_0000;
    if i <= 27 {
      HashSmall(a, i, x);
    } else {
      HashLarge(a, i, x);
    }
  }

  lemma SameTop(q: nat, lo: nat, x: nat, hi: nat)
    requires q * 0x800_0000 <= lo <= x <= hi < (q + 1) * 0x800_0000
    ensures V4H(lo) <= V4H(x) <= V4H(hi)
  {
    assert lo % 0x800_0000 == lo - q * 0x800_0000;
    assert x % 0x800_0000 == x - q * 0x800_0000;
    assert hi % 0x800_0000 == hi - q * 0x800_0000;
  }

  lemma EndHashes(b: nat, c: nat, r: Range)
    requires b < c && r.lo == b * 0x800_0000 && r.hi + 1 == c * 0x800_0000
    ensures V4H(r.lo) == 0 && V4H(r.hi) == NROOT - 1
  {
    assert r.lo % 0x800_0000 == 0;
    assert r.hi == (c - 1) * 0x800_0000 + 0x7FF_FFFF;
    assert r.hi % 0x800_0000 == 0x7FF_FFFF;
  }

  // ---------- the table against one map ----------

  /** The part of the map that bucket h must hold. */
  ghost function Slice(A: RouteMap, h: nat): RouteMap {
    map r | r in A && Reaches(r, h) :: A[r]
  }

  /** All buckets hold agreeing copies: each exactly the routes whose range reaches it. */
  ghost predicate TableInv(ts: seq<Tree>, A: RouteMap) {
    && |ts| == NROOT
    && (forall r | r in A :: Cidr(r))
    && (forall h: nat | h < NROOT :: Refines(ts[h], Slice(A, h)))
  }

  ghost predicate Ready(ts: seq<Tree>, r: Range) {
    && |ts| == NROOT && Proper(r)
    && (forall h: nat | h < NROOT :: Valid(ts[h]) && LaminarWith(r, Items(ts[h])))
  }

  lemma TableReady(ts: seq<Tree>, A: RouteMap, r: Range)
    requires TableInv(ts, A) && Cidr(r)
    ensures Ready(ts, r)
  {
    CidrLaminar(r, r);
    forall h: nat | h < NROOT ensures Valid(ts[h]) && LaminarWith(r, Items(ts[h])) {
      assert Refines(ts[h], Slice(A, h));
      forall k | k in Items(ts[h]) ensures Laminar(r, k.range) {
        assert k in ItemsOf(Slice(A, h));
        CidrLaminar(r, k.range);
      }
    }
  }

  /** `v4addroute` and `v4delroute`: the same step in every bucket from V4H(start) to V4H(end). */
  function TableAdd(ts: seq<Tree>, n: Route): (ts': seq<Tree>)
    requires Ready(ts, n.range)
    ensures |ts'| == NROOT
  {
    seq(NROOT, h requires 0 <= h < NROOT && Ready(ts, n.range) =>
      if Reaches(n.range, h) then BucketAdd(ts[h], n) else ts[h])
  }

  function TableDel(ts: seq<Tree>, r: Range): (ts': seq<Tree>)
    requires Ready(ts, r)
    ensures |ts'| == NROOT
  {
    seq(NROOT, h requires 0 <= h < NROOT && Ready(ts, r) =>
      if Reaches(r, h) then BucketDel(ts[h], r) else ts[h])
  }

  lemma SliceAdd(A: RouteMap, n: Route, h: nat)
    ensures Slice(AbsAdd(A, n), h) == if Reaches(n.range, h) then AbsAdd(Slice(A, h), n) else Slice(A, h)
  {
  }

  lemma TableAddKeeps(ts: seq<Tree>, A: RouteMap, n: Route)
    requires TableInv(ts, A) && Cidr(n.range) && Ready(ts, n.range)
    ensures TableInv(TableAdd(ts, n), AbsAdd(A, n))
  {
    var ts', B := TableAdd(ts, n), AbsAdd(A, n);
    forall h: nat | h < NROOT ensures Refines(ts'[h], Slice(B, h)) {
      SliceAdd(A, n, h);
      if Reaches(n.range, h) {
        BucketAddRefines(ts[h], Slice(A, h), n);
      }
    }
  }

  lemma TableDelKeeps(ts: seq<Tree>, A: RouteMap, r: Range)
    requires TableInv(ts, A) && Ready(ts, r)
    ensures TableInv(TableDel(ts, r), AbsDel(A, r))
  {
    var ts', B := TableDel(ts, r), AbsDel(A, r);
    forall h: nat | h < NROOT ensures Refines(ts'[h], Slice(B, h)) {
      assert Refines(ts[h], Slice(A, h));
      if Reaches(r, h) {
        BucketDelRefines(ts[h], Slice(A, h), r);
        assert AbsDel(Slice(A, h), r) == Slice(B, h);
      } else {
        assert Slice(A, h) == Slice(B, h);
      }
    }
  }

  /** The search in the one bucket the address hashes to finds the most specific of all routes. */
  lemma TableLookup(ts: seq<Tree>, A: RouteMap, la: nat)
    requires TableInv(ts, A)
    ensures MostSpecific(ItemsOf(A), la, Lookup(ts[V4H(la)], la))
  {
    var h := V4H(la);
    assert Refines(ts[h], Slice(A, h));
    LookupBest(ts[h], la);
    forall k | k in ItemsOf(A) && Has(k.range, la) ensures k in Items(ts[h]) {
      HashInside(k.range, la);
      assert k.range in Slice(A, h);
    }
    forall k | k in Items(ts[h]) ensures k in ItemsOf(A) {
      assert k in ItemsOf(Slice(A, h));
    }
  }

  // ---------- every run ----------

  datatype Op =
    | Add(addr: nat, host: nat, kind: nat, tag: string, gate: nat)
    | Del(addr: nat, host: nat)

  predicate OpOk(op: Op) {
    op.addr < 0x1_0000_0000 && op.host <= 32
  }

  function OpRange(op: Op): Range {
    Covering(op.addr, op.host)
  }

  /** Tags are four bytes. */
  function Tag4(tag: string): string {
    if |tag| > 4 then tag[..4] else tag
  }

  /** A fresh node has the v4 bit set and one reference. */
  function NewInfo(kind: nat, tag: string, gate: nat): Info {
    Info(if kind % 2 == 0 then kind + 1 else kind, Tag4(tag), gate, 1)
  }

  function NewRoute(op: Op): Route
    requires op.Add?
  {
    Route(OpRange(op), NewInfo(op.kind, op.tag, op.gate))
  }

  function AbsStep(A: RouteMap, op: Op): RouteMap {
    if op.Add? then AbsAdd(A, NewRoute(op)) else AbsDel(A, OpRange(op))
  }

  function AbsRun(ops: seq<Op>): RouteMap {
    if ops == [] then map[] else AbsStep(AbsRun(ops[..|ops| - 1]), ops[|ops| - 1])
  }

  /** The forest after any sequence of additions and deletions refines the map after them. */
  function Run(ops: seq<Op>): (ts: seq<Tree>)
    requires forall op | op in ops :: OpOk(op)
    ensures TableInv(ts, AbsRun(ops))
  {
    if ops == [] then
      var ts := seq(NROOT, h => Nil);
      EmptyTable(ts);
      ts
    else
      var op := ops[|ops| - 1];
      var ts := Run(ops[..|ops| - 1]);
      assert OpOk(op);
      CoveringCidr(op.addr, op.host);
      TableReady(ts, AbsRun(ops[..|ops| - 1]), OpRange(op));
      if op.Add? then
        TableAddKeeps(ts, AbsRun(ops[..|ops| - 1]), NewRoute(op));
        TableAdd(ts, NewRoute(op))
      else
        TableDelKeeps(ts, AbsRun(ops[..|ops| - 1]), OpRange(op));
        TableDel(ts, OpRange(op))
  }

  lemma EmptyTable(ts: seq<Tree>)
    requires |ts| == NROOT && forall h: nat | h < NROOT :: ts[h] == Nil
    ensures TableInv(ts, map[])
  {
    forall h: nat | h < NROOT ensures Refines(ts[h], Slice(map[], h)) {
      assert Slice(map[], h) == map[];
    }
  }

  /** After any run, a lookup gives the most specific route that contains the address, or nil. */
  lemma LookupAfterRun(ops: seq<Op>, la: nat)
    requires forall op | op in ops :: OpOk(op)
    ensures MostSpecific(ItemsOf(AbsRun(ops)), la, Lookup(Run(ops)[V4H(la)], la))
  {
    TableLookup(Run(ops), AbsRun(ops), la);
  }

  /** References: every route has one, and only interface routes have more. */
  ghost predicate RefsOk(A: RouteMap) {
    forall r | r in A :: A[r].ref >= 1 && (!IsIfc(A[r].kind) ==> A[r].ref == 1)
  }

  lemma {:induction false} RunRefs(ops: seq<Op>)
    ensures RefsOk(AbsRun(ops))
  {
    if ops != [] {
      RunRefs(ops[..|ops| - 1]);
    }
  }

  /** With references in order, deleting touches its own range only, and always drops exactly one
      reference: the range goes if that was the last. */
  lemma DelExact(A: RouteMap, r: Range, k: Range)
    requires RefsOk(A)
    ensures k != r ==> (k in AbsDel(A, r) <==> k in A) && (k in A ==> AbsDel(A, r)[k] == A[k])
    ensures r in AbsDel(A, r) <==> r in A && A[r].ref > 1
    ensures r in A && A[r].ref > 1 ==> AbsDel(A, r)[r] == A[r].(ref := A[r].ref - 1)
    ensures RefsOk(AbsDel(A, r))
  {
  }
}
