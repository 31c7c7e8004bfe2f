/** One floating point instruction on doubles in memory: load both operands, operate, store.
    Every instruction is correctly rounded, for all pairs of doubles. */
module FpiDouble {
  import opened Arith
  import opened Ieee
  import opened FpiSpec
  import opened FpiRounding
  import opened Fpi
  import opened FpiMem

  predicate Nan(d: Double) { Magnitude(d) > INF }
  predicate Inf(d: Double) { Magnitude(d) == INF }
  predicate Finite(d: Double) { Magnitude(d) < INF }
  predicate Zero(d: Double) { Magnitude(d) == 0 }

  /** The NaN that invalid operations and NaN operands give.  It is not a quiet one: the first bit of its
      fraction is clear (section 6.2.1 of IEEE 754-2008). */
  predicate GivenNan(d: Double) { d == Double(0x2000_0000, 0x7FF0_0000) }

  function Signed(s: int, m: int): int {
    if s == 0 then m else -m
  }

  /** The exact value of a finite double, in smallest subnormals. */
  function Value(d: Double): int {
    Signed(Sign(d), Mag(Magnitude(d)))
  }

  /** r is the integer v (in smallest subnormals), correctly rounded; of the sign of a zero this says
      nothing. */
  ghost predicate IsRounded(r: Double, v: int) {
    RoundsTo(if v < 0 then -v else v, 1, Magnitude(r)) && (v != 0 ==> Sign(r) == if v < 0 then 1 else 0)
  }

  predicate Stored(r: Reg) {
    Storable(r) || r == SetInf()
  }

  lemma StoredRenorm(r: Reg)
    requires NORM <= r.m < FULL
    ensures Stored(Renorm(r))
  {
    if -56 <= r.e < 1 {
      assert ShiftRight(r.m, 1 - r.e) <= r.m;
    }
  }

  lemma StoredAdd(x: Reg, y: Reg)
    requires Storable(x) && Storable(y)
    ensures Stored(Add(x, y))
  {
    var (a, b) := if x.e > y.e then (y, x) else (x, y);
    var m := ShiftRight(a.m, b.e - a.e) + b.m;
    assert Add(x, y) == Sum(b.e, m) && m < 2 * FULL;
    assert m >= FULL ==> NORM <= Sticky(m) < FULL;
  }

  lemma {:induction false} StoredCancel(r: Reg)
    requires 1 <= r.e < EXPINF && 0 < r.m < FULL
    ensures Storable(Cancel(r))
    decreases NORM - r.m
  {
    if r.e > 1 && r.m < NORM {
      StoredCancel(Reg(r.e - 1, 2 * r.m));
    }
  }

  lemma StoredSub(x: Reg, y: Reg)
    requires Storable(x) && Storable(y) && SubOrdered(x, y)
    ensures Storable(Sub(x, y))
  {
    var (a, b) := if Smaller(y, x) then (y, x) else (x, y);
    var r := Reg(b.e, b.m - ShiftRight(a.m, b.e - a.e));
    assert Sub(x, y) == Difference(r);
    if r.m > 0 {
      StoredCancel(r);
    }
  }

  // ---------- addition and subtraction ----------

  /** How a loaded register and the magnitude it was loaded from correspond, for every class. */
  ghost predicate Holds(i: Internal, code: nat)
    reads i
  {
    && i.Canonical()
    && (code < INF ==> Loaded(i.R(), code) && (i.R().m == 0 <==> code == 0))
    && (code == INF ==> i.IsInfinity())
    && (code > INF ==> i.IsNaN())
  }

  /** r is the sum of two signed magnitudes: the special cases of section 6 and 7.2 of
      IEEE 754-2008, and otherwise the exact sum correctly rounded. */
  ghost predicate SumOf(s: int, a: nat, t: int, b: nat, r: Double) {
    var v := Signed(s, Mag(a)) + Signed(t, Mag(b));
    var whole := Bits64(r)
      && (a > INF || b > INF || (a == INF && b == INF && s != t) ==> GivenNan(r))
      && (a == INF && b <= INF && (b < INF || s == t) ==> Inf(r) && Sign(r) == s)
      && (b == INF && a <= INF && (a < INF || s == t) ==> Inf(r) && Sign(r) == t)
      && (a < INF && b < INF ==> IsRounded(r, v) && (v == 0 ==> Sign(r) == t));
    whole
  }

  method AddSame(m: Internal, n: Internal, d: Internal, ghost a: nat, ghost b: nat) returns (r: Double)
    requires m != n && d != m && d != n && d.Valid() && Holds(m, a) && Holds(n, b) && m.s == n.s
    modifies m, n, d
    ensures SumOf(old(m.s), a, old(n.s), b, r)
  {
    ghost var x, y := m.R(), n.R();
    if a < INF && b < INF {
      AddCorrect(x, y, a, b);
      StoredAdd(x, y);
    }
    FpiAdd(m, n, d);
    r := FpiI2d(d);
  }

  method AddOpposite(m: Internal, n: Internal, d: Internal, ghost a: nat, ghost b: nat) returns (r: Double)
    requires m != n && d != m && d != n && d.Valid() && Holds(m, a) && Holds(n, b) && m.s != n.s
    modifies m, n, d
    ensures SumOf(old(m.s), a, old(n.s), b, r)
  {
    ghost var x, y := m.R(), n.R();
    if a < INF && b < INF {
      SubCorrect(x, y, a, b);
      StoredSub(x, y);
    }
    FpiSub(m, n, d);
    r := FpiI2d(d);
  }

  /** The `fadd` and `fsub` instructions: the sign of the first operand may be flipped, and equal
      signs add, different signs subtract. */
  method AddSigned(a: Double, b: Double, flip: bool) returns (r: Double)
    requires Bits64(a) && Bits64(b)
    ensures SumOf(if flip then 1 - Sign(a) else Sign(a), Magnitude(a), Sign(b), Magnitude(b), r)
  {
    var m := new Internal();
    var n := new Internal();
    var d := new Internal();
    FpiD2i(m, a);
    FpiD2i(n, b);
    if flip {
      m.s := 1 - m.s;
    }
    if m.s == n.s {
      r := AddSame(m, n, d, Magnitude(a), Magnitude(b));
    } else {
      r := AddOpposite(m, n, d, Magnitude(a), Magnitude(b));
    }
  }

  /** The sign section 6.3 of IEEE 754-2008 asks of a zero sum: that of both, or plus. */
  function ZeroSign(s: int, t: int): int {
    if s == t then s else 0
  }

  /** ADDF: a + b, to nearest even.  A zero sum has b's sign, so the sign asked for exactly when that is
      plus or both have it. */
  method FAdd(a: Double, b: Double) returns (r: Double)
    requires Bits64(a) && Bits64(b)
    ensures Finite(a) && Finite(b) ==> IsRounded(r, Value(a) + Value(b))
    ensures Finite(a) && Finite(b) && Value(a) + Value(b) == 0 ==>
      Sign(r) == Sign(b) && (Sign(r) == ZeroSign(Sign(a), Sign(b)) <==> Sign(b) == 0 || Sign(a) == Sign(b))
    ensures Nan(a) || Nan(b) || (Inf(a) && Inf(b) && Sign(a) != Sign(b)) ==> GivenNan(r)
    ensures Inf(a) && Finite(b) ==> Inf(r) && Sign(r) == Sign(a)
    ensures Inf(b) && Finite(a) ==> Inf(r) && Sign(r) == Sign(b)
    ensures Inf(a) && Inf(b) && Sign(a) == Sign(b) ==> Inf(r) && Sign(r) == Sign(a)
  {
    r := AddSigned(a, b, false);
  }

  /** SUBF: the first operand is the one taken away; of zeros the same. */
  method FSub(a: Double, b: Double) returns (r: Double)
    requires Bits64(a) && Bits64(b)
    ensures Finite(a) && Finite(b) ==> IsRounded(r, Value(b) - Value(a))
    ensures Finite(a) && Finite(b) && Value(b) == Value(a) ==>
      Sign(r) == Sign(b) && (Sign(r) == ZeroSign(1 - Sign(a), Sign(b)) <==> Sign(b) == 0 || Sign(a) != Sign(b))
    ensures Nan(a) || Nan(b) || (Inf(a) && Inf(b) && Sign(a) == Sign(b)) ==> GivenNan(r)
    ensures Inf(a) && Finite(b) ==> Inf(r) && Sign(r) == 1 - Sign(a)
    ensures Inf(b) && Finite(a) ==> Inf(r) && Sign(r) == Sign(b)
    ensures Inf(a) && Inf(b) && Sign(a) != Sign(b) ==> Inf(r) && Sign(r) == Sign(b)
  {
    r := AddSigned(a, b, true);
  }

  // ---------- multiplication and division ----------

  /** r is the product of two signed magnitudes; Mag(ONE) smallest subnormals make one. */
  ghost predicate ProductOf(s: int, a: nat, t: int, b: nat, r: Double) {
    && Bits64(r) && Mag(ONE) > 0
    && (a > INF || b > INF || (a == INF && b == 0) || (a == 0 && b == INF) ==> GivenNan(r))
    && (a <= INF && b <= INF && ((a == INF && b != 0) || (b == INF && a != 0)) ==> Inf(r) && Sign(r) == SignXor(s, t))
    && (a < INF && b < INF ==>
          Sign(r) == SignXor(s, t) && RoundsTo(Times(Mag(a), Mag(b)), Mag(ONE), Magnitude(r)))
  }

  /** MULF: a * b, to nearest even. */
  method FMul(a: Double, b: Double) returns (r: Double)
    requires Bits64(a) && Bits64(b)
    ensures ProductOf(Sign(a), Magnitude(a), Sign(b), Magnitude(b), r)
  {
    var m := new Internal();
    var n := new Internal();
    var d := new Internal();
    FpiD2i(m, a);
    FpiD2i(n, b);
    r := MulHeld(m, n, d, Magnitude(a), Magnitude(b));
  }

  method MulHeld(m: Internal, n: Internal, d: Internal, ghost a: nat, ghost b: nat) returns (r: Double)
    requires m != n && d != m && d != n && d.Valid() && Holds(m, a) && Holds(n, b)
    modifies m, n, d
    ensures ProductOf(old(m.s), a, old(n.s), b, r)
  {
    ghost var x, y := m.R(), n.R();
    MagMono(0, ONE);
    if a < INF && b < INF && a > 0 && b > 0 {
      MulCorrect(x, y, a, b);
      ProductNormal(Normal(x), Normal(y));
      StoredRenorm(MulNormal(Normal(x), Normal(y)));
    } else if a == 0 || b == 0 {
      ZeroRounds(Mag(ONE));
      ZeroProduct(a, b);
    }
    FpiMul(m, n, d);
    r := FpiI2d(d);
  }

  lemma ProductNormal(p: Reg, q: Reg)
    requires NORM <= p.m < FULL && NORM <= q.m < FULL
    ensures NORM <= MulNormal(p, q).m < FULL
  {
    ProductBounds(p.m, q.m);
    ProductRegCorrect(p.e + q.e, Times(p.m, q.m));
  }

  lemma ZeroRounds(d: nat)
    requires d > 0
    ensures RoundsTo(0, d, 0)
  {
    MagMono(0, 1);
    NearestFromNeighbours(0, d, 0);
  }

  lemma ZeroProduct(a: nat, b: nat)
    requires a == 0 || b == 0
    ensures Times(Mag(a), Mag(b)) == 0
  {
    assert Mag(0) == 0;
    TimesComm(Mag(a), Mag(b));
  }

  /** r is the quotient of two signed magnitudes, b (sign t) over a (sign s). */
  ghost predicate QuotientOf(s: int, a: nat, t: int, b: nat, r: Double) {
    && Bits64(r)
    && (a > INF || b > INF || (a == INF && b == INF) || (a == 0 && b == 0) ==> GivenNan(r))
    && ((a == 0 && 0 < b <= INF) || (a < INF && b == INF) ==> Inf(r) && Sign(r) == SignXor(s, t))
    && (a == INF && b < INF ==> Zero(r) && Sign(r) == SignXor(s, t))
    && (0 < a < INF && b < INF ==>
          Mag(a) > 0 && Sign(r) == SignXor(s, t) && RoundsTo(Times(Mag(b), Mag(ONE)), Mag(a), Magnitude(r)))
  }

  /** DIVF: the first operand is the divisor: b / a, to nearest even. */
  method FDiv(a: Double, b: Double) returns (r: Double)
    requires Bits64(a) && Bits64(b)
    ensures QuotientOf(Sign(a), Magnitude(a), Sign(b), Magnitude(b), r)
  {
    var m := new Internal();
    var n := new Internal();
    var d := new Internal();
    FpiD2i(m, a);
    FpiD2i(n, b);
    r := DivHeld(m, n, d, Magnitude(a), Magnitude(b));
  }

  method DivHeld(m: Internal, n: Internal, d: Internal, ghost a: nat, ghost b: nat) returns (r: Double)
    requires m != n && d != m && d != n && d.Valid() && Holds(m, a) && Holds(n, b)
    modifies m, n, d
    ensures QuotientOf(old(m.s), a, old(n.s), b, r)
  {
    ghost var x, y := m.R(), n.R();
    if 0 < a < INF && b < INF {
      MagMono(0, a);
      if b > 0 {
        DivCorrect(x, y, a, b);
        DivNormalCorrect(Normal(x), Normal(y));
        StoredRenorm(DivNormal(Normal(x), Normal(y)));
      } else {
        ZeroRounds(Mag(a));
        ZeroProduct(b, ONE);
      }
    }
    FpiDiv(m, n, d);
    r := FpiI2d(d);
  }

  // ---------- comparison ----------

  /** The comparison has the sign of the difference of the two values. */
  predicate CmpAgrees(c: int, v: int, w: int) {
    (c < 0 <==> v < w) && (c == 0 <==> v == w) && (c > 0 <==> v > w)
  }

  /** `fpicmp` orders doubles by value, infinity being above all others in magnitude, except exactly
      two zeros of different sign, which IEEE 754 calls equal (section 5.11 of IEEE 754-2008) and it
      does not. */
  lemma CmpCorrect(x: Internal, y: Internal, a: nat, b: nat)
    requires Holds(x, a) && Holds(y, b) && a <= INF && b <= INF
    ensures CmpAgrees(FpiCmp(x, y), Signed(x.s, Mag(a)), Signed(y.s, Mag(b))) <==> !(a == 0 && b == 0 && x.s != y.s)
  {
    Positive(a);
    Positive(b);
    if a < INF && b < INF {
      CmpFinite(x, y, a, b);
    } else {
      if a < INF {
        MagMono(a, INF);
      }
      if b < INF {
        MagMono(b, INF);
      }
    }
  }

  lemma Positive(a: nat)
    ensures Mag(a) > 0 <==> a > 0
  {
    if a > 0 {
      MagMono(0, a);
    }
  }

  lemma CmpFinite(x: Internal, y: Internal, a: nat, b: nat)
    requires Holds(x, a) && Holds(y, b) && a < INF && b < INF
    ensures CmpAgrees(FpiCmp(x, y), Signed(x.s, Mag(a)), Signed(y.s, Mag(b))) <==> !(a == 0 && b == 0 && x.s != y.s)
  {
    var p, q := x.R(), y.R();
    WordsOrder(x.h, x.l, y.h, y.l);
    WordsOrder(y.h, y.l, x.h, x.l);
    if Smaller(q, p) { OrderIsMagnitude(q, p); } else { OrderIsMagnitude(p, q); }
    Positive(a);
    Positive(b);
  }

  /** A NaN is not unordered for it (section 5.11 again): it stands beyond infinity of its own sign, and
      any two are equal. */
  lemma CmpNans(x: Internal, y: Internal, a: nat, b: nat)
    requires Holds(x, a) && Holds(y, b) && a > INF
    ensures b > INF ==> FpiCmp(x, y) == 0 == FpiCmp(y, x)
    ensures b <= INF ==> if x.s == 0 then FpiCmp(x, y) > 0 > FpiCmp(y, x) else FpiCmp(x, y) < 0 < FpiCmp(y, x)
  {
  }

  /** +0 and -0 compare unequal. */
  lemma CmpZeros(x: Internal, y: Internal)
    requires Holds(x, 0) && Holds(y, 0) && x.s == 0 && y.s == 1
    ensures FpiCmp(x, y) > 0 && Signed(x.s, Mag(0)) == Signed(y.s, Mag(0))
  {
    CmpCorrect(x, y, 0, 0);
  }
}
