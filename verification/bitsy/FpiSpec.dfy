/** The emulator's arithmetic on (exponent, 56-bit significand) pairs, and its correct rounding.

    A register holds e and m = h * 2^28 + l.  Its magnitude is m * 2^(e-1) / 8 in units of the
    smallest subnormal: 53 significand bits followed by three guard bits. */
module FpiSpec {
  import opened Arith
  import opened Ieee

  const CARRY: nat := 0x1000_0000        // CarryBit: 2^28
  const HIDDEN: nat := 0x0800_0000       // HiddenBit
  const NORM: nat := 0x80_0000_0000_0000 // HIDDEN * CARRY, the significand of 1.0: 2^55
  const FULL: nat := 0x100_0000_0000_0000 // CARRY * CARRY: 2^56
  const EXPINF: nat := 2047

  datatype Reg = Reg(e: int, m: nat)

  // ---------- sticky shifts ----------

  /** Shift right by one; a one that falls off stays visible in bit 0. */
  function Sticky(m: nat): nat {
    if m % 4 == 1 then m / 2 + 1 else m / 2
  }

  function ShiftRight(m: nat, count: nat): (r: nat)
    ensures r <= m
  {
    if count == 0 then m else ShiftRight(Sticky(m), count - 1)
  }

  /** m is n/d up to stickiness w: exactly n/d, or an odd multiple of w whose open neighbourhood
      of radius w holds n/d.  w = 1 is "round to odd"; w = 2 is that after one left shift. */
  ghost predicate Near(m: nat, n: nat, d: nat, w: nat)
    requires w == 1 || w == 2
  {
    n == Times(m, d) ||
    if w == 1 then m % 2 == 1 && Times(m, d) - d < n < Times(m, d) + d
    else m % 4 == 2 && Times(m, d) - 2 * d < n < Times(m, d) + 2 * d
  }

  /** One sticky shift moves twice the significand by at most one. */
  lemma NearSticky(m: nat, n: nat, d: nat)
    requires d > 0 && Near(m, n, d, 1)
    ensures Near(Sticky(m), n, 2 * d, 1)
  {
    var s := Sticky(m);
    TimesTwice(s, d);
    if m % 4 == 1 {
      assert 2 * s == 1 + m;
      TimesPlus(1, m, d);
      assert Times(1, d) == d + Times(0, d);
    } else if m % 4 == 3 {
      assert m == 1 + 2 * s;
      TimesPlus(1, 2 * s, d);
      assert Times(1, d) == d + Times(0, d);
    } else {
      assert 2 * s == m;
    }
  }

  lemma {:induction false} NearShiftRight(m: nat, n: nat, d: nat, count: nat)
    requires d > 0 && Near(m, n, d, 1)
    ensures Near(ShiftRight(m, count), n, Shl(d, count), 1)
    decreases count
  {
    if count > 0 {
      NearSticky(m, n, d);
      NearShiftRight(Sticky(m), n, 2 * d, count - 1);
      ShlShl(d, 1, count - 1);
      assert Shl(d, 1) == 2 * Shl(d, 0) == 2 * d;
    }
  }

  /** Scaling both sides of the quotient by a power of two changes nothing. */
  lemma NearShl(m: nat, n: nat, d: nat, k: nat)
    ensures Near(m, n, d, 1) <==> Near(m, Shl(n, k), Shl(d, k), 1)
  {
    ShlTimes(m, d, k);
    ShlBetween(n, Times(m, d), d, k);
  }

  lemma ShlBetween(n: nat, t: nat, d: nat, k: nat)
    ensures n == t <==> Shl(n, k) == Shl(t, k)
    ensures t - d < n <==> Shl(t, k) - Shl(d, k) < Shl(n, k)
    ensures n < t + d <==> Shl(n, k) < Shl(t, k) + Shl(d, k)
  {
    ShlPlus(t, d, k);
    ShlPlus(n, d, k);
    ShlOrder(n, t, k);
    ShlOrder(t, n, k);
    ShlOrder(n, t + d, k);
    ShlOrder(t, n + d, k);
  }

  /** Everything has fallen off the end: only stickiness is left. */
  lemma {:induction false} ShiftRightSmall(m: nat, count: nat)
    requires m <= Shl(1, count)
    ensures ShiftRight(m, count) == if m == 0 then 0 else 1
    decreases count
  {
    if count > 0 {
      StickySmall(m, Shl(1, count - 1));
      ShiftRightSmall(Sticky(m), count - 1);
    }
  }

  lemma StickySmall(m: nat, h: nat)
    requires m <= 2 * h
    ensures Sticky(m) <= h && (Sticky(m) == 0 <==> m == 0)
  {
  }

  lemma {:induction false} ShiftRightTwice(m: nat, a: nat, b: nat)
    ensures ShiftRight(m, a + b) == ShiftRight(ShiftRight(m, a), b)
    decreases a
  {
    if a > 0 {
      ShiftRightTwice(Sticky(m), a - 1, b);
    }
  }

  /** Low bits or-ed into one: what a whole-word shift leaves in bit 0. */
  function Squash(h: nat, l: nat): nat {
    if l != 0 && h % 2 == 0 then h + 1 else h
  }

  /** Dropping a whole low part at once, keeping "was anything there?" in bit 0, is the
      bit-serial sticky shift. */
  lemma {:induction false} ShiftRightWord(h: nat, l: nat, count: nat)
    requires l < Shl(1, count)
    ensures ShiftRight(Shl(h, count) + l, count) == Squash(h, l)
    decreases count
  {
    if count == 1 {
      assert Shl(h, 1) == 2 * Shl(h, 0) == 2 * h;
      assert ShiftRight(2 * h + l, 1) == ShiftRight(Sticky(2 * h + l), 0);
      StickyPair(h, l);
    } else if count > 1 {
      var k := Shl(h, count - 2);
      assert Shl(h, count) == 2 * Shl(h, count - 1) == 4 * k;
      StickyOffset(k, l, Shl(1, count - 1));
      ShiftRightWord(h, Sticky(l), count - 1);
    }
  }

  lemma StickyPair(h: nat, l: nat)
    requires l < 2
    ensures Sticky(2 * h + l) == Squash(h, l)
  {
  }

  lemma StickyOffset(k: nat, l: nat, q: nat)
    requires l < 2 * q && q % 2 == 0
    ensures Sticky(4 * k + l) == 2 * k + Sticky(l) && Sticky(l) < q && (Sticky(l) == 0 <==> l == 0)
  {
    assert (4 * k + l) % 4 == l % 4 && (4 * k + l) / 2 == 2 * k + l / 2;
  }

  // ---------- rounding ----------

  /** Round the three guard bits away, to nearest, ties to even. */
  function RoundM(m: nat): nat {
    m / 8 + if m % 8 > 4 || (m % 8 == 4 && m / 8 % 2 == 1) then 1 else 0
  }

  /** The code a register is stored as. */
  function Code(r: Reg): nat
    requires r.e >= 1
  {
    Enc(r.e - 1, RoundM(r.m))
  }

  /** A register that can be stored: finite, and normal unless it has the least exponent. */
  predicate Storable(r: Reg) {
    1 <= r.e < EXPINF && r.m < FULL && (r.m >= NORM || r.e == 1)
  }

  lemma RoundMOffset(m: nat)
    ensures var k := RoundM(m); var t := 8 * k - m;
      && -4 <= t <= 4 && (k % 2 == 1 ==> -4 < t < 4)
      && (m % 2 == 1 ==> -3 <= t <= 3) && (m % 4 == 2 ==> -2 <= t <= 2)
  {
    var q, g := m / 8, m % 8;
    Mod8(m);
    var up := if g > 4 || (g == 4 && q % 2 == 1) then 1 else 0;
    assert RoundM(m) == q + up;
    assert 8 * (q + up) - m == 8 * up - g;
    assert q % 2 == 1 ==> (q + 1) % 2 == 0;
  }

  lemma Even8(m: nat)
    requires m % 8 == 0
    ensures m % 2 == 0
  {
  }

  lemma Mod8(m: nat)
    ensures m == 8 * (m / 8) + m % 8 && m % 4 == m % 8 % 4 && m % 2 == m % 8 % 2
  {
    var q, g := m / 8, m % 8;
    assert m / 4 == 2 * q + g / 4;
    assert m / 2 == 4 * q + g / 2;
  }

  /** n/p is within 4 of the chosen multiple of 8, and 4 away only if that multiple is even. */
  lemma RoundMNear(m: nat, n: nat, p: nat, w: nat)
    requires p > 0 && (w == 1 || w == 2) && Near(m, n, p, w)
    ensures var k := RoundM(m);
      && 8 * Times(k, p) - 4 * p <= n <= 8 * Times(k, p) + 4 * p
      && (k % 2 == 1 ==> 8 * Times(k, p) - 4 * p < n < 8 * Times(k, p) + 4 * p)
  {
    RoundMOffset(m);
    var k := RoundM(m);
    var t := 8 * k - m;
    TimesEight(k, p);
    SmallTimes(p);
    if t >= 0 { TimesPlus(t, m, p); } else { TimesPlus(-t, 8 * k, p); }
  }

  lemma TimesEight(k: nat, p: nat)
    ensures Times(8 * k, p) == 8 * Times(k, p)
  {
    TimesTwice(k, p);
    TimesTwice(2 * k, p);
    TimesTwice(4 * k, p);
  }

  lemma SmallTimes(p: nat)
    ensures Times(0, p) == 0 && Times(1, p) == p && Times(2, p) == 2 * p && Times(3, p) == 3 * p && Times(4, p) == 4 * p
  {
    assert Times(1, p) == p + Times(0, p);
    assert Times(2, p) == p + Times(1, p);
    assert Times(3, p) == p + Times(2, p);
    assert Times(4, p) == p + Times(3, p);
  }

  lemma RoundMBounds(m: nat)
    requires m < FULL
    ensures RoundM(m) <= 2 * TWO52
    ensures m >= NORM ==> RoundM(m) >= TWO52
  {
  }

  /** The value is not above the midpoint over the code, and below it when the code is odd. */
  lemma UpperSide(r: Reg, n: nat, d: nat, w: nat)
    requires d > 0 && (w == 1 || w == 2) && Storable(r) && Near(r.m, 8 * n, Shl(d, r.e - 1), w)
    ensures 2 * n <= Times(Mag(Code(r)) + Mag(Code(r) + 1), d)
    ensures Code(r) % 2 == 1 ==> 2 * n < Times(Mag(Code(r)) + Mag(Code(r) + 1), d)
  {
    RoundMBounds(r.m);
    ShlGrows(d, r.e - 1);
    RoundMNear(r.m, 8 * n, Shl(d, r.e - 1), w);
    CodeParity(r.e, RoundM(r.m));
    UpperMidpoint(r.e, RoundM(r.m), d);
  }

  lemma LowerSide(r: Reg, n: nat, d: nat, w: nat)
    requires d > 0 && (w == 1 || w == 2) && Storable(r) && Near(r.m, 8 * n, Shl(d, r.e - 1), w) && Code(r) > 0
    ensures 2 * n >= Times(Mag(Code(r) - 1) + Mag(Code(r)), d)
    ensures Code(r) % 2 == 1 ==> 2 * n > Times(Mag(Code(r) - 1) + Mag(Code(r)), d)
  {
    RoundMBounds(r.m);
    if RoundM(r.m) > TWO52 || r.e == 1 {
      LowerInside(r, n, d, w);
    } else {
      LowerEdge(r, n, d, w);
    }
  }

  lemma LowerInside(r: Reg, n: nat, d: nat, w: nat)
    requires d > 0 && (w == 1 || w == 2) && Storable(r) && Near(r.m, 8 * n, Shl(d, r.e - 1), w) && Code(r) > 0
    requires RoundM(r.m) > TWO52 || r.e == 1
    ensures 2 * n >= Times(Mag(Code(r) - 1) + Mag(Code(r)), d)
    ensures Code(r) % 2 == 1 ==> 2 * n > Times(Mag(Code(r) - 1) + Mag(Code(r)), d)
  {
    RoundMBounds(r.m);
    ShlGrows(d, r.e - 1);
    RoundMNear(r.m, 8 * n, Shl(d, r.e - 1), w);
    CodeParity(r.e, RoundM(r.m));
    LowerMidpoint(r.e, RoundM(r.m), d);
  }

  /** At the bottom of a binade the gap below is the narrower one. */
  lemma LowerEdge(r: Reg, n: nat, d: nat, w: nat)
    requires d > 0 && (w == 1 || w == 2) && Storable(r) && Near(r.m, 8 * n, Shl(d, r.e - 1), w)
    requires RoundM(r.m) == TWO52 && r.m >= NORM
    ensures Code(r) % 2 == 0 && Code(r) > 0 && 2 * n >= Times(Mag(Code(r) - 1) + Mag(Code(r)), d)
  {
    ShlGrows(d, r.e - 1);
    CodeParity(r.e, TWO52);
    LowerBound(r.m, 8 * n, Shl(d, r.e - 1), w, TWO52);
    BelowCode(r.e, TWO52, d);
  }

  /** Rounding a (possibly sticky) register gives the correctly rounded code. */
  lemma RoundCorrect(r: Reg, n: nat, d: nat, w: nat)
    requires d > 0 && (w == 1 || w == 2) && Storable(r)
    requires Near(r.m, 8 * n, Shl(d, r.e - 1), w)
    ensures RoundsTo(n, d, Code(r))
  {
    RoundMBounds(r.m);
    UpperSide(r, n, d, w);
    if Code(r) > 0 {
      LowerSide(r, n, d, w);
    }
    NearestFromNeighbours(n, d, Code(r));
  }

  lemma CodeParity(e: nat, M: nat)
    requires e >= 1
    ensures Enc(e - 1, M) % 2 == M % 2
  {
    assert Enc(e - 1, M) == 2 * ((e - 1) * 0x8_0000_0000_0000) + M;
  }

  lemma MagTimes(e: nat, M: nat, d: nat)
    requires e >= 1 && M <= 2 * TWO52 && (e == 1 || M >= TWO52)
    ensures Times(Mag(Enc(e - 1, M)), d) == Times(M, Shl(d, e - 1))
  {
    MagEncode(e, M);
    ShlTimes(M, d, e - 1);
    TimesComm(Shl(M, e - 1), d);
    ShlTimes(d, M, e - 1);
    TimesComm(M, d);
  }

  /** Twice the midpoint above code (e, M): at the top of a binade the next gap is wider. */
  lemma UpperMidpoint(e: nat, M: nat, d: nat)
    requires e >= 1 && M <= 2 * TWO52 && (e == 1 || M >= TWO52)
    ensures var p, R := Shl(d, e - 1), Enc(e - 1, M);
      2 * Times(M, p) + p <= Times(Mag(R) + Mag(R + 1), d)
  {
    var R := Enc(e - 1, M);
    MagTimes(e, M, d);
    NextMag(e, M, d);
    TimesPlus(Mag(R), Mag(R + 1), d);
  }

  lemma NextMag(e: nat, M: nat, d: nat)
    requires e >= 1 && M <= 2 * TWO52 && (e == 1 || M >= TWO52)
    ensures Times(Mag(Enc(e - 1, M) + 1), d) >= Times(M, Shl(d, e - 1)) + Shl(d, e - 1)
  {
    var p := Shl(d, e - 1);
    TimesPlus(1, M, p);
    assert Times(1, p) == p + Times(0, p);
    if M < 2 * TWO52 {
      MagTimes(e, M + 1, d);
    } else {
      MagTimes(e + 1, TWO52 + 1, d);
      assert Shl(d, e) == 2 * p;
      TimesTwice(TWO52 + 1, p);
      SmallTimes(p);
      TimesPlus(2, M, p);
    }
  }

  lemma LowerMidpoint(e: nat, M: nat, d: nat)
    requires e >= 1 && 0 < M <= 2 * TWO52 && (e == 1 || M > TWO52)
    ensures var p, R := Shl(d, e - 1), Enc(e - 1, M);
      2 * Times(M, p) - p == Times(Mag(R - 1) + Mag(R), d)
  {
    var R, p := Enc(e - 1, M), Shl(d, e - 1);
    MagTimes(e, M, d);
    MagTimes(e, M - 1, d);
    assert Times(M, p) == p + Times(M - 1, p);
    TimesPlus(Mag(R - 1), Mag(R), d);
  }

  lemma BelowCode(e: nat, M: nat, d: nat)
    requires d > 0 && e >= 1 && 0 < M <= 2 * TWO52 && (e == 1 || M >= TWO52)
    ensures var R := Enc(e - 1, M); Times(Mag(R - 1) + Mag(R), d) <= 2 * Times(M, Shl(d, e - 1))
  {
    var R := Enc(e - 1, M);
    MagTimes(e, M, d);
    MagStep(R - 1);
    TimesOrder(Mag(R - 1), Mag(R), d);
    TimesPlus(Mag(R - 1), Mag(R), d);
  }

  /** Above a multiple of 8, a sticky significand does not overstate its magnitude past it. */
  lemma LowerBound(m: nat, n: nat, p: nat, w: nat, k: nat)
    requires (w == 1 || w == 2) && p > 0 && m >= 8 * k && Near(m, n, p, w)
    ensures n >= 8 * Times(k, p)
  {
    TimesEight(k, p);
    SmallTimes(p);
    TimesOrder(8 * k, m, p);
    if n != Times(m, p) {
      assert m >= 8 * k + w;
      TimesPlus(w, m - w, p);
      TimesOrder(8 * k, m - w, p);
    }
  }

  lemma OverflowCorrect(r: Reg, n: nat, d: nat, w: nat)
    requires d > 0 && (w == 1 || w == 2) && r.e >= EXPINF && r.m >= NORM
    requires Near(r.m, 8 * n, Shl(d, r.e - 1), w)
    ensures RoundsTo(n, d, INF)
  {
    ShlGrows(d, r.e - 1);
    LowerBound(r.m, 8 * n, Shl(d, r.e - 1), w, TWO52);
    MagTimes(r.e, TWO52, d);
    PastLargest(Enc(r.e - 1, TWO52), n, d);
  }

  lemma PastLargest(R: nat, n: nat, d: nat)
    requires d > 0 && R >= INF && n >= Times(Mag(R), d)
    ensures RoundsTo(n, d, INF)
  {
    if R > INF { MagMono(INF, R); }
    MagStep(INF - 1);
    TimesOrder(Mag(INF - 1) + Mag(INF), 2 * Mag(R), d);
    TimesTwice(Mag(R), d);
  }

  // ---------- the operations ----------

  function SetInf(): Reg { Reg(EXPINF, NORM) }

  function Saturate(r: Reg): Reg {
    if r.e >= EXPINF then SetInf() else r
  }

  /** `renormalise`: shift a tiny result down to exponent 1, and turn a huge one into infinity. */
  function Renorm(r: Reg): Reg {
    var r1 := if r.e < -56 then Reg(-56, r.m) else r;
    Saturate(if r1.e < 1 then Reg(1, ShiftRight(r1.m, 1 - r1.e)) else r1)
  }

  /** `normalise`: shift left until the hidden bit is set. */
  function Normal(r: Reg): (q: Reg)
    requires 0 < r.m < FULL
    ensures NORM <= q.m < FULL
    decreases NORM - r.m
  {
    if r.m >= NORM then r else Normal(Reg(r.e - 1, 2 * r.m))
  }

  /** The operand with the smaller exponent is shifted right, sticky, to the larger one's. */
  function AddAligned(x: Reg, y: Reg): Reg
    requires x.e <= y.e
  {
    Sum(y.e, ShiftRight(x.m, y.e - x.e) + y.m)
  }

  /** A sum that may have carried into a 57th bit. */
  function Sum(e: int, m: nat): Reg {
    Saturate(if m >= FULL then Reg(e + 1, Sticky(m)) else Reg(e, m))
  }

  function Add(x: Reg, y: Reg): Reg {
    if x.e > y.e then AddAligned(y, x) else AddAligned(x, y)
  }

  /** The loop after a subtraction: shift left while the result is not normal and not subnormal. */
  function Cancel(r: Reg): (q: Reg)
    requires 0 < r.m
    ensures r.e >= 1 ==> 1 <= q.e <= r.e
    decreases NORM - r.m
  {
    if r.e > 1 && r.m < NORM then Cancel(Reg(r.e - 1, 2 * r.m)) else r
  }

  predicate Smaller(y: Reg, x: Reg) {
    y.e < x.e || (y.e == x.e && y.m < x.m)
  }

  function SubAligned(x: Reg, y: Reg): Reg
    requires x.e <= y.e && ShiftRight(x.m, y.e - x.e) <= y.m
  {
    Difference(Reg(y.e, y.m - ShiftRight(x.m, y.e - x.e)))
  }

  function Difference(r: Reg): Reg {
    if r.m == 0 then Reg(1, 0) else Cancel(r)
  }

  /** The larger operand can absorb the aligned smaller one. */
  predicate SubOrdered(x: Reg, y: Reg) {
    if Smaller(y, x) then ShiftRight(y.m, x.e - y.e) <= x.m
    else x.e <= y.e && ShiftRight(x.m, y.e - x.e) <= y.m
  }

  function Sub(x: Reg, y: Reg): (r: Reg)
    requires SubOrdered(x, y)
    ensures x.e >= 1 && y.e >= 1 ==> r.e >= 1
  {
    if Smaller(y, x) then SubAligned(y, x) else SubAligned(x, y)
  }

  function Mul(x: Reg, y: Reg): Reg
    requires 0 < x.m < FULL && 0 < y.m < FULL
  {
    var (a, b) := (Normal(x), Normal(y));
    Renorm(MulNormal(a, b))
  }

  function MulNormal(a: Reg, b: Reg): Reg {
    ProductReg(a.e + b.e, Times(a.m, b.m))
  }

  /** A 112-bit product, brought to a leading one, with its low half squashed to a sticky bit. */
  function ProductReg(e: int, p: nat): Reg {
    if p / 0x100_0000_0000_0000 >= NORM then
      Reg(e - 1022, Squash(p / 0x100_0000_0000_0000, p % 0x100_0000_0000_0000))
    else
      Reg(e - 1023, Squash(2 * p / 0x100_0000_0000_0000, 2 * p % 0x100_0000_0000_0000))
  }

  /** Quotient y/x; x is the divisor, as in `fpidiv`. */
  function Div(x: Reg, y: Reg): Reg
    requires 0 < x.m < FULL && 0 < y.m < FULL
  {
    var (a, b) := (Normal(x), Normal(y));
    Renorm(DivNormal(a, b))
  }

  /** 55 or 56 quotient bits, then a sticky bit for the remainder. */
  function DivNormal(a: Reg, b: Reg): Reg
    requires a.m > 0
  {
    var k := if b.m >= a.m then 54 else 55;   // shifts before the last quotient bit
    var scaled := Shl(b.m, k);
    Reg(b.e - a.e + 1077 - k, Squash(2 * (scaled / a.m), scaled % a.m))
  }
}
