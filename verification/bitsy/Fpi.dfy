/** The floating point interpreter itself: registers whose fields the operations update in place.
    Bit operations on the source's 32-bit longs are written as arithmetic; the ranges stated show
    that no intermediate value leaves a signed 32-bit word or a 16-bit exponent. */
module Fpi {
  import opened Arith
  import opened FpiSpec
  import opened FpiRounding

  class Internal {
    var s: int    // sign: 0 or 1
    var e: int
    var l: int    // low 28 bits of the significand
    var h: int    // high 28 bits

    predicate Valid()
      reads this
    {
      (s == 0 || s == 1) && 0 <= l < CARRY && 0 <= h < CARRY && -0x8000 <= e < 0x8000
    }

    /** What the register holds, apart from its sign. */
    function R(): Reg
      requires Valid()
      reads this
    {
      Reg(e, h * 0x1000_0000 + l)
    }

    predicate IsWeird()
      reads this
    {
      e >= EXPINF
    }

    predicate IsInfinity()
      reads this
    {
      IsWeird() && h == HIDDEN && l == 0
    }

    /** The source masks HiddenBit away: a NaN has some other significand bit set. */
    predicate IsNaN()
      reads this
    {
      IsWeird() && ((h != 0 && h != HIDDEN) || l != 0)
    }

    predicate IsZero()
      reads this
    {
      e == 1 && h == 0 && l == 0
    }

    /** How every loaded register looks: normal, or subnormal at exponent 1, or weird. */
    predicate Canonical()
      reads this
    {
      Valid() && 1 <= e <= EXPINF && (h >= HIDDEN || e == 1)
    }

    /** The quiet NaN every invalid operation leaves. */
    predicate IsQNaN()
      reads this
    {
      s == 0 && e == EXPINF && h == HIDDEN + 16 && l == 0
    }

    method SetInfinity()
      modifies this
      ensures s == old(s) && IsInfinity() && e == EXPINF
    {
      e, h, l := EXPINF, HIDDEN, 0;
    }

    method SetQNaN()
      modifies this
      ensures Valid() && IsQNaN()
    {
      s, e, h, l := 0, EXPINF, HIDDEN + 16, 0;
    }

    method SetZero()
      modifies this
      ensures s == old(s) && e == 1 && h == 0 && l == 0
    {
      e, h, l := 1, 0, 0;
    }

    constructor ()
      ensures Valid()
    {
      s, e, l, h := 0, 1, 0, 0;
    }
  }

  // ---------- words and significands ----------

  /** Shifting the two words right together, with a sticky low bit. */
  lemma StickyWords(h: nat, l: nat)
    requires h < 2 * CARRY && l < CARRY
    ensures var l1 := if h % 2 == 1 then l + CARRY else l;
      var l2 := if l1 % 2 == 1 && l1 / 2 % 2 == 0 then l1 / 2 + 1 else l1 / 2;
      l2 < CARRY && h / 2 * 0x1000_0000 + l2 == Sticky(h * 0x1000_0000 + l)
  {
    var l1 := if h % 2 == 1 then l + CARRY else l;
    StickyOffset(h / 2 * 0x800_0000, l1, CARRY);
    StickyIs(l1);
  }

  lemma StickyIs(l: nat)
    ensures Sticky(l) == if l % 2 == 1 && l / 2 % 2 == 0 then l / 2 + 1 else l / 2
  {
    assert l == 2 * (l / 2) + l % 2 && l / 2 == 2 * (l / 4) + l / 2 % 2;
  }

  // ---------- rounding ----------

  function Rounded(r: Reg): Reg {
    if 8 * RoundM(r.m) < FULL then Reg(r.e, 8 * RoundM(r.m)) else Reg(r.e + 1, NORM)
  }

  lemma RoundWords(h: nat, l: nat)
    requires h < CARRY && l < CARRY
    ensures var g := l % 8; var up := g > 4 || (g == 4 && l / 8 % 2 == 1);
      8 * RoundM(h * 0x1000_0000 + l) == h * 0x1000_0000 + (l - g) + if up then 8 else 0
  {
    DivMod8(h * 0x200_0000, l);
    Even(h * 0x100_0000, l / 8);
  }

  lemma DivMod8(a: nat, l: nat)
    ensures (8 * a + l) / 8 == a + l / 8 && (8 * a + l) % 8 == l % 8
  {
  }

  lemma Even(a: nat, q: nat)
    ensures (2 * a + q) % 2 == q % 2
  {
  }

  /** The carry out of the low half, and out of the high half. */
  method CarryOver(i: Internal)
    requires i.l == CARRY && 0 <= i.h < CARRY
    modifies i`h, i`l, i`e
    ensures 0 <= i.h < CARRY && 0 <= i.l < CARRY
    ensures var m := old(i.h) * 0x1000_0000 + CARRY;
      if m < FULL then i.e == old(i.e) && i.h * 0x1000_0000 + i.l == m else i.e == old(i.e) + 1 && i.h * 0x1000_0000 + i.l == NORM
  {
    i.l := i.l - CARRY;
    i.h := i.h + 1;
    if i.h >= CARRY {
      if i.h % 2 == 1 {
        i.l := i.l + CARRY;
      }
      i.l := i.l / 2;
      i.h := i.h / 2;
      i.e := i.e + 1;
    }
  }

  /** Rounding to the 53 bits of a double.  Without guard bits it leaves any register alone. */
  method FpiRound(i: Internal)
    requires (i.Valid() && i.e < 0x7FFF) || i.l == 0
    modifies i
    ensures i.s == old(i.s)
    ensures old(i.Valid()) ==> i.Valid() && i.R() == Rounded(old(i.R()))
    ensures old(i.l) == 0 ==> i.e == old(i.e) && i.h == old(i.h) && i.l == 0
  {
    if i.Valid() {
      RoundWords(i.h, i.l);
    }
    var guard := i.l % 8;
    i.l := i.l - guard;
    if guard > 4 || (guard == 4 && i.l / 8 % 2 == 1) {
      i.l := i.l + 8;
      if i.l >= CARRY {
        CarryOver(i);
      }
    }
  }

  // ---------- shifting ----------

  lemma AllGone(h: nat, l: nat, count: nat)
    requires h < CARRY && l < CARRY && count >= 56
    ensures ShiftRight(h * 0x1000_0000 + l, count) == if l != 0 || h != 0 then 1 else 0
  {
    AllOut(h * 0x1000_0000 + l, count);
  }

  method MatchExponents(x: Internal, y: Internal)
    requires x != y && x.Valid() && y.Valid() && x.e <= y.e
    modifies x
    ensures x.Valid() && x.s == old(x.s) && x.e == y.e
    ensures x.R().m == ShiftRight(old(x.R().m), y.e - old(x.e))
  {
    var count := y.e - x.e;
    x.e := y.e;
    if count >= 56 {
      AllGone(x.h, x.l, count);
      x.l := if x.l != 0 || x.h != 0 then 1 else 0;
      x.h := 0;
      return;
    }
    if count >= 28 {
      WordOut(x.h, x.l, count);
      count := count - 28;
      x.l := if x.l != 0 && x.h % 2 == 0 then x.h + 1 else x.h;
      x.h := 0;
    }
    ShiftWords(x, count);
  }

  /** The bit-serial loop of `matchexponents`. */
  method ShiftWords(x: Internal, n: nat)
    requires x.Valid()
    modifies x
    ensures x.Valid() && x.s == old(x.s) && x.e == old(x.e) && x.R().m == ShiftRight(old(x.R().m), n)
  {
    var count := n;
    while count > 0
      invariant x.Valid() && x.s == old(x.s) && x.e == old(x.e) && count >= 0
      invariant ShiftRight(x.R().m, count) == ShiftRight(old(x.R().m), n)
    {
      count := count - 1;
      ShiftOne(x);
    }
  }

  /** One turn of it. */
  method ShiftOne(x: Internal)
    requires x.Valid()
    modifies x
    ensures x.Valid() && x.s == old(x.s) && x.e == old(x.e) && x.R().m == Sticky(old(x.R().m))
  {
    StickyWords(x.h, x.l);
    if x.h % 2 == 1 {
      x.l := x.l + CARRY;
    }
    if x.l % 2 == 1 && x.l / 2 % 2 == 0 {
      x.l := x.l + 2;
    }
    x.l := x.l / 2;
    x.h := x.h / 2;
  }

  lemma AllOut(m: nat, count: nat)
    requires m < FULL && count >= 56
    ensures ShiftRight(m, count) == if m == 0 then 0 else 1
  {
    Pow56();
    ShlShl(1, 56, count - 56);
    ShlGrows(Shl(1, 56), count - 56);
    ShiftRightSmall(m, count);
  }

  lemma WordOut(h: nat, l: nat, count: nat)
    requires h < CARRY && l < CARRY && count >= 28
    ensures ShiftRight(h * 0x1000_0000 + l, count) == ShiftRight(Squash(h, l), count - 28)
  {
    Pow28();
    ShlIs(h, 28);
    ShiftRightWord(h, l, 28);
    ShiftRightTwice(h * 0x1000_0000 + l, 28, count - 28);
  }

  method Shift(i: Internal)
    requires 0 <= i.l < CARRY && 0 <= i.h < 2 * CARRY
    modifies i
    ensures 0 <= i.l < CARRY && 0 <= i.h < 4 * CARRY && i.s == old(i.s) && i.e == old(i.e) - 1
    ensures i.h * 0x1000_0000 + i.l == 2 * old(i.h * 0x1000_0000 + i.l)
  {
    i.e := i.e - 1;
    i.h := 2 * i.h;
    i.l := 2 * i.l;
    if i.l >= CARRY {
      i.l := i.l - CARRY;
      i.h := i.h + 1;
    }
  }

  method Normalise(i: Internal)
    requires i.Valid() && i.R().m > 0 && i.e >= -0x7F00
    modifies i
    ensures i.Valid() && i.s == old(i.s) && i.R() == Normal(old(i.R())) && old(i.e) - 55 <= i.e <= old(i.e)
  {
    ghost var left := 55;
    Pow56();
    ShlOrder(1, i.R().m, 55);
    while i.h / HIDDEN % 2 == 0
      invariant i.Valid() && i.s == old(i.s) && i.R().m > 0 && Normal(i.R()) == Normal(old(i.R()))
      invariant 0 <= left <= 55 && i.e == old(i.e) - (55 - left) && Shl(i.R().m, left) >= NORM
      decreases CARRY - i.h, CARRY - i.l
    {
      if left > 0 { ShlTwice(i.R().m, left - 1); }
      Shift(i);
      left := left - 1;
    }
  }

  /** The step `renormalise` and `fpiadd` share: one place right, sticky, exponent up by one. */
  method StickyUp(i: Internal)
    requires 0 <= i.l < CARRY && 0 <= i.h < 2 * CARRY
    modifies i
    ensures 0 <= i.l < CARRY && 0 <= i.h < CARRY && i.s == old(i.s) && i.e == old(i.e) + 1
    ensures i.h * 0x1000_0000 + i.l == Sticky(old(i.h * 0x1000_0000 + i.l))
  {
    StickyWords(i.h, i.l);
    i.e := i.e + 1;
    if i.h % 2 == 1 {
      i.l := i.l + CARRY;
    }
    i.h := i.h / 2;
    i.l := if i.l % 2 == 1 && i.l / 2 % 2 == 0 then i.l / 2 + 1 else i.l / 2;
  }

  method Renormalise(i: Internal)
    requires i.Valid()
    modifies i
    ensures i.Valid() && i.s == old(i.s) && i.R() == Renorm(old(i.R()))
  {
    if i.e < -56 {
      i.e := -56;
    }
    ghost var r1 := i.R();
    while i.e < 1
      invariant i.Valid() && i.s == old(i.s) && r1.e <= i.e && (i.e == r1.e || i.e <= 1)
      invariant ShiftRight(i.R().m, if i.e < 1 then 1 - i.e else 0) == ShiftRight(r1.m, if r1.e < 1 then 1 - r1.e else 0)
    {
      StickyUp(i);
    }
    if i.e >= EXPINF {
      i.SetInfinity();
    }
  }

  // ---------- operations ----------

  /** Fields of a finite register as the words-level facts the operations test. */
  lemma WordsOrder(yh: nat, yl: nat, xh: nat, xl: nat)
    requires yl < CARRY && xl < CARRY
    ensures (yh < xh || (yh == xh && yl < xl)) <==> yh * 0x1000_0000 + yl < xh * 0x1000_0000 + xl
  {
  }

  method FpiAdd(x0: Internal, y0: Internal, i: Internal)
    requires x0 != y0 && i != x0 && i != y0 && x0.Canonical() && y0.Canonical() && i.Valid()
    modifies x0, y0, i
    ensures i.Valid()
    ensures old(x0.IsWeird() || y0.IsWeird()) ==>
      if old(x0.IsNaN() || y0.IsNaN()) then i.IsQNaN() else i.IsInfinity() && i.e == EXPINF && i.s == old(x0.s)
    ensures !old(x0.IsWeird() || y0.IsWeird()) ==>
      i.s == old(x0.s) && i.R() == Add(old(x0.R()), old(y0.R()))
  {
    var x, y := x0, y0;
    i.s := x.s;
    if x.IsWeird() || y.IsWeird() {
      if x.IsNaN() || y.IsNaN() {
        i.SetQNaN();
      } else {
        i.SetInfinity();
      }
      return;
    }
    if x.e > y.e {
      x, y := y, x;
    }
    AddOrdered(x, y, i);
  }

  /** The part of `fpiadd` after the operands are ordered: y has the larger exponent. */
  method AddOrdered(x: Internal, y: Internal, i: Internal)
    requires x != y && i != x && i != y && x.Valid() && y.Valid() && x.e <= y.e < EXPINF && i.Valid()
    modifies x, i
    ensures i.Valid() && i.s == old(i.s) && i.R() == AddAligned(old(x.R()), y.R())
  {
    MatchExponents(x, y);
    AddWords(x, y, i);
  }

  /** The sum of two aligned significands, carried into the exponent if it needs a 57th bit. */
  method AddWords(x: Internal, y: Internal, i: Internal)
    requires x != i && y != i && x.Valid() && y.Valid() && x.e == y.e < EXPINF && (i.s == 0 || i.s == 1)
    modifies i
    ensures i.Valid() && i.s == old(i.s) && i.R() == Sum(y.e, x.R().m + y.R().m)
  {
    i.e := x.e;
    i.h := x.h + y.h;
    i.l := x.l + y.l;
    if i.l >= CARRY {
      i.h := i.h + 1;
      i.l := i.l - CARRY;
    }
    if i.h >= 2 * HIDDEN {
      StickyUp(i);
    }
    if i.IsWeird() {
      i.SetInfinity();
    }
  }

  method FpiSub(x0: Internal, y0: Internal, i: Internal)
    requires x0 != y0 && i != x0 && i != y0 && x0.Canonical() && y0.Canonical() && i.Valid()
    modifies x0, y0, i
    ensures i.Valid()
    ensures old(x0.IsNaN() || y0.IsNaN() || (x0.IsInfinity() && y0.IsInfinity())) ==> i.IsQNaN()
    ensures old(x0.IsInfinity() && !y0.IsWeird()) ==> i.IsInfinity() && i.e == EXPINF && i.s == old(x0.s)
    ensures old(y0.IsInfinity() && !x0.IsWeird()) ==> i.IsInfinity() && i.e == EXPINF && i.s == old(y0.s)
    ensures !old(x0.IsWeird() || y0.IsWeird()) ==>
      && SubOrdered(old(x0.R()), old(y0.R()))
      && i.s == (if Smaller(old(y0.R()), old(x0.R())) then old(x0.s) else old(y0.s))
      && i.R() == Sub(old(x0.R()), old(y0.R()))
  {
    var x, y := x0, y0;
    WordsOrder(y.h, y.l, x.h, x.l);
    if y.e < x.e || (y.e == x.e && (y.h < x.h || (y.h == x.h && y.l < x.l))) {
      x, y := y, x;
    }
    SubLarger(x, y, i);
  }

  /** The part of `fpisub` after the operands are ordered: y is the larger. */
  method SubLarger(x: Internal, y: Internal, i: Internal)
    requires x != y && i != x && i != y && x.Canonical() && y.Canonical() && i.Valid() && !Smaller(y.R(), x.R())
    modifies x, i
    ensures i.Valid()
    ensures old(y.IsNaN() || (x.IsInfinity() && y.IsInfinity())) ==> i.IsQNaN()
    ensures old(y.IsInfinity() && !x.IsInfinity()) ==> i.IsInfinity() && i.e == EXPINF && i.s == old(y.s)
    ensures !old(y.IsWeird()) ==>
      && ShiftRight(old(x.R().m), y.e - old(x.e)) <= y.R().m
      && i.s == y.s && i.R() == SubAligned(old(x.R()), y.R())
  {
    i.s := y.s;
    if y.IsNaN() {
      i.SetQNaN();
      return;
    }
    if y.IsInfinity() {
      if x.IsInfinity() {
        i.SetQNaN();
      } else {
        i.SetInfinity();
      }
      return;
    }
    SubDefined(x.R(), y.R());
    MatchExponents(x, y);
    SubWords(x, y, i);
  }

  /** The difference of two aligned significands, shifted up until it is normal or subnormal. */
  method SubWords(x: Internal, y: Internal, i: Internal)
    requires x != i && y != i && x.Valid() && y.Valid() && 1 <= y.e && x.R().m <= y.R().m && (i.s == 0 || i.s == 1)
    modifies i
    ensures i.Valid() && i.s == old(i.s) && i.R() == Difference(Reg(y.e, y.R().m - x.R().m))
  {
    i.e := y.e;
    i.h := y.h - x.h;
    i.l := y.l - x.l;
    if i.l < 0 {
      i.l := i.l + CARRY;
      i.h := i.h - 1;
    }
    if i.h == 0 && i.l == 0 {
      i.SetZero();
    } else {
      ghost var r := i.R();
      while i.e > 1 && i.h / HIDDEN % 2 == 0
        invariant i.Valid() && i.s == old(i.s) && i.R().m > 0 && i.e <= r.e && Cancel(i.R()) == Cancel(r)
        decreases i.e
      {
        Shift(i);
      }
    }
  }

  // ---------- multiplication ----------

  const CHUNK: nat := 0x4000   // 2^14

  /** One row of the schoolbook: a 56-bit number in 14-bit chunks times one chunk. */
  lemma Row(a0: nat, a1: nat, a2: nat, a3: nat, b: nat)
    ensures (a0 * 0x400_0000_0000 + a1 * 0x1000_0000 + a2 * 0x4000 + a3) * b
         == (a0 * b) * 0x400_0000_0000 + (a1 * b) * 0x1000_0000 + (a2 * b) * 0x4000 + a3 * b
  {
  }

  /** All sixteen chunk products, by weight. */
  lemma Rows(a0: nat, a1: nat, a2: nat, a3: nat, b0: nat, b1: nat, b2: nat, b3: nat)
    ensures Times(a0 * 0x400_0000_0000 + a1 * 0x1000_0000 + a2 * 0x4000 + a3,
                  b0 * 0x400_0000_0000 + b1 * 0x1000_0000 + b2 * 0x4000 + b3)
         == (a0 * b0) * 0x10_0000_0000_0000_0000_0000
          + (a0 * b1 + a1 * b0) * 0x40_0000_0000_0000_0000
          + (a0 * b2 + a1 * b1 + a2 * b0) * 0x100_0000_0000_0000
          + (a0 * b3 + a1 * b2 + a2 * b1 + a3 * b0) * 0x400_0000_0000
          + (a1 * b3 + a2 * b2 + a3 * b1) * 0x1000_0000
          + (a2 * b3 + a3 * b2) * 0x4000
          + a3 * b3
  {
    var a := a0 * 0x400_0000_0000 + a1 * 0x1000_0000 + a2 * 0x4000 + a3;
    Row(a0, a1, a2, a3, b0);
    Row(a0, a1, a2, a3, b1);
    Row(a0, a1, a2, a3, b2);
    Row(a0, a1, a2, a3, b3);
    RowSums(a, b0, b1, b2, b3);
    Weights(a0 * b0, a1 * b0, a2 * b0, a3 * b0, a0 * b1, a1 * b1, a2 * b1, a3 * b1,
            a0 * b2, a1 * b2, a2 * b2, a3 * b2, a0 * b3, a1 * b3, a2 * b3, a3 * b3);
  }

  /** The rows' products collected by weight. */
  lemma Weights(c00: int, c10: int, c20: int, c30: int, c01: int, c11: int, c21: int, c31: int,
                c02: int, c12: int, c22: int, c32: int, c03: int, c13: int, c23: int, c33: int)
    ensures (c00 * 0x400_0000_0000 + c10 * 0x1000_0000 + c20 * 0x4000 + c30) * 0x400_0000_0000
          + (c01 * 0x400_0000_0000 + c11 * 0x1000_0000 + c21 * 0x4000 + c31) * 0x1000_0000
          + (c02 * 0x400_0000_0000 + c12 * 0x1000_0000 + c22 * 0x4000 + c32) * 0x4000
          + (c03 * 0x400_0000_0000 + c13 * 0x1000_0000 + c23 * 0x4000 + c33)
         == c00 * 0x10_0000_0000_0000_0000_0000 + (c01 + c10) * 0x40_0000_0000_0000_0000
          + (c02 + c11 + c20) * 0x100_0000_0000_0000 + (c03 + c12 + c21 + c30) * 0x400_0000_0000
          + (c13 + c22 + c31) * 0x1000_0000 + (c23 + c32) * 0x4000 + c33
  {
  }

  /** A product, row by row. */
  lemma RowSums(a: nat, b0: nat, b1: nat, b2: nat, b3: nat)
    ensures Times(a, b0 * 0x400_0000_0000 + b1 * 0x1000_0000 + b2 * 0x4000 + b3)
         == (a * b0) * 0x400_0000_0000 + (a * b1) * 0x1000_0000 + (a * b2) * 0x4000 + a * b3
  {
    Row(b0, b1, b2, b3, a);
    TimesIs(a, b0 * 0x400_0000_0000 + b1 * 0x1000_0000 + b2 * 0x4000 + b3);
    Commute(a, b0);
    Commute(a, b1);
    Commute(a, b2);
    Commute(a, b3);
    Commute(a, b0 * 0x400_0000_0000 + b1 * 0x1000_0000 + b2 * 0x4000 + b3);
  }

  lemma Commute(a: int, b: int)
    ensures a * b == b * a
  {
  }

  lemma ChunkProduct(a: nat, b: nat)
    requires a < CHUNK && b < CHUNK
    ensures 0 <= a * b <= 0x3FFF * 0x3FFF
  {
    MulMono(a, 0x3FFF, b);
    MulMono(b, 0x3FFF, 0x3FFF);
  }

  /** Carrying each column into the next leaves the same number, in chunks. */
  lemma Carries(s0: nat, s1: nat, s2: nat, s3: nat, s4: nat, s5: nat, s6: nat)
    ensures var c6 := s6; var c5 := s5 + c6 / 0x4000; var c4 := s4 + c5 / 0x4000; var c3 := s3 + c4 / 0x4000;
      var c2 := s2 + c3 / 0x4000; var c1 := s1 + c2 / 0x4000; var c0 := s0 + c1 / 0x4000;
      s0 * 0x10_0000_0000_0000_0000_0000 + s1 * 0x40_0000_0000_0000_0000 + s2 * 0x100_0000_0000_0000
        + s3 * 0x400_0000_0000 + s4 * 0x1000_0000 + s5 * 0x4000 + s6
      == (c0 * 0x1000_0000 + (c1 % 0x4000 * 0x4000 + c2 % 0x4000)) * 0x100_0000_0000_0000
        + ((c3 % 0x4000 * 0x4000 + c4 % 0x4000) * 0x1000_0000 + (c5 % 0x4000 * 0x4000 + c6 % 0x4000))
  {
  }

  lemma Halves(p: nat, hi: nat, lo: nat)
    requires p == hi * 0x100_0000_0000_0000 + lo && lo < FULL
    ensures p / 0x100_0000_0000_0000 == hi && p % 0x100_0000_0000_0000 == lo
  {
  }

  lemma Chunks(m: nat)
    requires m < CARRY
    ensures m == m / 0x4000 * 0x4000 + m % 0x4000 && m / 0x4000 < CHUNK
  {
  }

  lemma FourChunks(h: nat, l: nat)
    requires h < CARRY && l < CARRY
    ensures h / 0x4000 % 0x4000 < CHUNK && h % 0x4000 < CHUNK && l / 0x4000 % 0x4000 < CHUNK && l % 0x4000 < CHUNK
    ensures h * 0x1000_0000 + l ==
      h / 0x4000 % 0x4000 * 0x400_0000_0000 + h % 0x4000 * 0x1000_0000 + l / 0x4000 % 0x4000 * 0x4000 + l % 0x4000
  {
    Chunks(h);
    Chunks(l);
  }

  /** The seven chunk columns rebuild the exact 112-bit product, as four 28-bit words. */
  method MulWords(x: Internal, y: Internal) returns (f0: int, f1: int, f2: int, f3: int)
    requires x.Valid() && y.Valid()
    ensures 0 <= f0 < CARRY && 0 <= f1 < CARRY && 0 <= f2 < CARRY && 0 <= f3 < CARRY
    ensures Times(x.R().m, y.R().m) == (f0 * 0x1000_0000 + f1) * 0x100_0000_0000_0000 + (f2 * 0x1000_0000 + f3)
  {
    var a0, a1, a2, a3 := x.h / 0x4000 % 0x4000, x.h % 0x4000, x.l / 0x4000 % 0x4000, x.l % 0x4000;
    var b0, b1, b2, b3 := y.h / 0x4000 % 0x4000, y.h % 0x4000, y.l / 0x4000 % 0x4000, y.l % 0x4000;
    FourChunks(x.h, x.l);
    FourChunks(y.h, y.l);
    var s0, s1, s2, s3, s4, s5, s6 := Columns(a0, a1, a2, a3, b0, b1, b2, b3);
    f0, f1, f2, f3 := Spill(s0, s1, s2, s3, s4, s5, s6);
    TopWord(x.R().m, y.R().m, f0, f1 * 0x100_0000_0000_0000 + (f2 * 0x1000_0000 + f3));
  }

  /** Each column's overflow spills into the next; no partial sum leaves a signed 32-bit word. */
  method Spill(s0: nat, s1: nat, s2: nat, s3: nat, s4: nat, s5: nat, s6: nat)
      returns (f0: int, f1: int, f2: int, f3: int)
    requires s0 <= 0xFFF8001 && s1 <= 2 * 0xFFF8001 && s2 <= 3 * 0xFFF8001 && s3 <= 4 * 0xFFF8001
    requires s4 <= 3 * 0xFFF8001 && s5 <= 2 * 0xFFF8001 && s6 <= 0xFFF8001
    ensures 0 <= f0 && 0 <= f1 < CARRY && 0 <= f2 < CARRY && 0 <= f3 < CARRY
    ensures s0 * 0x10_0000_0000_0000_0000_0000 + s1 * 0x40_0000_0000_0000_0000 + s2 * 0x100_0000_0000_0000
          + s3 * 0x400_0000_0000 + s4 * 0x1000_0000 + s5 * 0x4000 + s6
         == (f0 * 0x1000_0000 + f1) * 0x100_0000_0000_0000 + (f2 * 0x1000_0000 + f3)
  {
    var c6 := s6;
    var c5 := s5 + c6 / 0x4000;
    var c4 := s4 + c5 / 0x4000;
    var c3 := s3 + c4 / 0x4000;
    var c2 := s2 + c3 / 0x4000;
    var c1 := s1 + c2 / 0x4000;
    var c0 := s0 + c1 / 0x4000;
    assert c6 < 0x8000_0000 && c5 < 0x8000_0000 && c4 < 0x8000_0000 && c3 < 0x8000_0000;
    assert c2 < 0x8000_0000 && c1 < 0x8000_0000 && c0 < 0x8000_0000;
    Carries(s0, s1, s2, s3, s4, s5, s6);
    f0 := c0;
    f1 := c1 % 0x4000 * 0x4000 + c2 % 0x4000;
    f2 := c3 % 0x4000 * 0x4000 + c4 % 0x4000;
    f3 := c5 % 0x4000 * 0x4000 + c6 % 0x4000;
  }

  /** The chunk products, summed by weight. */
  method Columns(a0: nat, a1: nat, a2: nat, a3: nat, b0: nat, b1: nat, b2: nat, b3: nat)
      returns (s0: nat, s1: nat, s2: nat, s3: nat, s4: nat, s5: nat, s6: nat)
    requires a0 < CHUNK && a1 < CHUNK && a2 < CHUNK && a3 < CHUNK
    requires b0 < CHUNK && b1 < CHUNK && b2 < CHUNK && b3 < CHUNK
    ensures Times(a0 * 0x400_0000_0000 + a1 * 0x1000_0000 + a2 * 0x4000 + a3,
                  b0 * 0x400_0000_0000 + b1 * 0x1000_0000 + b2 * 0x4000 + b3)
         == s0 * 0x10_0000_0000_0000_0000_0000 + s1 * 0x40_0000_0000_0000_0000 + s2 * 0x100_0000_0000_0000
          + s3 * 0x400_0000_0000 + s4 * 0x1000_0000 + s5 * 0x4000 + s6
    ensures s0 <= 0xFFF8001 && s1 <= 2 * 0xFFF8001 && s2 <= 3 * 0xFFF8001 && s3 <= 4 * 0xFFF8001
    ensures s4 <= 3 * 0xFFF8001 && s5 <= 2 * 0xFFF8001 && s6 <= 0xFFF8001
  {
    ChunkProduct(a0, b0); ChunkProduct(a0, b1); ChunkProduct(a0, b2); ChunkProduct(a0, b3);
    ChunkProduct(a1, b0); ChunkProduct(a1, b1); ChunkProduct(a1, b2); ChunkProduct(a1, b3);
    ChunkProduct(a2, b0); ChunkProduct(a2, b1); ChunkProduct(a2, b2); ChunkProduct(a2, b3);
    ChunkProduct(a3, b0); ChunkProduct(a3, b1); ChunkProduct(a3, b2); ChunkProduct(a3, b3);
    Rows(a0, a1, a2, a3, b0, b1, b2, b3);
    s6 := a3 * b3;
    s5 := a2 * b3 + a3 * b2;
    s4 := a1 * b3 + a2 * b2 + a3 * b1;
    s3 := a0 * b3 + a1 * b2 + a2 * b1 + a3 * b0;
    s2 := a0 * b2 + a1 * b1 + a2 * b0;
    s1 := a0 * b1 + a1 * b0;
    s0 := a0 * b0;
  }

  lemma TopWord(a: nat, b: nat, f0: nat, rest: nat)
    requires a < FULL && b < FULL && Times(a, b) == f0 * 0x10_0000_0000_0000_0000_0000 + rest
    ensures f0 < CARRY
  {
    TimesIs(a, b);
    MulMono(a, 0x100_0000_0000_0000, b);
    MulMono(b, 0x100_0000_0000_0000, 0x100_0000_0000_0000);
  }

  method FpiMul(x: Internal, y: Internal, i: Internal)
    requires x != y && i != x && i != y && x.Canonical() && y.Canonical() && i.Valid()
    modifies x, y, i
    ensures i.Valid()
    ensures old(x.IsWeird() || y.IsWeird()) ==>
      if old(x.IsNaN() || y.IsNaN() || x.IsZero() || y.IsZero()) then i.IsQNaN()
      else i.IsInfinity() && i.e == EXPINF && i.s == SignXor(old(x.s), old(y.s))
    ensures !old(x.IsWeird() || y.IsWeird()) ==> i.s == SignXor(old(x.s), old(y.s))
    ensures !old(x.IsWeird() || y.IsWeird()) && old(x.IsZero() || y.IsZero()) ==> i.IsZero()
    ensures !old(x.IsWeird() || y.IsWeird() || x.IsZero() || y.IsZero()) ==>
      old(x.R().m) > 0 && old(y.R().m) > 0 && i.R() == Mul(old(x.R()), old(y.R()))
  {
    i.s := SignXor(x.s, y.s);
    if x.IsWeird() || y.IsWeird() {
      if x.IsNaN() || y.IsNaN() || x.IsZero() || y.IsZero() {
        i.SetQNaN();
      } else {
        i.SetInfinity();
      }
      return;
    } else if x.IsZero() || y.IsZero() {
      i.SetZero();
      return;
    }
    Normalise(x);
    Normalise(y);
    MulNormalised(x, y, i);
  }

  function SignXor(a: int, b: int): int {
    if a == b then 0 else 1
  }

  /** A product's words, brought to a leading one. */
  method StoreProduct(e: int, w0: int, w1: int, w2: int, w3: int, i: Internal, ghost p: nat)
    requires 0 <= w0 < CARRY && 0 <= w1 < CARRY && 0 <= w2 < CARRY && 0 <= w3 < CARRY
    requires p == (w0 * 0x1000_0000 + w1) * 0x100_0000_0000_0000 + (w2 * 0x1000_0000 + w3)
    modifies i
    ensures i.s == old(i.s) && 0 <= i.h < CARRY && 0 <= i.l < CARRY
    ensures Reg(i.e, i.h * 0x1000_0000 + i.l) == ProductReg(e, p)
  {
    var f0, f1, f2, f3 := w0, w1, w2, w3;
    i.e := e - (1023 - 1);
    if f0 / HIDDEN % 2 == 0 {
      f0, f1, f2, f3 := DoubleWords(f0, f1, f2, f3);
      i.e := i.e - 1;
      ProductLow(e, p, f0, f1, f2, f3);
    } else {
      ProductHigh(e, p, f0, f1, f2, f3);
    }
    StoreSticky(f0, f1, f2 != 0 || f3 != 0, i);
  }

  /** The product of two normalised significands. */
  method MulProduct(x: Internal, y: Internal, i: Internal)
    requires i != x && i != y && x.Valid() && y.Valid() && i.Valid() && x.R().m >= NORM && y.R().m >= NORM
    requires -60 <= x.e < EXPINF && -60 <= y.e < EXPINF
    modifies i
    ensures i.Valid() && i.s == old(i.s) && i.R() == MulNormal(x.R(), y.R())
  {
    var f0, f1, f2, f3 := MulWords(x, y);
    StoreProduct(x.e + y.e, f0, f1, f2, f3, i, Times(x.R().m, y.R().m));
  }

  /** The part of `fpimul` after both operands are normalised. */
  method MulNormalised(x: Internal, y: Internal, i: Internal)
    requires i != x && i != y && x.Valid() && y.Valid() && i.Valid() && x.R().m >= NORM && y.R().m >= NORM
    requires -60 <= x.e < EXPINF && -60 <= y.e < EXPINF
    modifies i
    ensures i.Valid() && i.s == old(i.s) && i.R() == Renorm(MulNormal(x.R(), y.R()))
  {
    MulProduct(x, y, i);
    Renormalise(i);
  }

  /** The two words a product or quotient leaves, with everything below them in bit 0. */
  method StoreSticky(h: int, l: int, below: bool, i: Internal)
    requires 0 <= h < CARRY && 0 <= l < CARRY
    modifies i
    ensures i.s == old(i.s) && i.e == old(i.e) && 0 <= i.l < CARRY && 0 <= i.h < CARRY
    ensures i.h * 0x1000_0000 + i.l == Squash(h * 0x1000_0000 + l, if below then 1 else 0)
  {
    i.h := h;
    i.l := l;
    if below {
      i.l := if i.l % 2 == 0 then i.l + 1 else i.l;
    }
    Even(h * 0x800_0000, l);
  }

  lemma ProductHigh(e: int, p: nat, f0: nat, f1: nat, f2: nat, f3: nat)
    requires HIDDEN <= f0 < CARRY && f1 < CARRY && f2 < CARRY && f3 < CARRY
    requires p == (f0 * 0x1000_0000 + f1) * 0x100_0000_0000_0000 + (f2 * 0x1000_0000 + f3)
    ensures ProductReg(e, p) == Reg(e - 1022, Squash(f0 * 0x1000_0000 + f1, if f2 != 0 || f3 != 0 then 1 else 0))
  {
    Halves(p, f0 * 0x1000_0000 + f1, f2 * 0x1000_0000 + f3);
  }

  lemma ProductLow(e: int, p: nat, f0: nat, f1: nat, f2: nat, f3: nat)
    requires f0 < CARRY && f1 < CARRY && f2 < CARRY && f3 < CARRY
    requires 2 * p == (f0 * 0x1000_0000 + f1) * 0x100_0000_0000_0000 + (f2 * 0x1000_0000 + f3)
    ensures ProductReg(e, p) == Reg(e - 1023, Squash(f0 * 0x1000_0000 + f1, if f2 != 0 || f3 != 0 then 1 else 0))
  {
    Halves(2 * p, f0 * 0x1000_0000 + f1, f2 * 0x1000_0000 + f3);
    assert p / 0x100_0000_0000_0000 < NORM;
  }

  method DoubleWords(w0: int, w1: int, w2: int, w3: int) returns (f0: int, f1: int, f2: int, f3: int)
    requires 0 <= w0 < HIDDEN && 0 <= w1 < CARRY && 0 <= w2 < CARRY && 0 <= w3 < CARRY
    ensures 0 <= f0 < CARRY && 0 <= f1 < CARRY && 0 <= f2 < CARRY && 0 <= f3 < CARRY
    ensures (f0 * 0x1000_0000 + f1) * 0x100_0000_0000_0000 + (f2 * 0x1000_0000 + f3)
         == 2 * ((w0 * 0x1000_0000 + w1) * 0x100_0000_0000_0000 + (w2 * 0x1000_0000 + w3))
  {
    f0, f1, f2, f3 := 2 * w0, 2 * w1, 2 * w2, 2 * w3;
    if f1 >= CARRY {
      f0 := f0 + 1;
      f1 := f1 - CARRY;
    }
    if f2 >= CARRY {
      f1 := f1 + 1;
      f2 := f2 - CARRY;
    }
    if f3 >= CARRY {
      f2 := f2 + 1;
      f3 := f3 - CARRY;
    }
  }

  // ---------- division ----------

  method FpiDiv(x: Internal, y: Internal, i: Internal)
    requires x != y && i != x && i != y && x.Canonical() && y.Canonical() && i.Valid()
    modifies x, y, i
    ensures i.Valid()
    ensures old(x.IsNaN() || y.IsNaN() || (x.IsInfinity() && y.IsInfinity()) || (x.IsZero() && y.IsZero())) ==> i.IsQNaN()
    ensures !old(x.IsNaN() || y.IsNaN() || (x.IsInfinity() && y.IsInfinity()) || (x.IsZero() && y.IsZero())) ==>
      && i.s == SignXor(old(x.s), old(y.s))
      && (old(x.IsZero() || y.IsInfinity()) ==> i.IsInfinity() && i.e == EXPINF)
      && (old(x.IsInfinity() || y.IsZero()) ==> i.IsZero())
    ensures !old(x.IsWeird() || y.IsWeird() || x.IsZero() || y.IsZero()) ==>
      old(x.R().m) > 0 && old(y.R().m) > 0 && i.R() == Div(old(x.R()), old(y.R()))
  {
    i.s := SignXor(x.s, y.s);
    if x.IsNaN() || y.IsNaN() || (x.IsInfinity() && y.IsInfinity()) || (x.IsZero() && y.IsZero()) {
      i.SetQNaN();
      return;
    } else if x.IsZero() || y.IsInfinity() {
      i.SetInfinity();
      return;
    } else if x.IsInfinity() || y.IsZero() {
      i.SetZero();
      return;
    }
    Normalise(x);
    Normalise(y);
    DivNormalised(x, y, i);
  }

  /** After n bits of restoring division: b * 2^(n-1) == q * d + rem. */
  ghost predicate Partial(q: nat, rem: nat, n: nat, d: nat, b: nat) {
    && n <= 56 && q < NORM
    && (n == 0 ==> q == 0)
    && (n > 0 ==> rem < d && Times(q, d) + rem == Shl(b, n - 1))
    && (n >= 2 ==> q >= Shl(1, n - 2))
  }

  /** What the dividend register holds: the dividend, and from then on twice the remainder. */
  function Rest(rem: nat, n: nat, b: nat): nat {
    if n == 0 then b else 2 * rem
  }

  lemma DivStep(q: nat, d: nat, rem: nat, b: nat, n: nat)
    requires NORM <= d < FULL && NORM <= b < FULL && q < NORM / 2 && Partial(q, rem, n, d, b)
    ensures Rest(rem, n, b) < 2 * d
    ensures var rest := Rest(rem, n, b);
      if rest >= d then Partial(2 * q + 1, rest - d, n + 1, d, b) else Partial(2 * q, rest, n + 1, d, b)
  {
    TimesTwice(q, d);
    TimesPlus(1, 2 * q, d);
    SmallTimes(d);
    Pow56();
    if n == 1 && q == 0 {
      assert Shl(b, 0) == b;
    }
  }

  /** The loop ends exactly when the quotient has its 55 bits, whatever the operands. */
  lemma DivDone(q: nat, d: nat, rem: nat, b: nat, n: nat, a: Reg, y: Reg)
    requires a.m == d && y.m == b && NORM <= d < FULL && NORM <= b < FULL && NORM / 2 <= q
    requires Partial(q, rem, n, d, b)
    ensures n > 0 && DivNormal(a, y) == Reg(y.e - a.e + 1078 - n, Squash(2 * q, rem))
  {
    var k := if b >= d then 54 else 55;
    QuotientBits(d, b, k);
    DivModOf(Shl(b, k), d);
    var q', rem' := Shl(b, k) / d, Shl(b, k) % d;
    if n - 1 < k {
      ShlShl(b, n - 1, k - n);
      ShlGrows(Shl(b, n - 1), k - n);
      TwiceAsLong(q, rem, q', rem', d);
    } else if k < n - 1 {
      ShlShl(b, k, n - 2 - k);
      ShlGrows(Shl(b, k), n - 2 - k);
      TwiceAsLong(q', rem', q, rem, d);
    }
    SameQuotient(q, rem, q', rem', d);
  }

  lemma TwiceAsLong(q: nat, rem: nat, q': nat, rem': nat, d: nat)
    requires d > 0 && rem < d && rem' < d && Times(q', d) + rem' >= 2 * (Times(q, d) + rem)
    ensures q' >= 2 * q
  {
    TimesTwice(q, d);
    TimesPlus(1, q', d);
    SmallTimes(d);
    TimesOrder(2 * q, q' + 1, d);
  }

  lemma SameQuotient(q: nat, rem: nat, q': nat, rem': nat, d: nat)
    requires d > 0 && rem < d && rem' < d
    ensures Times(q, d) + rem == Times(q', d) + rem' ==> q == q' && rem == rem'
  {
    TimesPlus(1, q, d);
    TimesPlus(1, q', d);
    SmallTimes(d);
    TimesOrder(q, q' + 1, d);
    TimesOrder(q', q + 1, d);
  }

  /** One turn of `fpidiv`: subtract the divisor if it fits, record the bit, shift both. */
  method DivBit(x: Internal, y: Internal, i: Internal)
    requires x != y && i != x && i != y && x.Valid() && 0 <= i.l < CARRY && 0 <= i.h < CARRY && i.l % 2 == 0
    requires 0 <= y.l < CARRY && 0 <= y.h < 2 * CARRY && y.h * 0x1000_0000 + y.l < 2 * x.R().m
    modifies y, i
    ensures 0 <= y.l < CARRY && 0 <= y.h < 2 * CARRY && i.e == old(i.e) - 1 && i.s == old(i.s)
    ensures 0 <= i.l < CARRY && 0 <= i.h < 2 * CARRY
    ensures var rest := old(y.h * 0x1000_0000 + y.l); var d := x.R().m;
      && y.h * 0x1000_0000 + y.l == 2 * (if rest >= d then rest - d else rest)
      && i.h * 0x1000_0000 + i.l == 2 * (old(i.h * 0x1000_0000 + i.l) + if rest >= d then 1 else 0)
  {
    if y.h > x.h || (y.h == x.h && y.l >= x.l) {
      i.l := i.l + 1;
      y.h := y.h - x.h;
      y.l := y.l - x.l;
      if y.l < 0 {
        y.l := y.l + CARRY;
        y.h := y.h - 1;
      }
    }
    Shift(y);
    Shift(i);
  }

  /** The hidden bit comes up when the quotient has its 55 bits. */
  lemma HiddenUp(h: int, l: int, q: nat)
    requires 0 <= h < CARRY && 0 <= l < CARRY && h * 0x1000_0000 + l == 2 * q
    ensures h / HIDDEN % 2 == 0 <==> q < NORM / 2
  {
  }

  /** The loop of `fpidiv`: one quotient bit a turn.  After n turns i holds twice the first n quotient
      bits, and y twice what is left of the dividend. */
  method DivLoop(x: Internal, y: Internal, i: Internal, ghost b: nat) returns (ghost q: nat, ghost rem: nat, ghost n: nat)
    requires x != y && i != x && i != y && x.Valid() && y.Valid() && x.R().m >= NORM && b == y.R().m >= NORM
    requires i.h == 0 && i.l == 0
    modifies y, i
    ensures i.s == old(i.s) && i.e == old(i.e) - n && 0 <= i.l < CARRY && 0 <= i.h < CARRY
    ensures NORM / 2 <= q && i.h * 0x1000_0000 + i.l == 2 * q && Partial(q, rem, n, x.R().m, b) && n > 0
    ensures 0 <= y.l < CARRY && 0 <= y.h < 2 * CARRY && y.h * 0x1000_0000 + y.l == Rest(rem, n, b)
  {
    ghost var d := x.R().m;
    n, q, rem := 0, 0, 0;
    var more := true;
    while more
      invariant i.s == old(i.s) && i.e == old(i.e) - n
      invariant 0 <= i.l < CARRY && 0 <= i.h < CARRY && i.h * 0x1000_0000 + i.l == 2 * q
      invariant 0 <= y.l < CARRY && 0 <= y.h < 2 * CARRY && y.h * 0x1000_0000 + y.l == Rest(rem, n, b)
      invariant Partial(q, rem, n, d, b) && (more <==> q < NORM / 2)
      decreases 56 - n as int
    {
      DivStep(q, d, rem, b, n);
      ghost var rest := Rest(rem, n, b);
      Even(i.h * 0x800_0000, i.l);
      DivBit(x, y, i);
      q, rem, n := 2 * q + (if rest >= d then 1 else 0), (if rest >= d then rest - d else rest), n + 1;
      HiddenUp(i.h, i.l, q);
      more := i.h / HIDDEN % 2 == 0;
    }
  }

  /** The part of `fpidiv` after both operands are normalised. */
  method DivNormalised(x: Internal, y: Internal, i: Internal)
    requires x != y && i != x && i != y && x.Valid() && y.Valid() && i.Valid() && x.R().m >= NORM && y.R().m >= NORM
    requires -60 <= x.e < EXPINF && -60 <= y.e < EXPINF
    modifies y, i
    ensures i.Valid() && i.s == old(i.s) && i.R() == Renorm(DivNormal(x.R(), old(y.R())))
  {
    ghost var d, b := x.R().m, y.R().m;
    i.h := 0;
    i.l := 0;
    i.e := y.e - x.e + (1023 + 2 * 28 - 1);
    ghost var q, rem, n;
    q, rem, n := DivLoop(x, y, i, b);
    DivDone(q, d, rem, b, n, x.R(), old(y.R()));
    StoreSticky(i.h, i.l, y.h != 0 || y.l != 0, i);
    Renormalise(i);
  }

  // ---------- comparison ----------

  /** Comparison by exponent, then words; the signs decide which way it counts. */
  function FpiCmp(x: Internal, y: Internal): int
    reads x, y
  {
    if x.IsNaN() && y.IsNaN() then 0
    else if x.IsInfinity() && y.IsInfinity() then y.s - x.s
    else if x.e == y.e && x.h == y.h && x.l == y.l then y.s - x.s
    else if x.e < y.e || (x.e == y.e && (x.h < y.h || (x.h == y.h && x.l < y.l))) then (if y.s != 0 then 1 else -1)
    else if x.s != 0 then -1 else 1
  }
}
