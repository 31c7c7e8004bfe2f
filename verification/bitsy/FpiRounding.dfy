/** Each operation of the emulator, on operands freshly loaded from doubles, is correctly rounded. */
module FpiRounding {
  import opened Arith
  import opened Ieee
  import opened FpiSpec

  /** A register that holds a finite double exactly: guard bits clear, subnormal only at
      exponent 1. */
  ghost predicate Loaded(r: Reg, code: nat) {
    code < INF && Storable(r) && r.m % 8 == 0 && 8 * Mag(code) == Shl(r.m, r.e - 1)
  }

  // ---------- aligning exponents ----------

  lemma Pow28()
    ensures Shl(1, 28) == CARRY
  {
    ShlShl(1, 7, 7);
    ShlShl(1, 14, 14);
    assert Shl(1, 7) == 128;
    ShlIs(128, 7);
    ShlIs(128 * 128, 14);
  }

  lemma Pow56()
    ensures Shl(1, 56) == FULL && Shl(1, 55) == NORM && Shl(1, 54) == NORM / 2
  {
    Pow28();
    ShlShl(1, 28, 28);
    ShlIs(CARRY, 28);
  }

  /** The smaller operand, aligned, is a round-to-odd of its magnitude in the larger one's units. */
  lemma Aligned(x: Reg, a: nat, e: int)
    requires 1 <= x.e <= e && x.m < FULL && 8 * a == Shl(x.m, x.e - 1)
    ensures Near(ShiftRight(x.m, e - x.e), 8 * a, Shl(1, e - 1), 1)
  {
    NearUnit(x.m, x.e - 1);
    ShlGrows(1, x.e - 1);
    NearShiftRight(x.m, 8 * a, Shl(1, x.e - 1), e - x.e);
    ShlShl(1, x.e - 1, e - x.e);
  }

  /** A register is exactly its magnitude over its own unit. */
  lemma NearUnit(m: nat, k: nat)
    ensures Near(m, Shl(m, k), Shl(1, k), 1) && Times(m, Shl(1, k)) == Shl(m, k)
  {
    ShlTimes(m, 1, k);
    TimesOne(m);
  }

  // ---------- addition ----------

  lemma NearPlus(p: nat, k: nat, n: nat, d: nat)
    requires k % 2 == 0 && Near(p, n, d, 1)
    ensures Near(p + k, n + Times(k, d), d, 1)
  {
    TimesPlus(p, k, d);
  }

  lemma NearMinus(p: nat, k: nat, n: nat, d: nat, rest: nat)
    requires k % 2 == 0 && Near(p, n, d, 1) && p <= k && Times(k, d) == n + rest
    ensures Near(k - p, rest, d, 1)
  {
    TimesPlus(k - p, p, d);
  }

  lemma AddAlignedCorrect(x: Reg, y: Reg, a: nat, b: nat)
    requires Storable(x) && Storable(y) && x.e <= y.e && y.m % 2 == 0
    requires 8 * a == Shl(x.m, x.e - 1) && 8 * b == Shl(y.m, y.e - 1)
    ensures RoundsTo(a + b, 1, Code(AddAligned(x, y)))
  {
    var m := ShiftRight(x.m, y.e - x.e) + y.m;
    assert AddAligned(x, y) == Sum(y.e, m);
    AlignedSum(x, y, a, b);
    SumCorrect(y.e, m, a + b);
  }

  lemma AlignedSum(x: Reg, y: Reg, a: nat, b: nat)
    requires Storable(x) && Storable(y) && x.e <= y.e && y.m % 2 == 0
    requires 8 * a == Shl(x.m, x.e - 1) && 8 * b == Shl(y.m, y.e - 1)
    ensures var m := ShiftRight(x.m, y.e - x.e) + y.m;
      m < 2 * FULL && Near(m, 8 * (a + b), Shl(1, y.e - 1), 1)
  {
    Aligned(x, a, y.e);
    NearPlus(ShiftRight(x.m, y.e - x.e), y.m, 8 * a, Shl(1, y.e - 1));
    NearUnit(y.m, y.e - 1);
  }

  /** Storing a 57-bit sum: at most one more sticky shift, or overflow to infinity. */
  lemma SumCorrect(e: nat, m: nat, n: nat)
    requires 1 <= e < EXPINF && m < 2 * FULL && (m >= NORM || e == 1)
    requires Near(m, 8 * n, Shl(1, e - 1), 1)
    ensures Sum(e, m).e >= 1 && RoundsTo(n, 1, Code(Sum(e, m)))
  {
    if m < FULL {
      RoundCorrect(Reg(e, m), n, 1, 1);
    } else {
      ShlGrows(1, e - 1);
      NearSticky(m, 8 * n, Shl(1, e - 1));
      var r := Reg(e + 1, Sticky(m));
      if r.e >= EXPINF {
        OverflowCorrect(r, n, 1, 1);
        assert Code(SetInf()) == INF;
      } else {
        RoundCorrect(r, n, 1, 1);
      }
    }
  }

  /** Two loaded doubles, added and stored, give the rounded sum. */
  lemma AddCorrect(x: Reg, y: Reg, a: nat, b: nat)
    requires Loaded(x, a) && Loaded(y, b)
    ensures Add(x, y).e >= 1 && RoundsTo(Mag(a) + Mag(b), 1, Code(Add(x, y)))
  {
    Even8(x.m);
    Even8(y.m);
    if x.e > y.e {
      AddAlignedCorrect(y, x, Mag(b), Mag(a));
    } else {
      AddAlignedCorrect(x, y, Mag(a), Mag(b));
    }
  }

  // ---------- subtraction ----------

  lemma {:induction false} CancelExact(r: Reg, n: nat)
    requires r.e >= 1 && 0 < r.m < FULL && n == Shl(r.m, r.e - 1)
    ensures var q := Cancel(r);
      1 <= q.e <= r.e && 0 < q.m < FULL && (q.m >= NORM || q.e == 1) && n == Shl(q.m, q.e - 1)
    decreases NORM - r.m
  {
    if r.e > 1 && r.m < NORM {
      ShlTwice(r.m, r.e - 2);
      CancelExact(Reg(r.e - 1, 2 * r.m), n);
    }
  }

  /** One left shift doubles the stickiness, which the third guard bit can still take. */
  lemma CancelOnce(r: Reg, n: nat)
    requires r.e > 1 && NORM / 2 <= r.m < FULL && Near(r.m, 8 * n, Shl(1, r.e - 1), 1)
    ensures var q := Cancel(r);
      r.e - 1 <= q.e <= r.e && NORM <= q.m < FULL && Near(q.m, 8 * n, Shl(1, q.e - 1), if q == r then 1 else 2)
  {
    if r.m < NORM {
      var q := Reg(r.e - 1, 2 * r.m);
      assert Cancel(r) == Cancel(q) == q;
      TimesTwice(r.m, Shl(1, r.e - 2));
    }
  }

  lemma StickyHalves(m: nat, count: nat)
    requires m < FULL
    ensures count >= 1 ==> ShiftRight(m, count) <= NORM
    ensures count >= 2 ==> ShiftRight(m, count) <= NORM / 2
  {
    if count >= 1 {
      StickySmall(m, NORM);
      if count >= 2 {
        StickySmall(Sticky(m), NORM / 2);
        assert ShiftRight(m, count) == ShiftRight(Sticky(Sticky(m)), count - 2);
      }
    }
  }

  /** The aligned smaller operand does not exceed the larger one, so no borrow escapes. */
  lemma SubDefined(x: Reg, y: Reg)
    requires Storable(x) && Storable(y) && !Smaller(y, x)
    ensures ShiftRight(x.m, y.e - x.e) <= y.m
  {
    StickyHalves(x.m, y.e - x.e);
  }

  /** Comparing (exponent, significand) compares magnitudes. */
  lemma OrderIsMagnitude(x: Reg, y: Reg)
    requires Storable(x) && Storable(y) && !Smaller(y, x)
    ensures Shl(x.m, x.e - 1) <= Shl(y.m, y.e - 1)
    ensures Smaller(x, y) ==> Shl(x.m, x.e - 1) < Shl(y.m, y.e - 1)
  {
    if x.e == y.e {
      ShlOrder(x.m, y.m, x.e - 1);
    } else {
      var c := y.e - x.e;
      ShlShl(y.m, c, x.e - 1);
      assert Shl(y.m, c) == 2 * Shl(y.m, c - 1);
      ShlGrows(y.m, c - 1);
      ShlOrder(x.m, Shl(y.m, c), x.e - 1);
    }
  }

  /** y - x for x not larger; n is the exact difference of the magnitudes. */
  lemma SubAlignedCorrect(x: Reg, y: Reg, a: nat, n: nat)
    requires Storable(x) && Storable(y) && x.m % 2 == 0 && y.m % 2 == 0
    requires x.e <= y.e && ShiftRight(x.m, y.e - x.e) <= y.m
    requires 8 * a == Shl(x.m, x.e - 1) && 8 * (a + n) == Shl(y.m, y.e - 1)
    ensures RoundsTo(n, 1, Code(SubAligned(x, y)))
  {
    if y.e - x.e <= 1 {
      SubClose(x, y, a, n);
    } else {
      AlignedDifference(x, y, a, n);
      DifferenceSticky(Reg(y.e, y.m - ShiftRight(x.m, y.e - x.e)), n);
    }
  }

  lemma SubClose(x: Reg, y: Reg, a: nat, n: nat)
    requires Storable(x) && Storable(y) && x.m % 2 == 0 && 0 <= y.e - x.e <= 1
    requires ShiftRight(x.m, y.e - x.e) <= y.m
    requires 8 * a == Shl(x.m, x.e - 1) && 8 * (a + n) == Shl(y.m, y.e - 1)
    ensures RoundsTo(n, 1, Code(SubAligned(x, y)))
  {
    var s := ShiftRight(x.m, y.e - x.e);
    AlignedExact(x, a, y.e);
    ExactRest(y.m, s, y.e - 1, a, n);
    DifferenceExact(Reg(y.e, y.m - s), n);
  }

  lemma ExactRest(m: nat, s: nat, k: nat, a: nat, n: nat)
    requires s <= m && 8 * a == Shl(s, k) && 8 * (a + n) == Shl(m, k)
    ensures 8 * n == Shl(m - s, k)
  {
    ShlPlus(m - s, s, k);
  }

  lemma AlignedDifference(x: Reg, y: Reg, a: nat, n: nat)
    requires Storable(x) && Storable(y) && y.m % 2 == 0 && y.e - x.e >= 2
    requires ShiftRight(x.m, y.e - x.e) <= y.m
    requires 8 * a == Shl(x.m, x.e - 1) && 8 * (a + n) == Shl(y.m, y.e - 1)
    ensures var m := y.m - ShiftRight(x.m, y.e - x.e);
      NORM / 2 <= m && Near(m, 8 * n, Shl(1, y.e - 1), 1)
  {
    Aligned(x, a, y.e);
    NearUnit(y.m, y.e - 1);
    NearMinus(ShiftRight(x.m, y.e - x.e), y.m, 8 * a, Shl(1, y.e - 1), 8 * n);
    StickyHalves(x.m, y.e - x.e);
  }

  /** With exponents two or more apart at most one bit cancels. */
  lemma DifferenceSticky(r: Reg, n: nat)
    requires 1 < r.e < EXPINF && NORM / 2 <= r.m < FULL && Near(r.m, 8 * n, Shl(1, r.e - 1), 1)
    ensures RoundsTo(n, 1, Code(Difference(r)))
  {
    CancelOnce(r, n);
    RoundCorrect(Cancel(r), n, 1, if Cancel(r) == r then 1 else 2);
  }

  /** With exponents at most one apart no bit is lost, however far the difference is shifted. */
  lemma AlignedExact(x: Reg, a: nat, e: int)
    requires Storable(x) && x.m % 2 == 0 && 0 <= e - x.e <= 1 && 8 * a == Shl(x.m, x.e - 1)
    ensures 8 * a == Shl(ShiftRight(x.m, e - x.e), e - 1)
  {
    if e > x.e {
      var h := x.m / 2;
      StickyDouble(h);
      assert ShiftRight(2 * h, 1) == ShiftRight(h, 0) == h;
      ShlTwice(h, x.e - 1);
    }
  }

  lemma StickyDouble(h: nat)
    ensures Sticky(2 * h) == h
  {
  }

  lemma DifferenceExact(r: Reg, n: nat)
    requires 1 <= r.e < EXPINF && r.m < FULL && 8 * n == Shl(r.m, r.e - 1)
    ensures RoundsTo(n, 1, Code(Difference(r)))
  {
    if r.m == 0 {
      ShlZero(r.e - 1);
      ExactCorrect(Reg(1, 0), n);
    } else {
      CancelExact(r, 8 * n);
      ExactCorrect(Cancel(r), n);
    }
  }

  lemma ExactCorrect(r: Reg, n: nat)
    requires Storable(r) && 8 * n == Shl(r.m, r.e - 1)
    ensures RoundsTo(n, 1, Code(r))
  {
    NearUnit(r.m, r.e - 1);
    RoundCorrect(r, n, 1, 1);
  }

  /** Two loaded doubles, subtracted and stored, give the rounded difference of magnitudes. */
  lemma SubCorrect(x: Reg, y: Reg, a: nat, b: nat)
    requires Loaded(x, a) && Loaded(y, b)
    ensures SubOrdered(x, y)
    ensures RoundsTo(if Mag(a) >= Mag(b) then Mag(a) - Mag(b) else Mag(b) - Mag(a), 1, Code(Sub(x, y)))
    ensures Smaller(y, x) <==> Mag(b) < Mag(a)
  {
    Even8(x.m);
    Even8(y.m);
    if Smaller(y, x) {
      OrderIsMagnitude(y, x);
      SubDefined(y, x);
      SubAlignedCorrect(y, x, Mag(b), Mag(a) - Mag(b));
    } else {
      OrderIsMagnitude(x, y);
      SubDefined(x, y);
      SubAlignedCorrect(x, y, Mag(a), Mag(b) - Mag(a));
    }
  }

  // ---------- normalising, and results that need renormalising ----------

  /** Normalising keeps the magnitude; a loaded operand is shifted by at most 55 places.
      K only keeps exponents of two nonnegative. */
  lemma LoadedNormal(x: Reg, a: nat, K: nat)
    requires Loaded(x, a) && x.m > 0 && K >= 60
    ensures var q := Normal(x); x.e - 55 <= q.e <= x.e && Shl(8 * Mag(a), K) == Shl(q.m, q.e - 1 + K)
  {
    ShlShl(x.m, x.e - 1, K);
    Pow56();
    ShlOrder(1, x.m, 55);
    NormalExact(x, K, 55);
  }

  lemma {:induction false} NormalExact(r: Reg, K: nat, left: nat)
    requires 0 < r.m < FULL && r.e - 1 + K >= left && Shl(r.m, left) >= NORM
    ensures var q := Normal(r); r.e - left <= q.e <= r.e && Shl(r.m, r.e - 1 + K) == Shl(q.m, q.e - 1 + K)
    decreases left
  {
    if r.m < NORM && left > 0 {
      var q := Reg(r.e - 1, 2 * r.m);
      ShlTwice(r.m, r.e - 2 + K);
      ShlTwice(r.m, left - 1);
      NormalExact(q, K, left - 1);
    }
  }

  /** `renormalise` then rounding is one correct rounding, for normal, subnormal and overflowing
      results alike.  C only keeps exponents of two nonnegative. */
  lemma RenormCorrect(r: Reg, n: nat, d: nat, C: nat)
    requires d > 0 && NORM <= r.m < FULL && C + r.e - 1 >= 0
    requires Near(r.m, Shl(8 * n, C), Shl(d, C + r.e - 1), 1)
    ensures Renorm(r).e >= 1 && RoundsTo(n, d, Code(Renorm(r)))
  {
    if r.e >= 1 {
      RenormLarge(r, n, d, C);
    } else {
      RenormSmall(r, n, d, C);
    }
  }

  lemma RenormLarge(r: Reg, n: nat, d: nat, C: nat)
    requires d > 0 && NORM <= r.m < FULL && r.e >= 1
    requires Near(r.m, Shl(8 * n, C), Shl(d, C + r.e - 1), 1)
    ensures RoundsTo(n, d, Code(Saturate(r)))
  {
    ShlShl(d, r.e - 1, C);
    NearShl(r.m, 8 * n, Shl(d, r.e - 1), C);
    if r.e >= EXPINF {
      OverflowCorrect(r, n, d, 1);
      assert Code(SetInf()) == INF;
    } else {
      RoundCorrect(r, n, d, 1);
    }
  }

  lemma RenormSmall(r: Reg, n: nat, d: nat, C: nat)
    requires d > 0 && NORM <= r.m < FULL && r.e < 1 && C + r.e - 1 >= 0
    requires Near(r.m, Shl(8 * n, C), Shl(d, C + r.e - 1), 1)
    ensures Renorm(r).e == 1 && RoundsTo(n, d, Code(Renorm(r)))
  {
    var k := 1 - r.e;
    ShlGrows(d, C + r.e - 1);
    NearShiftRight(r.m, Shl(8 * n, C), Shl(d, C + r.e - 1), k);
    ShlShl(d, C + r.e - 1, k);
    var q := Reg(1, ShiftRight(r.m, k));
    NearShl(q.m, 8 * n, d, C);
    ClampedShift(r);
    RoundCorrect(q, n, d, 1);
  }

  /** Clamping the exponent at -56 loses nothing: by then only the sticky bit is left. */
  lemma ClampedShift(r: Reg)
    requires r.m < FULL && r.e < 1
    ensures Renorm(r) == Reg(1, ShiftRight(r.m, 1 - r.e))
  {
    if r.e < -56 {
      Pow56();
      assert Shl(1, 57) == 2 * Shl(1, 56);
      ShiftRightSmall(r.m, 57);
      ShlShl(1, 57, 1 - r.e - 57);
      ShlGrows(Shl(1, 57), 1 - r.e - 57);
      ShiftRightSmall(r.m, 1 - r.e);
    }
  }

  /** 1.0 is 2^1074 smallest subnormals. */
  lemma OneIs(E: nat)
    requires E == 1074
    ensures Mag(ONE) == Shl(1, E)
  {
    MagEncode(E - 51, TWO52);
    assert Enc(1022, TWO52) == ONE;
    Pow56();
    assert Shl(1, 56) == 16 * Shl(1, 52) by {
      assert Shl(1, 53) == 2 * Shl(1, 52) && Shl(1, 55) == 2 * Shl(1, 54);
    }
    ShlShl(1, 52, E - 52);
  }

  // ---------- multiplication ----------

  /** or-ing stickiness into bit 0 is rounding to odd, whatever that bit was. */
  lemma SquashNear(h: nat, l: nat, n: nat, d: nat)
    requires n == Times(h, d) + l && l < d
    ensures Near(Squash(h, l), n, d, 1)
  {
    TimesPlus(1, h, d);
    SmallTimes(d);
  }

  lemma ProductBounds(a: nat, b: nat)
    requires NORM <= a < FULL && NORM <= b < FULL
    ensures NORM / 2 <= Times(a, b) / 0x100_0000_0000_0000 < FULL
  {
    TimesIs(a, b);
    assert 0x80_0000_0000_0000 * 0x80_0000_0000_0000 <= a * b by {
      MulMono(0x80_0000_0000_0000, a, 0x80_0000_0000_0000);
      MulMono(0x80_0000_0000_0000, b, a);
    }
    assert a * b < 0x100_0000_0000_0000 * 0x100_0000_0000_0000 by {
      MulMono(a, 0x100_0000_0000_0000, b);
      MulMono(b, 0x100_0000_0000_0000, 0x100_0000_0000_0000);
    }
  }

  lemma HalfSplit(p: nat)
    ensures p == Times(p / 0x100_0000_0000_0000, Shl(1, 56)) + p % 0x100_0000_0000_0000
    ensures p % 0x100_0000_0000_0000 < Shl(1, 56)
  {
    Pow56();
    TimesIs(p / 0x100_0000_0000_0000, FULL);
  }

  /** The product register is a normalised round-to-odd of the exact product. */
  lemma ProductRegCorrect(e: int, p: nat)
    requires NORM / 2 <= p / 0x100_0000_0000_0000 < FULL
    ensures var r := ProductReg(e, p); var up := r.e - (e - 1078);
      NORM <= r.m < FULL && (up == 55 || up == 56) && Near(r.m, p, Shl(1, up), 1)
  {
    var q := if p / 0x100_0000_0000_0000 >= NORM then p else 2 * p;
    HalfNear(q);
    if q == 2 * p {
      NearTwice(Squash(q / 0x100_0000_0000_0000, q % 0x100_0000_0000_0000), p, Shl(1, 55));
    }
  }

  lemma HalfNear(q: nat)
    ensures Near(Squash(q / 0x100_0000_0000_0000, q % 0x100_0000_0000_0000), q, Shl(1, 56), 1)
  {
    HalfSplit(q);
    SquashNear(q / 0x100_0000_0000_0000, q % 0x100_0000_0000_0000, q, Shl(1, 56));
  }

  lemma NearTwice(m: nat, n: nat, d: nat)
    requires Near(m, 2 * n, 2 * d, 1)
    ensures Near(m, n, d, 1)
  {
    TimesTwice(m, d);
  }

  lemma MulShl(a: nat, i: nat, b: nat, j: nat)
    ensures Times(Shl(a, i), Shl(b, j)) == Shl(Times(a, b), i + j)
  {
    ShlTimes(Shl(a, i), b, j);
    TimesComm(Shl(a, i), b);
    ShlTimes(b, a, i);
    TimesComm(a, b);
    ShlShl(Times(a, b), i, j);
  }

  /** n is the product of the magnitudes, X that of the normalised significands. */
  lemma ProductFinish(e: int, X: nat, n: nat, s: nat, K: nat, C: nat, E: nat)
    requires NORM / 2 <= X / 0x100_0000_0000_0000 < FULL && E == 1074
    requires C + e - 1024 >= 0 && s == e - 2 + K + K && Shl(8 * (8 * n), K + K) == Shl(X, s)
    ensures var r := Renorm(ProductReg(e, X)); r.e >= 1 && Shl(1, E) > 0 && RoundsTo(n, Shl(1, E), Code(r))
  {
    ProductRegCorrect(e, X);
    var r := ProductReg(e, X);
    ProductNear(r, X, n, r.e - (e - 1078), s, K, C, E);
    ShlGrows(1, E);
    RenormCorrect(r, n, Shl(1, E), C);
  }

  /** X * 2^s and n * 64 * 2^2K are the same number, X the product register's exact value. */
  lemma ProductNear(r: Reg, X: nat, n: nat, up: nat, s: nat, K: nat, C: nat, E: nat)
    requires Near(r.m, X, Shl(1, up), 1) && Shl(8 * (8 * n), K + K) == Shl(X, s)
    requires C + r.e - 1 >= 0 && up + s == E + r.e + 2 + K + K
    ensures Near(r.m, Shl(8 * n, C), Shl(Shl(1, E), C + r.e - 1), 1)
  {
    ProductScale(8 * n, X, s, K + K, C);
    NearShl(r.m, X, Shl(1, up), s + C);
    ShlShl(1, up, s + C);
    ShlShl(1, E + (C + r.e - 1), 3 + (K + K));
    NearShl(r.m, Shl(8 * n, C), Shl(1, E + (C + r.e - 1)), 3 + (K + K));
    ShlShl(1, E, C + r.e - 1);
  }

  lemma ProductScale(n: nat, X: nat, s: nat, k: nat, C: nat)
    requires Shl(8 * n, k) == Shl(X, s)
    ensures Shl(Shl(n, C), 3 + k) == Shl(X, s + C)
  {
    ShlShl(X, s, C);
    ShlShl(8 * n, k, C);
    ShlShl(n, 3, k + C);
    assert Shl(n, 3) == 2 * Shl(n, 2) == 4 * Shl(n, 1) == 8 * Shl(n, 0);
    ShlShl(n, C, 3 + k);
  }

  /** Two loaded doubles, multiplied and stored, give the rounded product: the real product is
      Mag(a) * Mag(b) / Mag(ONE)^2, that is Mag(a) * Mag(b) / Mag(ONE) smallest subnormals. */
  lemma MulCorrect(x: Reg, y: Reg, a: nat, b: nat)
    requires Loaded(x, a) && Loaded(y, b) && x.m > 0 && y.m > 0
    ensures Mul(x, y).e >= 1
    ensures Mag(ONE) > 0 && RoundsTo(Times(Mag(a), Mag(b)), Mag(ONE), Code(Mul(x, y)))
  {
    MulCorrectScaled(x, y, a, b, 60, 2000, 1074);
  }

  lemma MulCorrectScaled(x: Reg, y: Reg, a: nat, b: nat, K: nat, C: nat, E: nat)
    requires Loaded(x, a) && Loaded(y, b) && x.m > 0 && y.m > 0 && K >= 60 && C >= 2000 && E == 1074
    ensures Mul(x, y).e >= 1
    ensures Mag(ONE) > 0 && RoundsTo(Times(Mag(a), Mag(b)), Mag(ONE), Code(Mul(x, y)))
  {
    var (p, q) := (Normal(x), Normal(y));
    LoadedNormal(x, a, K);
    LoadedNormal(y, b, K);
    OneIs(E);
    ProductBounds(p.m, q.m);
    ProductOfMags(Mag(a), Mag(b), p.m, q.m, p.e - 1 + K, q.e - 1 + K, K);
    ProductFinish(p.e + q.e, Times(p.m, q.m), Times(Mag(a), Mag(b)), (p.e - 1 + K) + (q.e - 1 + K), K, C, E);
  }

  lemma ProductOfMags(A: nat, B: nat, p: nat, q: nat, i: nat, j: nat, K: nat)
    requires Shl(8 * A, K) == Shl(p, i) && Shl(8 * B, K) == Shl(q, j)
    ensures Shl(8 * (8 * Times(A, B)), K + K) == Shl(Times(p, q), i + j)
  {
    MulShl(8 * A, K, 8 * B, K);
    MulShl(p, i, q, j);
    TimesEight(A, 8 * B);
    TimesComm(A, 8 * B);
    TimesEight(B, A);
    TimesComm(A, B);
  }

  // ---------- division ----------

  lemma DivModOf(n: nat, d: nat)
    requires d > 0
    ensures n == Times(n / d, d) + n % d && n % d < d
  {
    TimesIs(n / d, d);
  }

  lemma QuotientBetween(n: nat, d: nat, lo: nat, hi: nat)
    requires d > 0 && Times(lo, d) <= n < Times(hi, d)
    ensures lo <= n / d < hi
  {
    DivModOf(n, d);
    TimesOrder(n / d, hi, d);
    TimesPlus(1, n / d, d);
    SmallTimes(d);
    TimesOrder(lo, n / d + 1, d);
  }

  /** 55 quotient bits, the first of them a one. */
  lemma QuotientBits(a: nat, b: nat, k: nat)
    requires NORM <= a < FULL && NORM <= b < FULL && k == if b >= a then 54 else 55
    ensures NORM / 2 <= Shl(b, k) / a < NORM
  {
    Pow56();
    NearUnit(a, 54);
    TimesComm(a, NORM / 2);
    NearUnit(a, 55);
    TimesComm(a, NORM);
    if b >= a {
      ShlOrder(a, b, 54);
      ShlOrder(b, 2 * a, 54);
      ShlShl(a, 1, 54);
      assert Shl(a, 1) == 2 * Shl(a, 0);
    } else {
      ShlOrder(b, a, 55);
      ShlOrder(a, 2 * b, 54);
      ShlShl(b, 1, 54);
      assert Shl(b, 1) == 2 * Shl(b, 0);
    }
    QuotientBetween(Shl(b, k), a, NORM / 2, NORM);
  }

  /** The quotient register is a normalised round-to-odd of the exact quotient. */
  lemma DivNormalCorrect(a: Reg, b: Reg)
    requires NORM <= a.m < FULL && NORM <= b.m < FULL
    ensures var r := DivNormal(a, b); var k := b.e - a.e + 1077 - r.e;
      NORM <= r.m < FULL && (k == 54 || k == 55) && Near(r.m, Shl(b.m, k + 1), a.m, 1)
  {
    var k := if b.m >= a.m then 54 else 55;
    var scaled := Shl(b.m, k);
    var q, rest := scaled / a.m, scaled % a.m;
    QuotientBits(a.m, b.m, k);
    DivModOf(scaled, a.m);
    TwiceQuotient(q, rest, scaled, a.m);
    assert Shl(b.m, k + 1) == 2 * scaled;
  }

  lemma TwiceQuotient(q: nat, rest: nat, n: nat, d: nat)
    requires n == Times(q, d) + rest && rest < d
    ensures Near(Squash(2 * q, rest), 2 * n, d, 1)
  {
    TimesTwice(q, d);
    SquashTwice(q, rest);
    if rest != 0 {
      TimesPlus(1, 2 * q, d);
      SmallTimes(d);
    }
  }

  lemma SquashTwice(q: nat, rest: nat)
    ensures Squash(2 * q, rest) == if rest != 0 then 2 * q + 1 else 2 * q
  {
  }

  lemma DivFinish(p: Reg, q: Reg, A: nat, B: nat, K: nat, C: nat, E: nat)
    requires NORM <= p.m < FULL && NORM <= q.m < FULL && E == 1074 && A > 0
    requires p.e - 1 + K >= 0 && q.e - 1 + K >= 0 && C + q.e - p.e + 1000 >= 0
    requires Shl(8 * A, K) == Shl(p.m, p.e - 1 + K) && Shl(8 * B, K) == Shl(q.m, q.e - 1 + K)
    ensures var r := Renorm(DivNormal(p, q)); r.e >= 1 && RoundsTo(Shl(B, E), A, Code(r))
  {
    DivNormalCorrect(p, q);
    var r := DivNormal(p, q);
    var k := q.e - p.e + 1077 - r.e;
    var X := C + r.e - 1;
    var s := (p.e - 1 + K) + X;
    NearShl(r.m, Shl(q.m, k + 1), p.m, s);
    // denominators: p.m * 2^s == A * 2^X * 8 * 2^K
    ProductScale(A, p.m, p.e - 1 + K, K, X);
    // numerators: q.m * 2^(k+1) * 2^s == B * 2^E * 8 * 2^C * 8 * 2^K
    ShlShl(q.m, k + 1, s);
    ProductScale(B, q.m, q.e - 1 + K, K, E + (C + 3));
    ShlShl(B, E, C + 3);
    ShlShl(Shl(B, E), 3, C);
    EightIs(Shl(B, E));
    assert Near(r.m, Shl(Shl(8 * Shl(B, E), C), 3 + K), Shl(Shl(A, X), 3 + K), 1);
    NearShl(r.m, Shl(8 * Shl(B, E), C), Shl(A, X), 3 + K);
    RenormCorrect(r, Shl(B, E), A, C);
  }

  lemma EightIs(n: nat)
    ensures Shl(n, 3) == 8 * n
  {
    assert Shl(n, 3) == 2 * Shl(n, 2) == 4 * Shl(n, 1) == 8 * Shl(n, 0);
  }

  /** Two loaded doubles, divided and stored, give the rounded quotient y/x, x being the divisor:
      the real quotient is Mag(b) / Mag(a), that is Mag(b) * Mag(ONE) / Mag(a) subnormals. */
  lemma DivCorrect(x: Reg, y: Reg, a: nat, b: nat)
    requires Loaded(x, a) && Loaded(y, b) && x.m > 0 && y.m > 0
    ensures Div(x, y).e >= 1
    ensures Mag(a) > 0 && RoundsTo(Times(Mag(b), Mag(ONE)), Mag(a), Code(Div(x, y)))
  {
    DivCorrectScaled(x, y, a, b, 60, 4000, 1074);
  }

  lemma DivCorrectScaled(x: Reg, y: Reg, a: nat, b: nat, K: nat, C: nat, E: nat)
    requires Loaded(x, a) && Loaded(y, b) && x.m > 0 && y.m > 0 && K >= 60 && C >= 4000 && E == 1074
    ensures Div(x, y).e >= 1
    ensures Mag(a) > 0 && RoundsTo(Times(Mag(b), Mag(ONE)), Mag(a), Code(Div(x, y)))
  {
    LoadedNormal(x, a, K);
    LoadedNormal(y, b, K);
    ShlGrows(x.m, x.e - 1);
    OneIs(E);
    NearUnit(Mag(b), E);
    DivFinish(Normal(x), Normal(y), Mag(a), Mag(b), K, C, E);
    assert Div(x, y) == Renorm(DivNormal(Normal(x), Normal(y)));
  }
}
