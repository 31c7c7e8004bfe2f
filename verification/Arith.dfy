/** Shifts and products.  `Shl` and `Times` are written by recursion so that proofs about them are
    steps in linear arithmetic; `ShlIs` and `TimesIs` say that they are the usual products. */
module Arith {

  /** m * 2^k */
  function Shl(m: nat, k: nat): nat {
    if k == 0 then m else 2 * Shl(m, k - 1)
  }

  function Times(a: nat, b: nat): nat {
    if a == 0 then 0 else b + Times(a - 1, b)
  }

  lemma {:induction false} TimesIs(a: nat, b: nat)
    ensures Times(a, b) == a * b
  {
    if a > 0 {
      TimesIs(a - 1, b);
      assert (a - 1) * b == a * b - b;
    }
  }

  lemma {:induction false} ShlIs(m: nat, k: nat)
    ensures Shl(m, k) == m * Shl(1, k) && Shl(1, k) >= 1
  {
    if k > 0 {
      ShlIs(m, k - 1);
      assert 2 * (m * Shl(1, k - 1)) == m * (2 * Shl(1, k - 1));
    }
  }

  lemma {:induction false} ShlZero(k: nat)
    ensures Shl(0, k) == 0
  {
    if k > 0 {
      ShlZero(k - 1);
    }
  }

  lemma {:induction false} ShlTwice(m: nat, k: nat)
    ensures Shl(2 * m, k) == 2 * Shl(m, k) == Shl(m, k + 1)
  {
    if k > 0 {
      ShlTwice(m, k - 1);
    }
  }

  lemma {:induction false} ShlShl(m: nat, i: nat, j: nat)
    ensures Shl(Shl(m, i), j) == Shl(m, i + j)
    decreases j
  {
    if j > 0 {
      ShlShl(m, i, j - 1);
    }
  }

  lemma {:induction false} ShlPlus(a: nat, b: nat, k: nat)
    ensures Shl(a + b, k) == Shl(a, k) + Shl(b, k)
  {
    if k > 0 {
      ShlPlus(a, b, k - 1);
    }
  }

  lemma {:induction false} ShlOrder(a: nat, b: nat, k: nat)
    ensures a <= b <==> Shl(a, k) <= Shl(b, k)
    ensures a < b <==> Shl(a, k) < Shl(b, k)
  {
    if k > 0 {
      ShlOrder(a, b, k - 1);
    }
  }

  /** Shifting up never makes a number smaller. */
  lemma {:induction false} ShlGrows(m: nat, k: nat)
    ensures Shl(m, k) >= m
  {
    if k > 0 {
      ShlGrows(m, k - 1);
    }
  }

  lemma {:induction false} ShlTimes(m: nat, d: nat, k: nat)
    ensures Times(m, Shl(d, k)) == Shl(Times(m, d), k)
  {
    if k > 0 {
      ShlTimes(m, d, k - 1);
      TimesTwice(m, Shl(d, k - 1));
    }
  }

  lemma {:induction false} TimesTwice(m: nat, d: nat)
    ensures Times(m, 2 * d) == 2 * Times(m, d) == Times(2 * m, d)
  {
    if m > 0 {
      TimesTwice(m - 1, d);
      assert Times(2 * m, d) == d + Times(2 * m - 1, d) == d + (d + Times(2 * m - 2, d));
    }
  }

  lemma {:induction false} TimesOne(m: nat)
    ensures Times(m, 1) == m
  {
    if m > 0 {
      TimesOne(m - 1);
    }
  }

  lemma {:induction false} TimesPlus(a: nat, b: nat, d: nat)
    ensures Times(a + b, d) == Times(a, d) + Times(b, d)
  {
    if a > 0 {
      TimesPlus(a - 1, b, d);
      assert Times(a + b, d) == d + Times(a + b - 1, d);
    }
  }

  lemma {:induction false} TimesOrder(a: nat, b: nat, d: nat)
    requires d > 0
    ensures a <= b <==> Times(a, d) <= Times(b, d)
    ensures a < b <==> Times(a, d) < Times(b, d)
  {
    if a > 0 && b > 0 {
      TimesOrder(a - 1, b - 1, d);
    }
  }

  lemma {:induction false} TimesAssoc(a: nat, b: nat, c: nat)
    ensures Times(Times(a, b), c) == Times(a, Times(b, c))
  {
    if a > 0 {
      TimesAssoc(a - 1, b, c);
      TimesPlus(b, Times(a - 1, b), c);
    }
  }

  lemma TimesComm(a: nat, b: nat)
    ensures Times(a, b) == Times(b, a)
  {
    TimesIs(a, b);
    TimesIs(b, a);
  }

  lemma MulMono(a: int, b: int, d: int)
    requires d >= 0
    ensures a <= b ==> a * d <= b * d
    ensures a < b && d > 0 ==> a * d < b * d
  {
    assert a <= b ==> (b - a) * d >= 0;
    assert a < b && d > 0 ==> (b - a) * d > 0;
  }
}
