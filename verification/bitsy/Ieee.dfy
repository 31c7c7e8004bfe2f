/** Doubles as IEEE 754 magnitudes, and round-to-nearest-even (section 4.3.1 of IEEE 754-2008).

    The magnitude of a finite double is named by its low 63 bits read as a number ("code"):
    biased exponent in bits 52..62, fraction in bits 0..51.  `Mag(code)` is that magnitude in
    units of the smallest subnormal, so it is a natural number, and the real value of a code is
    `Mag(code) / Mag(ONE)` times the real number one. */
module Ieee {
  import opened Arith

  const TWO52: nat := 0x10_0000_0000_0000    // 2^52, the weight of the exponent field
  const ONE: nat := 0x3FF0_0000_0000_0000    // 1.0: exponent field 1023
  const INF: nat := 0x7FF0_0000_0000_0000    // exponent field 2047, fraction 0

  /** Exponent field e over fraction m; m may overflow into the exponent. */
  function Enc(e: int, m: int): int {
    e * 0x10_0000_0000_0000 + m
  }

  function Mag(r: nat): nat {
    if r < 2 * TWO52 then r else 2 * Mag(r - TWO52)
  }

  function Dist(n: nat, d: nat, k: nat): nat {
    if n >= Times(Mag(k), d) then n - Times(Mag(k), d) else Times(Mag(k), d) - n
  }

  /** No finite code is nearer, and of two as near it is the even one. */
  ghost predicate Nearest(n: nat, d: nat, r: nat) {
    forall k: nat | k < INF && k != r ::
      Dist(n, d, r) < Dist(n, d, k) || (Dist(n, d, r) == Dist(n, d, k) && r % 2 == 0)
  }

  /** The exact magnitude n/d (in units of the smallest subnormal) rounds to code r:
      r is infinity from half-way past the largest finite double on, and below that it is the
      nearest code, the even one when two are equally near. */
  ghost predicate RoundsTo(n: nat, d: nat, r: nat)
    requires d > 0
  {
    if 2 * n >= Times(Mag(INF - 1) + Mag(INF), d) then
      r == INF
    else
      r < INF && Nearest(n, d, r)
  }

  lemma {:induction false} MagStep(r: nat)
    ensures Mag(r) < Mag(r + 1)
  {
    if r + 1 < 2 * TWO52 {
    } else if r + 1 == 2 * TWO52 {
      assert Mag(r + 1) == 2 * Mag(TWO52) == 2 * TWO52;
    } else {
      MagStep(r - TWO52);
      assert r + 1 - TWO52 == (r - TWO52) + 1;
    }
  }

  lemma {:induction false} MagMono(r: nat, k: nat)
    requires r < k
    ensures Mag(r) < Mag(k)
    decreases k
  {
    MagStep(k - 1);
    if r < k - 1 {
      MagMono(r, k - 1);
    }
  }

  /** Exponent field e - 1 and integer significand m: the encoding is linear in m, even when m
      overflows into the next binade. */
  lemma {:induction false} MagEncode(e: nat, m: nat)
    requires e >= 1 && m <= 2 * TWO52 && (e == 1 || m >= TWO52)
    ensures Mag(Enc(e - 1, m)) == Shl(m, e - 1)
  {
    if e == 1 {
      if m == 2 * TWO52 {
        assert Mag(m) == 2 * Mag(TWO52);
      }
    } else {
      assert Enc(e - 1, m) - TWO52 == Enc(e - 2, m);
      assert Mag(Enc(e - 1, m)) == 2 * Mag(Enc(e - 2, m));
      MagEncode(e - 1, m);
    }
  }

  /** At most one code is the rounding of a given magnitude. */
  lemma RoundsToUnique(n: nat, d: nat, r: nat, r': nat)
    requires d > 0 && RoundsTo(n, d, r) && RoundsTo(n, d, r')
    ensures r == r'
  {
    if r < r' < INF {
      OneOfTwo(n, d, r, r');
    } else if r' < r < INF {
      OneOfTwo(n, d, r', r);
    }
  }

  /** Two nearest codes would be adjacent, so one of them would be odd. */
  lemma OneOfTwo(n: nat, d: nat, r: nat, k: nat)
    requires d > 0 && r < k < INF
    ensures !(RoundsTo(n, d, r) && RoundsTo(n, d, k))
  {
    var c := r + 1;
    MagMono(r, k);
    TimesOrder(Mag(r), Mag(k), d);
    if c < k {
      MagMono(r, c);
      MagMono(c, k);
      TimesOrder(Mag(r), Mag(c), d);
      TimesOrder(Mag(c), Mag(k), d);
    }
    assert Dist(n, d, c) <= Dist(n, d, r) || Dist(n, d, c) <= Dist(n, d, k);
  }

  /** Being on the right side of the two neighbouring midpoints is being nearest. */
  lemma NearestFromNeighbours(n: nat, d: nat, r: nat)
    requires d > 0 && r <= INF
    requires r > 0 ==> 2 * n >= Times(Mag(r - 1) + Mag(r), d)
    requires r > 0 && r % 2 == 1 ==> 2 * n > Times(Mag(r - 1) + Mag(r), d)
    requires r < INF ==> 2 * n <= Times(Mag(r) + Mag(r + 1), d)
    requires r < INF && r % 2 == 1 ==> 2 * n < Times(Mag(r) + Mag(r + 1), d)
    ensures RoundsTo(n, d, r)
  {
    if r == INF {
    } else {
      BelowThreshold(n, d, r);
      forall k: nat | k < INF && k != r
        ensures Dist(n, d, r) < Dist(n, d, k) || (Dist(n, d, r) == Dist(n, d, k) && r % 2 == 0)
      {
        NearerThan(n, d, r, k);
      }
    }
  }

  lemma BelowThreshold(n: nat, d: nat, r: nat)
    requires d > 0 && r < INF
    requires 2 * n <= Times(Mag(r) + Mag(r + 1), d)
    requires r % 2 == 1 ==> 2 * n < Times(Mag(r) + Mag(r + 1), d)
    ensures 2 * n < Times(Mag(INF - 1) + Mag(INF), d)
  {
    if r + 1 < INF {
      MagMono(r + 1, INF);
      if r < INF - 1 { MagMono(r, INF - 1); }
      TimesOrder(Mag(r) + Mag(r + 1), Mag(INF - 1) + Mag(INF), d);
    } else {
      assert r == INF - 1 && r % 2 == 1;
    }
  }

  lemma NearerThan(n: nat, d: nat, r: nat, k: nat)
    requires d > 0 && r < INF && k != r
    requires r > 0 ==> 2 * n >= Times(Mag(r - 1) + Mag(r), d)
    requires r > 0 && r % 2 == 1 ==> 2 * n > Times(Mag(r - 1) + Mag(r), d)
    requires 2 * n <= Times(Mag(r) + Mag(r + 1), d)
    requires r % 2 == 1 ==> 2 * n < Times(Mag(r) + Mag(r + 1), d)
    ensures Dist(n, d, r) < Dist(n, d, k) || (Dist(n, d, r) == Dist(n, d, k) && r % 2 == 0)
  {
    if k < r {
      Below(d, r, k);
    } else {
      Above(d, r, k);
    }
  }

  /** Codes under r stand below the midpoint under it. */
  lemma Below(d: nat, r: nat, k: nat)
    requires d > 0 && k < r
    ensures Times(Mag(k), d) < Times(Mag(r), d) && Times(Mag(k), d) + Times(Mag(r), d) <= Times(Mag(r - 1) + Mag(r), d)
  {
    MagMono(k, r);
    TimesOrder(Mag(k), Mag(r), d);
    if k < r - 1 {
      MagMono(k, r - 1);
    }
    TimesOrder(Mag(k), Mag(r - 1), d);
    TimesPlus(Mag(r - 1), Mag(r), d);
  }

  lemma Above(d: nat, r: nat, k: nat)
    requires d > 0 && r < k
    ensures Times(Mag(r), d) < Times(Mag(k), d) && Times(Mag(r), d) + Times(Mag(k), d) >= Times(Mag(r) + Mag(r + 1), d)
  {
    MagMono(r, k);
    TimesOrder(Mag(r), Mag(k), d);
    if r + 1 < k {
      MagMono(r + 1, k);
    }
    TimesOrder(Mag(r + 1), Mag(k), d);
    TimesPlus(Mag(r), Mag(r + 1), d);
  }
}
