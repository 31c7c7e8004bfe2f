/** Conversion between 32-bit integer words and registers. */
module FpiWord {
  import opened Arith
  import opened FpiSpec
  import opened Fpi

  /** How many bits a number takes. */
  function Bits(w: nat): nat {
    if w == 0 then 0 else 1 + Bits(w / 2)
  }

  /** Shift right. */
  function Drop(w: nat, k: nat): nat {
    if k == 0 then w else Drop(w / 2, k - 1)
  }

  lemma {:induction false} BitsBound(w: nat)
    requires w > 0
    ensures Bits(w) > 0 && Shl(1, Bits(w) - 1) <= w < Shl(1, Bits(w))
  {
    if w > 1 {
      BitsBound(w / 2);
    }
  }

  lemma {:induction false} BitsAtMost(w: nat, k: nat)
    requires w < Shl(1, k)
    ensures Bits(w) <= k
  {
    if w > 0 && k > 0 {
      BitsAtMost(w / 2, k - 1);
    }
  }

  /** Dropping bits rounds towards zero. */
  lemma {:induction false} DropIs(w: nat, k: nat)
    ensures Shl(Drop(w, k), k) <= w < Shl(Drop(w, k), k) + Shl(1, k)
  {
    if k > 0 {
      DropIs(w / 2, k - 1);
    }
  }

  /** The only multiple that close below. */
  lemma DropOnly(w: nat, k: nat, q: nat)
    requires Shl(q, k) <= w < Shl(q, k) + Shl(1, k)
    ensures Drop(w, k) == q
  {
    DropIs(w, k);
    ShlPlus(q, 1, k);
    ShlPlus(Drop(w, k), 1, k);
    ShlOrder(q, Drop(w, k) + 1, k);
    ShlOrder(Drop(w, k), q + 1, k);
  }

  /** A non-zero word as a normalised register. */
  function WordReg(w: nat): Reg
    requires 0 < w && Bits(w) <= 56
  {
    Reg(Bits(w) + 1022, Shl(w, 56 - Bits(w)))
  }

  lemma Pows()
    ensures Shl(1, 28) == CARRY && Shl(1, 55) == NORM && Shl(1, 56) == FULL && Shl(1, 31) == 0x8000_0000
  {
    ShlShl(1, 14, 14);
    assert Shl(1, 14) == 0x4000;
    ShlIs(0x4000, 14);
    ShlShl(1, 28, 28);
    ShlIs(CARRY, 28);
    ShlShl(1, 28, 3);
  }

  lemma WordNormal(w: nat)
    requires 0 < w < 0x8000_0000
    ensures 1 <= Bits(w) <= 31 && NORM <= WordReg(w).m < FULL
  {
    Pows();
    BitsAtMost(w, 31);
    BitsBound(w);
    var k := 56 - Bits(w);
    ShlShl(1, Bits(w) - 1, k);
    ShlShl(1, Bits(w), k);
    ShlOrder(Shl(1, Bits(w) - 1), w, k);
    ShlOrder(w, Shl(1, Bits(w)), k);
  }

  /** The register is exactly the word: in eighths of the smallest subnormal, w times 2^1077. */
  lemma WordExact(w: nat)
    requires 0 < w < 0x8000_0000
    ensures 1 <= Bits(w) <= 31 && Shl(WordReg(w).m, WordReg(w).e - 1) == Shl(w, 1077)
  {
    WordNormal(w);
    ShlShl(w, 56 - Bits(w), Bits(w) + 1021);
  }

  /** The two words of the significand, for more and for fewer bits than a word holds. */
  lemma WordHalves(w: nat, e: nat)
    requires 0 < w < 0x8000_0000 && e == Bits(w)
    ensures e <= 31
    ensures e > 28 ==> Shl(Drop(w, e - 28), e - 28) <= w
    ensures e > 28 ==> Shl(w - Shl(Drop(w, e - 28), e - 28), 56 - e) < CARRY
    ensures e > 28 ==> Drop(w, e - 28) * 0x1000_0000 + Shl(w - Shl(Drop(w, e - 28), e - 28), 56 - e) == WordReg(w).m
    ensures e <= 28 ==> Shl(w, 28 - e) * 0x1000_0000 == WordReg(w).m
  {
    WordNormal(w);
    Pows();
    if e > 28 {
      var h := Drop(w, e - 28);
      DropIs(w, e - 28);
      var low := w - Shl(h, e - 28);
      ShlPlus(Shl(h, e - 28), low, 56 - e);
      ShlShl(h, e - 28, 56 - e);
      ShlIs(h, 28);
      ShlOrder(low, Shl(1, e - 28), 56 - e);
      ShlShl(1, e - 28, 56 - e);
    } else {
      ShlShl(w, 28 - e, 28);
      ShlIs(Shl(w, 28 - e), 28);
    }
  }

  /** The loop that counts the bits of a word. */
  method CountBits(word: nat) returns (e: nat)
    ensures e == Bits(word)
  {
    e := 0;
    var w := word;
    while w != 0
      invariant e + Bits(w) == Bits(word)
    {
      w := w / 2;
      e := e + 1;
    }
  }

  const LEAST: int := -0x8000_0000

  /** Negation of a 32-bit word: the least one stays as it is. */
  function Negate(v: int): int {
    if v == LEAST then v else -v
  }

  /** What the least word leaves in a register: its magnitude is still negative there. */
  ghost predicate Overflown(i: Internal)
    reads i
  {
    i.s == 1 && i.e == 1054 && i.h == 0 - HIDDEN && i.l == 0
  }

  method FpiW2i(i: Internal, v: int)
    requires LEAST <= v < 0x8000_0000
    modifies i
    ensures v == LEAST ==> Overflown(i)
    ensures v != LEAST ==> i.Canonical() && i.s == if v < 0 then 1 else 0
    ensures v == 0 ==> i.IsZero()
    ensures v != 0 && v != LEAST ==> var w := if v < 0 then -v else v; Bits(w) <= 31 && i.R() == WordReg(w)
  {
    var word := v;
    if word < 0 {
      i.s := 1;
      word := Negate(word);
    } else {
      i.s := 0;
    }
    if word == 0 {
      i.SetZero();
      return;
    }
    var e;
    if word > 0 {
      e := CountBits(word);
      SplitWord(i, word, e);
    } else {
      e := 32;
      i.h := word / 0x10;
      i.l := word % 0x10 * 0x100_0000;
    }
    i.e := (e - 1) + 1023;
  }

  /** The bits of a word, at the top of the two halves. */
  method SplitWord(i: Internal, word: nat, e: nat)
    requires 0 < word < 0x8000_0000 && e == Bits(word)
    modifies i
    ensures i.s == old(i.s) && 1 <= e <= 31 && HIDDEN <= i.h < CARRY && 0 <= i.l < CARRY
    ensures i.h * 0x1000_0000 + i.l == WordReg(word).m
  {
    WordNormal(word);
    WordHalves(word, e);
    if e > 28 {
      i.h := Drop(word, e - 28);
      i.l := Shl(word - Shl(i.h, e - 28), 56 - e);
    } else {
      i.h := Shl(word, 28 - e);
      i.l := 0;
    }
    TopHalf(i.h, i.l);
  }

  lemma TopHalf(h: nat, l: nat)
    requires l < CARRY && NORM <= h * 0x1000_0000 + l < FULL
    ensures HIDDEN <= h < CARRY
  {
  }

  // ---------- back to a word ----------

  /** What a rounded register is as an integer: its whole part, or the largest word. */
  function Whole(r: Reg): nat {
    var e := r.e - 1022;
    if e <= 0 then 0 else if e > 31 then 0x7FFF_FFFF else Drop(r.m, 56 - e)
  }

  /** Putting the two words' parts together is shifting the whole significand. */
  lemma DropHalves(h: nat, l: nat, e: nat)
    requires h < CARRY && l < CARRY && 1 <= e <= 31
    ensures Drop(h * 0x1000_0000 + l, 56 - e) == if e > 28 then Shl(h, e - 28) + Drop(l, 56 - e) else Drop(h, 28 - e)
  {
    Pows();
    ShlIs(h, 28);
    if e > 28 {
      var q := Drop(l, 56 - e);
      DropIs(l, 56 - e);
      ShlPlus(Shl(h, e - 28), q, 56 - e);
      ShlShl(h, e - 28, 56 - e);
      DropOnly(h * 0x1000_0000 + l, 56 - e, Shl(h, e - 28) + q);
    } else {
      var q := Drop(h, 28 - e);
      DropIs(h, 28 - e);
      ShlShl(q, 28 - e, 28);
      ShlShl(1, 28 - e, 28);
      ShlIs(Shl(q, 28 - e), 28);
      ShlIs(Shl(1, 28 - e), 28);
      DropOnly(h * 0x1000_0000 + l, 56 - e, q);
    }
  }

  method FpiI2w(i: Internal) returns (word: int)
    requires (i.Valid() && i.e < 0x7FFF) || Overflown(i)
    modifies i
    ensures old(Overflown(i)) ==> word == -0x7FFF_FFFF
    ensures old(i.Valid()) ==> word == Whole(Rounded(old(i.R()))) * if old(i.s) != 0 then -1 else 1
  {
    FpiRound(i);
    var w: int;
    var e := (i.e - 1023) + 1;
    if e <= 0 {
      w := 0;
    } else if e > 31 {
      w := 0x7FFF_FFFF;
    } else {
      DropHalves(i.h, i.l, e);
      if e > 28 {
        w := Shl(i.h, e - 28) + Drop(i.l, 56 - e);
      } else {
        w := Drop(i.h, 28 - e);
      }
    }
    if i.s != 0 {
      w := -w;
    }
    word := w;
  }

  /** What it is, exactly: the value (w times 2^1077 in eighths of the smallest subnormal) with
      its fraction cut off. */
  lemma WholeIs(r: Reg)
    requires 1 <= r.e <= 1053 && r.m < FULL
    ensures Shl(Whole(r), 1077) <= Shl(r.m, r.e - 1) < Shl(Whole(r) + 1, 1077)
  {
    var w := Whole(r);
    if r.e <= 1022 {
      Pows();
      ShlZero(1077);
      ShlOrder(r.m, Shl(1, 56), r.e - 1);
      ShlShl(1, 56, r.e - 1);
      ShlShl(1, r.e + 55, 1022 - r.e);
      ShlGrows(Shl(1, r.e + 55), 1022 - r.e);
    } else {
      var k := 1078 - r.e;
      DropIs(r.m, k);
      ShlPlus(w, 1, k);
      ShlOrder(r.m, Shl(w, k), r.e - 1);
      ShlOrder(r.m, Shl(w + 1, k), r.e - 1);
      ShlShl(w, k, r.e - 1);
      ShlShl(w + 1, k, r.e - 1);
    }
  }

  lemma RoundedExact(e: int, q: nat)
    requires 8 * q < FULL
    ensures Rounded(Reg(e, 8 * q)) == Reg(e, 8 * q)
  {
    assert (8 * q) % 8 == 0 && (8 * q) / 8 == q;
    assert RoundM(8 * q) == q;
  }

  lemma ShlEight(w: nat, k: nat)
    ensures Shl(w, k + 3) == 8 * Shl(w, k)
  {
    ShlTwice(w, k);
    ShlTwice(w, k + 1);
    ShlTwice(w, k + 2);
  }

  /** Every word but the most negative comes back as it went. */
  lemma WordBack(w: nat)
    requires 0 < w < 0x8000_0000
    ensures Bits(w) <= 31 && Rounded(WordReg(w)) == WordReg(w) && Whole(WordReg(w)) == w
  {
    WordNormal(w);
    var k := 56 - Bits(w);
    ShlEight(w, k - 3);
    RoundedExact(Bits(w) + 1022, Shl(w, k - 3));
    ShlGrows(1, k);
    DropOnly(Shl(w, k), k, w);
  }

  /** The round trip of any word; the least comes back one greater. */
  method RoundTrip(i: Internal, v: int) returns (word: int)
    requires LEAST <= v < 0x8000_0000
    modifies i
    ensures word == v <==> v != LEAST
    ensures v == LEAST ==> word == LEAST + 1
  {
    FpiW2i(i, v);
    if v != 0 && v != LEAST {
      WordBack(if v < 0 then -v else v);
    }
    word := FpiI2w(i);
  }
}
