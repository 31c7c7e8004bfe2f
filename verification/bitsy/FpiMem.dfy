/** Doubles in memory, the conversions to and from registers, and the whole load-operate-store
    cycle of one floating point instruction. */
module FpiMem {
  import opened Arith
  import opened Ieee
  import opened FpiSpec
  import opened FpiRounding
  import opened Fpi

  /** The two 32-bit words of a double. */
  datatype Double = Double(l: nat, h: nat)

  predicate Bits64(d: Double) {
    d.l < 0x1_0000_0000 && d.h < 0x1_0000_0000
  }

  /** Exponent and fraction fields together. */
  function Magnitude(d: Double): nat {
    d.h % 0x8000_0000 * 0x1_0000_0000 + d.l
  }

  function Sign(d: Double): nat {
    d.h / 0x8000_0000
  }

  // ---------- load ----------

  /** The masks and shifts of the load. */
  method TakeFields(i: Internal, d: Double) returns (ghost e: nat, ghost f: nat)
    requires Bits64(d)
    modifies i
    ensures e <= EXPINF && f < TWO52 && Magnitude(d) == Enc(e, f)
    ensures i.Valid() && i.s == Sign(d) && i.e == e && i.h < HIDDEN && i.R().m == 8 * f
  {
    i.s := if d.h / 0x8000_0000 % 2 != 0 then 1 else 0;
    i.e := d.h / 0x10_0000 % 0x800;
    i.h := d.h % 0x10_0000 * 0x80 + d.l / 0x200_0000 % 0x80;
    i.l := d.l % 0x200_0000 * 8;
    e, f := FieldsOf(d);
  }

  /** A double in memory is loaded as its exact magnitude, class and sign. */
  method FpiD2i(i: Internal, d: Double)
    requires Bits64(d)
    modifies i
    ensures i.Canonical() && i.s == Sign(d)
    ensures Magnitude(d) < INF ==> Loaded(i.R(), Magnitude(d)) && (i.R().m == 0 <==> Magnitude(d) == 0)
    ensures Magnitude(d) == INF ==> i.IsInfinity()
    ensures Magnitude(d) > INF ==> i.IsNaN()
  {
    ghost var e, f;
    e, f := TakeFields(i, d);
    SetHidden(i, e, f);
    Classes(i, e, f, Magnitude(d));
  }

  lemma Classes(i: Internal, e: nat, f: nat, code: nat)
    requires i.Valid() && e <= EXPINF && f < TWO52 && i.R() == FieldReg(e, f) && code == Enc(e, f)
    ensures code < INF ==> Loaded(i.R(), code) && (i.R().m == 0 <==> code == 0)
    ensures code == INF ==> i.IsInfinity()
    ensures code > INF ==> i.IsNaN()
  {
    LoadFields(e, f);
    if e == EXPINF {
      WeirdFields(i, f);
    }
  }

  /** The register for a pair of fields. */
  function FieldReg(e: nat, f: nat): Reg {
    if e == 0 then Reg(1, 8 * f) else Reg(e, 8 * f + NORM)
  }

  /** The end of `fpid2i`: normal numbers get their hidden bit, subnormal ones exponent 1. */
  method SetHidden(i: Internal, ghost e: nat, ghost f: nat)
    requires i.Valid() && i.e == e <= EXPINF && i.h < HIDDEN && i.R().m == 8 * f
    modifies i
    ensures i.Canonical() && i.s == old(i.s) && i.R() == FieldReg(e, f)
  {
    ghost var m := i.R().m;
    if i.e != 0 {
      i.h := i.h + HIDDEN;
      assert i.R() == Reg(e, m + NORM);
    } else {
      i.e := i.e + 1;
      assert i.R() == Reg(1, m);
    }
  }

  /** The classes of the largest exponent field. */
  lemma WeirdFields(i: Internal, f: nat)
    requires i.Valid() && f < TWO52 && i.R() == FieldReg(EXPINF, f)
    ensures f == 0 ==> i.IsInfinity()
    ensures f > 0 ==> i.IsNaN()
  {
    assert i.h * 0x1000_0000 + i.l == 8 * f + NORM;
  }

  /** The register a pair of fields is loaded into holds that double. */
  lemma LoadFields(e: nat, f: nat)
    requires e <= EXPINF && f < TWO52
    ensures e < EXPINF ==> Loaded(FieldReg(e, f), Enc(e, f))
    ensures e < EXPINF ==> Enc(e, f) < INF && (Enc(e, f) == 0 <==> e == 0 && f == 0)
    ensures e == EXPINF ==> Enc(e, f) == INF + f
  {
    if e == 0 {
      MagEncode(1, f);
    } else if e < EXPINF {
      MagEncode(e, f + TWO52);
      ShlEight(f + TWO52, e - 1);
      assert Enc(e - 1, f + TWO52) == Enc(e, f);
    }
  }

  lemma ShlEight(m: nat, k: nat)
    ensures Shl(8 * m, k) == 8 * Shl(m, k)
  {
    ShlTwice(m, k);
    ShlTwice(2 * m, k);
    ShlTwice(4 * m, k);
  }

  /** The masks and shifts of `fpid2i` take the fields apart: 11 bits of exponent, 52 of fraction. */
  lemma FieldsOf(d: Double) returns (e: nat, f: nat)
    requires Bits64(d)
    ensures e == d.h / 0x10_0000 % 0x800 && f < TWO52 && Magnitude(d) == Enc(e, f) && Sign(d) < 2
    ensures var h := d.h % 0x10_0000 * 0x80 + d.l / 0x200_0000 % 0x80; var l := d.l % 0x200_0000 * 8;
      h < HIDDEN && l < CARRY && h * 0x1000_0000 + l == 8 * f
  {
    e := d.h / 0x10_0000 % 0x800;
    f := d.h % 0x10_0000 * 0x1_0000_0000 + d.l;
    assert d.h % 0x8000_0000 == e * 0x10_0000 + d.h % 0x10_0000;
    assert d.l == d.l / 0x200_0000 * 0x200_0000 + d.l % 0x200_0000;
  }

  // ---------- store ----------

  /** Any register with an exponent that has a field is stored as its rounded code.  A NaN of all ones
      with guard bits set rounds past the fields, into the sign bit; nothing loaded or computed is one. */
  method FpiI2d(i: Internal) returns (d: Double)
    requires i.Valid() && 1 <= i.e <= EXPINF
    modifies i
    ensures Bits64(d)
    ensures var code := Code(old(i.R()));
      if code < TOP then Sign(d) == old(i.s) && Magnitude(d) == code else Sign(d) == 1 && Magnitude(d) == code - TOP
    ensures Code(old(i.R())) >= TOP ==> old(i.IsNaN() && i.l % 8 != 0)
  {
    ghost var r := i.R();
    StoredCode(r);
    CodeFits(i);
    FpiRound(i);
    if i.h >= HIDDEN {
      i.h := i.h - HIDDEN;
    } else {
      i.e := i.e - 1;
    }
    assert Enc(i.e, (i.h * 0x1000_0000 + i.l) / 8) == Code(r);
    d := Pack(i);
  }

  const TOP: nat := 0x8000_0000_0000_0000

  /** The last rounding carry of all ends in the sign bit. */
  lemma CodeFits(i: Internal)
    requires i.Valid() && 1 <= i.e <= EXPINF
    ensures Code(i.R()) >= TOP ==> i.IsNaN() && i.l % 8 != 0
  {
    var m := i.R().m;
    RoundMBounds(m);
    if i.l % 8 == 0 {
      assert m == 8 * (i.h * 0x200_0000 + i.l / 8);
      assert RoundM(m) == m / 8;
    }
    if i.l == 0 && i.h == HIDDEN {
      assert RoundM(m) == TWO52;
    }
  }

  lemma StoredCode(r: Reg)
    requires 1 <= r.e <= EXPINF && r.m < FULL
    ensures var q := Rounded(r); q.m == 8 * (q.m / 8) && q.m < FULL && 1 <= q.e <= EXPINF + 1 && (q.e > EXPINF ==> q.m == NORM)
    ensures var q := Rounded(r); Code(r) == (if q.m >= NORM then Enc(q.e, q.m / 8 - TWO52) else Enc(q.e - 1, q.m / 8))
  {
    RoundMBounds(r.m);
  }

  /** The sign or-ed onto the other fields. */
  function OrSign(s: int, x: int): int {
    if s != 0 && x < 0x8000_0000 then x + 0x8000_0000 else x
  }

  /** The shifts of the store. */
  method Pack(i: Internal) returns (d: Double)
    requires (i.s == 0 || i.s == 1) && 0 <= i.e <= EXPINF + 1 && 0 <= i.h < HIDDEN && 0 <= i.l < CARRY && i.l % 8 == 0
    requires i.e > EXPINF ==> i.h == 0 && i.l == 0
    modifies i
    ensures Bits64(d)
    ensures var code := old(Enc(i.e, (i.h * 0x1000_0000 + i.l) / 8));
      if code < TOP then Sign(d) == old(i.s) && Magnitude(d) == code else Sign(d) == 1 && Magnitude(d) == code - TOP
  {
    PackFields(i.e, i.h, i.l);
    i.l := i.h % 8 * 0x200_0000 + i.l / 8;
    i.h := i.h / 8;
    d := Double(i.h * 0x1000_0000 % 0x1_0000_0000 + i.l, OrSign(i.s, i.e * 0x10_0000 + i.h % 0x100_0000 / 16));
    SignOff(d.h, i.s, i.e * 0x10_0000 + i.h % 0x100_0000 / 16);
  }

  lemma SignOff(dh: nat, s: int, x: nat)
    requires x < 0x1_0000_0000 && (s == 0 || s == 1) && dh == OrSign(s, x)
    ensures dh < 0x1_0000_0000
    ensures x < 0x8000_0000 ==> dh / 0x8000_0000 == s && dh % 0x8000_0000 == x
    ensures x >= 0x8000_0000 ==> dh / 0x8000_0000 == 1 && dh % 0x8000_0000 == x - 0x8000_0000
  {
  }

  lemma PackFields(e: int, h: int, l: int)
    requires 0 <= e <= EXPINF + 1 && 0 <= h < HIDDEN && 0 <= l < CARRY && l % 8 == 0 && (e > EXPINF ==> h == 0)
    ensures var h1 := h / 8; var l1 := h % 8 * 0x200_0000 + l / 8;
      var dh := e * 0x10_0000 + h1 % 0x100_0000 / 16;
      var dl := h1 * 0x1000_0000 % 0x1_0000_0000 + l1;
      0 <= dh < 0x1_0000_0000 && 0 <= dl < 0x1_0000_0000 && dh * 0x1_0000_0000 + dl == Enc(e, (h * 0x1000_0000 + l) / 8)
  {
    var h1 := h / 8;
    LowNibble(h1);
    assert (h * 0x1000_0000 + l) / 8 == h * 0x200_0000 + l / 8;
  }

  lemma LowNibble(h: nat)
    ensures h * 0x1000_0000 % 0x1_0000_0000 == h % 16 * 0x1000_0000
  {
    assert h == h / 16 * 16 + h % 16;
    assert h * 0x1000_0000 == h / 16 * 0x1_0000_0000 + h % 16 * 0x1000_0000;
  }
}
