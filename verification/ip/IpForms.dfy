/** The forms of text the parsers take besides those printed: short addresses, other bases, and masks
    bit by bit. */
module IpForms {
  import opened Octets
  import opened IpText
  import opened IpFmt

  // ---------- the characters printed ----------

  predicate Printed(c: char) {
    '0' <= c <= '9' || 'a' <= c <= 'f' || c == ':' || c == '.'
  }

  lemma DigitPrinted(n: nat)
    requires n < 16
    ensures Printed(Digit(n))
  {
  }

  lemma {:induction false} HexPrinted(n: nat)
    ensures forall c | c in Hex(n) :: Printed(c)
  {
    DigitPrinted(n % 16);
    if n >= 16 {
      HexPrinted(n / 16);
    }
  }

  lemma {:induction false} DecPrinted(n: nat)
    ensures forall c | c in Dec(n) :: Printed(c)
  {
    DigitPrinted(n % 10);
    if n >= 10 {
      DecPrinted(n / 10);
    }
  }

  lemma {:induction false} GroupsPrinted(ip: seq<Octet>, i: nat, e: Elision)
    requires IsAddr(ip) && i <= 8 && Inside(e)
    ensures forall c | c in Groups(ip, i, e) :: Printed(c)
    decreases 8 - i
  {
    if i < 8 {
      var j := if i == e.eli then i + e.eln else i;
      if j < 8 {
        HexPrinted(Group(ip, j));
        GroupsPrinted(ip, j + 1, e);
        GroupsOne(ip, i, j, e);
      }
    }
  }

  /** An address is printed in digits, small letters, colons and dots. */
  lemma ShownPrinted(ip: seq<Octet>, e: Elision)
    requires IsAddr(ip) && Inside(e)
    ensures forall c | c in Shown(ip, e) :: Printed(c)
  {
    if IsV4(ip) {
      DecPrinted(ip[12]);
      DecPrinted(ip[13]);
      DecPrinted(ip[14]);
      DecPrinted(ip[15]);
    } else {
      GroupsPrinted(ip, 0, e);
    }
  }

  // ---------- addresses of fewer than four numbers ----------

  lemma AloneSeen(n: nat)
    ensures Strtoul16(Dec(n)).1 == ""
  {
    var s := Dec(n);
    DecShape(n);
    DigitsPass(s, "", 0);
    assert s + "" == s;
    NoBlanks(s);
    assert |s| > 1 ==> s[1] in s;
  }

  lemma ReadAlone(s: Text)
    requires s != [] && Strtoul16(s).1 == ""
    ensures ReadFrom(s, Reading([], 0, true)) == Reading(Classful(V4Nums(s, 0).0), 0, true)
  {
  }

  lemma ParseDots(n: seq<Octet>)
    requires 1 <= |n| <= 4
    ensures ParseIp(Dots(n)) == V4PREFIX + Classful(n)
  {
    DecShape(n[0]);
    if |n| == 1 {
      AloneSeen(n[0]);
      ReadAlone(Dots(n));
    } else {
      DotSeen(n[0], Dots(n[1..]));
      ReadV4(Dots(n));
    }
    DotsNums(n, 0);
    SpreadV4(Classful(n));
  }

  lemma FillsHost(a: Octet, b: Octet, c: Octet)
    ensures Classful([a]) == [a, 0, 0, 0]
    ensures Classful([a, b]) == if a < 128 then [a, 0, 0, b] else [a, b, 0, 0]
    ensures Classful([a, b, c]) == if a < 128 then [a, 0, b, c] else if a < 192 then [a, b, 0, c] else [a, b, c, 0]
  {
  }

  /** Numbers with dots between them are a v4 address.  With fewer than four, those after the network's
      own (one below 128, two below 192, and otherwise three) are the last of the host part. */
  lemma ShortForms(a: Octet, b: Octet, c: Octet)
    ensures ParseIp(Dots([a])) == V4PREFIX + [a, 0, 0, 0]
    ensures ParseIp(Dots([a, b])) == V4PREFIX + if a < 128 then [a, 0, 0, b] else [a, b, 0, 0]
    ensures ParseIp(Dots([a, b, c])) == V4PREFIX + if a < 128 then [a, 0, b, c] else if a < 192 then [a, b, 0, c] else [a, b, c, 0]
  {
    FillsHost(a, b, c);
    ParseDots([a]);
    ParseDots([a, b]);
    ParseDots([a, b, c]);
  }

  lemma TenDots()
    ensures Dots([10, 1]) == "10.1"
  {
    assert [10, 1][1..] == [1];
    assert Dec(1) == "1";
    assert Dec(10) == Dec(1) + "0";
  }

  lemma TenOne(s: Text)
    requires s == "10.1"
    ensures ParseIp(s) == V4PREFIX + [10, 0, 0, 1]
  {
    TenDots();
    ShortForms(10, 1, 0);
    assert ParseIp(Dots([10, 1])) == V4PREFIX + [10, 0, 0, 1];
  }

  // ---------- other bases ----------

  function Oct(n: nat): Text {
    if n < 8 then [Digit(n)] else Oct(n / 8) + [Digit(n % 8)]
  }

  lemma {:induction false} ScanOctBack(n: nat, rest: Text)
    ensures ScanOct(Oct(n) + rest, 0) == ScanOct(rest, n)
  {
    if n < 8 {
      assert ([Digit(n)] + rest)[1..] == rest;
    } else {
      var more := [Digit(n % 8)] + rest;
      ScanOctBack(n / 8, more);
      assert Oct(n) + rest == Oct(n / 8) + more;
      assert more[1..] == rest;
    }
  }

  lemma {:induction false} OctShape(n: nat)
    ensures Oct(n) != [] && Value(Oct(n)[0]) < 8 && Oct(n)[0] !in {'x', 'X'}
  {
    if n >= 8 {
      OctShape(n / 8);
    }
  }

  /** A number may be given in base 16 behind "0x" and in base 8 behind "0". */
  lemma OtherBases(n: nat)
    requires n < 0x1_0000_0000
    ensures Strtoul0("0x" + Hex(n)) == (n, "") && Strtoul0("0" + Oct(n)) == (n, "")
  {
    var s, t := "0x" + Hex(n), "0" + Oct(n);
    HexShape(n);
    ScanHexBack(n, "");
    assert Hex(n) + "" == Hex(n) && s[2..] == Hex(n);
    NoBlanks(s);
    OctShape(n);
    ScanOctBack(n, "");
    assert Oct(n) + "" == Oct(n) && t[1..] == Oct(n);
    NoBlanks(t);
  }

  /** A number too large for a word is read as the largest word. */
  function Capped(n: nat): nat {
    if n < 0x1_0000_0000 then n else 0xFFFF_FFFF
  }

  lemma JustDigits(n: nat)
    ensures var s := Dec(n); s != [] && Digits0(s) == (n, "") && SkipBlanks(s) == s && Unsigned(s) == s && !Minus(s)
  {
    DecShape(n);
    DigitsBack(n, "");
    assert Dec(n) + "" == Dec(n);
    NoBlanks(Dec(n));
  }

  /** Blanks in front are skipped. */
  lemma BlanksBefore(n: nat)
    ensures Strtoul0(" \t" + Dec(n)) == (Capped(n), "")
  {
    JustDigits(n);
    var s := Dec(n);
    assert ("\t" + s)[1..] == s;
    assert (" \t" + s)[1..] == "\t" + s;
    assert SkipBlanks(" \t" + s) == SkipBlanks("\t" + s) == SkipBlanks(s);
  }

  /** So is a plus sign, and a minus sign negates the word. */
  lemma SignBefore(n: nat)
    ensures Strtoul0("+" + Dec(n)) == (Capped(n), "")
    ensures Strtoul0("-" + Dec(n)) == (if 0 < n < 0x1_0000_0000 then 0x1_0000_0000 - n else Capped(n), "")
  {
    JustDigits(n);
    assert ("+" + Dec(n))[1..] == Dec(n) && ("-" + Dec(n))[1..] == Dec(n);
  }

  // ---------- masks ----------

  /** The i-th bit from the front. */
  function Bit(m: seq<Octet>, i: nat): nat
    requires i < 8 * |m|
  {
    m[i / 8] / [128, 64, 32, 16, 8, 4, 2, 1][i % 8] % 2
  }

  /** The mask of n ones has just the first n bits. */
  lemma MaskBits(n: nat, i: nat)
    requires n <= 128 && i < 128
    ensures Bit(MaskOf(n), i) == if i < n then 1 else 0
  {
    var k, j := i / 8, n - i / 8 * 8;
    if 0 < j < 8 {
      PartialBits(j, i % 8);
    }
  }

  lemma PartialBits(j: nat, b: nat)
    requires j < 8 && b < 8
    ensures Partial(j) / [128, 64, 32, 16, 8, 4, 2, 1][b] % 2 == if b < j then 1 else 0
  {
  }

  /** A slash and a number is the mask of that many ones, at most 128 and, below zero, none. */
  lemma SlashForms(n: nat, i: nat)
    requires i < 128
    ensures Bit(ParseMask("/" + Dec(n)), i) == if i < n then 1 else 0
    ensures Bit(ParseMask("/-" + Dec(n)), i) == 0
  {
    var s, m := "/" + Dec(n), "/-" + Dec(n);
    AtoiBack(n);
    assert s[1..] == Dec(n) && m[1..] == "-" + Dec(n);
    MinusBack(n);
    MaskBits(if n > 128 then 128 else n, i);
    MaskBits(0, i);
  }

  lemma MinusBack(n: nat)
    ensures Atoi("-" + Dec(n)) == 0 - n
  {
    var m := "-" + Dec(n);
    DecShape(n);
    DigitsBack(n, "");
    assert Dec(n) + "" == Dec(n) && m[1..] == Dec(n);
  }
}
