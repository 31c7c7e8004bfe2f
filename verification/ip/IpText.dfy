/** Addresses and masks as text: printing with elision (section 2.2 of RFC 4291), reading back. */
module IpText {
  import opened Octets

  type Text = string

  /** A 16-byte address or mask. */
  predicate IsAddr(ip: seq<Octet>) {
    |ip| == 16
  }

  const V4PREFIX: seq<Octet> := [0, 0, 0, 0, 0, 0, 0, 0, 0, 0, 0xFF, 0xFF]

  predicate IsV4(ip: seq<Octet>)
    requires IsAddr(ip)
  {
    ip[..12] == V4PREFIX
  }

  // ---------- numbers ----------

  const DIGITS: string := "0123456789abcdef"

  function Value(c: char): int {
    if '0' <= c <= '9' then c as int - '0' as int
    else if 'a' <= c <= 'f' then c as int - 'a' as int + 10
    else if 'A' <= c <= 'F' then c as int - 'A' as int + 10
    else 99
  }

  function Digit(n: nat): (c: char)
    requires n < 16
    ensures Value(c) == n && (n < 10 ==> '0' <= c <= '9') && (n > 0 ==> c != '0') && c != 'x'
  {
    DIGITS[n]
  }

  /** `%ux` and `%d`. */
  function Hex(n: nat): Text {
    if n < 16 then [Digit(n)] else Hex(n / 16) + [Digit(n % 16)]
  }

  function Dec(n: nat): Text {
    if n < 10 then [Digit(n)] else Dec(n / 10) + [Digit(n % 10)]
  }

  /** The digits at the front of a text, and what follows them. */
  function ScanHex(s: Text, acc: nat): (nat, Text) {
    if s != [] && Value(s[0]) < 16 then ScanHex(s[1..], acc * 16 + Value(s[0])) else (acc, s)
  }

  function ScanDec(s: Text, acc: nat): (nat, Text) {
    if s != [] && Value(s[0]) < 10 then ScanDec(s[1..], acc * 10 + Value(s[0])) else (acc, s)
  }

  function ScanOct(s: Text, acc: nat): (nat, Text) {
    if s != [] && Value(s[0]) < 8 then ScanOct(s[1..], acc * 8 + Value(s[0])) else (acc, s)
  }

  predicate HexPrefix(s: Text) {
    |s| > 2 && s[0] == '0' && s[1] in {'x', 'X'} && Value(s[2]) < 16
  }

  /** The digits of a number in base 16, and in the base its prefix says. */
  function Digits16(s: Text): (nat, Text) {
    ScanHex(if HexPrefix(s) then s[2..] else s, 0)
  }

  function Digits0(s: Text): (nat, Text) {
    if HexPrefix(s) then ScanHex(s[2..], 0)
    else if s != [] && s[0] == '0' then ScanOct(s, 0)
    else ScanDec(s, 0)
  }

  /** Past the blanks in front. */
  function SkipBlanks(s: Text): (t: Text)
    ensures |t| <= |s|
  {
    if s != [] && s[0] in {' ', '\t'} then SkipBlanks(s[1..]) else s
  }

  predicate Minus(s: Text) {
    s != [] && s[0] == '-'
  }

  function Unsigned(s: Text): Text {
    if s != [] && s[0] in {'-', '+'} then s[1..] else s
  }

  /** What `strtoul` makes of the digits after blanks and a sign: 0 and the whole text when there are
      none, the largest word when they are too many, and a minus sign negates the word. */
  function Word(s: Text, n: (nat, Text)): (nat, Text) {
    var t := SkipBlanks(s);
    if n.1 == Unsigned(t) then (0, s)
    else if n.0 >= 0x1_0000_0000 then (0xFFFF_FFFF, n.1)
    else if Minus(t) && n.0 > 0 then (0x1_0000_0000 - n.0, n.1)
    else n
  }

  /** `strtoul` with base 16 and with base 0. */
  function Strtoul16(s: Text): (nat, Text) {
    Word(s, Digits16(Unsigned(SkipBlanks(s))))
  }

  function Strtoul0(s: Text): (nat, Text) {
    Word(s, Digits0(Unsigned(SkipBlanks(s))))
  }

  /** A text that begins with a digit has no blanks or sign to skip. */
  lemma NoBlanks(s: Text)
    requires s != [] && Value(s[0]) < 16
    ensures SkipBlanks(s) == s && Unsigned(s) == s && !Minus(s)
  {
  }

  lemma {:induction false} ScanHexBack(n: nat, rest: Text)
    ensures ScanHex(Hex(n) + rest, 0) == ScanHex(rest, n)
  {
    if n < 16 {
      assert ([Digit(n)] + rest)[1..] == rest;
    } else {
      var more := [Digit(n % 16)] + rest;
      ScanHexBack(n / 16, more);
      assert Hex(n) + rest == Hex(n / 16) + more;
      assert more[1..] == rest;
    }
  }

  lemma {:induction false} ScanDecBack(n: nat, rest: Text)
    ensures ScanDec(Dec(n) + rest, 0) == ScanDec(rest, n)
  {
    if n < 10 {
      assert ([Digit(n)] + rest)[1..] == rest;
    } else {
      var more := [Digit(n % 10)] + rest;
      ScanDecBack(n / 10, more);
      assert Dec(n) + rest == Dec(n / 10) + more;
      assert more[1..] == rest;
    }
  }

  lemma {:induction false} HexShape(n: nat)
    ensures Hex(n) != [] && (n > 0 ==> Hex(n)[0] != '0') && (n == 0 ==> Hex(n) == "0") && Value(Hex(n)[0]) < 16
  {
    if n >= 16 {
      HexShape(n / 16);
    }
  }

  lemma {:induction false} HexShort(n: nat, k: nat)
    requires 1 <= k <= 4 && n < if k == 1 then 16 else if k == 2 then 0x100 else if k == 3 then 0x1000 else 0x1_0000
    ensures |Hex(n)| <= k
  {
    if n >= 16 {
      HexShort(n / 16, k - 1);
    }
  }

  lemma {:induction false} DecShape(n: nat)
    ensures Dec(n) != [] && (n > 0 ==> Dec(n)[0] != '0') && (n == 0 ==> Dec(n) == "0") && Value(Dec(n)[0]) < 10
    ensures forall c | c in Dec(n) :: Value(c) < 10
  {
    if n >= 10 {
      DecShape(n / 10);
    }
  }

  /** The text goes on with something no number contains. */
  predicate Ends(rest: Text) {
    rest == [] || rest[0] in {':', '.'}
  }

  lemma HexBack(n: nat, rest: Text)
    requires Ends(rest) && n < 0x1_0000_0000
    ensures Strtoul16(Hex(n) + rest) == (n, rest)
  {
    HexShape(n);
    ScanHexBack(n, rest);
    NoBlanks(Hex(n) + rest);
    assert |Hex(n) + rest| > |rest|;
  }

  lemma DecBack(n: nat, rest: Text)
    requires Ends(rest) && n < 0x1_0000_0000
    ensures Strtoul0(Dec(n) + rest) == (n, rest)
  {
    DecShape(n);
    DigitsBack(n, rest);
    NoBlanks(Dec(n) + rest);
    assert |Dec(n) + rest| > |rest|;
  }

  lemma DigitsBack(n: nat, rest: Text)
    requires Ends(rest)
    ensures Digits0(Dec(n) + rest) == (n, rest)
  {
    DecShape(n);
    ScanDecBack(n, rest);
    if n == 0 {
      assert ("0" + rest)[1..] == rest;
      assert ScanOct("0" + rest, 0) == ScanOct(rest, 0);
    }
  }

  // ---------- printing ----------

  /** The i-th 16-bit group.  Places and lengths below are counted in groups, where the code counts
      bytes. */
  function Group(ip: seq<Octet>, i: nat): nat
    requires 2 * i + 1 < |ip|
  {
    Pair(ip[2 * i], ip[2 * i + 1])
  }

  function Dotted(p: seq<Octet>): Text
    requires |p| == 4
  {
    Dec(p[0]) + "." + Dec(p[1]) + "." + Dec(p[2]) + "." + Dec(p[3])
  }

  /** Where the zero groups that start at i end. */
  function ZerosEnd(ip: seq<Octet>, i: nat): (j: nat)
    requires IsAddr(ip) && i <= 8
    ensures i <= j <= 8
    ensures forall k | i <= k < j :: Group(ip, k) == 0
    ensures j < 8 ==> Group(ip, j) != 0
    decreases 8 - i
  {
    if i >= 8 || Group(ip, i) != 0 then i else ZerosEnd(ip, i + 1)
  }

  /** The run to leave out: its place and length, -1 when there is none. */
  datatype Elision = Elision(eli: int, eln: int)

  const NONE: Elision := Elision(-1, -1)

  ghost predicate IsRun(ip: seq<Octet>, e: Elision)
    requires IsAddr(ip)
  {
    0 <= e.eli < e.eli + e.eln <= 8 && forall k | e.eli <= k < e.eli + e.eln :: Group(ip, k) == 0
  }

  /** The longest run of zero groups, and the first of those. */
  ghost predicate Longest(ip: seq<Octet>, e: Elision)
    requires IsAddr(ip)
  {
    && (e == NONE || IsRun(ip, e))
    && (forall f | IsRun(ip, f) :: f.eln < e.eln || (f.eln == e.eln && e.eli <= f.eli))
  }

  /** An elision that stays inside the address. */
  predicate Inside(e: Elision) {
    e == NONE || 0 <= e.eli < e.eli + e.eln <= 8
  }

  /** The text from group i on. */
  function Groups(ip: seq<Octet>, i: nat, e: Elision): Text
    requires IsAddr(ip) && Inside(e)
    decreases 8 - i
  {
    if i >= 8 then ""
    else if i == e.eli then
      if i + e.eln >= 8 then "::" else "::" + Hex(Group(ip, i + e.eln)) + Groups(ip, i + e.eln + 1, e)
    else (if i != 0 then ":" else "") + Hex(Group(ip, i)) + Groups(ip, i + 1, e)
  }

  // ---------- reading ----------

  /** Up to four numbers with dots between them. */
  function V4Nums(s: Text, k: nat): (seq<Octet>, Text)
    ensures k <= 4 ==> |V4Nums(s, k).0| <= 4 - k
    decreases 4 - k
  {
    if k >= 4 || s == [] then ([], s)
    else
      var (x, p) := Strtoul0(s);
      var (more, q) := V4Nums(if p != [] && p[0] == '.' then p[1..] else p, k + 1);
      ([x % 256] + more, q)
  }

  /** The old classes: the last number given fills the host part. */
  function Classful(n: seq<Octet>): (to: seq<Octet>)
    requires |n| <= 4
    ensures |to| == 4
  {
    if n == [] then [0, 0, 0, 0]
    else
      var cls := n[0] / 64;
      if |n| == 4 then n
      else if |n| == 3 then
        if cls < 2 then [n[0], 0, n[1], n[2]] else if cls == 2 then [n[0], n[1], 0, n[2]] else n + [0]
      else if |n| == 2 then
        if cls < 2 then [n[0], 0, 0, n[1]] else n + [0, 0]
      else n + [0, 0, 0]
  }

  /** The loop of `parseip`: what has been read, where the elision is, and whether no colon was seen. */
  datatype Reading = Reading(to: seq<Octet>, elipsis: nat, v4: bool)

  function ReadFrom(s: Text, r: Reading): (q: Reading)
    requires r.elipsis <= |r.to|
    ensures q.elipsis <= |q.to|
    decreases 16 - |r.to|
  {
    if |r.to| >= 16 || s == [] then r
    else
      var (x, p) := Strtoul16(s);
      if (p != [] && p[0] == '.') || (p == [] && r.to == []) then
        r.(to := r.to + Classful(V4Nums(s, 0).0))
      else
        var to := r.to + [x / 256 % 256, x % 256];
        if p == [] || p[0] != ':' then ReadFrom(p, r.(to := to))
        else if |p| > 1 && p[1] == ':' then ReadFrom(p[2..], Reading(to, |to|, false))
        else ReadFrom(p[1..], Reading(to, r.elipsis, false))
  }

  /** Opening up the elision, and the prefix of v4 addresses. */
  function Spread(r: Reading): (to: seq<Octet>)
    requires r.elipsis <= |r.to|
    ensures IsAddr(to)
  {
    var to := if |r.to| < 16 then r.to[..r.elipsis] + seq(16 - |r.to|, _ => 0) + r.to[r.elipsis..] else r.to[..16];
    if r.v4 then to[10 := 0xFF][11 := 0xFF] else to
  }

  function ParseIp(s: Text): (to: seq<Octet>)
    ensures IsAddr(to)
  {
    Spread(ReadFrom(s, Reading([], 0, true)))
  }

  // ---------- the round trip ----------

  lemma OctetsOf(ip: seq<Octet>, i: nat)
    requires 2 * i + 1 < |ip|
    ensures [Group(ip, i) / 256 % 256, Group(ip, i) % 256] == ip[2 * i..2 * i + 2] && Group(ip, i) < 0x1_0000
  {
  }

  /** One turn of the loop, for a number that is not the first of a dotted address. */
  lemma ReadOne(t: Text, x: nat, p: Text, r: Reading)
    requires r.elipsis <= |r.to| < 16 && t != [] && Strtoul16(t) == (x, p)
    requires (p == [] && r.to != []) || (p != [] && p[0] == ':')
    ensures var to := r.to + [x / 256 % 256, x % 256];
      ReadFrom(t, r) ==
        if p == [] then r.(to := to)
        else if |p| > 1 && p[1] == ':' then ReadFrom(p[2..], Reading(to, |to|, false))
        else ReadFrom(p[1..], Reading(to, r.elipsis, false))
  {
  }

  /** Reading one group: what the loop does depends on what follows it. */
  lemma ReadGroup(ip: seq<Octet>, i: nat, p: Text, r: Reading)
    requires IsAddr(ip) && i < 8 && r.elipsis <= |r.to| < 16
    requires (p == [] && r.to != []) || (p != [] && p[0] == ':')
    ensures var to := r.to + ip[2 * i..2 * i + 2];
      ReadFrom(Hex(Group(ip, i)) + p, r) ==
        if p == [] then r.(to := to)
        else if |p| > 1 && p[1] == ':' then ReadFrom(p[2..], Reading(to, |to|, false))
        else ReadFrom(p[1..], Reading(to, r.elipsis, false))
  {
    OctetsOf(ip, i);
    HexBack(Group(ip, i), p);
    HexShape(Group(ip, i));
    ReadOne(Hex(Group(ip, i)) + p, Group(ip, i), p, r);
  }

  lemma ReadLast(ip: seq<Octet>, i: nat, r: Reading)
    requires IsAddr(ip) && i < 8 && r.elipsis <= |r.to| < 16 && r.to != []
    ensures ReadFrom(Hex(Group(ip, i)), r) == r.(to := r.to + ip[2 * i..2 * i + 2])
  {
    ReadGroup(ip, i, "", r);
    assert Hex(Group(ip, i)) + "" == Hex(Group(ip, i));
  }

  lemma ReadColon(ip: seq<Octet>, i: nat, s: Text, r: Reading)
    requires IsAddr(ip) && i < 8 && r.elipsis <= |r.to| < 16 && s != [] && s[0] != ':'
    ensures ReadFrom(Hex(Group(ip, i)) + ([':'] + s), r) == ReadFrom(s, Reading(r.to + ip[2 * i..2 * i + 2], r.elipsis, false))
  {
    ReadGroup(ip, i, [':'] + s, r);
    assert ([':'] + s)[1..] == s;
  }

  lemma ReadGap(ip: seq<Octet>, i: nat, s: Text, r: Reading)
    requires IsAddr(ip) && i < 8 && r.elipsis <= |r.to| < 16
    ensures var to := r.to + ip[2 * i..2 * i + 2];
      ReadFrom(Hex(Group(ip, i)) + ([':', ':'] + s), r) == ReadFrom(s, Reading(to, |to|, false))
  {
    ReadGroup(ip, i, [':', ':'] + s, r);
    assert ([':', ':'] + s)[2..] == s;
  }

  /** The text from a group on, when it is not left out. */
  function From(ip: seq<Octet>, i: nat, e: Elision): (t: Text)
    requires IsAddr(ip) && i < 8 && Inside(e)
    ensures t != [] && t[0] != ':'
  {
    HexNotColon(Group(ip, i));
    Hex(Group(ip, i)) + Groups(ip, i + 1, e)
  }

  lemma GroupsPlain(ip: seq<Octet>, i: nat, e: Elision)
    requires IsAddr(ip) && 0 < i < 8 && i != e.eli && Inside(e)
    ensures Groups(ip, i, e) == [':'] + From(ip, i, e)
  {
  }

  /** One group read. */
  function Taken(ip: seq<Octet>, i: nat, r: Reading): Reading
    requires IsAddr(ip) && i < 8
  {
    r.(to := r.to + ip[2 * i..2 * i + 2])
  }

  lemma ReadOn(ip: seq<Octet>, i: nat, e: Elision, r: Reading)
    requires IsAddr(ip) && Inside(e) && i < 7 && i + 1 != e.eli && r.elipsis <= |r.to| < 16
    ensures ReadFrom(From(ip, i, e), r) == ReadFrom(From(ip, i + 1, e), Taken(ip, i, r).(v4 := false))
  {
    GroupsPlain(ip, i + 1, e);
    ReadColon(ip, i, From(ip, i + 1, e), r);
  }

  lemma ReadEnd(ip: seq<Octet>, i: nat, e: Elision, r: Reading)
    requires IsAddr(ip) && Inside(e) && i == 7 && r.elipsis <= |r.to| < 16 && r.to != []
    ensures ReadFrom(From(ip, i, e), r) == Taken(ip, i, r)
  {
    assert Groups(ip, 8, e) == "";
    assert From(ip, i, e) == Hex(Group(ip, i));
    ReadLast(ip, i, r);
  }

  /** Everything from group i on. */
  function All(ip: seq<Octet>, i: nat, r: Reading): Reading
    requires IsAddr(ip) && i <= 8
  {
    r.(to := r.to + ip[2 * i..])
  }

  lemma AllTaken(ip: seq<Octet>, i: nat, r: Reading)
    requires IsAddr(ip) && i < 8
    ensures All(ip, i + 1, Taken(ip, i, r)) == All(ip, i, r)
    ensures i == 7 ==> Taken(ip, i, r) == All(ip, i, r)
  {
    assert ip[2 * i..2 * i + 2] + ip[2 * i + 2..] == ip[2 * i..];
    assert r.to + ip[2 * i..2 * i + 2] + ip[2 * i + 2..] == r.to + ip[2 * i..];
  }

  /** Past the elision. */
  lemma {:induction false} ReadAfter(ip: seq<Octet>, i: nat, e: Elision, r: Reading)
    requires IsAddr(ip) && Inside(e) && e != NONE && e.eli + e.eln <= i < 8
    requires r.elipsis <= |r.to| && |r.to| <= 2 * i && r.to != [] && !r.v4
    ensures ReadFrom(From(ip, i, e), r) == All(ip, i, r)
    decreases 8 - i
  {
    AllTaken(ip, i, r);
    if i < 7 {
      ReadOn(ip, i, e, r);
      ReadAfter(ip, i + 1, e, Taken(ip, i, r));
    } else {
      ReadEnd(ip, i, e, r);
    }
  }

  lemma HexNotColon(n: nat)
    ensures Hex(n) != [] && Value(Hex(n)[0]) < 16 && Hex(n)[0] != ':'
  {
    HexShape(n);
  }

  /** How much of an elision, in bytes from the front, `parseip` has written before it knows of it;
      and where the rest begins. */
  function Kept(e: Elision): nat
    requires Inside(e) && e != NONE
  {
    if e.eli == 0 then 2 else 2 * e.eli
  }

  function Resumes(e: Elision): nat
    requires Inside(e) && e != NONE
  {
    2 * (e.eli + e.eln)
  }

  /** What follows "::". */
  function Beyond(ip: seq<Octet>, e: Elision): Text
    requires IsAddr(ip) && Inside(e) && e != NONE
  {
    if e.eli + e.eln >= 8 then "" else From(ip, e.eli + e.eln, e)
  }

  lemma GroupsGap(ip: seq<Octet>, e: Elision)
    requires IsAddr(ip) && Inside(e) && e != NONE
    ensures Groups(ip, e.eli, e) == [':', ':'] + Beyond(ip, e)
  {
  }

  /** What is read in all. */
  function Whole(ip: seq<Octet>, e: Elision): Reading
    requires IsAddr(ip) && Inside(e)
  {
    if e == NONE then Reading(ip, 0, false) else Reading(ip[..Kept(e)] + ip[Resumes(e)..], Kept(e), false)
  }

  /** From "::" on, with what came before already read. */
  lemma ReadBeyond(ip: seq<Octet>, e: Elision)
    requires IsAddr(ip) && Inside(e) && e != NONE
    ensures ReadFrom(Beyond(ip, e), Reading(ip[..Kept(e)], Kept(e), false)) == Whole(ip, e)
  {
    var j := e.eli + e.eln;
    if j < 8 {
      ReadAfter(ip, j, e, Reading(ip[..Kept(e)], Kept(e), false));
    } else {
      assert ip[Resumes(e)..] == [];
    }
  }

  /** Before the elision, the first groups as they stand. */
  function Before(ip: seq<Octet>, i: nat, v4: bool): Reading
    requires IsAddr(ip) && i <= 8
  {
    Reading(ip[..2 * i], 0, v4)
  }

  lemma BeforeTaken(ip: seq<Octet>, i: nat, v4: bool)
    requires IsAddr(ip) && i < 8
    ensures Taken(ip, i, Before(ip, i, v4)).(v4 := false) == Before(ip, i + 1, false)
    ensures i == 7 ==> Taken(ip, i, Before(ip, i, false)) == Reading(ip, 0, false)
  {
    assert ip[..2 * i] + ip[2 * i..2 * i + 2] == ip[..2 * (i + 1)];
    assert ip[..16] == ip;
  }

  lemma ReadInto(ip: seq<Octet>, i: nat, e: Elision, v4: bool)
    requires IsAddr(ip) && i < 7 && Inside(e) && i + 1 == e.eli
    ensures ReadFrom(From(ip, i, e), Before(ip, i, v4)) == Whole(ip, e)
  {
    GroupsGap(ip, e);
    assert Groups(ip, i + 1, e) == [':', ':'] + Beyond(ip, e);
    ReadGap(ip, i, Beyond(ip, e), Before(ip, i, v4));
    assert ip[..2 * i] + ip[2 * i..2 * i + 2] == ip[..Kept(e)];
    ReadBeyond(ip, e);
  }

  lemma ReadFinal(ip: seq<Octet>, i: nat, e: Elision)
    requires IsAddr(ip) && i == 7 && e == NONE
    ensures ReadFrom(From(ip, i, e), Before(ip, i, false)) == Whole(ip, e)
  {
    ReadEnd(ip, i, e, Before(ip, i, false));
    BeforeTaken(ip, i, false);
  }

  /** Before the elision, or with none. */
  lemma {:induction false} ReadBefore(ip: seq<Octet>, i: nat, e: Elision, v4: bool)
    requires IsAddr(ip) && i < 8 && Inside(e) && (e != NONE ==> i < e.eli) && (v4 ==> i == 0)
    ensures ReadFrom(From(ip, i, e), Before(ip, i, v4)) == Whole(ip, e)
    decreases 8 - i
  {
    if i + 1 == e.eli {
      ReadInto(ip, i, e, v4);
    } else if i < 7 {
      ReadOn(ip, i, e, Before(ip, i, v4));
      BeforeTaken(ip, i, v4);
      ReadBefore(ip, i + 1, e, false);
    } else {
      ReadFinal(ip, i, e);
    }
  }

  /** A text that starts with "::" makes a zero group first. */
  lemma ReadFront(s: Text)
    ensures ReadFrom([':', ':'] + s, Reading([], 0, true)) == ReadFrom(s, Reading([0, 0], 2, false))
  {
    var whole := [':', ':'] + s;
    assert Strtoul16(whole) == (0, whole);
    assert whole[2..] == s;
    var to: seq<Octet> := [] + [0, 0];
    assert to == [0, 0];
    assert ReadFrom(whole, Reading([], 0, true)) == ReadFrom(whole[2..], Reading(to, |to|, false));
  }

  lemma {:induction false} ZeroBytes(ip: seq<Octet>, e: Elision)
    requires IsAddr(ip) && IsRun(ip, e)
    ensures forall b | 2 * e.eli <= b < 2 * (e.eli + e.eln) :: ip[b] == 0
  {
    forall b | 2 * e.eli <= b < 2 * (e.eli + e.eln) ensures ip[b] == 0 {
      assert Group(ip, b / 2) == 0;
      assert b == 2 * (b / 2) || b == 2 * (b / 2) + 1;
    }
  }

  /** `parseip` reads what `eipfmt` prints, wherever the elision is. */
  lemma GroupsBack(ip: seq<Octet>, e: Elision)
    requires IsAddr(ip) && (e == NONE || IsRun(ip, e))
    ensures ParseIp(Groups(ip, 0, e)) == ip
  {
    assert ip[..2 * 0] == [];
    if e.eli == 0 {
      FrontBack(ip, e);
    } else {
      assert Groups(ip, 0, e) == From(ip, 0, e);
      ReadBefore(ip, 0, e, true);
    }
    Opened(ip, e);
  }

  lemma FrontBack(ip: seq<Octet>, e: Elision)
    requires IsAddr(ip) && IsRun(ip, e) && e.eli == 0
    ensures ReadFrom(Groups(ip, 0, e), Reading([], 0, true)) == Whole(ip, e)
  {
    GroupsGap(ip, e);
    ReadFront(Beyond(ip, e));
    ZeroBytes(ip, e);
    assert ip[..2] == [0, 0];
    ReadBeyond(ip, e);
  }

  /** Opening the elision again gives the address. */
  lemma Opened(ip: seq<Octet>, e: Elision)
    requires IsAddr(ip) && (e == NONE || IsRun(ip, e))
    ensures Spread(Whole(ip, e)) == ip
  {
    if e != NONE {
      ZeroBytes(ip, e);
      var k, j := Kept(e), Resumes(e);
      var to := ip[..k] + ip[j..];
      if |to| < 16 {
        assert to[..k] == ip[..k] && to[k..] == ip[j..];
        assert seq(16 - |to|, _ => 0) == ip[k..j];
        assert ip == ip[..k] + ip[k..j] + ip[j..];
      } else {
        assert to == ip && to[..16] == ip;
      }
    } else {
      assert ip[..16] == ip;
    }
  }
}
