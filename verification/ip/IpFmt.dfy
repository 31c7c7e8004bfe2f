/** The printing and parsing routines themselves, loop by loop, and that they undo each other. */
module IpFmt {
  import opened Octets
  import opened IpText

  // ---------- dotted addresses ----------

  lemma {:induction false} DigitsPass(t: Text, rest: Text, acc: nat)
    requires (forall c | c in t :: Value(c) < 10) && Ends(rest)
    ensures ScanHex(t + rest, acc).1 == rest
  {
    if t == [] {
      assert t + rest == rest;
    } else {
      assert t[0] in t && forall c | c in t[1..] :: c in t;
      assert (t + rest)[1..] == t[1..] + rest;
      DigitsPass(t[1..], rest, acc * 16 + Value(t[0]));
    }
  }

  lemma DotSeen(n: nat, rest: Text)
    ensures Strtoul16(Dec(n) + ("." + rest)).1 == "." + rest
  {
    DecShape(n);
    DigitsPass(Dec(n), "." + rest, 0);
    var s := Dec(n) + ("." + rest);
    NoBlanks(s);
    assert |s| > |"." + rest|;
    assert |Dec(n)| > 1 ==> s[1] == Dec(n)[1] && Dec(n)[1] in Dec(n);
    assert |Dec(n)| == 1 ==> s[1] == '.';
  }

  /** One turn of `v4parseip`. */
  lemma NumsOne(s: Text, x: nat, p: Text, k: nat)
    requires k < 4 && s != [] && Strtoul0(s) == (x, p)
    ensures var r := V4Nums(if p != [] && p[0] == '.' then p[1..] else p, k + 1);
      V4Nums(s, k) == ([x % 256] + r.0, r.1)
  {
  }

  lemma NumsDot(s: Text, x: Octet, p: Text, k: nat)
    requires k < 4 && s != [] && Strtoul0(s) == (x, p) && p != [] && p[0] == '.'
    ensures V4Nums(s, k).0 == [x] + V4Nums(p[1..], k + 1).0
  {
    NumsOne(s, x, p, k);
  }

  lemma NumsStep(x: Octet, rest: Text, k: nat)
    requires k < 4
    ensures V4Nums(Dec(x) + ("." + rest), k).0 == [x] + V4Nums(rest, k + 1).0
  {
    var p := "." + rest;
    DecShape(x);
    DecBack(x, p);
    assert p[1..] == rest;
    NumsDot(Dec(x) + p, x, p, k);
  }

  lemma NumsStop(s: Text, x: Octet, k: nat)
    requires k < 4 && s != [] && Strtoul0(s) == (x, "")
    ensures V4Nums(s, k).0 == [x]
  {
    NumsOne(s, x, "", k);
    assert V4Nums("", k + 1) == ([], "");
  }

  lemma NumsLast(x: Octet, k: nat)
    requires k < 4
    ensures V4Nums(Dec(x), k).0 == [x]
  {
    DecShape(x);
    DecBack(x, "");
    assert Dec(x) + "" == Dec(x);
    NumsStop(Dec(x), x, k);
  }

  function Dots(p: seq<Octet>): Text
    requires p != []
  {
    if |p| == 1 then Dec(p[0]) else Dec(p[0]) + ("." + Dots(p[1..]))
  }

  lemma {:induction false} DotsNums(p: seq<Octet>, k: nat)
    requires p != [] && |p| + k <= 4
    ensures V4Nums(Dots(p), k).0 == p
  {
    if |p| == 1 {
      NumsLast(p[0], k);
    } else {
      DotsNums(p[1..], k + 1);
      NumsStep(p[0], Dots(p[1..]), k);
      assert p == [p[0]] + p[1..];
    }
  }

  lemma DotsJoin(a: Text, b: Text, c: Text, d: Text)
    ensures a + "." + b + "." + c + "." + d == a + ("." + (b + ("." + (c + ("." + d)))))
  {
  }

  lemma DottedDots(p: seq<Octet>)
    requires |p| == 4
    ensures Dotted(p) == Dots(p)
  {
    var q := p[1..];
    var r := q[1..];
    assert Dots(r) == Dec(p[2]) + ("." + Dec(p[3]));
    assert Dots(q) == Dec(p[1]) + ("." + Dots(r));
    DotsJoin(Dec(p[0]), Dec(p[1]), Dec(p[2]), Dec(p[3]));
  }

  lemma DottedNums(p: seq<Octet>)
    requires |p| == 4
    ensures V4Nums(Dotted(p), 0).0 == p
  {
    DottedDots(p);
    DotsNums(p, 0);
  }

  /** A number before a dot starts a dotted address. */
  lemma ReadV4(s: Text)
    requires s != [] && Strtoul16(s).1 != [] && Strtoul16(s).1[0] == '.'
    ensures ReadFrom(s, Reading([], 0, true)) == Reading(Classful(V4Nums(s, 0).0), 0, true)
  {
  }

  lemma ReadDotted(p: seq<Octet>)
    requires |p| == 4
    ensures ReadFrom(Dotted(p), Reading([], 0, true)) == Reading(p, 0, true)
  {
    DottedDots(p);
    DecShape(p[0]);
    DotSeen(p[0], Dots(p[1..]));
    ReadV4(Dotted(p));
    DottedNums(p);
  }

  lemma SpreadV4(p: seq<Octet>)
    requires |p| == 4
    ensures Spread(Reading(p, 0, true)) == V4PREFIX + p
  {
    var to := p[..0] + seq(12, _ => 0) + p[0..];
    assert p[0..] == p && to[10 := 0xFF][11 := 0xFF] == V4PREFIX + p;
  }

  lemma DottedBack(ip: seq<Octet>)
    requires IsAddr(ip) && IsV4(ip)
    ensures ParseIp(Dotted(ip[12..])) == ip
  {
    var p := ip[12..];
    ReadDotted(p);
    SpreadV4(p);
    assert ip == ip[..12] + ip[12..];
  }

  // ---------- the 'I' format ----------

  /** The text for an address with a given elision. */
  function Shown(ip: seq<Octet>, e: Elision): Text
    requires IsAddr(ip) && Inside(e)
  {
    if IsV4(ip) then Dotted(ip[12..]) else Groups(ip, 0, e)
  }

  lemma ShownBack(ip: seq<Octet>, e: Elision)
    requires IsAddr(ip) && (e == NONE || IsRun(ip, e))
    ensures ParseIp(Shown(ip, e)) == ip
  {
    if IsV4(ip) {
      DottedBack(ip);
    } else {
      GroupsBack(ip, e);
    }
  }

  /** The buffer of 40 is never overrun. */
  lemma {:induction false} GroupsLength(ip: seq<Octet>, i: nat, e: Elision)
    requires IsAddr(ip) && i <= 8 && Inside(e)
    ensures |Groups(ip, i, e)| <= 5 * (8 - i) - if i == 0 then 1 else 0
    decreases 8 - i
  {
    if i < 8 {
      var j := if i == e.eli then i + e.eln else i;
      if j < 8 {
        GroupLength(ip, j);
        GroupsLength(ip, j + 1, e);
        GroupsOne(ip, i, j, e);
      }
    }
  }

  /** What stands between a group and the one before. */
  function Separator(i: nat, e: Elision): Text {
    if i == e.eli then "::" else if i != 0 then ":" else ""
  }

  lemma GroupsOne(ip: seq<Octet>, i: nat, j: nat, e: Elision)
    requires IsAddr(ip) && i < 8 && Inside(e)
    requires j == (if i == e.eli then i + e.eln else i) && j < 8
    ensures Groups(ip, i, e) == Separator(i, e) + Hex(Group(ip, j)) + Groups(ip, j + 1, e)
  {
  }

  lemma GroupsLast(ip: seq<Octet>, i: nat, e: Elision)
    requires IsAddr(ip) && i < 8 && Inside(e) && i == e.eli && i + e.eln >= 8
    ensures Groups(ip, i, e) == "::" + Groups(ip, i + e.eln, e)
  {
  }

  lemma GroupLength(ip: seq<Octet>, i: nat)
    requires 2 * i + 1 < |ip|
    ensures |Hex(Group(ip, i))| <= 4
  {
    OctetsOf(ip, i);
    HexShort(Group(ip, i), 4);
  }

  /** Where the zero groups that start at i end. */
  method ScanZeros(ip: seq<Octet>, i: nat) returns (j: nat)
    requires IsAddr(ip) && i < 8
    ensures j == ZerosEnd(ip, i)
  {
    j := i;
    while j < 8
      invariant i <= j <= 8 && ZerosEnd(ip, j) == ZerosEnd(ip, i)
    {
      if Group(ip, j) != 0 {
        break;
      }
      j := j + 1;
    }
  }

  /** The search for the longest elision. */
  method FindElision(ip: seq<Octet>) returns (e: Elision)
    requires IsAddr(ip)
    ensures Longest(ip, e)
  {
    var eln, eli := -1, -1;
    var i := 0;
    while i < 8
      invariant 0 <= i <= 8
      invariant Elision(eli, eln) == NONE || (IsRun(ip, Elision(eli, eln)) && eli < i)
      invariant forall f | IsRun(ip, f) && f.eli < i :: f.eln < eln || (f.eln == eln && eli <= f.eli)
    {
      var j := ScanZeros(ip, i);
      RunsWithin(ip, i);
      if j > i && j - i > eln {
        eli := i;
        eln := j - i;
      }
      i := i + 1;
    }
    e := Elision(eli, eln);
  }

  lemma RunsWithin(ip: seq<Octet>, i: nat)
    requires IsAddr(ip) && i < 8
    ensures forall f | IsRun(ip, f) && f.eli == i :: i + f.eln <= ZerosEnd(ip, i)
    ensures ZerosEnd(ip, i) > i ==> IsRun(ip, Elision(i, ZerosEnd(ip, i) - i))
  {
  }

  /** What one turn of the printing loop makes of group i0: the separator and a group, or the elision
      alone at the end. */
  predicate Turn(ip: seq<Octet>, i0: nat, e: Elision, t: Text, i: nat)
    requires IsAddr(ip) && i0 < 8 && Inside(e)
  {
    var j := if i0 == e.eli then i0 + e.eln else i0;
    if j >= 8 then t == "::" && i == j else t == Separator(i0, e) + Hex(Group(ip, j)) && i == j + 1
  }

  method PrintGroup(ip: seq<Octet>, i0: nat, e: Elision) returns (t: Text, i: nat)
    requires IsAddr(ip) && i0 < 8 && Inside(e)
    ensures Turn(ip, i0, e, t, i)
  {
    t, i := "", i0;
    if i == e.eli {
      t := "::";
      i := i + e.eln;
      if i >= 8 {
        return;
      }
    } else if i != 0 {
      t := ":";
    }
    t := t + Hex(Group(ip, i));
    i := i + 1;
  }

  lemma TurnIs(ip: seq<Octet>, i0: nat, e: Elision, t: Text, i: nat)
    requires IsAddr(ip) && i0 < 8 && Inside(e) && Turn(ip, i0, e, t, i)
    ensures i0 < i && Groups(ip, i0, e) == t + Groups(ip, i, e)
  {
    if i0 == e.eli && i0 + e.eln >= 8 {
      GroupsLast(ip, i0, e);
    } else {
      GroupsOne(ip, i0, i - 1, e);
    }
  }

  lemma Joins(a: Text, b: Text, c: Text)
    ensures a + (b + c) == a + b + c
  {
  }

  /** Printing group by group. */
  method PrintGroups(ip: seq<Octet>, e: Elision) returns (buf: Text)
    requires IsAddr(ip) && Inside(e)
    ensures buf == Groups(ip, 0, e)
  {
    buf := "";
    var i := 0;
    while i < 8
      invariant buf + Groups(ip, i, e) == Groups(ip, 0, e)
      decreases if i < 8 then 8 - i else 0
    {
      var t, j := PrintGroup(ip, i, e);
      TurnIs(ip, i, e, t, j);
      Joins(buf, t, Groups(ip, j, e));
      buf, i := buf + t, j;
    }
  }

  /** `eipfmt` for 'I': the text fits its buffer, shows the longest elision, and `parseip` reads the
      same address back. */
  method FmtI(ip: seq<Octet>) returns (buf: Text)
    requires IsAddr(ip)
    ensures ParseIp(buf) == ip && |buf| < 40
    ensures exists e :: Longest(ip, e) && buf == Shown(ip, e)
  {
    var e := FindElision(ip);
    ShownBack(ip, e);
    if ip[..12] == V4PREFIX {
      buf := Dotted(ip[12..]);
      DottedLength(ip[12..]);
    } else {
      buf := PrintGroups(ip, e);
      GroupsLength(ip, 0, e);
    }
  }

  lemma DottedLength(p: seq<Octet>)
    requires |p| == 4
    ensures |Dotted(p)| <= 15
  {
    DecShort(p[0], 3);
    DecShort(p[1], 3);
    DecShort(p[2], 3);
    DecShort(p[3], 3);
  }

  lemma {:induction false} DecShort(n: nat, k: nat)
    requires 1 <= k <= 3 && n < if k == 1 then 10 else if k == 2 then 100 else 1000
    ensures |Dec(n)| <= k
  {
    if n >= 10 {
      DecShort(n / 10, k - 1);
    }
  }

  // ---------- reading ----------

  /** Numbers already read, put before those still to come. */
  function Onto(n: seq<Octet>, r: (seq<Octet>, Text)): (seq<Octet>, Text) {
    (n + r.0, r.1)
  }

  lemma OntoOne(n: seq<Octet>, o: Octet, r: (seq<Octet>, Text))
    ensures Onto(n, ([o] + r.0, r.1)) == Onto(n + [o], r)
  {
    assert n + ([o] + r.0) == n + [o] + r.0;
  }

  method V4ParseIp(from: Text) returns (to: seq<Octet>, p: Text)
    ensures to == Classful(V4Nums(from, 0).0) && p == V4Nums(from, 0).1
  {
    var n;
    n, p := V4Numbers(from);
    to := Classful(n);
  }

  /** The loop over up to four numbers. */
  method V4Numbers(from: Text) returns (n: seq<Octet>, p: Text)
    ensures (n, p) == V4Nums(from, 0)
  {
    n, p := [], from;
    ghost var all, left := V4Nums(from, 0), V4Nums(from, 0);
    assert n + all.0 == all.0;
    while |n| < 4 && p != []
      invariant |n| <= 4 && left == V4Nums(p, |n|) && Onto(n, left) == all
      decreases 4 - |n|
    {
      var o;
      o, p, left := V4Number(p, |n|);
      OntoOne(n, o, left);
      n := n + [o];
    }
    assert n + left.0 == n;
  }

  /** One number and the dot after it. */
  method V4Number(s: Text, k: nat) returns (o: Octet, p: Text, ghost left: (seq<Octet>, Text))
    requires k < 4 && s != []
    ensures left == V4Nums(p, k + 1) && V4Nums(s, k) == ([o] + left.0, left.1)
  {
    var (x, q) := Strtoul0(s);
    NumsOne(s, x, q, k);
    o, p := x % 256, q;
    if p != [] && p[0] == '.' {
      p := p[1..];
    }
    left := V4Nums(p, k + 1);
  }

  /** `parseip`. */
  method ParseIpText(from: Text) returns (to: seq<Octet>)
    ensures to == ParseIp(from)
  {
    var r, p := Reading([], 0, true), from;
    ghost var all := ReadFrom(from, r);
    while |r.to| < 16 && p != []
      invariant r.elipsis <= |r.to| && ReadFrom(p, r) == all
      decreases 16 - |r.to| as int
    {
      var op := p;
      var (x, q) := Strtoul16(p);
      p := q;
      if (p != [] && p[0] == '.') || (p == [] && r.to == []) {
        var v4, rest := V4ParseIp(op);
        r, p := r.(to := r.to + v4), [];
        break;
      }
      r := r.(to := r.to + [x / 256 % 256, x % 256]);
      if p != [] && p[0] == ':' {
        r := r.(v4 := false);
        p := p[1..];
        if p != [] && p[0] == ':' {
          r := r.(elipsis := |r.to|);
          p := p[1..];
        }
      }
    }
    assert r == all;
    to := Spread(r);
  }

  // ---------- masks ----------

  /** The table `prefixvals`. */
  function PrefixVal(b: Octet): int {
    match b
    case 0 => 0
    case 0x80 => 1
    case 0xC0 => 2
    case 0xE0 => 3
    case 0xF0 => 4
    case 0xF8 => 5
    case 0xFC => 6
    case 0xFE => 7
    case _ => -1
  }

  /** `~((1<<(8-i))-1)` in eight bits. */
  function Partial(i: nat): (b: Octet)
    requires i < 8
    ensures PrefixVal(b) == i
  {
    [0, 0x80, 0xC0, 0xE0, 0xF0, 0xF8, 0xFC, 0xFE][i]
  }

  /** The mask of n ones. */
  function MaskOf(n: nat): (m: seq<Octet>)
    requires n <= 128
    ensures IsAddr(m)
  {
    seq(16, k requires 0 <= k => if 8 * k + 8 <= n then 0xFF else if 8 * k < n then Partial(n - 8 * k) else 0)
  }

  /** The length of the ones in front when nothing else is set, -1 otherwise. */
  method PrefixLength(p: seq<Octet>) returns (n: int)
    requires IsAddr(p)
    ensures n >= 0 ==> n <= 128 && p == MaskOf(n)
    ensures n < 0 ==> n == -1 && forall k: nat | k <= 128 :: p != MaskOf(k)
  {
    var i := 0;
    while i < 16 && p[i] == 0xFF
      invariant i <= 16 && forall k | 0 <= k < i :: p[k] == 0xFF
    {
      i := i + 1;
    }
    if i == 16 {
      return 128;
    }
    if PrefixVal(p[i]) < 0 {
      NotMask(p, i, i);
      return -1;
    }
    var j := i + 1;
    while j < 16
      invariant i < j <= 16 && forall k | i < k < j :: p[k] == 0
    {
      if p[j] != 0 {
        NotMask(p, i, j);
        return -1;
      }
      j := j + 1;
    }
    n := 8 * i + PrefixVal(p[i]);
    PartialBack(p[i]);
  }

  lemma PartialBack(b: Octet)
    requires PrefixVal(b) >= 0
    ensures PrefixVal(b) < 8 && Partial(PrefixVal(b)) == b
  {
  }

  /** What is not all ones ends the ones of a prefix mask. */
  lemma NotMask(p: seq<Octet>, i: nat, j: nat)
    requires IsAddr(p) && i <= j < 16 && p[i] != 0xFF && (if j == i then PrefixVal(p[i]) < 0 else p[j] != 0)
    ensures forall k: nat | k <= 128 :: p != MaskOf(k)
  {
    forall k: nat | k <= 128 ensures p != MaskOf(k) {
      var m := MaskOf(k);
      assert m[i] == 0xFF || PrefixVal(m[i]) >= 0;
      assert m[i] != 0xFF ==> k < 8 * i + 8;
      assert j > i && k < 8 * i + 8 ==> m[j] == 0;
    }
  }

  predicate IsPrefixMask(m: seq<Octet>) {
    exists k: nat | k <= 128 :: m == MaskOf(k)
  }

  /** `eipfmt` for 'M'. */
  method FmtM(m: seq<Octet>) returns (t: Text)
    requires IsAddr(m)
    ensures IsPrefixMask(m) ==> exists n: nat | n <= 128 :: m == MaskOf(n) && t == "/" + Dec(n)
    ensures !IsPrefixMask(m) ==> exists e :: Longest(m, e) && t == Shown(m, e)
  {
    var n := PrefixLength(m);
    if n >= 0 {
      t := "/" + Dec(n);
    } else {
      t := FmtI(m);
    }
  }

  /** `atoi`. */
  function Atoi(s: Text): int {
    var t := SkipBlanks(s);
    var n := Digits0(Unsigned(t)).0;
    if Minus(t) then 0 - n else n
  }

  lemma AtoiBack(n: nat)
    ensures Atoi(Dec(n)) == n
  {
    DecShape(n);
    DigitsBack(n, "");
    assert Dec(n) + "" == Dec(n);
    NoBlanks(Dec(n));
  }

  function ParseMask(s: Text): (to: seq<Octet>)
    ensures IsAddr(to)
  {
    if s != [] && s[0] == '/' then
      var i := Atoi(s[1..]);
      MaskOf(if i < 0 then 0 else if i > 128 then 128 else i)
    else
      var to := ParseIp(s);
      if IsV4(to) then seq(12, _ => 0xFF) + to[12..] else to
  }

  /** `parseipmask`. */
  method ParseIpMask(from: Text) returns (to: seq<Octet>)
    ensures to == ParseMask(from)
  {
    if from != [] && from[0] == '/' {
      var i := Atoi(from[1..]);
      if i < 0 {
        i := 0;
      }
      if i > 128 {
        i := 128;
      }
      ghost var n := i;
      to := [];
      while i >= 8
        invariant |to| * 8 + i == n <= 128 && forall k | 0 <= k < |to| :: to[k] == 0xFF
      {
        to := to + [0xFF];
        i := i - 8;
      }
      if i > 0 {
        to := to + [Partial(i)];
      }
      to := to + seq(16 - |to|, _ => 0);
      assert to == MaskOf(n);
    } else {
      to := ParseIpText(from);
      if to[..12] == V4PREFIX {
        to := seq(12, _ => 0xFF) + to[12..];
      }
    }
  }

  lemma NoSlash(m: seq<Octet>, e: Elision)
    requires IsAddr(m) && Inside(e)
    ensures Shown(m, e) != [] && Shown(m, e)[0] != '/'
  {
    DecShape(m[12]);
    HexNotColon(Group(m, 0));
  }

  /** The text of a mask reads back as the mask, except for those that look like v4 addresses: their
      first twelve bytes come back as ones. */
  lemma MaskBack(m: seq<Octet>, t: Text)
    requires IsAddr(m)
    requires IsPrefixMask(m) ==> exists n: nat | n <= 128 :: m == MaskOf(n) && t == "/" + Dec(n)
    requires !IsPrefixMask(m) ==> exists e :: Longest(m, e) && t == Shown(m, e)
    ensures ParseMask(t) == m <==> !IsV4(m)
  {
    if IsPrefixMask(m) {
      var n: nat :| n <= 128 && m == MaskOf(n) && t == "/" + Dec(n);
      AtoiBack(n);
      assert t[1..] == Dec(n);
      PrefixNotV4(n);
    } else {
      var e :| Longest(m, e) && t == Shown(m, e);
      ShownBack(m, e);
      NoSlash(m, e);
      if IsV4(m) {
        assert ParseMask(t)[0] == 0xFF && m[..12][0] == 0;
      }
    }
  }

  /** A mask that begins like a v4 address comes back under 96 ones. */
  lemma V4MaskLost()
    ensures var m: seq<Octet> := V4PREFIX + [0, 0, 0, 1];
      && IsAddr(m) && !IsPrefixMask(m) && (forall e | Inside(e) :: Shown(m, e) == "0.0.0.1")
      && ParseMask("0.0.0.1") == seq(12, _ => 0xFF) + [0, 0, 0, 1]
  {
    var m: seq<Octet> := V4PREFIX + [0, 0, 0, 1];
    forall n: nat | n <= 128 ensures MaskOf(n) != m {
      PrefixNotV4(n);
    }
    assert m[12..] == [0, 0, 0, 1] && m[..12] == V4PREFIX;
    assert Dec(0) == "0" && Dec(1) == "1";
    assert Dotted([0, 0, 0, 1]) == "0.0.0.1";
    DottedBack(m);
  }

  lemma PrefixNotV4(n: nat)
    requires n <= 128
    ensures !IsV4(MaskOf(n))
  {
    var m := MaskOf(n);
    assert m[..12][0] == m[0] && m[..12][11] == m[11];
    assert V4PREFIX[0] == 0 && V4PREFIX[11] == 0xFF;
  }
}
