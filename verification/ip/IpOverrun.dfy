/** Where `parseip` writes past the 16 bytes of an address. */
module IpOverrun {
  import opened Octets
  import opened IpText
  import opened IpFmt

  /** Past the colons behind a number. */
  function PastColons(p: Text): Text {
    if p == [] || p[0] != ':' then p else if |p| > 1 && p[1] == ':' then p[2..] else p[1..]
  }

  /** With n groups read, the text goes on to a dotted part after exactly seven. */
  predicate LateDots(s: Text, n: nat)
    decreases 8 - n
  {
    n < 8 && s != [] &&
    var p := Strtoul16(s).1;
    if p != [] && p[0] == '.' then n == 7
    else !(p == [] && n == 0) && LateDots(PastColons(p), n + 1)
  }

  /** The loop leaves the buffer, by two bytes, exactly for a text with a dotted part after seven groups. */
  lemma {:induction false} ReadPast(s: Text, r: Reading, n: nat)
    requires r.elipsis <= |r.to| == 2 * n && n <= 8
    ensures if LateDots(s, n) then |ReadFrom(s, r).to| == 18 else |ReadFrom(s, r).to| <= 16
    decreases 8 - n
  {
    if n < 8 && s != [] {
      var (x, p) := Strtoul16(s);
      if !((p != [] && p[0] == '.') || (p == [] && n == 0)) {
        ReadTurn(s, r, x, p);
        var to := r.to + [x / 256 % 256, x % 256];
        var gap := |p| > 1 && p[0] == ':' && p[1] == ':';
        ReadPast(PastColons(p), Reading(to, if gap then |to| else r.elipsis, r.v4 && (p == [] || p[0] != ':')), n + 1);
      }
    }
  }

  /** One turn that reads a group. */
  lemma ReadTurn(s: Text, r: Reading, x: nat, p: Text)
    requires r.elipsis <= |r.to| < 16 && s != [] && Strtoul16(s) == (x, p)
    requires !((p != [] && p[0] == '.') || (p == [] && r.to == []))
    ensures var to := r.to + [x / 256 % 256, x % 256];
      var gap := |p| > 1 && p[0] == ':' && p[1] == ':';
      ReadFrom(s, r) == ReadFrom(PastColons(p), Reading(to, if gap then |to| else r.elipsis, r.v4 && (p == [] || p[0] != ':')))
  {
  }

  /** Groups in front of a text, each with its colon. */
  function Colons(g: seq<nat>, s: Text): Text {
    if g == [] then s else Hex(g[0]) + (":" + Colons(g[1..], s))
  }

  lemma {:induction false} ColonsLate(g: seq<nat>, p: seq<Octet>)
    requires |g| <= 7 && |p| == 4 && forall x | x in g :: x < 0x1_0000
    ensures Colons(g, Dotted(p)) != [] && Value(Colons(g, Dotted(p))[0]) < 16
    ensures LateDots(Colons(g, Dotted(p)), 7 - |g|)
  {
    if g == [] {
      DottedDots(p);
      DecShape(p[0]);
      DotSeen(p[0], Dots(p[1..]));
    } else {
      assert g[0] in g && forall x | x in g[1..] :: x in g;
      ColonsLate(g[1..], p);
      LateStep(g[0], Colons(g[1..], Dotted(p)), 7 - |g|);
    }
  }

  lemma LateStep(x: nat, s: Text, n: nat)
    requires x < 0x1_0000 && s != [] && Value(s[0]) < 16 && n < 7 && LateDots(s, n + 1)
    ensures Hex(x) + (":" + s) != [] && Value((Hex(x) + (":" + s))[0]) < 16 && LateDots(Hex(x) + (":" + s), n)
  {
    HexShape(x);
    HexBack(x, ":" + s);
    assert (":" + s)[1..] == s && (|s| > 0 ==> (":" + s)[1] == s[0]);
  }

  /** Any seven groups and a dotted address behind them, as in 1:2:3:4:5:6:7:1.2.3.4. */
  lemma SevenAndDots(g: seq<nat>, p: seq<Octet>)
    requires |g| == 7 && |p| == 4 && forall x | x in g :: x < 0x1_0000
    ensures |ReadFrom(Colons(g, Dotted(p)), Reading([], 0, true)).to| == 18
  {
    ColonsLate(g, p);
    ReadPast(Colons(g, Dotted(p)), Reading([], 0, true), 0);
  }
}
