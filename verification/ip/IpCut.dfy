/** The fragment loop of `ipoput4`, and what reassembly makes of its pieces. */
module IpCut {
  import opened IpFrag

  const IP_MAX: nat := 0x1_0000

  /** A fragment on the wire: the header's fragment field, its length, and the data. */
  datatype Wire = Wire(frag: nat, length: nat, data: Bytes)

  /** How a receiver reads it: 13 bits of offset in units of 8 bytes, and the more-fragments bit. */
  function PieceOf(w: Wire): Piece {
    Piece(w.frag % 0x2000 * 8, w.frag / 0x2000 % 2 == 1, w.data)
  }

  /** `| IP_MF`. */
  function OrMf(x: nat): nat {
    if x / 0x2000 % 2 == 1 then x else x + 0x2000
  }

  /** The loop: data that starts at fragoff, in pieces of seglen.  When a fragment is cut again its
      own more-fragments bit is still in fragoff, as bit 16. */
  function Cut(data: Bytes, fragoff: nat, seglen: nat): seq<Wire>
    requires seglen > 0
    decreases |data|
  {
    if data == [] then []
    else if |data| <= seglen then [Wire(fragoff / 8 % 0x1_0000, |data| + IP4HDR, data)]
    else [Wire(OrMf(fragoff / 8) % 0x1_0000, seglen + IP4HDR, data[..seglen])] + Cut(data[seglen..], fragoff + seglen, seglen)
  }

  /** The parts of a fragment field: 13 bits of offset in units of 8, and above them the flag; the two
      bits above that are not looked at, and setting the flag leaves them alone. */
  lemma FieldBits(high: nat, more: nat, off: nat, length: nat, data: Bytes)
    requires more < 2 && off < 0x2000
    ensures PieceOf(Wire(high * 0x4000 + more * 0x2000 + off, length, data)) == Piece(8 * off, more == 1, data)
    ensures OrMf(high * 0x4000 + more * 0x2000 + off) == high * 0x4000 + 0x2000 + off
  {
    var x := high * 0x4000 + more * 0x2000 + off;
    assert x / 0x2000 == 2 * high + more;
  }

  /** The same cut, on pieces. */
  function Split(data: Bytes, off: nat, mf: bool, seglen: nat): seq<Piece>
    requires seglen > 0
    decreases |data|
  {
    if data == [] then []
    else if |data| <= seglen then [Piece(off, mf, data)]
    else [Piece(off, true, data[..seglen])] + Split(data[seglen..], off + seglen, mf, seglen)
  }

  function Fragoff(off: nat, mf: bool): nat {
    if mf then off + 0x1_0000 else off
  }

  lemma FieldOf(off: nat, mf: bool)
    requires off % 8 == 0 && off < IP_MAX
    ensures var x := Fragoff(off, mf) / 8;
      && x % 0x1_0000 == x && x % 0x2000 * 8 == off && (x / 0x2000 % 2 == 1 <==> mf)
      && x < 0x4000 && OrMf(x) < 0x4000 && OrMf(x) % 0x1_0000 == OrMf(x) && OrMf(x) % 0x2000 * 8 == off && OrMf(x) / 0x2000 % 2 == 1
  {
    var q := off / 8;
    assert q < 0x2000 && q * 8 == off;
    assert Fragoff(off, mf) / 8 == if mf then q + 0x2000 else q;
  }

  /** A packet is the piece it reads as, and its length is right. */
  predicate Reads(w: Wire, p: Piece) {
    PieceOf(w) == p && w.length == |w.data| + IP4HDR && w.frag < 0x4000
  }

  lemma OneReads(data: Bytes, off: nat, mf: bool, seglen: nat)
    requires off % 8 == 0 && off < IP_MAX
    ensures Reads(Wire(Fragoff(off, mf) / 8 % 0x1_0000, |data| + IP4HDR, data), Piece(off, mf, data))
    ensures seglen < |data| ==>
      Reads(Wire(OrMf(Fragoff(off, mf) / 8) % 0x1_0000, seglen + IP4HDR, data[..seglen]), Piece(off, true, data[..seglen]))
  {
    FieldOf(off, mf);
  }

  /** Read back, the pieces on the wire are those of the cut: only the last carries the flag of what
      was cut, however often it is cut again. */
  lemma {:induction false} CutSplits(data: Bytes, off: nat, mf: bool, seglen: nat)
    requires seglen > 0 && seglen % 8 == 0 && off % 8 == 0 && off + |data| < IP_MAX
    ensures var ws, ps := Cut(data, Fragoff(off, mf), seglen), Split(data, off, mf, seglen);
      |ws| == |ps| && forall i | 0 <= i < |ws| :: Reads(ws[i], ps[i])
    decreases |data|
  {
    if data != [] {
      OneReads(data, off, mf, seglen);
      if |data| > seglen {
        assert Fragoff(off + seglen, mf) == Fragoff(off, mf) + seglen;
        CutSplits(data[seglen..], off + seglen, mf, seglen);
      }
    }
  }

  /** Data that stands at off in datagram d, with the flag its fragment carried. */
  ghost predicate Stands(p: Piece, d: Bytes) {
    && p.off % 8 == 0 && p.off + |p.data| <= |d| && p.data == d[p.off..p.off + |p.data|]
    && (p.mf <==> p.off + |p.data| < |d|)
  }

  predicate Inside(q: Piece, p: Piece) {
    p.off <= q.off && q.off + |q.data| <= p.off + |p.data|
  }

  predicate Apart(p: Piece, q: Piece) {
    p.off + |p.data| <= q.off || q.off + |q.data| <= p.off
  }

  lemma SplitCons(p: Piece, seglen: nat, q: Piece)
    requires 0 < seglen < |p.data|
    ensures var rest := Split(p.data[seglen..], p.off + seglen, p.mf, seglen);
      q in Split(p.data, p.off, p.mf, seglen) <==> q == Piece(p.off, true, p.data[..seglen]) || q in rest
  {
  }

  /** What stands somewhere, divided. */
  lemma StandsDivided(p: Piece, n: nat, d: Bytes)
    requires Stands(p, d) && 0 < n < |p.data| && n % 8 == 0
    ensures Stands(Piece(p.off, true, p.data[..n]), d) && Stands(Piece(p.off + n, p.mf, p.data[n..]), d)
  {
    SliceDivided(d, p.off, |p.data|, n);
  }

  lemma SliceDivided(d: Bytes, off: nat, len: nat, n: nat)
    requires off + len <= |d| && n <= len
    ensures var s := d[off..off + len]; s[..n] == d[off..off + n] && s[n..] == d[off + n..off + len]
  {
  }

  /** Cutting keeps every byte at its offset. */
  lemma {:induction false} SplitParts(p: Piece, seglen: nat, d: Bytes, q: Piece)
    requires Stands(p, d) && seglen > 0 && seglen % 8 == 0 && q in Split(p.data, p.off, p.mf, seglen)
    ensures Stands(q, d) && q.data != [] && Inside(q, p)
    decreases |p.data|
  {
    if |p.data| > seglen {
      SplitCons(p, seglen, q);
      StandsDivided(p, seglen, d);
      if q != Piece(p.off, true, p.data[..seglen]) {
        SplitParts(Piece(p.off + seglen, p.mf, p.data[seglen..]), seglen, d, q);
      }
    }
  }

  /** The pieces of one cut do not overlap. */
  lemma {:induction false} SplitApart(p: Piece, seglen: nat, d: Bytes, q: Piece, r: Piece)
    requires Stands(p, d) && seglen > 0 && seglen % 8 == 0
    requires q in Split(p.data, p.off, p.mf, seglen) && r in Split(p.data, p.off, p.mf, seglen)
    ensures q == r || Apart(q, r)
    decreases |p.data|
  {
    if |p.data| > seglen {
      SplitCons(p, seglen, q);
      SplitCons(p, seglen, r);
      StandsDivided(p, seglen, d);
      var head, tail := Piece(p.off, true, p.data[..seglen]), Piece(p.off + seglen, p.mf, p.data[seglen..]);
      if q != head {
        SplitParts(tail, seglen, d, q);
        if r != head {
          SplitApart(tail, seglen, d, q, r);
        }
      } else if r != head {
        SplitParts(tail, seglen, d, r);
      }
    }
  }

  /** Together they reach every byte. */
  lemma {:induction false} SplitReaches(p: Piece, seglen: nat, x: nat)
    requires seglen > 0 && Reaches(p, x)
    ensures ReachedAt(Split(p.data, p.off, p.mf, seglen), x)
    decreases |p.data|
  {
    if |p.data| > seglen {
      var head, tail := Piece(p.off, true, p.data[..seglen]), Piece(p.off + seglen, p.mf, p.data[seglen..]);
      SplitCons(p, seglen, head);
      if x < p.off + seglen {
        assert Reaches(head, x);
      } else {
        SplitReaches(tail, seglen, x);
        var q :| q in Split(tail.data, tail.off, tail.mf, seglen) && Reaches(q, x);
        SplitCons(p, seglen, q);
      }
    } else {
      assert Reaches(Split(p.data, p.off, p.mf, seglen)[0], x);
    }
  }

  // ---------- a datagram cut, and its pieces cut again on the way ----------

  /** Gateways that cut a piece again. */
  datatype Hop = Hop(p: Piece, seglen: nat)

  function Recut(h: Hop): set<Piece>
    requires h.seglen > 0
  {
    set q | q in Split(h.p.data, h.p.off, h.p.mf, h.seglen)
  }

  /** The datagram before it is cut. */
  function Uncut(d: Bytes): Piece {
    Piece(0, false, d)
  }

  /** All the pieces there ever are: the datagram, and those of every piece cut. */
  function Scatter(d: Bytes, hops: seq<Hop>): set<Piece>
    requires forall h | h in hops :: h.seglen > 0
  {
    if hops == [] then {Uncut(d)} else Scatter(d, hops[..|hops| - 1]) + Recut(hops[|hops| - 1])
  }

  predicate Unit(seglen: nat) {
    seglen >= 8 && seglen % 8 == 0
  }

  /** Pieces are cut when they are too long, each in at most one way. */
  ghost predicate Fair(d: Bytes, hops: seq<Hop>)
  {
    && (forall h | h in hops :: Unit(h.seglen))
    && (hops != [] ==>
         var init, h := hops[..|hops| - 1], hops[|hops| - 1];
         && Fair(d, init) && h.p in Scatter(d, init) && h.seglen < |h.p.data|
         && forall g | g in init && g.p == h.p :: g.seglen == h.seglen)
  }

  /** Parts of d, apart or one inside the other. */
  ghost predicate Family(F: set<Piece>, d: Bytes) {
    && (forall p | p in F :: Stands(p, d) && p.data != [])
    && (forall p, q | p in F && q in F :: Nested(p, q))
  }

  /** Nothing is inside a piece that has not been cut again. */
  ghost predicate Leaf(F: set<Piece>, p: Piece) {
    forall q | q in F :: q == p || Apart(q, p) || Inside(p, q)
  }

  ghost predicate Leaves(F: set<Piece>, hops: seq<Hop>) {
    forall p | p in F && (forall h | h in hops :: h.p != p) :: Leaf(F, p)
  }

  lemma RecutParts(h: Hop, d: Bytes, q: Piece)
    requires Stands(h.p, d) && Unit(h.seglen) && h.seglen < |h.p.data| && q in Recut(h)
    ensures Stands(q, d) && q.data != [] && Inside(q, h.p)
  {
    SplitParts(h.p, h.seglen, d, q);
  }

  lemma RecutFamily(F: set<Piece>, h: Hop, d: Bytes)
    requires Family(F, d) && Unit(h.seglen) && h.p in F && h.seglen < |h.p.data| && Leaf(F, h.p)
    ensures Family(F + Recut(h), d)
  {
    forall q | q in Recut(h) ensures Stands(q, d) && q.data != [] && Inside(q, h.p) {
      RecutParts(h, d, q);
    }
    forall q, r | q in F + Recut(h) && r in F + Recut(h) ensures Nested(q, r) {
      if q in Recut(h) && r in Recut(h) {
        SplitApart(h.p, h.seglen, d, q, r);
      }
    }
  }

  /** A leaf beside a piece being cut stays one. */
  lemma OldLeaf(F: set<Piece>, h: Hop, d: Bytes, p: Piece)
    requires Family(F, d) && Unit(h.seglen) && h.p in F && h.seglen < |h.p.data| && Leaf(F, h.p)
    requires p in F && p != h.p && Leaf(F, p)
    ensures Leaf(F + Recut(h), p)
  {
    forall q | q in Recut(h) ensures q == p || Apart(q, p) || Inside(p, q) {
      RecutParts(h, d, q);
    }
  }

  /** The pieces of the new cut are leaves. */
  lemma NewLeaf(F: set<Piece>, h: Hop, d: Bytes, p: Piece)
    requires Family(F, d) && Unit(h.seglen) && h.p in F && h.seglen < |h.p.data| && Leaf(F, h.p)
    requires p in Recut(h)
    ensures Leaf(F + Recut(h), p)
  {
    RecutParts(h, d, p);
    forall q | q in Recut(h) ensures q == p || Apart(q, p) || Inside(p, q) {
      SplitApart(h.p, h.seglen, d, q, p);
    }
  }

  /** Cutting makes pieces shorter. */
  lemma {:induction false} SplitShort(p: Piece, seglen: nat, q: Piece)
    requires seglen > 0 && q in Split(p.data, p.off, p.mf, seglen)
    ensures |q.data| <= seglen
    decreases |p.data|
  {
    if |p.data| > seglen {
      SplitCons(p, seglen, q);
      if q != Piece(p.off, true, p.data[..seglen]) {
        SplitShort(Piece(p.off + seglen, p.mf, p.data[seglen..]), seglen, q);
      }
    }
  }

  /** Cutting a piece again the same way gives nothing new. */
  lemma {:induction false} RecutAgain(d: Bytes, hops: seq<Hop>, h: Hop)
    requires (forall g | g in hops :: g.seglen > 0) && h in hops
    ensures Recut(h) <= Scatter(d, hops)
  {
    var init := hops[..|hops| - 1];
    if h != hops[|hops| - 1] {
      assert hops == init + [hops[|hops| - 1]];
      RecutAgain(d, init, h);
    }
  }

  lemma RecutLeaves(F: set<Piece>, init: seq<Hop>, h: Hop, d: Bytes)
    requires Family(F, d) && Leaves(F, init) && Unit(h.seglen) && h.p in F && h.seglen < |h.p.data| && Leaf(F, h.p)
    ensures Leaves(F + Recut(h), init + [h])
  {
    assert h in init + [h] && forall g | g in init :: g in init + [h];
    forall p | p in F + Recut(h) && (forall g | g in init + [h] :: g.p != p) ensures Leaf(F + Recut(h), p) {
      if p in Recut(h) {
        NewLeaf(F, h, d, p);
      } else {
        OldLeaf(F, h, d, p);
      }
    }
  }

  lemma {:induction false} ScatterFamily(d: Bytes, hops: seq<Hop>)
    requires Fair(d, hops) && d != []
    ensures Family(Scatter(d, hops), d) && Leaves(Scatter(d, hops), hops)
  {
    if hops != [] {
      var init, h := hops[..|hops| - 1], hops[|hops| - 1];
      assert hops == init + [h];
      ScatterFamily(d, init);
      if g :| g in init && g.p == h.p {
        assert g == h;
        RecutAgain(d, init, h);
        assert Scatter(d, hops) == Scatter(d, init);
      } else {
        RecutFamily(Scatter(d, init), h, d);
        RecutLeaves(Scatter(d, init), init, h, d);
      }
    }
  }

  /** Whatever pieces arrive, first cut or cut again, in any order and with any duplicates: nothing
      comes out while a byte is missing, and then exactly the datagram does. */
  lemma CutReassemble(d: Bytes, hops: seq<Hop>, ps: seq<Piece>, p: Piece)
    requires Fair(d, hops) && d != []
    requires (forall q | q in ps + [p] :: q in Scatter(d, hops) && q != Uncut(d)) && !AllReached(ps, d)
    ensures forall q | q in ps + [p] :: q.data != []
    ensures Feed(Collect(ps), p).out == if AllReached(ps + [p], d) then Some(d) else None
  {
    ScatterFamily(d, hops);
    forall q | q in ps + [p] ensures FragOf(q, d) {
      assert q.off == 0 && |q.data| == |d| ==> q == Uncut(d);
    }
    if AllReached(ps + [p], d) {
      NestedWhole(ps, p, d);
    } else {
      NothingEarly(ps, p, d);
    }
  }

  /** With one cut, every byte has come when every piece has. */
  lemma OneCut(d: Bytes, seglen: nat, ps: seq<Piece>)
    requires Unit(seglen) && seglen < |d| && forall q | q in ps :: q in Split(d, 0, false, seglen)
    ensures AllReached(ps, d) <==> forall q | q in Split(d, 0, false, seglen) :: q in ps
  {
    var whole := Piece(0, false, d);
    if AllReached(ps, d) {
      forall q | q in Split(d, 0, false, seglen) ensures q in ps {
        SplitParts(whole, seglen, d, q);
        assert ReachedAt(ps, q.off);
        var r :| r in ps && Reaches(r, q.off);
        SplitApart(whole, seglen, d, q, r);
      }
    }
    if forall q | q in Split(d, 0, false, seglen) :: q in ps {
      forall x: nat | x < |d| ensures ReachedAt(ps, x) {
        SplitReaches(whole, seglen, x);
        var q :| q in Split(d, 0, false, seglen) && Reaches(q, x);
      }
    }
  }

  lemma ThreePieces(d: Bytes)
    requires |d| == 48
    ensures Piece(0, true, d[..24]) in Split(d, 0, false, 24)
    ensures Piece(16, true, d[16..32]) in Split(d, 0, false, 16) && Piece(32, false, d[32..]) in Split(d, 0, false, 16)
  {
    var p1, p2, p3 := Piece(0, true, d[..24]), Piece(16, true, d[16..32]), Piece(32, false, d[32..]);
    SplitCons(Piece(0, false, d), 24, p1);
    SplitCons(Piece(0, false, d), 16, p2);
    SplitCons(Piece(16, false, d[16..]), 16, p2);
    SplitCons(Piece(0, false, d), 16, p3);
    SplitCons(Piece(16, false, d[16..]), 16, p3);
    assert d[16..][16..] == d[32..] && d[16..][..16] == d[16..32];
    assert p3 in Split(d[32..], 32, false, 16);
  }

  /** Three fragments of which the second crosses the first's end. */
  lemma CrossedThree(p1: Piece, p2: Piece, p3: Piece)
    requires p1.off == 0 && |p1.data| == 24 && p1.mf && p2.off == 16 && |p2.data| == 16 && p2.mf
    requires p3.off == 32 && |p3.data| == 16 && !p3.mf
    ensures Feed(Collect([p1, p2]), p3).out == Some(p1.data + (p2.data + p3.data))
  {
    var e1, e2, e3 := CutTail(Arrived(p1), 8), Arrived(p2), Arrived(p3);
    CrossedTwo(p1, p2);
    assert Link([e2], e3) == Kept([e2, e3]);
    assert [e1, e2][1..] == [e2] && [e1] + [e2, e3] == [e1, e2, e3];
    var l := [e1, e2, e3];
    assert Link([e1, e2], e3) == Kept(l);
    assert l[1..] == [e2, e3] && [e2, e3][1..] == [e3];
    assert Whole([e3], 32) && Whole([e2, e3], 16) && Whole(l, 0);
    assert Tail([e3]) == p3.data;
    assert Tail([e2, e3]) == p2.data + p3.data;
    assert p1.data[..24] == p1.data && Joined(l) == p1.data + Tail([e2, e3]);
  }

  lemma CrossedTwo(p1: Piece, p2: Piece)
    requires p1.off == 0 && |p1.data| == 24 && p1.mf && p2.off == 16 && |p2.data| == 16 && p2.mf
    ensures Collect([p1, p2]) == [CutTail(Arrived(p1), 8), Arrived(p2)]
  {
    var e1, e2 := Arrived(p1), Arrived(p2);
    assert [p1][..0] == [] && Collect([p1]) == [e1];
    assert [p1, p2][..1] == [p1];
    assert Link([e1], e2) == Kept([CutTail(e1, 8), e2]);
    assert [CutTail(e1, 8), e2][1..] == [e2] && !Whole([e2], 16);
  }

  /** Two cuts of one datagram at different lengths mix badly: the first fragment loses its tail to a
      piece of the other cut, and its full length is still used. */
  lemma TwoCutsMixed(d: Bytes)
    requires |d| == 48
    ensures var p1, p2, p3 := Piece(0, true, d[..24]), Piece(16, true, d[16..32]), Piece(32, false, d[32..]);
      && p1 in Split(d, 0, false, 24) && p2 in Split(d, 0, false, 16) && p3 in Split(d, 0, false, 16)
      && FragsOf([p1, p2, p3], d) && Feed(Collect([p1, p2]), p3).out == Some(d[..24] + d[16..]) && d[..24] + d[16..] != d
  {
    ThreePieces(d);
    CrossedThree(Piece(0, true, d[..24]), Piece(16, true, d[16..32]), Piece(32, false, d[32..]));
    assert d[16..32] + d[32..] == d[16..];
    assert |d[..24] + d[16..]| == 56;
  }
}
