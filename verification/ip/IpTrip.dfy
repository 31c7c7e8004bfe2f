/** A datagram's whole way: cut by its sender, cut again by gateways, and put together from what
    arrives. */
module IpTrip {
  import opened IpFrag
  import opened IpCut
  import opened IpOutput
  import opened IpReassemble

  /** A gateway passing on a packet: the header it puts in front, padding behind, and its medium. */
  datatype Gate = Gate(w: Wire, hdr: Bytes, pad: Bytes, medialen: int)

  function FromSource(hdr: Bytes, d: Bytes, frag: nat, medialen: int): seq<Wire> {
    OnWire(Output(hdr + d, false, 0, frag, medialen), d)
  }

  function FromGate(g: Gate): seq<Wire> {
    OnWire(Output(g.hdr + g.w.data + g.pad, true, g.w.length, g.w.frag, g.medialen), g.w.data)
  }

  function Among(ws: seq<Wire>): set<Wire> {
    set w | w in ws
  }

  /** Everything that is ever on the wire for one datagram. */
  function OnWay(hdr: Bytes, d: Bytes, frag: nat, medialen: int, gates: seq<Gate>): set<Wire> {
    if gates == [] then Among(FromSource(hdr, d, frag, medialen))
    else OnWay(hdr, d, frag, medialen, gates[..|gates| - 1]) + Among(FromGate(gates[|gates| - 1]))
  }

  predicate Cuts(g: Gate) {
    g.medialen < g.w.length
  }

  function Seg(medialen: int): nat {
    if medialen < IP4HDR then 0 else (medialen - IP4HDR) / 8 * 8
  }

  /** Media take at least 28 bytes, and a fragment is not cut again in two different ways. */
  ghost predicate Way(hdr: Bytes, d: Bytes, frag: nat, medialen: int, gates: seq<Gate>) {
    && |hdr| == IP4HDR && d != [] && |d| + IP4HDR < IP_MAX && medialen >= 28
    && (gates != [] ==>
         var init, g := gates[..|gates| - 1], gates[|gates| - 1];
         && Way(hdr, d, frag, medialen, init)
         && g.w in OnWay(hdr, d, frag, medialen, init) && |g.hdr| == IP4HDR && g.medialen >= 28
         && (Cuts(g) ==> forall h | h in init && h.w == g.w && Cuts(h) :: Seg(h.medialen) == Seg(g.medialen)))
  }

  // ---------- the way as cuts ----------

  /** The cuts made on the way. */
  function Hops(d: Bytes, medialen: int, gates: seq<Gate>): seq<Hop>
    requires medialen >= 28 && forall g | g in gates :: g.medialen >= 28
    ensures forall h | h in Hops(d, medialen, gates) :: h.seglen > 0
  {
    if gates == [] then
      if medialen < |d| + IP4HDR then [Hop(Uncut(d), Seg(medialen))] else []
    else
      var g := gates[|gates| - 1];
      Hops(d, medialen, gates[..|gates| - 1]) + if Cuts(g) then [Hop(PieceOf(g.w), Seg(g.medialen))] else []
  }

  predicate WireOk(w: Wire) {
    w.frag < IP_DF && w.length == |w.data| + IP4HDR
  }

  lemma WireBack(v: Wire, w: Wire)
    requires WireOk(v) && WireOk(w) && PieceOf(v) == PieceOf(w)
    ensures v == w
  {
    FieldBack(v.frag);
    FieldBack(w.frag);
  }

  /** What a sender or a gateway puts on the wire: the packet, or the pieces of its cut. */
  lemma GateSends(g: Gate, d: Bytes)
    requires WireOk(g.w) && Stands(PieceOf(g.w), d) && |d| + IP4HDR < IP_MAX && |g.hdr| == IP4HDR && g.medialen >= 28
    ensures Cuts(g) ==> Unit(Seg(g.medialen)) && Seg(g.medialen) < |g.w.data|
    ensures forall w | w in FromGate(g) ::
      WireOk(w) && if Cuts(g) then PieceOf(w) in Recut(Hop(PieceOf(g.w), Seg(g.medialen))) else w == g.w
  {
    if Cuts(g) {
      PassedPieces(g.hdr, g.w, g.pad, g.medialen);
    }
  }

  lemma SourceSends(hdr: Bytes, d: Bytes, frag: nat, medialen: int)
    requires Way(hdr, d, frag, medialen, [])
    ensures medialen < |d| + IP4HDR ==> Unit(Seg(medialen)) && Seg(medialen) < |d|
    ensures forall w | w in FromSource(hdr, d, frag, medialen) ::
      WireOk(w) && PieceOf(w) in Scatter(d, Hops(d, medialen, []))
  {
    if medialen < |d| + IP4HDR && frag / IP_DF % 2 == 0 {
      SentPieces(hdr, d, frag, medialen);
      var h := Hop(Uncut(d), Seg(medialen));
      assert Hops(d, medialen, []) == [h] && [h][..0] == [];
    }
  }

  ghost predicate GatesOk(gates: seq<Gate>) {
    forall g | g in gates :: g.medialen >= 28
  }

  lemma {:induction false} WayGates(hdr: Bytes, d: Bytes, frag: nat, medialen: int, gates: seq<Gate>)
    requires Way(hdr, d, frag, medialen, gates)
    ensures Way(hdr, d, frag, medialen, []) && GatesOk(gates)
  {
    if gates != [] {
      var init, g := gates[..|gates| - 1], gates[|gates| - 1];
      WayGates(hdr, d, frag, medialen, init);
      assert gates == init + [g];
    }
  }

  /** Every cut was made by the sender, of the whole, or by a gateway, of something shorter that was on
      its way if the sender did cut. */
  ghost predicate Made(d: Bytes, medialen: int, gates: seq<Gate>, h: Hop) {
    || (medialen < |d| + IP4HDR && h == Hop(Uncut(d), Seg(medialen)))
    || exists g | g in gates :: Cuts(g) && WireOk(g.w) && h == Hop(PieceOf(g.w), Seg(g.medialen))
  }

  ghost predicate Traced(hdr: Bytes, d: Bytes, frag: nat, medialen: int, gates: seq<Gate>)
    requires GatesOk(gates) && medialen >= 28
  {
    var hops := Hops(d, medialen, gates);
    && Fair(d, hops) && (forall h | h in hops :: Made(d, medialen, gates, h))
    && forall w | w in OnWay(hdr, d, frag, medialen, gates) ::
      && WireOk(w) && PieceOf(w) in Scatter(d, hops) && Stands(PieceOf(w), d)
      && (medialen < |d| + IP4HDR ==> |w.data| < |d|)
  }

  lemma TraceSource(hdr: Bytes, d: Bytes, frag: nat, medialen: int)
    requires Way(hdr, d, frag, medialen, [])
    ensures Traced(hdr, d, frag, medialen, [])
  {
    SourceSends(hdr, d, frag, medialen);
    var hops := Hops(d, medialen, []);
    if medialen < |d| + IP4HDR {
      assert hops == [Hop(Uncut(d), Seg(medialen))] && hops[..|hops| - 1] == [];
      assert Scatter(d, []) == {Uncut(d)};
    }
    assert Fair(d, hops);
    ScatterFamily(d, hops);
    if medialen < |d| + IP4HDR && frag / IP_DF % 2 == 0 {
      SentPieces(hdr, d, frag, medialen);
      forall w | w in FromSource(hdr, d, frag, medialen) ensures |w.data| < |d| {
        SplitShort(Uncut(d), Seg(medialen), PieceOf(w));
      }
    }
  }

  /** A gateway's cut is fair. */
  lemma FairGate(hdr: Bytes, d: Bytes, frag: nat, medialen: int, init: seq<Gate>, g: Gate)
    requires Way(hdr, d, frag, medialen, init + [g]) && GatesOk(init) && medialen >= 28 && Cuts(g)
    requires Traced(hdr, d, frag, medialen, init)
    ensures Fair(d, Hops(d, medialen, init) + [Hop(PieceOf(g.w), Seg(g.medialen))])
  {
    assert (init + [g])[..|init|] == init;
    GateSends(g, d);
    var hops, h := Hops(d, medialen, init), Hop(PieceOf(g.w), Seg(g.medialen));
    forall k | k in hops && k.p == h.p ensures k.seglen == h.seglen {
      assert Made(d, medialen, init, k);
      if f :| f in init && Cuts(f) && WireOk(f.w) && k == Hop(PieceOf(f.w), Seg(f.medialen)) {
        WireBack(f.w, g.w);
      }
    }
    assert (hops + [h])[..|hops|] == hops;
  }

  lemma TraceGate(hdr: Bytes, d: Bytes, frag: nat, medialen: int, init: seq<Gate>, g: Gate)
    requires Way(hdr, d, frag, medialen, init + [g]) && GatesOk(init) && medialen >= 28 && g.medialen >= 28
    requires Traced(hdr, d, frag, medialen, init)
    ensures GatesOk(init + [g]) && Traced(hdr, d, frag, medialen, init + [g])
  {
    var gates := init + [g];
    assert gates[..|init|] == init && gates[|init|] == g;
    GateSends(g, d);
    var hops := Hops(d, medialen, gates);
    if Cuts(g) {
      FairGate(hdr, d, frag, medialen, init, g);
      assert hops[..|hops| - 1] == Hops(d, medialen, init);
    } else {
      assert hops == Hops(d, medialen, init);
    }
    ScatterFamily(d, hops);
    forall h | h in hops ensures Made(d, medialen, gates, h) {
      if h in Hops(d, medialen, init) {
        assert Made(d, medialen, init, h);
      } else {
        assert g in gates;
      }
    }
    forall w | w in FromGate(g) && Cuts(g) ensures |w.data| < |g.w.data| <= |d| {
      SplitShort(PieceOf(g.w), Seg(g.medialen), PieceOf(w));
    }
  }

  lemma {:induction false} Trace(hdr: Bytes, d: Bytes, frag: nat, medialen: int, gates: seq<Gate>)
    requires Way(hdr, d, frag, medialen, gates)
    ensures medialen >= 28 && GatesOk(gates) && Traced(hdr, d, frag, medialen, gates)
  {
    WayGates(hdr, d, frag, medialen, gates);
    if gates == [] {
      TraceSource(hdr, d, frag, medialen);
    } else {
      var init, g := gates[..|gates| - 1], gates[|gates| - 1];
      assert gates == init + [g];
      Trace(hdr, d, frag, medialen, init);
      TraceGate(hdr, d, frag, medialen, init, g);
    }
  }

  // ---------- arriving ----------

  /** What comes for k is from the way of d. */
  ghost predicate FromWay(arrivals: seq<Arrival>, k: Key, hdr: Bytes, d: Bytes, frag: nat, medialen: int, gates: seq<Gate>) {
    && Way(hdr, d, frag, medialen, gates)
    && forall a | a in arrivals && a.key == k :: a.w in OnWay(hdr, d, frag, medialen, gates)
  }

  /** On the way, what is not marked as a fragment is the datagram. */
  lemma MarkedOrWhole(w: Wire, d: Bytes)
    requires WireOk(w) && Stands(PieceOf(w), d)
    ensures Unfragmented(w.frag) <==> PieceOf(w) == Uncut(d)
  {
    FieldBack(w.frag);
    assert w.frag < 0x4000;
    assert w.frag == w.frag / 0x2000 * 0x2000 + w.frag % 0x2000;
  }

  ghost predicate Pending(ps: seq<Piece>, d: Bytes, hops: seq<Hop>)
    requires forall h | h in hops :: h.seglen > 0
  {
    (forall q | q in ps :: q in Scatter(d, hops) && q != Uncut(d)) && !AllReached(ps, d)
  }

  /** One more arrival for k. */
  lemma OneMore(arrivals: seq<Arrival>, size: nat, a: Arrival, hdr: Bytes, d: Bytes, frag: nat, medialen: int, gates: seq<Gate>)
    requires size > 0 && AllData(arrivals + [a]) && Way(hdr, d, frag, medialen, gates) && a.w in OnWay(hdr, d, frag, medialen, gates)
    requires medialen >= 28 && GatesOk(gates) && Pending(Mine(arrivals, size, a.key), d, Hops(d, medialen, gates))
    ensures var ps := Mine(arrivals, size, a.key) + [PieceOf(a.w)];
      Deliver(After(arrivals, size), a).1 == if Unfragmented(a.w.frag) || AllReached(ps, d) then Some(d) else None
    ensures Unfragmented(a.w.frag) ==> a.w.data == d
  {
    Trace(hdr, d, frag, medialen, gates);
    NextOut(arrivals, size, a);
    MarkedOrWhole(a.w, d);
    if !Unfragmented(a.w.frag) {
      CutReassemble(d, Hops(d, medialen, gates), Mine(arrivals, size, a.key), PieceOf(a.w));
    } else {
      assert d[0..|d|] == d;
    }
  }

  lemma {:induction false} StaysPending(arrivals: seq<Arrival>, size: nat, k: Key, hdr: Bytes, d: Bytes, frag: nat, medialen: int, gates: seq<Gate>)
    requires size > 0 && AllData(arrivals) && FromWay(arrivals, k, hdr, d, frag, medialen, gates)
    ensures medialen >= 28 && GatesOk(gates) && Pending(Mine(arrivals, size, k), d, Hops(d, medialen, gates))
  {
    Trace(hdr, d, frag, medialen, gates);
    assert d != [] && !ReachedAt([], 0);
    if arrivals != [] {
      var init, a := arrivals[..|arrivals| - 1], arrivals[|arrivals| - 1];
      assert a in arrivals && forall b | b in init :: b in arrivals;
      StaysPending(init, size, k, hdr, d, frag, medialen, gates);
      if a.key == k {
        OneMore(init, size, a, hdr, d, frag, medialen, gates);
        MarkedOrWhole(a.w, d);
      }
    }
  }

  /** A datagram sent over any media and gateways, its packets lost, repeated and reordered, among any
      other traffic: a packet comes out exactly when the whole datagram arrives or a fragment that
      leaves no byte missing of those held, and it is always the datagram. */
  lemma EndToEnd(arrivals: seq<Arrival>, size: nat, a: Arrival, hdr: Bytes, d: Bytes, frag: nat, medialen: int, gates: seq<Gate>)
    requires size > 0 && AllData(arrivals + [a]) && FromWay(arrivals + [a], a.key, hdr, d, frag, medialen, gates)
    ensures AllData(arrivals) && a.w.data != []
    ensures var ps := Mine(arrivals, size, a.key) + [PieceOf(a.w)];
      Deliver(After(arrivals, size), a).1 == if Unfragmented(a.w.frag) || AllReached(ps, d) then Some(d) else None
  {
    assert a in arrivals + [a] && forall b | b in arrivals :: b in arrivals + [a];
    StaysPending(arrivals, size, a.key, hdr, d, frag, medialen, gates);
    OneMore(arrivals, size, a, hdr, d, frag, medialen, gates);
  }

  // ---------- delivery ----------

  /** All that ever came for k. */
  function Came(arrivals: seq<Arrival>, k: Key): seq<Piece> {
    if arrivals == [] then []
    else
      var a := arrivals[|arrivals| - 1];
      Came(arrivals[..|arrivals| - 1], k) + if a.key == k then [PieceOf(a.w)] else []
  }

  ghost predicate NeverGivenUp(arrivals: seq<Arrival>, size: nat, k: Key)
    requires size > 0 && AllData(arrivals)
  {
    arrivals == [] ||
    var init, a := arrivals[..|arrivals| - 1], arrivals[|arrivals| - 1];
    AllData(init) && NeverGivenUp(init, size, k) && !Loses(After(init, size), a, k)
  }

  /** The n-th arrival brings the datagram out. */
  ghost predicate Delivers(arrivals: seq<Arrival>, size: nat, k: Key, d: Bytes, n: nat)
    requires size > 0 && AllData(arrivals)
  {
    n < |arrivals| && AllData(arrivals[..n]) && arrivals[n] in arrivals && arrivals[n].key == k &&
    Deliver(After(arrivals[..n], size), arrivals[n]).1 == Some(d)
  }

  lemma DeliversMore(init: seq<Arrival>, a: Arrival, size: nat, k: Key, d: Bytes, n: nat)
    requires size > 0 && AllData(init) && AllData(init + [a]) && Delivers(init, size, k, d, n)
    ensures Delivers(init + [a], size, k, d, n)
  {
    var all := init + [a];
    assert all[..n] == init[..n] && all[n] == init[n];
  }

  lemma {:induction false} NotYet(arrivals: seq<Arrival>, size: nat, k: Key, hdr: Bytes, d: Bytes, frag: nat, medialen: int, gates: seq<Gate>)
    requires size > 0 && AllData(arrivals) && FromWay(arrivals, k, hdr, d, frag, medialen, gates)
    requires NeverGivenUp(arrivals, size, k) && forall n: nat :: !Delivers(arrivals, size, k, d, n)
    ensures Mine(arrivals, size, k) == Came(arrivals, k)
  {
    if arrivals != [] {
      var init, a := arrivals[..|arrivals| - 1], arrivals[|arrivals| - 1];
      assert arrivals == init + [a] && a in arrivals;
      assert !Delivers(arrivals, size, k, d, |init|);
      forall n: nat ensures !Delivers(init, size, k, d, n) {
        if Delivers(init, size, k, d, n) {
          DeliversMore(init, a, size, k, d, n);
        }
      }
      NotYet(init, size, k, hdr, d, frag, medialen, gates);
      if a.key == k {
        EndToEnd(init, size, a, hdr, d, frag, medialen, gates);
      }
    }
  }

  /** If every byte arrives and the queue is not given up, the datagram comes out. */
  lemma Delivered(arrivals: seq<Arrival>, size: nat, k: Key, hdr: Bytes, d: Bytes, frag: nat, medialen: int, gates: seq<Gate>)
    requires size > 0 && AllData(arrivals) && FromWay(arrivals, k, hdr, d, frag, medialen, gates)
    requires NeverGivenUp(arrivals, size, k) && AllReached(Came(arrivals, k), d)
    ensures exists n: nat :: Delivers(arrivals, size, k, d, n)
  {
    if forall n: nat :: !Delivers(arrivals, size, k, d, n) {
      NotYet(arrivals, size, k, hdr, d, frag, medialen, gates);
      StaysPending(arrivals, size, k, hdr, d, frag, medialen, gates);
    }
  }

  // ---------- a datagram handed up twice ----------

  /** A gateway that cuts a datagram of 16 bytes in two. */
  lemma CutInTwo(hdr: Bytes, d: Bytes)
    requires |hdr| == IP4HDR && |d| == 16
    ensures var w := Wire(0, 36, d);
      && FromSource(hdr, d, 0, 40) == [w]
      && FromGate(Gate(w, hdr, [], 28)) == [Wire(0x2000, 28, d[..8]), Wire(1, 28, d[8..])]
  {
    var w := Wire(0, 36, d);
    assert |hdr + d| == 36 && (hdr + w.data + [])[IP4HDR..36] == d;
    assert Cut(d[8..], 8, 8) == [Wire(1, 28, d[8..])];
    assert Cut(d, 0, 8) == [Wire(0x2000, 28, d[..8])] + Cut(d[8..], 8, 8);
  }

  lemma TwoWay(hdr: Bytes, d: Bytes)
    requires |hdr| == IP4HDR && |d| == 16
    ensures var w, w1, w2 := Wire(0, 36, d), Wire(0x2000, 28, d[..8]), Wire(1, 28, d[8..]);
      var gates := [Gate(w, hdr, [], 28)];
      Way(hdr, d, 0, 40, gates) && {w, w1, w2} <= OnWay(hdr, d, 0, 40, gates)
  {
    CutInTwo(hdr, d);
    assert [Gate(Wire(0, 36, d), hdr, [], 28)][..0] == [];
  }

  /** A fragment held, and still after a packet that is none. */
  lemma FirstHeld(a1: Arrival, a: Arrival, size: nat)
    requires size > 0 && a1.w.data != [] && !Unfragmented(a1.w.frag) && a.w.frag == 0
    ensures Mine([a1, a], size, a1.key) == Mine([a1], size, a1.key) == [PieceOf(a1.w)]
  {
    assert [a1][..0] == [] && [a1, a][..1] == [a1];
    assert Mine([], size, a1.key) == [];
  }

  lemma HalvesReach(d: Bytes, ps: seq<Piece>)
    requires |d| == 16 && ps == [Piece(0, true, d[..8]), Piece(8, false, d[8..])]
    ensures AllReached(ps, d)
  {
    forall x: nat | x < 16 ensures ReachedAt(ps, x) {
      assert Reaches(ps[if x < 8 then 0 else 1], x);
    }
  }

  lemma UpAgain(a1: Arrival, a: Arrival, a2: Arrival, size: nat, hdr: Bytes, d: Bytes, gates: seq<Gate>)
    requires size > 0 && a.key == a1.key == a2.key && AllData([a1, a] + [a2]) && Way(hdr, d, 0, 40, gates)
    requires {a1.w, a.w, a2.w} <= OnWay(hdr, d, 0, 40, gates) && a1.w.data != [] && !Unfragmented(a1.w.frag) && a.w.frag == 0
    requires AllReached([PieceOf(a1.w)] + [PieceOf(a2.w)], d)
    ensures AllData([a1, a]) && Deliver(After([a1, a], size), a2).1 == Some(d)
  {
    FirstHeld(a1, a, size);
    EndToEnd([a1, a], size, a2, hdr, d, 0, 40, gates);
  }

  /** The whole datagram comes between the two fragments of a copy of it: it is handed up, and, as the
      queue keeps the first fragment, handed up again when the second comes. */
  lemma UpTwice(hdr: Bytes, d: Bytes, k: Key, now: nat, size: nat)
    requires |hdr| == IP4HDR && |d| == 16 && size > 0
    ensures var w, w1, w2 := Wire(0, 36, d), Wire(0x2000, 28, d[..8]), Wire(1, 28, d[8..]);
      var gates := [Gate(w, hdr, [], 28)];
      && Way(hdr, d, 0, 40, gates) && {w, w1, w2} <= OnWay(hdr, d, 0, 40, gates)
      && Deliver(After([Arrival(k, w1, now)], size), Arrival(k, w, now)).1 == Some(d)
      && Deliver(After([Arrival(k, w1, now), Arrival(k, w, now)], size), Arrival(k, w2, now)).1 == Some(d)
  {
    var w, w1, w2 := Wire(0, 36, d), Wire(0x2000, 28, d[..8]), Wire(1, 28, d[8..]);
    TwoWay(hdr, d);
    HalvesReach(d, [PieceOf(w1)] + [PieceOf(w2)]);
    UpAgain(Arrival(k, w1, now), Arrival(k, w, now), Arrival(k, w2, now), size, hdr, d, [Gate(w, hdr, [], 28)]);
  }
}
