/** `ipoput4` over chains of blocks, from the length checks to the fragments it sends. */
module IpOutput {
  import opened IpFrag
  import opened IpCut

  const IP_DF: nat := 0x4000

  datatype Outcome =
    | Discard
    | CantFragment
    | Whole(frag: nat, length: nat)
    | Fragments(ws: seq<Wire>)

  /** All the bytes of a chain. */
  function Flat(chain: seq<Bytes>): Bytes {
    if chain == [] then [] else chain[0] + Flat(chain[1..])
  }

  /** What is sent for a packet of these bytes.  A packet that is passed on (`gating`) goes by the
      length and fragment fields of its header; one sent from here starts afresh. */
  function Output(bytes: Bytes, gating: bool, length: nat, frag: nat, medialen: int): Outcome {
    if gating && length > |bytes| then Discard
    else
      var len := if gating then length else |bytes|;
      if len >= IP_MAX then Discard
      else if len <= medialen then Whole(if gating then frag else 0, len)
      else if frag / IP_DF % 2 == 1 then CantFragment
      else
        var seglen := (medialen - IP4HDR) / 8 * 8;
        if seglen < 8 then Discard
        else Fragments(Cut(bytes[IP4HDR..len], if gating then frag * 8 else 0, seglen))
  }

  lemma FlatSkip(xp: seq<Bytes>, n: nat)
    requires xp != [] && n <= |xp[0]|
    ensures Flat([xp[0][n..]] + xp[1..]) == Flat(xp)[n..]
    ensures Flat(xp)[..n] == xp[0][..n]
  {
    assert ([xp[0][n..]] + xp[1..])[1..] == xp[1..];
  }

  method Blocklen(chain: seq<Bytes>) returns (n: nat)
    ensures n == |Flat(chain)|
  {
    n := 0;
    var xp := chain;
    while xp != []
      invariant n + |Flat(xp)| == |Flat(chain)|
      decreases |xp|
    {
      n := n + |xp[0]|;
      xp := xp[1..];
    }
  }

  /** Advancing past the header. */
  method Advance(chain: seq<Bytes>, n: nat) returns (xp: seq<Bytes>)
    requires n < |Flat(chain)|
    ensures Flat(xp) == Flat(chain)[n..]
  {
    xp := chain;
    var offset := n;
    while offset != 0 && offset >= |xp[0]|
      invariant 0 <= offset < |Flat(xp)| && Flat(xp)[offset..] == Flat(chain)[n..] && xp != []
      decreases |xp|
    {
      FlatSkip(xp, |xp[0]|);
      assert Flat(xp)[|xp[0]|..] == Flat(xp[1..]);
      offset := offset - |xp[0]|;
      xp := xp[1..];
    }
    FlatSkip(xp, offset);
    xp := [xp[0][offset..]] + xp[1..];
  }

  /** Copying one fragment's data out of the chain, across as many blocks as it takes. */
  method CopyUp(chain: seq<Bytes>, n: nat) returns (nb: Bytes, xp: seq<Bytes>)
    requires n <= |Flat(chain)|
    ensures nb == Flat(chain)[..n] && Flat(xp) == Flat(chain)[n..]
  {
    nb, xp := [], chain;
    var chunk := n;
    while chunk > 0
      invariant 0 <= chunk <= n && chunk <= |Flat(xp)|
      invariant nb == Flat(chain)[..n - chunk] && Flat(xp) == Flat(chain)[n - chunk..]
      decreases chunk, |xp|
    {
      var blklen := if |xp[0]| < chunk then |xp[0]| else chunk;
      FlatSkip(xp, blklen);
      ghost var before := Flat(xp);
      assert before[..blklen] == Flat(chain)[n - chunk..n - chunk + blklen];
      nb := nb + xp[0][..blklen];
      if blklen == |xp[0]| {
        assert before[blklen..] == Flat(xp[1..]);
        xp := xp[1..];
      } else {
        xp := [xp[0][blklen..]] + xp[1..];
      }
      chunk := chunk - blklen;
    }
  }

  /** The fragment loop. */
  method FragmentLoop(chain: seq<Bytes>, len: nat, start: nat, seglen0: nat) returns (ws: seq<Wire>)
    requires seglen0 > 0 && len <= |Flat(chain)|
    ensures ws == Cut(Flat(chain)[..len], start, seglen0)
  {
    var xp, fragoff, seglen := chain, start, seglen0;
    var dlen := len + fragoff;
    ghost var goal, rest := Cut(Flat(chain)[..len], start, seglen0), Flat(chain)[..len];
    ws := [];
    while fragoff < dlen
      invariant start <= fragoff <= dlen && seglen > 0 && (fragoff < dlen ==> seglen == seglen0)
      invariant dlen - fragoff <= |Flat(xp)| && rest == Flat(xp)[..dlen - fragoff]
      invariant ws + Cut(rest, fragoff, seglen0) == goal
      decreases dlen - fragoff
    {
      var frag;
      if fragoff + seglen >= dlen {
        seglen := dlen - fragoff;
        frag := fragoff / 8 % 0x1_0000;
      } else {
        frag := OrMf(fragoff / 8) % 0x1_0000;
      }
      CutTurn(ws, rest, fragoff, seglen0, seglen, frag);
      FirstOf(Flat(xp), dlen - fragoff, seglen);
      var nb;
      nb, xp := CopyUp(xp, seglen);
      rest := rest[seglen..];
      ws := ws + [Wire(frag, seglen + IP4HDR, nb)];
      fragoff := fragoff + seglen;
    }
  }

  lemma FirstOf(flat: Bytes, left: nat, n: nat)
    requires n <= left <= |flat|
    ensures flat[..left][..n] == flat[..n] && flat[..left][n..] == flat[n..][..left - n]
  {
  }

  /** One turn: the first piece, and the cut of what is left. */
  lemma CutTurn(ws: seq<Wire>, data: Bytes, fragoff: nat, seglen0: nat, n: nat, frag: nat)
    requires seglen0 > 0 && data != [] && n == if |data| <= seglen0 then |data| else seglen0
    requires frag == (if |data| <= seglen0 then fragoff / 8 % 0x1_0000 else OrMf(fragoff / 8) % 0x1_0000)
    ensures ws + Cut(data, fragoff, seglen0) == (ws + [Wire(frag, n + IP4HDR, data[..n])]) + Cut(data[n..], fragoff + n, seglen0)
  {
    if |data| <= seglen0 {
      assert data[..|data|] == data && data[|data|..] == [];
    }
  }

  method IpOput4(chain: seq<Bytes>, gating: bool, length: nat, frag: nat, medialen: int) returns (r: Outcome)
    ensures r == Output(Flat(chain), gating, length, frag, medialen)
  {
    var len := Blocklen(chain);
    if gating {
      if length > len {
        return Discard;
      }
      if length < len {
        len := length;
      }
    }
    if len >= IP_MAX {
      return Discard;
    }
    if len <= medialen {
      return Whole(if gating then frag else 0, len);
    }
    if frag / IP_DF % 2 == 1 {
      return CantFragment;
    }
    var seglen := (medialen - IP4HDR) / 8 * 8;
    if seglen < 8 {
      return Discard;
    }
    var xp := Advance(chain, IP4HDR);
    var ws := FragmentLoop(xp, len - IP4HDR, if gating then frag * 8 else 0, seglen);
    assert Flat(chain)[IP4HDR..len] == Flat(xp)[..len - IP4HDR];
    r := Fragments(ws);
  }

  /** A packet of data d too long for the medium goes out as the pieces of one cut of d. */
  lemma SentPieces(hdr: Bytes, d: Bytes, frag: nat, medialen: int)
    requires |hdr| == IP4HDR && |d| + IP4HDR < IP_MAX && 28 <= medialen < |d| + IP4HDR && frag / IP_DF % 2 == 0
    ensures var seglen, r := (medialen - IP4HDR) / 8 * 8, Output(hdr + d, false, 0, frag, medialen);
      && Unit(seglen) && seglen < |d| && r.Fragments?
      && |r.ws| == |Split(d, 0, false, seglen)|
      && forall i | 0 <= i < |r.ws| :: PieceOf(r.ws[i]) == Split(d, 0, false, seglen)[i] && r.ws[i].length == |r.ws[i].data| + IP4HDR && r.ws[i].frag < IP_DF
  {
    var seglen := (medialen - IP4HDR) / 8 * 8;
    assert (hdr + d)[IP4HDR..] == d && |hdr + d| == |d| + IP4HDR;
    assert (hdr + d)[IP4HDR..|hdr + d|] == d;
    CutSplits(d, 0, false, seglen);
  }

  /** A fragment a gateway must cut again goes out as the pieces of one cut of that fragment, whatever
      padding follows it. */
  lemma PassedPieces(hdr: Bytes, w: Wire, pad: Bytes, medialen: int)
    requires |hdr| == IP4HDR && w.frag < IP_DF && w.length == |w.data| + IP4HDR && PieceOf(w).off + w.length < IP_MAX
    requires 28 <= medialen < w.length
    ensures var p, seglen, r := PieceOf(w), (medialen - IP4HDR) / 8 * 8, Output(hdr + w.data + pad, true, w.length, w.frag, medialen);
      && Unit(seglen) && seglen < |p.data| && r.Fragments?
      && |r.ws| == |Split(p.data, p.off, p.mf, seglen)|
      && forall i | 0 <= i < |r.ws| :: PieceOf(r.ws[i]) == Split(p.data, p.off, p.mf, seglen)[i] && r.ws[i].length == |r.ws[i].data| + IP4HDR && r.ws[i].frag < IP_DF
  {
    var p, seglen := PieceOf(w), (medialen - IP4HDR) / 8 * 8;
    assert (hdr + w.data + pad)[IP4HDR..w.length] == w.data;
    FieldBack(w.frag);
    CutSplits(p.data, p.off, p.mf, seglen);
  }

  lemma FieldBack(frag: nat)
    requires frag < IP_DF
    ensures frag * 8 == Fragoff(frag % 0x2000 * 8, frag / 0x2000 % 2 == 1) && frag / IP_DF % 2 == 0
  {
    assert frag / 0x2000 < 2;
    assert frag == frag / 0x2000 * 0x2000 + frag % 0x2000;
  }

  // ---------- what goes out ----------

  /** What an outcome puts on the wire; a packet sent whole has the data its length covers. */
  function OnWire(o: Outcome, data: Bytes): seq<Wire> {
    match o
    case Whole(frag, length) => [Wire(frag, length, data)]
    case Fragments(ws) => ws
    case _ => []
  }

  lemma {:induction false} CutFits(data: Bytes, fragoff: nat, seglen: nat)
    requires seglen > 0
    ensures forall w | w in Cut(data, fragoff, seglen) :: w.length <= seglen + 20
    ensures data != [] ==> Cut(data, fragoff, seglen) != []
  {
    if |data| > seglen {
      CutFits(data[seglen..], fragoff + seglen, seglen);
    }
  }

  /** Nothing goes out exactly when a packet passed on is shorter than its header says, one is of 64K or
      more, or one too long for its medium may not be cut or cannot be, the medium taking less than 8
      bytes of data behind a header. */
  lemma NothingSent(bytes: Bytes, gating: bool, length: nat, frag: nat, medialen: int, data: Bytes)
    ensures var len := if gating then length else |bytes|;
      OnWire(Output(bytes, gating, length, frag, medialen), data) == [] <==>
        (gating && length > |bytes|) || len >= 0x1_0000 || (len > medialen && (frag / 0x4000 % 2 == 1 || medialen < 28))
  {
    var len := if gating then length else |bytes|;
    var seglen := (medialen - IP4HDR) / 8 * 8;
    if len <= |bytes| && 28 <= medialen < len {
      CutFits(bytes[IP4HDR..len], if gating then frag * 8 else 0, seglen);
    }
  }

  /** Whatever goes out fits its medium. */
  lemma FitsMedium(bytes: Bytes, gating: bool, length: nat, frag: nat, medialen: int, data: Bytes)
    ensures forall w | w in OnWire(Output(bytes, gating, length, frag, medialen), data) :: w.length <= medialen
  {
    var len := if gating then length else |bytes|;
    var seglen := (medialen - IP4HDR) / 8 * 8;
    if len <= |bytes| && 28 <= medialen < len {
      CutFits(bytes[IP4HDR..len], if gating then frag * 8 else 0, seglen);
    }
  }

  /** A packet that may not be fragmented goes out as it is or not at all, and the error message is
      called for exactly when it is complete, shorter than 64K and too long for its medium. */
  lemma DontFragment(bytes: Bytes, gating: bool, length: nat, frag: nat, medialen: int, data: Bytes)
    requires frag / 0x4000 % 2 == 1
    ensures var len, o := if gating then length else |bytes|, Output(bytes, gating, length, frag, medialen);
      && OnWire(o, data) in {[], [Wire(if gating then frag else 0, len, data)]}
      && (o == CantFragment <==> len <= |bytes| && len < 0x1_0000 && len > medialen)
  {
  }
}
