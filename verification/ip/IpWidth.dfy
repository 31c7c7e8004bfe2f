/** The 16 bits in which offsets and lengths of held fragments are kept. */
module IpWidth {
  import opened IpFrag

  const WIDTH: nat := 0x1_0000

  /** Some held offset does not fit the code's 16 bits. */
  ghost predicate Wraps(list: seq<Entry>) {
    exists k | k in list :: k.foff >= WIDTH
  }

  /** Fragments that end in the first 64K leave every held one there. */
  lemma OffsetsFit(ps: seq<Piece>)
    requires forall p | p in ps :: p.data != [] && p.off + |p.data| <= WIDTH
    ensures forall k | k in Collect(ps) :: k.foff < End(k) <= WIDTH
  {
    forall k | k in Collect(ps) ensures k.foff < End(k) <= WIDTH {
      RetainedInPlace(ps, End(k) - 1, k.data[k.flen - 1]);
      assert Holds1(k, End(k) - 1, k.data[k.flen - 1]);
    }
  }

  /** A held fragment that reaches past the end of a new one that starts before it. */
  predicate Outlasts(k: Entry, e: Entry) {
    e.foff <= k.foff < End(e) < End(k)
  }

  ghost predicate Outlasted(list: seq<Entry>, e: Entry) {
    exists k | k in list :: Outlasts(k, e)
  }

  lemma WrapsCons(p: Entry, l: seq<Entry>)
    ensures Wraps([p] + l) <==> p.foff >= WIDTH || Wraps(l)
  {
    assert p in [p] + l;
    assert forall k | k in [p] + l :: k == p || k in l;
    assert forall k | k in l :: k in [p] + l;
  }

  lemma OutlastedCons(p: Entry, l: seq<Entry>, e: Entry)
    ensures Outlasted([p] + l, e) <==> Outlasts(p, e) || Outlasted(l, e)
  {
    assert p in [p] + l;
    assert forall k | k in [p] + l :: k == p || k in l;
    assert forall k | k in l :: k in [p] + l;
  }

  lemma {:induction false} UncoverWraps(rest: seq<Entry>, e: Entry)
    requires ListOk(rest) && !Wraps(rest) && EntryOk(e) && forall k | k in rest :: e.foff <= k.foff
    ensures Wraps(Uncover(rest, End(e))) <==> End(e) >= WIDTH && Outlasted(rest, e)
  {
    if rest != [] {
      ListTail(rest);
      var p, more := rest[0], rest[1..];
      assert rest == [p] + more && p in rest;
      WrapsCons(p, more);
      OutlastedCons(p, more, e);
      var ovlap := End(e) - p.foff;
      if 0 < ovlap < p.flen {
        WrapsCons(CutHead(p, ovlap), more);
      } else if ovlap > 0 {
        UncoverWraps(more, e);
      }
    }
  }

  lemma AheadWraps(rest: seq<Entry>, e: Entry)
    requires ListOk(rest) && !Wraps(rest) && EntryOk(e) && e.foff < WIDTH && (rest != [] ==> e.foff <= rest[0].foff)
    ensures Wraps([e] + Uncover(rest, End(e))) <==> End(e) >= WIDTH && Outlasted(rest, e)
  {
    LinkAhead(rest, e);
    UncoverWraps(rest, e);
    WrapsCons(e, Uncover(rest, End(e)));
  }

  /** Linking in a fragment makes an offset of more than 16 bits exactly when the fragment ends past
      64K inside one that was held. */
  lemma {:induction false} LinkWraps(list: seq<Entry>, e: Entry)
    requires ListOk(list) && !Wraps(list) && EntryOk(e) && e.foff < WIDTH && Link(list, e).Kept?
    ensures Wraps(Link(list, e).list) <==> End(e) >= WIDTH && Outlasted(list, e)
  {
    if list == [] || e.foff <= list[0].foff {
      AheadWraps(list, e);
    } else {
      ListTail(list);
      var p, rest := list[0], list[1..];
      assert list == [p] + rest;
      WrapsCons(p, rest);
      OutlastedCons(p, rest, e);
      if rest != [] && e.foff > rest[0].foff {
        LinkWraps(rest, e);
        WrapsCons(p, Link(rest, e).list);
      } else {
        NextWraps(p, rest, e);
      }
    }
  }

  lemma NextWraps(p: Entry, rest: seq<Entry>, e: Entry)
    requires ListOk(rest) && EntryOk(p) && !Wraps(rest) && p.foff < e.foff < WIDTH && EntryOk(e)
    requires (rest != [] ==> e.foff <= rest[0].foff) && (End(p) <= e.foff || End(p) < End(e))
    ensures Wraps([Before(p, e), e] + Uncover(rest, End(e))) <==> End(e) >= WIDTH && Outlasted(rest, e)
  {
    AheadWraps(rest, e);
    Regrouped(Before(p, e), e, Uncover(rest, End(e)));
    WrapsCons(Before(p, e), [e] + Uncover(rest, End(e)));
  }

  /** 100 bytes at 65520, and then 40 at 65512: what is left of the first stands at 65552, which 16 bits
      hold as 16. */
  lemma OffsetWraps(p: Piece, q: Piece)
    requires p.off == 65520 && |p.data| == 100 && q.off == 65512 && |q.data| == 40
    ensures var l := Collect([p, q]); |l| == 2 && l[1].foff == 65552 && l[1].foff % WIDTH == 16
  {
    assert [p, q][..1] == [p] && [p][..0] == [];
    var e, f := Arrived(p), Arrived(q);
    assert Collect([p]) == [e];
    assert [e][1..] == [];
    assert Link([e], f) == Kept([f] + [CutHead(e, 32)]);
    assert !Whole([f, CutHead(e, 32)], 0);
    assert [f] + [CutHead(e, 32)] == [f, CutHead(e, 32)];
  }
}
