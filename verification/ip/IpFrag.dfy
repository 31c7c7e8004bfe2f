/** Reassembly of one IPv4 datagram, on values: the list of fragments held, the trimming of
    overlaps, and what the list comes to. */
module IpFrag {
  type Bytes = seq<bv8>

  const IP4HDR: nat := 20

  /** A fragment as it arrived: byte offset and the more-fragments flag from the header, and the data
      the header's length covers. */
  datatype Piece = Piece(off: nat, mf: bool, data: Bytes)

  /** A held fragment: what it still counts for (`foff`, `flen`), the offset and length its header
      still says, and the bytes behind the header. */
  datatype Entry = Entry(foff: nat, flen: nat, off: nat, length: nat, mf: bool, data: Bytes)

  function Arrived(p: Piece): Entry {
    Entry(p.off, |p.data|, p.off, |p.data| + IP4HDR, p.mf, p.data)
  }

  /** Trimming at either end. */
  function CutTail(k: Entry, n: nat): Entry
    requires n <= k.flen
  {
    k.(flen := k.flen - n)
  }

  function CutHead(k: Entry, n: nat): Entry
    requires n <= k.flen && n <= |k.data|
  {
    k.(foff := k.foff + n, flen := k.flen - n, data := k.data[n..])
  }

  function End(k: Entry): nat {
    k.foff + k.flen
  }

  /** Taking out what a fragment that ends at fend covers of those after it. */
  function Uncover(rest: seq<Entry>, fend: nat): seq<Entry>
    requires forall k | k in rest :: k.flen <= |k.data|
  {
    if rest == [] || fend <= rest[0].foff then rest
    else
      var ovlap := fend - rest[0].foff;
      if ovlap < rest[0].flen then [CutHead(rest[0], ovlap)] + rest[1..] else Uncover(rest[1..], fend)
  }

  /** Linking a fragment in at its place; None when the one before it covers it. */
  datatype Linked = Dropped | Kept(list: seq<Entry>)

  function Link(list: seq<Entry>, e: Entry): Linked
    requires forall k | k in list :: k.flen <= |k.data|
  {
    if list == [] || e.foff <= list[0].foff then Kept([e] + Uncover(list, End(e)))
    else if |list| > 1 && e.foff > list[1].foff then
      match Link(list[1..], e)
      case Dropped => Dropped
      case Kept(r) => Kept([list[0]] + r)
    else if End(list[0]) <= e.foff then Kept([list[0], e] + Uncover(list[1..], End(e)))
    else if End(list[0]) - e.foff >= e.flen then Dropped
    else Kept([CutTail(list[0], End(list[0]) - e.foff), e] + Uncover(list[1..], End(e)))
  }

  /** The search for a complete packet. */
  predicate Whole(list: seq<Entry>, pos: nat) {
    list != [] && list[0].foff == pos && (!list[0].mf || Whole(list[1..], pos + list[0].flen))
  }

  /** The data of the fragments after the first. */
  function Tail(list: seq<Entry>): Bytes
    requires forall k | k in list :: k.flen <= |k.data|
  {
    if list == [] then [] else list[0].data[..list[0].flen] + Tail(list[1..])
  }

  /** The packet handed up: the first fragment goes by its header's length. */
  function Joined(list: seq<Entry>): Bytes
    requires list != [] && (forall k | k in list :: k.flen <= |k.data|) && IP4HDR <= list[0].length <= |list[0].data| + IP4HDR
  {
    list[0].data[..list[0].length - IP4HDR] + Tail(list[1..])
  }

  // ---------- the list ----------

  ghost predicate EntryOk(k: Entry) {
    0 < k.flen <= |k.data| && k.off <= k.foff && k.foff + |k.data| + IP4HDR == k.off + k.length
  }

  /** Sorted, disjoint, and no entry empty. */
  ghost predicate ListOk(list: seq<Entry>) {
    && (forall k | k in list :: EntryOk(k))
    && (forall i, j | 0 <= i < j < |list| :: End(list[i]) <= list[j].foff)
  }

  /** The list holds byte b at datagram offset x. */
  predicate Holds1(k: Entry, x: nat, b: bv8) {
    k.foff <= x < End(k) && x - k.foff < |k.data| && k.data[x - k.foff] == b
  }

  ghost predicate Holds(list: seq<Entry>, x: nat, b: bv8) {
    exists k | k in list :: Holds1(k, x, b)
  }

  lemma HoldsCons(k: Entry, rest: seq<Entry>, x: nat, b: bv8)
    ensures Holds([k] + rest, x, b) <==> Holds1(k, x, b) || Holds(rest, x, b)
  {
    if Holds([k] + rest, x, b) {
      var j :| j in [k] + rest && Holds1(j, x, b);
      assert j == k || j in rest;
    }
    if Holds1(k, x, b) {
      assert k in [k] + rest;
    }
    if Holds(rest, x, b) {
      var j :| j in rest && Holds1(j, x, b);
      assert j in [k] + rest;
    }
  }

  lemma ListTail(list: seq<Entry>)
    requires list != [] && ListOk(list)
    ensures ListOk(list[1..]) && EntryOk(list[0])
    ensures forall k | k in list[1..] :: k in list && End(list[0]) <= k.foff
  {
    assert list[0] in list;
    assert forall k | k in list[1..] :: k in list;
    forall k | k in list[1..] ensures End(list[0]) <= k.foff {
      var i :| 0 <= i < |list[1..]| && list[1..][i] == k;
      assert list[i + 1] == k;
    }
  }

  lemma ListCons(k: Entry, rest: seq<Entry>)
    requires EntryOk(k) && ListOk(rest) && forall j | j in rest :: End(k) <= j.foff
    ensures ListOk([k] + rest)
  {
    var l := [k] + rest;
    forall i, j | 0 <= i < j < |l| ensures End(l[i]) <= l[j].foff {
      assert l[j] == rest[j - 1];
      if i > 0 {
        assert l[i] == rest[i - 1];
      }
    }
  }

  /** Uncovering leaves the bytes from fend on where they were. */
  lemma {:induction false} UncoverKeeps(rest: seq<Entry>, fend: nat, low: nat)
    requires ListOk(rest) && low <= fend && forall k | k in rest :: low <= k.foff
    ensures ListOk(Uncover(rest, fend)) && forall k | k in Uncover(rest, fend) :: fend <= k.foff
    ensures forall x, b :: Holds(Uncover(rest, fend), x, b) <==> Holds(rest, x, b) && fend <= x
  {
    if rest == [] {
    } else if fend <= rest[0].foff {
      ListTail(rest);
    } else {
      ListTail(rest);
      var ovlap := fend - rest[0].foff;
      assert rest == [rest[0]] + rest[1..];
      if ovlap < rest[0].flen {
        var h := CutHead(rest[0], ovlap);
        ListCons(h, rest[1..]);
        forall x, b ensures Holds([h] + rest[1..], x, b) <==> Holds(rest, x, b) && fend <= x {
          HoldsCons(h, rest[1..], x, b);
          HoldsCons(rest[0], rest[1..], x, b);
        }
      } else {
        UncoverKeeps(rest[1..], fend, low);
        forall x, b ensures Holds(Uncover(rest[1..], fend), x, b) <==> Holds(rest, x, b) && fend <= x {
          HoldsCons(rest[0], rest[1..], x, b);
        }
      }
    }
  }

  ghost predicate Covered(list: seq<Entry>, x: nat) {
    exists k | k in list :: k.foff <= x < End(k)
  }

  /** A fragment linked in covers its own offsets with its own bytes, and leaves every other byte at
      the offset it arrived for; one dropped was covered already. */
  ghost predicate LinkedIn(list: seq<Entry>, e: Entry, r: Linked) {
    match r
    case Dropped => forall x: nat | e.foff <= x < End(e) :: Covered(list, x)
    case Kept(l) =>
      && ListOk(l)
      && (forall x: nat, b :: Holds(l, x, b) <==> (if e.foff <= x < End(e) then Holds1(e, x, b) else Holds(list, x, b)))
  }

  /** Putting an entry in front of a list. */
  lemma LinkFront(list: seq<Entry>, e: Entry)
    requires ListOk(list) && EntryOk(e) && (forall k | k in list :: e.foff <= k.foff)
    ensures LinkedIn(list, e, Kept([e] + Uncover(list, End(e))))
  {
    UncoverKeeps(list, End(e), e.foff);
    ListCons(e, Uncover(list, End(e)));
    forall x: nat, b
      ensures Holds([e] + Uncover(list, End(e)), x, b) <==> (if e.foff <= x < End(e) then Holds1(e, x, b) else Holds(list, x, b))
    {
      HoldsCons(e, Uncover(list, End(e)), x, b);
    }
  }

  /** The same behind an entry, possibly shortened. */
  lemma LinkBehind(k: Entry, k': Entry, rest: seq<Entry>, e: Entry, l: seq<Entry>)
    requires ListOk([k] + rest) && EntryOk(k') && k.foff < e.foff && (rest != [] ==> e.foff <= rest[0].foff)
    requires EntryOk(e) && LinkedIn(rest, e, Kept(l)) && forall j | j in l :: e.foff <= j.foff
    requires if End(k) <= e.foff then k' == k else End(k) < End(e) && k' == CutTail(k, End(k) - e.foff)
    ensures LinkedIn([k] + rest, e, Kept([k'] + l))
  {
    ListCons(k', l);
    forall x: nat, b
      ensures Holds([k'] + l, x, b) <==> (if e.foff <= x < End(e) then Holds1(e, x, b) else Holds([k] + rest, x, b))
    {
      HoldsCons(k', l, x, b);
      HoldsCons(k, rest, x, b);
    }
  }

  /** The same when the place is further on. */
  lemma LinkPast(k: Entry, rest: seq<Entry>, e: Entry, r: Linked)
    requires ListOk([k] + rest) && LinkedIn(rest, e, r) && End(k) <= e.foff
    requires r.Kept? ==> forall j | j in r.list :: End(k) <= j.foff
    ensures LinkedIn([k] + rest, e, match r case Dropped => Dropped case Kept(l) => Kept([k] + l))
  {
    if r.Kept? {
      assert k in [k] + rest;
      ListCons(k, r.list);
      forall x: nat, b
        ensures Holds([k] + r.list, x, b) <==> (if e.foff <= x < End(e) then Holds1(e, x, b) else Holds([k] + rest, x, b))
      {
        HoldsCons(k, r.list, x, b);
        HoldsCons(k, rest, x, b);
      }
    } else {
      forall x: nat | e.foff <= x < End(e) ensures Covered([k] + rest, x) {
        assert Covered(rest, x);
        var j :| j in rest && j.foff <= x < End(j);
        assert j in [k] + rest;
      }
    }
  }

  /** What of the entry before its place a fragment leaves. */
  function Before(p: Entry, e: Entry): Entry
    requires p.foff < e.foff
  {
    if End(p) <= e.foff then p else CutTail(p, End(p) - e.foff)
  }

  lemma Regrouped(p: Entry, e: Entry, u: seq<Entry>)
    ensures [p, e] + u == [p] + ([e] + u)
  {
  }

  /** The place is right behind p, which does not cover the fragment. */
  lemma LinkNext(p: Entry, rest: seq<Entry>, e: Entry)
    requires ListOk([p] + rest) && ListOk(rest) && EntryOk(p) && EntryOk(e)
    requires p.foff < e.foff && (rest != [] ==> e.foff <= rest[0].foff) && (End(p) <= e.foff || End(p) < End(e))
    ensures LinkedIn([p] + rest, e, Kept([Before(p, e), e] + Uncover(rest, End(e))))
    ensures forall k | k in [Before(p, e), e] + Uncover(rest, End(e)) :: p.foff <= k.foff
  {
    var u := Uncover(rest, End(e));
    LinkAhead(rest, e);
    UncoverKeeps(rest, End(e), e.foff);
    Regrouped(Before(p, e), e, u);
    assert forall k | k in [e] + u :: k == e || k in u;
    LinkBehind(p, Before(p, e), rest, e, [e] + u);
  }

  lemma LinkAhead(rest: seq<Entry>, e: Entry)
    requires ListOk(rest) && EntryOk(e) && (rest != [] ==> e.foff <= rest[0].foff)
    ensures LinkedIn(rest, e, Kept([e] + Uncover(rest, End(e)))) && forall k | k in rest :: e.foff <= k.foff
  {
    if rest != [] {
      ListTail(rest);
    }
    LinkFront(rest, e);
  }

  lemma {:induction false} LinkKeeps(list: seq<Entry>, e: Entry)
    requires ListOk(list) && EntryOk(e)
    ensures LinkedIn(list, e, Link(list, e))
    ensures Link(list, e).Kept? && list != [] && list[0].foff < e.foff ==> forall k | k in Link(list, e).list :: list[0].foff <= k.foff
  {
    if list == [] || e.foff <= list[0].foff {
      LinkAhead(list, e);
    } else {
      ListTail(list);
      var p, rest := list[0], list[1..];
      assert list == [p] + rest;
      if rest != [] && e.foff > rest[0].foff {
        LinkKeeps(rest, e);
        assert rest[0] in rest;
        LinkPast(p, rest, e, Link(rest, e));
      } else if End(p) > e.foff && End(p) >= End(e) {
        assert p in list;
      } else {
        LinkNext(p, rest, e);
        assert Link(list, e) == Kept([Before(p, e), e] + Uncover(rest, End(e)));
      }
    }
  }

  /** Whatever is still counted at x, by any entry. */
  lemma CoveredHolds(list: seq<Entry>, x: nat)
    requires ListOk(list)
    ensures Covered(list, x) <==> exists b :: Holds(list, x, b)
  {
    if Covered(list, x) {
      var k :| k in list && k.foff <= x < End(k);
      assert Holds(list, x, k.data[x - k.foff]);
    }
  }

  // ---------- fragments of one datagram ----------

  /** p is a proper fragment of datagram d. */
  ghost predicate FragOf(p: Piece, d: Bytes) {
    && 0 < |p.data| && p.off + |p.data| <= |d| && p.data == d[p.off..p.off + |p.data|]
    && (p.mf <==> p.off + |p.data| < |d|) && (p.off == 0 ==> p.mf)
  }

  /** A held fragment of d. */
  ghost predicate PartOf(k: Entry, d: Bytes) {
    && EntryOk(k) && k.foff + |k.data| <= |d| && k.data == d[k.foff..k.foff + |k.data|]
    && (k.mf <==> End(k) < |d|)
  }

  ghost predicate ListOf(list: seq<Entry>, d: Bytes) {
    ListOk(list) && forall k | k in list :: PartOf(k, d)
  }

  /** The search succeeds exactly when every byte is there, and finds all of it in order. */
  lemma {:induction false} WholeMeans(list: seq<Entry>, d: Bytes, pos: nat)
    requires ListOf(list, d) && pos < |d| && forall k | k in list :: pos <= k.foff
    ensures Whole(list, pos) <==> forall x: nat | pos <= x < |d| :: Covered(list, x)
    ensures Whole(list, pos) ==> Tail(list) == d[pos..]
  {
    if list == [] {
      assert !Covered(list, pos);
    } else {
      ListTail(list);
      var k, rest := list[0], list[1..];
      assert PartOf(k, d) by {
        assert k in list;
      }
      assert ListOf(rest, d);
      MoreAfter(list, d);
      forall x: nat ensures Covered(list, x) <==> k.foff <= x < End(k) || Covered(rest, x) {
        CoverCons(k, rest, x);
        assert list == [k] + rest;
      }
      if k.foff != pos {
        assert !Covered(list, pos);
      } else if !k.mf {
        assert rest == [];
        forall x: nat | pos <= x < |d| ensures Covered(list, x) {
        }
        assert Tail(rest) == [];
      } else {
        WholeMeans(rest, d, End(k));
        forall x: nat | pos <= x < End(k) ensures Covered(list, x) {
        }
        if forall x: nat | pos <= x < |d| :: Covered(list, x) {
          forall x: nat | End(k) <= x < |d| ensures Covered(rest, x) {
            assert Covered(list, x);
          }
        }
      }
    }
  }

  lemma MoreAfter(list: seq<Entry>, d: Bytes)
    requires ListOf(list, d)
    ensures |list| >= 2 ==> End(list[0]) < |d|
  {
    if |list| >= 2 {
      assert list[1] in list;
      assert End(list[0]) <= list[1].foff;
    }
  }

  lemma CoverCons(k: Entry, rest: seq<Entry>, x: nat)
    ensures Covered([k] + rest, x) <==> k.foff <= x < End(k) || Covered(rest, x)
  {
    if Covered([k] + rest, x) {
      var j :| j in [k] + rest && j.foff <= x < End(j);
      assert j == k || j in rest;
    }
    if k.foff <= x < End(k) {
      assert k in [k] + rest;
    }
    if Covered(rest, x) {
      var j :| j in rest && j.foff <= x < End(j);
      assert j in [k] + rest;
    }
  }

  /** The whole datagram comes out exactly when the first fragment was never shortened: its header's
      length is what is used. */
  lemma JoinedWhole(list: seq<Entry>, d: Bytes)
    requires ListOf(list, d) && d != [] && Whole(list, 0)
    ensures IP4HDR <= list[0].length <= |list[0].data| + IP4HDR
    ensures Joined(list) == d <==> list[0].flen + IP4HDR == list[0].length
  {
    ListTail(list);
    WholeMeans(list, d, 0);
    var k := list[0];
    assert k.foff == 0 == k.off;
    assert Tail(list) == k.data[..k.flen] + Tail(list[1..]);
    assert |Joined(list)| == k.length - IP4HDR + |d| - k.flen;
    if k.flen + IP4HDR == k.length {
      assert Joined(list) == Tail(list);
    }
  }

  // ---------- what linking does to each entry ----------

  /** k is what is left of j. */
  predicate Shortened(k: Entry, j: Entry) {
    && k.off == j.off && k.length == j.length && k.mf == j.mf
    && j.foff <= k.foff && End(k) <= End(j) && k.foff - j.foff <= |j.data| && k.data == j.data[k.foff - j.foff..]
  }

  lemma {:induction false} UncoverFrom(rest: seq<Entry>, fend: nat, k: Entry)
    requires ListOk(rest) && k in Uncover(rest, fend)
    ensures exists j | j in rest :: Shortened(k, j) && End(k) == End(j)
  {
    if rest == [] || fend <= rest[0].foff {
      assert Shortened(k, k);
    } else {
      ListTail(rest);
      var ovlap := fend - rest[0].foff;
      if ovlap < rest[0].flen {
        if k == CutHead(rest[0], ovlap) {
          assert Shortened(k, rest[0]);
        } else {
          assert k in rest[1..] && Shortened(k, k);
        }
      } else {
        UncoverFrom(rest[1..], fend, k);
      }
    }
  }

  /** An entry loses its tail only to a fragment that starts inside it and ends beyond it. */
  predicate TailLost(j: Entry, e: Entry) {
    j.foff < e.foff < End(j) < End(e)
  }

  lemma {:induction false} LinkFrom(list: seq<Entry>, e: Entry, k: Entry)
    requires ListOk(list) && EntryOk(e) && Link(list, e).Kept? && k in Link(list, e).list && k != e
    ensures exists j | j in list :: Shortened(k, j) && (End(k) == End(j) || TailLost(j, e))
  {
    if list == [] || e.foff <= list[0].foff {
      assert k in Uncover(list, End(e));
      UncoverFrom(list, End(e), k);
    } else {
      ListTail(list);
      var p, rest := list[0], list[1..];
      assert p in list && Shortened(p, p);
      if rest != [] && e.foff > rest[0].foff {
        if k != p {
          assert k in Link(rest, e).list;
          LinkFrom(rest, e, k);
        }
      } else if k in Uncover(rest, End(e)) {
        UncoverFrom(rest, End(e), k);
      } else {
        assert k == if End(p) <= e.foff then p else CutTail(p, End(p) - e.foff);
        assert Shortened(k, p);
      }
    }
  }

  lemma LinkParts(list: seq<Entry>, p: Piece, d: Bytes)
    requires ListOf(list, d) && FragOf(p, d) && Link(list, Arrived(p)).Kept?
    ensures ListOf(Link(list, Arrived(p)).list, d)
  {
    var e := Arrived(p);
    LinkKeeps(list, e);
    forall k | k in Link(list, e).list ensures PartOf(k, d) {
      if k != e {
        LinkFrom(list, e, k);
        var j :| j in list && Shortened(k, j) && (End(k) == End(j) || TailLost(j, e));
        ShortPart(k, j, e, d);
      }
    }
  }

  lemma ShortPart(k: Entry, j: Entry, e: Entry, d: Bytes)
    requires EntryOk(k) && PartOf(j, d) && Shortened(k, j) && (End(k) == End(j) || TailLost(j, e)) && End(e) <= |d|
    ensures PartOf(k, d)
  {
  }

  // ---------- nested families of fragments ----------

  /** The fragments are apart, or one is inside the other. */
  predicate Nested(p: Piece, q: Piece) {
    || p.off + |p.data| <= q.off || q.off + |q.data| <= p.off
    || (p.off <= q.off && q.off + |q.data| <= p.off + |p.data|)
    || (q.off <= p.off && p.off + |p.data| <= q.off + |q.data|)
  }

  /** k arrived as p. */
  predicate CameAs(k: Entry, p: Piece) {
    k.off == p.off && k.length == |p.data| + IP4HDR
  }

  ghost predicate AllCame(list: seq<Entry>, ps: seq<Piece>) {
    forall k | k in list :: exists p | p in ps :: CameAs(k, p)
  }

  lemma LinkCame(list: seq<Entry>, p: Piece, ps: seq<Piece>)
    requires ListOk(list) && AllCame(list, ps) && p.data != []
    ensures Link(list, Arrived(p)).Kept? ==> AllCame(Link(list, Arrived(p)).list, ps + [p])
    ensures AllCame(list, ps + [p])
  {
    var e := Arrived(p);
    assert forall q | q in ps :: q in ps + [p];
    if Link(list, e).Kept? {
      forall k | k in Link(list, e).list ensures exists q | q in ps + [p] :: CameAs(k, q) {
        if k == e {
          assert p in ps + [p] && CameAs(k, p);
        } else {
          LinkFrom(list, e, k);
          var j :| j in list && Shortened(k, j) && (End(k) == End(j) || TailLost(j, e));
          var q :| q in ps && CameAs(j, q);
          assert CameAs(k, q);
        }
      }
    }
  }

  // ---------- feeding fragments ----------

  datatype Option<T> = None | Some(value: T)

  datatype Fed = Fed(list: seq<Entry>, out: Option<Bytes>)

  lemma FirstLength(l: seq<Entry>)
    requires ListOk(l)
    ensures Whole(l, 0) ==> l != [] && IP4HDR <= l[0].length <= |l[0].data| + IP4HDR
  {
    if l != [] {
      assert l[0] in l;
    }
  }

  /** `ip4reassemble` for a fragment of a known datagram: the first only starts the list. */
  function Feed(list: seq<Entry>, p: Piece): (r: Fed)
    requires ListOk(list) && p.data != []
    ensures ListOk(r.list)
  {
    var e := Arrived(p);
    if list == [] then Fed([e], None)
    else
      LinkKeeps(list, e);
      match Link(list, e)
      case Dropped => Fed(list, None)
      case Kept(l) =>
        FirstLength(l);
        if Whole(l, 0) then Fed([], Some(Joined(l))) else Fed(l, None)
  }

  /** The list after a sequence of fragments. */
  function Collect(ps: seq<Piece>): (list: seq<Entry>)
    requires forall p | p in ps :: p.data != []
    ensures ListOk(list)
  {
    if ps == [] then [] else Feed(Collect(ps[..|ps| - 1]), ps[|ps| - 1]).list
  }

  /** Whatever arrives, every byte still held is at the offset it arrived for. */
  lemma {:induction false} RetainedInPlace(ps: seq<Piece>, x: nat, b: bv8)
    requires forall p | p in ps :: p.data != []
    ensures ListOk(Collect(ps))
    ensures Holds(Collect(ps), x, b) ==> exists p | p in ps :: p.off <= x < p.off + |p.data| && p.data[x - p.off] == b
  {
    if ps != [] {
      var init, p := ps[..|ps| - 1], ps[|ps| - 1];
      RetainedInPlace(init, x, b);
      LinkKeeps(Collect(init), Arrived(p));
      HoldsCons(Arrived(p), [], x, b);
      assert [Arrived(p)] + [] == [Arrived(p)];
      assert forall q | q in init :: q in ps;
      assert p in ps;
    }
  }

  predicate Reaches(p: Piece, x: nat) {
    p.off <= x < p.off + |p.data|
  }

  predicate ReachedAt(ps: seq<Piece>, x: nat) {
    exists p | p in ps :: Reaches(p, x)
  }

  /** Every byte of d has arrived. */
  ghost predicate AllReached(ps: seq<Piece>, d: Bytes) {
    forall x: nat | x < |d| :: ReachedAt(ps, x)
  }

  ghost predicate FragsOf(ps: seq<Piece>, d: Bytes) {
    forall p | p in ps :: FragOf(p, d)
  }

  /** What the list holds after incomplete arrivals. */
  ghost predicate Holding(ps: seq<Piece>, d: Bytes) {
    && FragsOf(ps, d) && ListOf(Collect(ps), d) && AllCame(Collect(ps), ps)
    && (ps != [] ==> Collect(ps) != [])
    && (forall x: nat :: Covered(Collect(ps), x) <==> ReachedAt(ps, x))
  }

  lemma ReachedMore(ps: seq<Piece>, p: Piece, x: nat)
    ensures ReachedAt(ps + [p], x) <==> ReachedAt(ps, x) || Reaches(p, x)
  {
    assert forall q | q in ps :: q in ps + [p];
    assert p in ps + [p];
  }

  lemma LinkCovers(list: seq<Entry>, e: Entry, x: nat)
    requires ListOk(list) && EntryOk(e)
    ensures match Link(list, e)
      case Dropped => e.foff <= x < End(e) ==> Covered(list, x)
      case Kept(l) => ListOk(l) && l != [] && (Covered(l, x) <==> Covered(list, x) || e.foff <= x < End(e))
  {
    LinkKeeps(list, e);
    CoveredHolds(list, x);
    if Link(list, e).Kept? {
      var l := Link(list, e).list;
      CoveredHolds(l, x);
      if e.foff <= x < End(e) {
        assert Holds1(e, x, e.data[x - e.foff]);
        assert Holds(l, x, e.data[x - e.foff]);
      }
    }
  }

  lemma CollectMore(ps: seq<Piece>, p: Piece)
    requires p.data != [] && forall q | q in ps :: q.data != []
    ensures (forall q | q in ps + [p] :: q.data != []) && Collect(ps + [p]) == Feed(Collect(ps), p).list
  {
    var all := ps + [p];
    assert all[..|all| - 1] == ps && all[|all| - 1] == p;
  }

  lemma FeedDropped(ps: seq<Piece>, p: Piece, d: Bytes)
    requires Holding(ps, d) && FragOf(p, d) && ps != [] && Link(Collect(ps), Arrived(p)).Dropped?
    ensures Holding(ps + [p], d) && (AllReached(ps + [p], d) ==> AllReached(ps, d))
  {
    CollectMore(ps, p);
    LinkCame(Collect(ps), p, ps);
    forall x: nat ensures Reaches(p, x) ==> Covered(Collect(ps), x) {
      LinkCovers(Collect(ps), Arrived(p), x);
    }
    forall x: nat ensures ReachedAt(ps + [p], x) <==> ReachedAt(ps, x) || Reaches(p, x) {
      ReachedMore(ps, p, x);
    }
  }

  lemma FeedKept(ps: seq<Piece>, p: Piece, d: Bytes)
    requires Holding(ps, d) && FragOf(p, d) && ps != [] && d != [] && Link(Collect(ps), Arrived(p)).Kept?
    ensures var l := Link(Collect(ps), Arrived(p)).list;
      ListOf(l, d) && (Whole(l, 0) <==> AllReached(ps + [p], d)) && (!Whole(l, 0) ==> Holding(ps + [p], d))
  {
    var list, l := Collect(ps), Link(Collect(ps), Arrived(p)).list;
    CollectMore(ps, p);
    LinkCame(list, p, ps);
    LinkParts(list, p, d);
    forall x: nat ensures Covered(l, x) <==> ReachedAt(ps + [p], x) {
      LinkCovers(list, Arrived(p), x);
      ReachedMore(ps, p, x);
    }
    LinkCovers(list, Arrived(p), 0);
    WholeMeans(l, d, 0);
  }

  /** Feeding one more fragment completes the datagram exactly when no byte is missing any more. */
  lemma FeedOne(ps: seq<Piece>, p: Piece, d: Bytes)
    requires Holding(ps, d) && FragOf(p, d) && d != [] && !AllReached(ps, d)
    ensures Feed(Collect(ps), p).out.Some? <==> AllReached(ps + [p], d)
    ensures Feed(Collect(ps), p).out.None? ==> Holding(ps + [p], d)
    ensures AllReached(ps + [p], d) ==> ps != [] && Link(Collect(ps), Arrived(p)).Kept?
  {
    if ps == [] {
      StartOne(p, d);
      assert ps + [p] == [p];
      assert !Reaches(p, if p.off == 0 then |d| - 1 else 0);
      assert !ReachedAt([p], if p.off == 0 then |d| - 1 else 0);
    } else if Link(Collect(ps), Arrived(p)).Dropped? {
      FeedDropped(ps, p, d);
    } else {
      FeedKept(ps, p, d);
    }
  }

  lemma StartOne(p: Piece, d: Bytes)
    requires FragOf(p, d)
    ensures Holding([p], d)
  {
    assert [p][..0] == [];
    assert Collect([p]) == [Arrived(p)];
    assert p in [p] && CameAs(Arrived(p), p);
    forall x: nat ensures Covered([Arrived(p)], x) <==> ReachedAt([p], x) {
      CoverCons(Arrived(p), [], x);
      assert [Arrived(p)] + [] == [Arrived(p)];
    }
  }

  lemma {:induction false} StillHolding(ps: seq<Piece>, d: Bytes)
    requires FragsOf(ps, d) && d != [] && !AllReached(ps, d)
    ensures Holding(ps, d)
  {
    if ps != [] {
      var init, p := ps[..|ps| - 1], ps[|ps| - 1];
      assert ps == init + [p];
      assert p in ps && forall q | q in init :: q in ps;
      forall x: nat ensures ReachedAt(init, x) ==> ReachedAt(ps, x) {
        ReachedMore(init, p, x);
      }
      StillHolding(init, d);
      FeedOne(init, p, d);
    }
  }

  /** Fragments of a datagram, in any order, with any duplicates and overlaps: nothing comes out as
      long as some byte is missing. */
  lemma NothingEarly(ps: seq<Piece>, p: Piece, d: Bytes)
    requires FragsOf(ps + [p], d) && d != [] && !AllReached(ps + [p], d)
    ensures (forall q | q in ps + [p] :: q.data != []) && Feed(Collect(ps), p).out == None
  {
    assert p in ps + [p] && forall q | q in ps :: q in ps + [p];
    forall x: nat ensures ReachedAt(ps, x) ==> ReachedAt(ps + [p], x) {
      ReachedMore(ps, p, x);
    }
    StillHolding(ps, d);
    FeedOne(ps, p, d);
  }

  // ---------- when the packet is the datagram ----------

  /** q starts inside p and ends beyond it. */
  predicate Crosses(q: Piece, p: Piece) {
    p.off < q.off < p.off + |p.data| < q.off + |q.data|
  }

  /** The last fragment that starts the datagram; -1 when none has come. */
  function LastFirst(ps: seq<Piece>): (i: int)
    ensures -1 <= i < |ps| && (i >= 0 ==> ps[i].off == 0) && forall j | i < j < |ps| :: ps[j].off != 0
  {
    if ps == [] then -1
    else if ps[|ps| - 1].off == 0 then |ps| - 1
    else LastFirst(ps[..|ps| - 1])
  }

  /** A later fragment crosses its end. */
  predicate FirstCrossed(ps: seq<Piece>) {
    var i := LastFirst(ps);
    i >= 0 && exists j | i < j < |ps| :: Crosses(ps[j], ps[i])
  }

  lemma FirstMore(ps: seq<Piece>, p: Piece)
    ensures p.off == 0 ==> LastFirst(ps + [p]) == |ps| && !FirstCrossed(ps + [p])
    ensures p.off != 0 ==> LastFirst(ps + [p]) == LastFirst(ps)
    ensures p.off != 0 && LastFirst(ps) >= 0 ==>
      (FirstCrossed(ps + [p]) <==> FirstCrossed(ps) || Crosses(p, ps[LastFirst(ps)]))
  {
    var all := ps + [p];
    assert all[..|all| - 1] == ps && all[|ps|] == p;
    forall j | 0 <= j < |ps| ensures all[j] == ps[j] {
    }
  }

  /** The head of the list is that fragment, shortened exactly when one that came later crosses it. */
  ghost predicate HeadIs(list: seq<Entry>, ps: seq<Piece>) {
    var i := LastFirst(ps);
    i >= 0 ==>
      && list != [] && list[0].foff == 0 && list[0].length == |ps[i].data| + IP4HDR && list[0].flen <= |ps[i].data|
      && (list[0].flen == |ps[i].data| <==> !FirstCrossed(ps))
  }

  /** What linking does to the head when something is linked in behind it. */
  lemma {:induction false} LinkHead(list: seq<Entry>, e: Entry)
    requires ListOk(list) && EntryOk(e) && list != [] && list[0].foff < e.foff
    ensures var cut := e.foff < End(list[0]) < End(e);
      match Link(list, e)
      case Dropped => !cut
      case Kept(l) => l != [] && l[0] == if cut then CutTail(list[0], End(list[0]) - e.foff) else list[0]
  {
    assert list[0] in list;
    if |list| > 1 {
      assert list[1] in list && End(list[0]) <= list[1].foff;
    }
  }

  lemma HeadStep(list: seq<Entry>, p: Piece, ps: seq<Piece>)
    requires ListOk(list) && list != [] && HeadIs(list, ps) && p.data != []
    ensures HeadIs(match Link(list, Arrived(p)) case Dropped => list case Kept(l) => l, ps + [p])
  {
    FirstMore(ps, p);
    assert list[0] in list && forall k | k in list :: k.flen <= |k.data|;
    if p.off != 0 && LastFirst(ps) >= 0 {
      LinkHead(list, Arrived(p));
      assert (ps + [p])[LastFirst(ps)] == ps[LastFirst(ps)];
    }
  }

  lemma {:induction false} HeadKept(ps: seq<Piece>, d: Bytes)
    requires FragsOf(ps, d) && d != [] && !AllReached(ps, d)
    ensures Holding(ps, d) && HeadIs(Collect(ps), ps)
  {
    StillHolding(ps, d);
    if ps != [] {
      var init, p := ps[..|ps| - 1], ps[|ps| - 1];
      assert ps == init + [p];
      assert p in ps && forall q | q in init :: q in ps;
      forall x: nat ensures ReachedAt(init, x) ==> ReachedAt(ps, x) {
        ReachedMore(init, p, x);
      }
      HeadKept(init, d);
      FeedOne(init, p, d);
      if init == [] {
        FirstMore([], p);
        assert [] + [p] == [p];
      } else {
        HeadStep(Collect(init), p, init);
      }
    }
  }

  /** When the last missing byte of d comes, with fragments overlapping in any way and order, a packet
      comes out; it is d exactly when nothing that came after the last of the first fragments crosses
      that fragment's end. */
  lemma CompletesWhole(ps: seq<Piece>, p: Piece, d: Bytes)
    requires FragsOf(ps + [p], d) && d != [] && !AllReached(ps, d) && AllReached(ps + [p], d)
    ensures (forall q | q in ps + [p] :: q.data != []) && LastFirst(ps + [p]) >= 0
    ensures Feed(Collect(ps), p).out.Some?
    ensures Feed(Collect(ps), p).out == Some(d) <==> !FirstCrossed(ps + [p])
  {
    assert p in ps + [p] && forall q | q in ps :: q in ps + [p];
    HeadKept(ps, d);
    FeedOne(ps, p, d);
    FeedKept(ps, p, d);
    HeadStep(Collect(ps), p, ps);
    JoinedWhole(Link(Collect(ps), Arrived(p)).list, d);
    assert ReachedAt(ps + [p], 0);
  }

  ghost predicate AllNested(ps: seq<Piece>) {
    forall p, q | p in ps && q in ps :: Nested(p, q)
  }

  /** Nested fragments, in any order and with any duplicates, give back exactly the datagram. */
  lemma NestedWhole(ps: seq<Piece>, p: Piece, d: Bytes)
    requires FragsOf(ps + [p], d) && d != [] && !AllReached(ps, d) && AllReached(ps + [p], d) && AllNested(ps + [p])
    ensures (forall q | q in ps + [p] :: q.data != []) && Feed(Collect(ps), p).out == Some(d)
  {
    CompletesWhole(ps, p, d);
    var all := ps + [p];
    forall i, j | 0 <= i < |all| && 0 <= j < |all| ensures !Crosses(all[j], all[i]) {
      assert Nested(all[i], all[j]);
    }
  }
}
