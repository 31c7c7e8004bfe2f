/** Reassembly as the kernel does it: lists searched, trimmed and relinked in place. */
module IpInput {
  import opened IpFrag
  import opened IpCut
  import opened IpReassemble

  ghost predicate Usable(list: seq<Entry>) {
    forall k | k in list :: k.flen <= |k.data|
  }

  /** Where the search for a place stops. */
  ghost predicate PlaceOf(list: seq<Entry>, e: Entry, i: nat) {
    i <= |list| && (forall j | 0 <= j < i :: list[j].foff < e.foff) && (i < |list| ==> e.foff <= list[i].foff)
  }

  /** What linking at a place comes to. */
  function LinkedAt(list: seq<Entry>, e: Entry, i: nat): Linked
    requires i <= |list| && Usable(list) && (i > 0 ==> list[i - 1].foff < e.foff)
  {
    var rest := [e] + Uncover(list[i..], End(e));
    if i == 0 then Kept(rest)
    else
      var p := list[i - 1];
      if End(p) <= e.foff then Kept(list[..i] + rest)
      else if End(p) - e.foff >= e.flen then Dropped
      else Kept(list[..i - 1] + [CutTail(p, End(p) - e.foff)] + rest)
  }

  lemma Slices(list: seq<Entry>, i: nat)
    requires 2 <= i <= |list|
    ensures list[1..][i - 1..] == list[i..] && list[1..][i - 2] == list[i - 1]
    ensures list[1..][..i - 1] == list[1..i] && list[1..][..i - 2] == list[1..i - 1]
    ensures [list[0]] + list[1..i] == list[..i] && [list[0]] + list[1..i - 1] == list[..i - 1]
  {
  }

  lemma {:induction false} LinkAtPlace(list: seq<Entry>, e: Entry, i: nat)
    requires Usable(list) && PlaceOf(list, e, i)
    ensures Link(list, e) == LinkedAt(list, e, i)
  {
    if i == 0 {
      assert list[0..] == list;
    } else if i == 1 {
      assert list[..1] == [list[0]] && list[..0] == [];
    } else {
      LinkAtPlace(list[1..], e, i - 1);
      Slices(list, i);
      LinkedFurther(list, e, i);
    }
  }

  lemma LinkedFurther(list: seq<Entry>, e: Entry, i: nat)
    requires 2 <= i <= |list| && Usable(list) && Usable(list[1..]) && list[i - 1].foff < e.foff
    requires list[1..][..i - 1] == list[1..i] && list[1..][i - 1..] == list[i..]
    requires list[1..][i - 2] == list[i - 1] && list[1..][..i - 2] == list[1..i - 1]
    ensures LinkedAt(list, e, i) == match LinkedAt(list[1..], e, i - 1) case Dropped => Dropped case Kept(r) => Kept([list[0]] + r)
  {
    var p, u := list[i - 1], [e] + Uncover(list[i..], End(e));
    assert [list[0]] + (list[1..i] + u) == list[..i] + u;
    if End(p) > e.foff && End(p) - e.foff < e.flen {
      var t := [CutTail(p, End(p) - e.foff)];
      assert [list[0]] + (list[1..i - 1] + t + u) == list[..i - 1] + t + u;
    }
  }

  /** Taking out what the new fragment covers. */
  method UncoverIn(list: seq<Entry>, fend: nat) returns (rest: seq<Entry>)
    requires Usable(list)
    ensures rest == Uncover(list, fend)
  {
    rest := list;
    while rest != []
      invariant Usable(rest) && Uncover(rest, fend) == Uncover(list, fend)
      decreases |rest|
    {
      var ovlap: int := fend - rest[0].foff;
      if ovlap <= 0 {
        break;
      }
      if ovlap < rest[0].flen {
        rest := [CutHead(rest[0], ovlap)] + rest[1..];
        break;
      }
      rest := rest[1..];
    }
  }

  /** At its place, trimming what is before and after. */
  method LinkHere(list: seq<Entry>, e: Entry, l: nat) returns (r: Linked)
    requires l <= |list| && Usable(list) && (l > 0 ==> list[l - 1].foff < e.foff)
    ensures r == LinkedAt(list, e, l)
  {
    var front := list[..l];
    if l > 0 {
      var prev := list[l - 1];
      var ovlap: int := prev.foff + prev.flen - e.foff;
      if ovlap > 0 {
        if ovlap >= e.flen {
          return Dropped;
        }
        front := list[..l - 1] + [prev.(flen := prev.flen - ovlap)];
      }
    }
    var rest := UncoverIn(list[l..], e.foff + e.flen);
    r := Kept(front + ([e] + rest));
  }

  /** Finding the place of a fragment, trimming the one before it, and linking it in. */
  method LinkIn(list: seq<Entry>, e: Entry) returns (r: Linked)
    requires Usable(list)
    ensures r == Link(list, e)
  {
    var l := 0;
    while l < |list| && e.foff > list[l].foff
      invariant l <= |list| && forall j | 0 <= j < l :: list[j].foff < e.foff
    {
      l := l + 1;
    }
    LinkAtPlace(list, e, l);
    r := LinkHere(list, e, l);
  }

  /** The search for a complete packet. */
  method FindWhole(list: seq<Entry>) returns (whole: bool)
    ensures whole == Whole(list, 0)
  {
    var pktposn, bl := 0, list;
    while bl != []
      invariant 0 <= pktposn && Whole(bl, pktposn) == Whole(list, 0)
      decreases |bl|
    {
      if bl[0].foff != pktposn {
        return false;
      }
      if !bl[0].mf {
        return true;
      }
      pktposn := pktposn + bl[0].flen;
      bl := bl[1..];
    }
    whole := false;
  }

  /** Pulling up the fragments: the first by its header's length, the others by what is left of
      them.  The header's new length is the length of it all. */
  method JoinAll(list: seq<Entry>) returns (packet: Bytes, len: nat)
    requires list != [] && Usable(list) && IP4HDR <= list[0].length <= |list[0].data| + IP4HDR
    ensures packet == Joined(list) && len == |packet| + IP4HDR
  {
    len := list[0].length;
    packet := list[0].data[..len - IP4HDR];
    var bl := list[1..];
    while bl != []
      invariant Usable(bl) && packet + Tail(bl) == Joined(list) && len == |packet| + IP4HDR
      decreases |bl|
    {
      var fragsize := bl[0].flen;
      len := len + fragsize;
      packet := packet + bl[0].data[..fragsize];
      bl := bl[1..];
    }
  }

  // ---------- the pool ----------

  lemma {:induction false} At(fl: seq<Queue>, key: Key, i: nat)
    requires i < |fl| && fl[i].key == key && forall j | 0 <= j < i :: fl[j].key != key
    ensures InUse(fl, key) && ListFor(fl, key) == fl[i].blist && Drop(fl, key) == fl[..i] + fl[i + 1..]
    ensures forall b :: SetList(fl, key, b) == fl[i := fl[i].(blist := b)]
  {
    assert fl[i] in fl;
    if i > 0 {
      At(fl[1..], key, i - 1);
      WithFront(fl, i);
      forall b ensures SetList(fl, key, b) == fl[i := fl[i].(blist := b)] {
        SetBehind(fl, i, fl[i].(blist := b));
      }
    }
  }

  lemma WithFront(fl: seq<Queue>, i: nat)
    requires 0 < i < |fl|
    ensures [fl[0]] + (fl[1..][..i - 1] + fl[1..][i..]) == fl[..i] + fl[i + 1..]
  {
  }

  lemma SetBehind(fl: seq<Queue>, i: nat, q: Queue)
    requires 0 < i < |fl|
    ensures [fl[0]] + fl[1..][i - 1 := q] == fl[i := q]
  {
  }

  /** One turn of the search for a queue. */
  lemma ScanTurn(fl: seq<Queue>, i: nat, key: Key, now: nat)
    requires i < |fl| && fl[i].key != key
    ensures var gone := fl[..i] + fl[i + 1..]; gone[..i] == fl[..i] && gone[i..] == fl[i + 1..]
    ensures fl[..i] + Scan(fl[i..], key, now) ==
      if fl[i].age < now then fl[..i] + Scan(fl[i + 1..], key, now) else fl[..i + 1] + Scan(fl[i + 1..], key, now)
  {
    assert fl[i..][1..] == fl[i + 1..] && fl[..i + 1] == fl[..i] + [fl[i]];
  }

  class Reassembler {
    var flist: seq<Queue>
    var free: nat

    ghost function View(): Pool
      reads this
    {
      Pool(flist, free)
    }

    /** `initfrag`. */
    constructor (size: nat)
      ensures View() == Pool([], size) && PoolOk(View(), size)
    {
      flist, free := [], size;
    }

    method IpFragFree4(i: nat)
      requires i < |flist|
      modifies this
      ensures flist == old(flist[..i] + flist[i + 1..]) && free == old(free) + 1
    {
      flist := flist[..i] + flist[i + 1..];
      free := free + 1;
    }

    /** The new queue goes to the front; the last goes when there is no room. */
    method IpFragAllo4(q: Queue)
      requires |flist| + free > 0
      modifies this
      ensures flist == [q] + Room(old(flist), old(free)) && free == if old(free) == 0 then 0 else old(free) - 1
    {
      while free == 0
        invariant (flist == old(flist) && free == old(free)) || (old(free) == 0 && flist == Room(old(flist), 0) && free == 1)
        invariant |flist| + free > 0
        decreases free == 0
      {
        IpFragFree4(|flist| - 1);
      }
      free := free - 1;
      flist := [q] + flist;
    }

    method FindQueue(key: Key, now: nat) returns (i: nat)
      modifies this
      ensures flist == Scan(old(flist), key, now) && free + |flist| == old(free + |flist|)
      ensures i <= |flist| && (forall j | 0 <= j < i :: flist[j].key != key) && (i < |flist| ==> flist[i].key == key)
    {
      i := 0;
      while i < |flist|
        invariant i <= |flist| && free + |flist| == old(free + |flist|) && forall j | 0 <= j < i :: flist[j].key != key
        invariant flist[..i] + Scan(flist[i..], key, now) == Scan(old(flist), key, now)
        decreases |flist| - i
      {
        var f := flist[i];
        if f.key == key {
          break;
        }
        ScanTurn(flist, i, key, now);
        if f.age < now {
          IpFragFree4(i);
        } else {
          i := i + 1;
        }
      }
      assert flist[..i] + flist[i..] == flist;
    }

    /** `ip4reassemble`. */
    method Ip4Reassemble(a: Arrival, ghost size: nat) returns (packet: Option<Bytes>)
      requires PoolOk(View(), size) && size > 0 && a.w.data != []
      modifies this
      ensures (View(), packet) == Reassemble(old(View()), a) && PoolOk(View(), size)
    {
      PoolKeeps(View(), size, a);
      ScanKeeps(flist, a.key, a.now);
      var i := FindQueue(a.key, a.now);
      ListForOk(flist, a.key);
      if Unfragmented(a.w.frag) {
        if i < |flist| {
          At(flist, a.key, i);
          IpFragFree4(i);
        }
        return Some(a.w.data);
      }
      var e := Arrived(PieceOf(a.w));
      if i == |flist| {
        IpFragAllo4(Queue(a.key, a.now + LIFETIME, [e]));
        return None;
      }
      At(flist, a.key, i);
      ghost var fl := flist;
      assert fl[i := fl[i].(blist := fl[i].blist)] == fl;
      assert fl[i] in fl;
      packet := Extend(i, e);
    }

    /** The end of `ipiput4`: only a packet with something in its fragment field is looked up. */
    method IpIput4(a: Arrival, ghost size: nat) returns (packet: Option<Bytes>)
      requires PoolOk(View(), size) && size > 0 && (a.w.frag == 0 || a.w.data != [])
      modifies this
      ensures (View(), packet) == Deliver(old(View()), a) && PoolOk(View(), size)
    {
      packet := Some(a.w.data);
      if a.w.frag != 0 {
        packet := Ip4Reassemble(a, size);
      }
    }

    /** A further fragment of a datagram in progress. */
    method Extend(i: nat, e: Entry) returns (packet: Option<Bytes>)
      requires i < |flist| && flist[i].blist != [] && ListOk(flist[i].blist) && EntryOk(e)
      modifies this
      ensures match Link(old(flist[i].blist), e)
        case Dropped => packet == None && View() == old(View())
        case Kept(l) =>
          if Whole(l, 0) then ListOk(l) && l != [] && l[0].length >= IP4HDR && packet.Some? &&
            l[0].length <= |l[0].data| + IP4HDR && packet.value == Joined(l) &&
            flist == old(flist[..i] + flist[i + 1..]) && free == old(free) + 1
          else packet == None && flist == old(flist)[i := old(flist)[i].(blist := l)] && free == old(free)
    {
      var f := flist[i];
      LinkKeeps(f.blist, e);
      var r := LinkIn(f.blist, e);
      match r {
        case Dropped => return None;
        case Kept(l) =>
          flist := flist[i := f.(blist := l)];
          var whole := FindWhole(l);
          if !whole {
            return None;
          }
          FirstLength(l);
          var data, len := JoinAll(l);
          IpFragFree4(i);
          return Some(data);
      }
    }
  }
}
