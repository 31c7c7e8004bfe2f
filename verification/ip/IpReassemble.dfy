/** `ip4reassemble` with its queues: one for each datagram in progress, a fixed number in all. */
module IpReassemble {
  import opened IpFrag
  import opened IpCut

  /** Fragments of one datagram share source, destination and id. */
  datatype Key = Key(src: nat, dst: nat, id: nat)

  datatype Queue = Queue(key: Key, age: nat, blist: seq<Entry>)

  /** The queues in use, newest first, and how many are free. */
  datatype Pool = Pool(flist: seq<Queue>, free: nat)

  const LIFETIME: nat := 30000

  // ---------- on values ----------

  /** The search for a queue, which frees the stale ones it passes. */
  function Scan(fl: seq<Queue>, key: Key, now: nat): seq<Queue> {
    if fl == [] || fl[0].key == key then fl
    else if fl[0].age < now then Scan(fl[1..], key, now)
    else [fl[0]] + Scan(fl[1..], key, now)
  }

  predicate InUse(fl: seq<Queue>, key: Key) {
    exists q | q in fl :: q.key == key
  }

  function Drop(fl: seq<Queue>, key: Key): seq<Queue> {
    if fl == [] then []
    else if fl[0].key == key then fl[1..]
    else [fl[0]] + Drop(fl[1..], key)
  }

  function SetList(fl: seq<Queue>, key: Key, blist: seq<Entry>): seq<Queue> {
    if fl == [] then []
    else if fl[0].key == key then [fl[0].(blist := blist)] + fl[1..]
    else [fl[0]] + SetList(fl[1..], key, blist)
  }

  /** The fragments held for a datagram. */
  function ListFor(fl: seq<Queue>, key: Key): seq<Entry> {
    if fl == [] then [] else if fl[0].key == key then fl[0].blist else ListFor(fl[1..], key)
  }

  /** Room for one more queue: the oldest goes when none is free. */
  function Room(fl: seq<Queue>, free: nat): seq<Queue> {
    if free == 0 && fl != [] then fl[..|fl| - 1] else fl
  }

  /** Neither an offset nor more fragments (nor the reserved bit): not a fragment. */
  predicate Unfragmented(frag: nat) {
    frag % 0x4000 == 0 && frag / 0x8000 % 2 == 0
  }

  /** The four parts of the field: whether fragmenting is forbidden does not matter. */
  lemma FieldParts(reserved: nat, dont: nat, more: nat, off: nat)
    requires reserved < 2 && dont < 2 && more < 2 && off < 0x2000
    ensures Unfragmented(reserved * 0x8000 + dont * 0x4000 + more * 0x2000 + off) <==> reserved == 0 && more == 0 && off == 0
  {
    var low := more * 0x2000 + off;
    assert (reserved * 0x8000 + dont * 0x4000 + low) % 0x4000 == low;
    assert (reserved * 0x8000 + dont * 0x4000 + low) / 0x8000 == reserved;
  }

  ghost predicate DistinctKeys(fl: seq<Queue>) {
    forall i, j | 0 <= i < j < |fl| :: fl[i].key != fl[j].key
  }

  lemma KeyInFront(q: Queue, r: seq<Queue>)
    requires DistinctKeys(r) && forall p | p in r :: p.key != q.key
    ensures DistinctKeys([q] + r)
  {
    var fl := [q] + r;
    forall i, j | 0 <= i < j < |fl| ensures fl[i].key != fl[j].key {
      assert fl[j] == r[j - 1];
    }
  }

  lemma KeysRest(fl: seq<Queue>)
    requires DistinctKeys(fl) && fl != []
    ensures DistinctKeys(fl[1..]) && forall p | p in fl[1..] :: p in fl && p.key != fl[0].key
  {
  }

  ghost predicate QueuesOk(fl: seq<Queue>) {
    DistinctKeys(fl) && forall q | q in fl :: q.blist != [] && ListOk(q.blist)
  }

  ghost predicate PoolOk(p: Pool, size: nat) {
    && |p.flist| + p.free == size
    && QueuesOk(p.flist)
  }

  lemma {:induction false} ListForOk(fl: seq<Queue>, key: Key)
    requires forall q | q in fl :: q.blist != [] && ListOk(q.blist)
    ensures ListOk(ListFor(fl, key)) && (ListFor(fl, key) != [] <==> InUse(fl, key))
  {
    if fl != [] {
      assert fl[0] in fl;
      ListForOk(fl[1..], key);
      assert forall q | q in fl[1..] :: q in fl;
      assert forall q | q in fl :: q == fl[0] || q in fl[1..];
    }
  }

  lemma {:induction false} ScanKeeps(fl: seq<Queue>, key: Key, now: nat)
    ensures |Scan(fl, key, now)| <= |fl| && (forall q | q in Scan(fl, key, now) :: q in fl)
    ensures DistinctKeys(fl) ==> DistinctKeys(Scan(fl, key, now))
    ensures ListFor(Scan(fl, key, now), key) == ListFor(fl, key)
  {
    if fl != [] && fl[0].key != key {
      ScanKeeps(fl[1..], key, now);
      assert forall q | q in fl[1..] :: q in fl;
      if fl[0].age >= now && DistinctKeys(fl) {
        KeysRest(fl);
        KeyInFront(fl[0], Scan(fl[1..], key, now));
      }
    }
  }

  /** The search for key passes a stale queue of k, and frees it. */
  predicate Passed(fl: seq<Queue>, key: Key, now: nat, k: Key) {
    fl != [] && fl[0].key != key && (if fl[0].key == k then fl[0].age < now else Passed(fl[1..], key, now, k))
  }

  lemma {:induction false} ScanOthers(fl: seq<Queue>, key: Key, now: nat, k: Key)
    requires DistinctKeys(fl) && k != key
    ensures ListFor(Scan(fl, key, now), k) == if Passed(fl, key, now, k) then [] else ListFor(fl, k)
  {
    if fl != [] && fl[0].key != key {
      ScanOthers(fl[1..], key, now, k);
      if fl[0].age < now && fl[0].key == k {
        NotThere(fl[1..], k);
        ScanKeeps(fl[1..], key, now);
        NotThere(Scan(fl[1..], key, now), k);
      }
    }
  }

  predicate Fresh(fl: seq<Queue>, now: nat) {
    fl == [] || (fl[0].age >= now && Fresh(fl[1..], now))
  }

  /** A search in vain frees all the stale ones. */
  lemma {:induction false} ScanFrees(fl: seq<Queue>, key: Key, now: nat)
    requires !InUse(fl, key)
    ensures if Fresh(fl, now) then Scan(fl, key, now) == fl else |Scan(fl, key, now)| < |fl|
  {
    if fl != [] {
      assert fl[0] in fl && forall q | q in fl[1..] :: q in fl;
      ScanFrees(fl[1..], key, now);
      ScanKeeps(fl[1..], key, now);
      assert fl == [fl[0]] + fl[1..];
    }
  }

  lemma {:induction false} NotThere(fl: seq<Queue>, k: Key)
    requires forall q | q in fl :: q.key != k
    ensures ListFor(fl, k) == []
  {
    if fl != [] {
      assert fl[0] in fl;
      NotThere(fl[1..], k);
    }
  }

  lemma {:induction false} DropKeeps(fl: seq<Queue>, key: Key, k: Key)
    requires DistinctKeys(fl) && InUse(fl, key)
    ensures |Drop(fl, key)| + 1 == |fl| && (forall q | q in Drop(fl, key) :: q in fl && q.key != key)
    ensures DistinctKeys(Drop(fl, key))
    ensures ListFor(Drop(fl, key), k) == if k == key then [] else ListFor(fl, k)
  {
    KeysRest(fl);
    if fl[0].key != key {
      assert forall q | q in fl :: q == fl[0] || q in fl[1..];
      DropKeeps(fl[1..], key, k);
      KeyInFront(fl[0], Drop(fl[1..], key));
    } else if k == key {
      NotThere(fl[1..], k);
    }
  }

  lemma {:induction false} SetKeeps(fl: seq<Queue>, key: Key, blist: seq<Entry>, k: Key)
    requires InUse(fl, key)
    ensures |SetList(fl, key, blist)| == |fl| && forall i | 0 <= i < |fl| :: SetList(fl, key, blist)[i].key == fl[i].key
    ensures ListFor(SetList(fl, key, blist), k) == if k == key then blist else ListFor(fl, k)
  {
    if fl[0].key != key {
      assert InUse(fl[1..], key) by {
        assert forall q | q in fl :: q == fl[0] || q in fl[1..];
      }
      SetKeeps(fl[1..], key, blist, k);
    }
  }

  lemma {:induction false} SetFrom(fl: seq<Queue>, key: Key, blist: seq<Entry>)
    ensures forall q | q in SetList(fl, key, blist) :: q in fl || q.blist == blist
  {
    if fl != [] && fl[0].key != key {
      SetFrom(fl[1..], key, blist);
      assert forall q | q in fl[1..] :: q in fl;
    }
  }

  lemma {:induction false} RoomKeeps(fl: seq<Queue>, k: Key)
    requires DistinctKeys(fl) && fl != []
    ensures ListFor(fl[..|fl| - 1], k) == if fl[|fl| - 1].key == k then [] else ListFor(fl, k)
  {
    if |fl| > 1 {
      RoomKeeps(fl[1..], k);
      assert fl[1..][..|fl[1..]| - 1] == fl[..|fl| - 1][1..];
    } else {
      assert fl[1..] == [];
    }
  }

  /** One fragment or packet arriving. */
  datatype Arrival = Arrival(key: Key, w: Wire, now: nat)

  /** `ip4reassemble`: the packet it returns, if any. */
  function Reassemble(p: Pool, a: Arrival): (Pool, Option<Bytes>)
    requires (forall q | q in p.flist :: q.blist != [] && ListOk(q.blist)) && a.w.data != []
  {
    ScanKeeps(p.flist, a.key, a.now);
    var fl := Scan(p.flist, a.key, a.now);
    var free := p.free + |p.flist| - |fl|;
    ListForOk(fl, a.key);
    if Unfragmented(a.w.frag) then
      (if InUse(fl, a.key) then Pool(Drop(fl, a.key), free + 1) else Pool(fl, free), Some(a.w.data))
    else if !InUse(fl, a.key) then
      var q := Queue(a.key, a.now + LIFETIME, [Arrived(PieceOf(a.w))]);
      (Pool([q] + Room(fl, free), if free == 0 then 0 else free - 1), None)
    else
      var r := Feed(ListFor(fl, a.key), PieceOf(a.w));
      if r.out.Some? then (Pool(Drop(fl, a.key), free + 1), r.out) else (Pool(SetList(fl, a.key, r.list), free), None)
  }

  /** What becomes of a datagram's list when a fragment of its own arrives. */
  function Next(list: seq<Entry>, a: Arrival): seq<Entry>
    requires ListOk(list) && a.w.data != []
  {
    if Unfragmented(a.w.frag) then [] else Feed(list, PieceOf(a.w)).list
  }

  lemma ScanOk(fl: seq<Queue>, key: Key, now: nat)
    requires QueuesOk(fl)
    ensures QueuesOk(Scan(fl, key, now)) && |Scan(fl, key, now)| <= |fl|
    ensures ListFor(Scan(fl, key, now), key) == ListFor(fl, key)
  {
    ScanKeeps(fl, key, now);
  }

  lemma SetOk(fl: seq<Queue>, key: Key, blist: seq<Entry>)
    requires QueuesOk(fl) && InUse(fl, key) && blist != [] && ListOk(blist)
    ensures QueuesOk(SetList(fl, key, blist)) && |SetList(fl, key, blist)| == |fl|
  {
    SetKeeps(fl, key, blist, key);
    SetFrom(fl, key, blist);
  }

  lemma NewOk(fl: seq<Queue>, free: nat, q: Queue)
    requires QueuesOk(fl) && !InUse(fl, q.key) && q.blist != [] && ListOk(q.blist)
    ensures QueuesOk([q] + Room(fl, free))
  {
    var r := Room(fl, free);
    assert forall p | p in r :: p in fl;
    assert DistinctKeys(r);
    KeyInFront(q, r);
  }

  lemma PoolKeeps(p: Pool, size: nat, a: Arrival)
    requires PoolOk(p, size) && size > 0 && a.w.data != []
    ensures PoolOk(Reassemble(p, a).0, size)
  {
    ScanOk(p.flist, a.key, a.now);
    var fl := Scan(p.flist, a.key, a.now);
    ListForOk(fl, a.key);
    if InUse(fl, a.key) {
      DropKeeps(fl, a.key, a.key);
      if !Unfragmented(a.w.frag) && Feed(ListFor(fl, a.key), PieceOf(a.w)).out.None? {
        StillSome(ListFor(fl, a.key), PieceOf(a.w));
        SetOk(fl, a.key, Feed(ListFor(fl, a.key), PieceOf(a.w)).list);
      }
    } else {
      StillSome([], PieceOf(a.w));
      NewOk(fl, p.free + |p.flist| - |fl|, Queue(a.key, a.now + LIFETIME, [Arrived(PieceOf(a.w))]));
    }
  }

  lemma StillSome(list: seq<Entry>, p: Piece)
    requires ListOk(list) && p.data != []
    ensures ListOk([Arrived(p)]) && (Feed(list, p).out.None? ==> Feed(list, p).list != [])
  {
    LinkCovers(list, Arrived(p), 0);
  }

  /** A packet comes out exactly when the fragments held for its own datagram complete it. */
  lemma OwnQueue(p: Pool, size: nat, a: Arrival)
    requires PoolOk(p, size) && a.w.data != []
    ensures ListOk(ListFor(p.flist, a.key))
    ensures Reassemble(p, a).1 == if Unfragmented(a.w.frag) then Some(a.w.data) else Feed(ListFor(p.flist, a.key), PieceOf(a.w)).out
    ensures ListFor(Reassemble(p, a).0.flist, a.key) == Next(ListFor(p.flist, a.key), a)
  {
    ListForOk(p.flist, a.key);
    ScanKeeps(p.flist, a.key, a.now);
    var fl := Scan(p.flist, a.key, a.now);
    ListForOk(fl, a.key);
    if InUse(fl, a.key) {
      DropKeeps(fl, a.key, a.key);
      if !Unfragmented(a.w.frag) {
        SetKeeps(fl, a.key, Feed(ListFor(fl, a.key), PieceOf(a.w)).list, a.key);
      }
    }
  }

  /** The oldest queue has to make room: the pool is full, with none stale, and the arrival needs
      a queue of its own. */
  predicate Evicted(p: Pool, a: Arrival, k: Key) {
    && !Unfragmented(a.w.frag) && !InUse(p.flist, a.key)
    && p.free == 0 && Fresh(p.flist, a.now)
    && p.flist != [] && p.flist[|p.flist| - 1].key == k
  }

  /** An arrival for another datagram ends k's queue exactly when that is stale and comes before
      the one searched for, or is the oldest and must make room. */
  predicate GivenUp(p: Pool, a: Arrival, k: Key) {
    k != a.key && (Passed(p.flist, a.key, a.now, k) || Evicted(p, a, k))
  }

  lemma NewQueue(p: Pool, size: nat, a: Arrival, k: Key)
    requires PoolOk(p, size) && a.w.data != [] && k != a.key && !InUse(p.flist, a.key) && !Unfragmented(a.w.frag)
    ensures ListFor(Reassemble(p, a).0.flist, k) == if Evicted(p, a, k) then [] else ListFor(Scan(p.flist, a.key, a.now), k)
  {
    ScanKeeps(p.flist, a.key, a.now);
    ScanFrees(p.flist, a.key, a.now);
    var fl := Scan(p.flist, a.key, a.now);
    NotInUse(p.flist, a.key, a.now);
    if fl != [] {
      RoomKeeps(fl, k);
    }
    var q := Queue(a.key, a.now + LIFETIME, [Arrived(PieceOf(a.w))]);
    var room := Room(fl, p.free + |p.flist| - |fl|);
    assert ([q] + room)[1..] == room;
  }

  lemma NotInUse(fl: seq<Queue>, key: Key, now: nat)
    requires forall q | q in fl :: q.blist != [] && ListOk(q.blist)
    ensures InUse(Scan(fl, key, now), key) <==> InUse(fl, key)
  {
    ScanKeeps(fl, key, now);
    ListForOk(fl, key);
    ListForOk(Scan(fl, key, now), key);
  }

  lemma OldQueue(p: Pool, size: nat, a: Arrival, k: Key)
    requires PoolOk(p, size) && a.w.data != [] && k != a.key && (InUse(p.flist, a.key) || Unfragmented(a.w.frag))
    ensures ListFor(Reassemble(p, a).0.flist, k) == ListFor(Scan(p.flist, a.key, a.now), k)
  {
    ScanKeeps(p.flist, a.key, a.now);
    NotInUse(p.flist, a.key, a.now);
    var fl := Scan(p.flist, a.key, a.now);
    ListForOk(fl, a.key);
    if InUse(fl, a.key) {
      DropKeeps(fl, a.key, k);
      if !Unfragmented(a.w.frag) {
        SetKeeps(fl, a.key, Feed(ListFor(fl, a.key), PieceOf(a.w)).list, k);
      }
    }
  }

  lemma OtherQueues(p: Pool, size: nat, a: Arrival, k: Key)
    requires PoolOk(p, size) && a.w.data != [] && k != a.key
    ensures ListFor(Reassemble(p, a).0.flist, k) == if GivenUp(p, a, k) then [] else ListFor(p.flist, k)
  {
    ScanOthers(p.flist, a.key, a.now, k);
    if !InUse(p.flist, a.key) && !Unfragmented(a.w.frag) {
      NewQueue(p, size, a, k);
    } else {
      OldQueue(p, size, a, k);
    }
  }

  // ---------- interleaved datagrams ----------

  /** What `ipiput4` does with a packet for this host: with nothing in its fragment field it never
      comes near the queues. */
  function Deliver(p: Pool, a: Arrival): (Pool, Option<Bytes>)
    requires (forall q | q in p.flist :: q.blist != [] && ListOk(q.blist)) && (a.w.frag == 0 || a.w.data != [])
  {
    if a.w.frag == 0 then (p, Some(a.w.data)) else Reassemble(p, a)
  }

  /** Fragments are not empty. */
  predicate AllData(arrivals: seq<Arrival>) {
    forall a | a in arrivals :: a.w.frag == 0 || a.w.data != []
  }

  /** The pool after a sequence of arrivals. */
  ghost function After(arrivals: seq<Arrival>, size: nat): (p: Pool)
    requires size > 0 && AllData(arrivals)
    ensures PoolOk(p, size)
  {
    if arrivals == [] then Pool([], size)
    else
      var init, a := arrivals[..|arrivals| - 1], arrivals[|arrivals| - 1];
      assert a in arrivals && forall b | b in init :: b in arrivals;
      DeliverKeeps(After(init, size), size, a);
      Deliver(After(init, size), a).0
  }

  lemma DeliverKeeps(p: Pool, size: nat, a: Arrival)
    requires PoolOk(p, size) && size > 0 && (a.w.frag == 0 || a.w.data != [])
    ensures PoolOk(Deliver(p, a).0, size)
  {
    if a.w.frag != 0 {
      PoolKeeps(p, size, a);
    }
  }

  /** An arrival for another datagram ends k's queue. */
  predicate Loses(p: Pool, a: Arrival, k: Key) {
    a.w.frag != 0 && GivenUp(p, a, k)
  }

  /** The fragments of a datagram, among all that arrive, since its queue was last given up or ended. */
  ghost function Mine(arrivals: seq<Arrival>, size: nat, k: Key): (ps: seq<Piece>)
    requires size > 0 && AllData(arrivals)
    ensures forall p | p in ps :: p.data != []
  {
    if arrivals == [] then []
    else
      var init, a := arrivals[..|arrivals| - 1], arrivals[|arrivals| - 1];
      assert a in arrivals && forall b | b in init :: b in arrivals;
      if a.w.frag == 0 || (a.key != k && !Loses(After(init, size), a, k)) then Mine(init, size, k)
      else if a.key == k && Reassemble(After(init, size), a).1.None? then Mine(init, size, k) + [PieceOf(a.w)]
      else []
  }

  lemma MineStep(p: Pool, size: nat, a: Arrival, k: Key, ps: seq<Piece>)
    requires PoolOk(p, size) && (a.w.frag == 0 || a.w.data != []) && (forall q | q in ps :: q.data != []) && ListFor(p.flist, k) == Collect(ps)
    ensures ListFor(Deliver(p, a).0.flist, k) ==
      if a.w.frag == 0 || (a.key != k && !Loses(p, a, k)) then Collect(ps)
      else if a.key == k && Reassemble(p, a).1.None? then Feed(Collect(ps), PieceOf(a.w)).list
      else []
  {
    if a.w.frag != 0 {
      if a.key == k {
        OwnQueue(p, size, a);
      } else {
        OtherQueues(p, size, a, k);
      }
    }
  }

  /** In every run, whatever else arrives and goes stale, a datagram's fragments are put together as if
      they came alone; packets that are not fragments leave them where they are. */
  lemma {:induction false} Interleaved(arrivals: seq<Arrival>, size: nat, k: Key)
    requires size > 0 && AllData(arrivals)
    ensures ListFor(After(arrivals, size).flist, k) == Collect(Mine(arrivals, size, k))
  {
    if arrivals != [] {
      var init, a := arrivals[..|arrivals| - 1], arrivals[|arrivals| - 1];
      assert a in arrivals && forall b | b in init :: b in arrivals;
      Interleaved(init, size, k);
      MineStep(After(init, size), size, a, k, Mine(init, size, k));
      if a.w.frag != 0 {
        CollectMore(Mine(init, size, k), PieceOf(a.w));
      }
    }
  }

  /** The next packet to come out is the one its own datagram's fragments complete. */
  lemma NextOut(arrivals: seq<Arrival>, size: nat, a: Arrival)
    requires size > 0 && AllData(arrivals) && (a.w.frag == 0 || a.w.data != [])
    ensures Deliver(After(arrivals, size), a).1 ==
      if Unfragmented(a.w.frag) then Some(a.w.data) else Feed(Collect(Mine(arrivals, size, a.key)), PieceOf(a.w)).out
  {
    Interleaved(arrivals, size, a.key);
    OutOf(After(arrivals, size), size, a, Collect(Mine(arrivals, size, a.key)));
  }

  lemma OutOf(p: Pool, size: nat, a: Arrival, list: seq<Entry>)
    requires PoolOk(p, size) && (a.w.frag == 0 || a.w.data != []) && list == ListFor(p.flist, a.key)
    ensures ListOk(list)
    ensures Deliver(p, a).1 == if Unfragmented(a.w.frag) then Some(a.w.data) else Feed(list, PieceOf(a.w)).out
  {
    ListForOk(p.flist, a.key);
    if a.w.frag != 0 {
      OwnQueue(p, size, a);
    }
  }
}
