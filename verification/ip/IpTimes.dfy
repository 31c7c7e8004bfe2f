/** When queues end: how long a datagram in progress is kept, and how many are. */
module IpTimes {
  import opened IpFrag
  import opened IpCut
  import opened IpReassemble
  import opened IpTrip

  // ---------- the age of a queue ----------

  /** The time a queue's age stands for. */
  function AgeFor(fl: seq<Queue>, k: Key): nat
  {
    if fl == [] then 0 else if fl[0].key == k then fl[0].age else AgeFor(fl[1..], k)
  }

  lemma {:induction false} AgeScan(fl: seq<Queue>, key: Key, now: nat, k: Key)
    requires DistinctKeys(fl) && InUse(Scan(fl, key, now), k)
    ensures InUse(fl, k) && AgeFor(Scan(fl, key, now), k) == AgeFor(fl, k)
  {
    if fl != [] && fl[0].key != key {
      KeysRest(fl);
      assert fl == [fl[0]] + fl[1..];
      InUseRest(fl[0], fl[1..], k);
      if fl[0].age < now {
        AgeScan(fl[1..], key, now, k);
      } else if fl[0].key != k {
        InUseRest(fl[0], Scan(fl[1..], key, now), k);
        AgeScan(fl[1..], key, now, k);
      }
    }
  }

  lemma InUseRest(q: Queue, rest: seq<Queue>, k: Key)
    ensures InUse([q] + rest, k) <==> q.key == k || InUse(rest, k)
  {
    assert q in [q] + rest;
    assert forall p | p in [q] + rest :: p == q || p in rest;
    assert forall p | p in rest :: p in [q] + rest;
  }

  lemma {:induction false} AgeDrop(fl: seq<Queue>, key: Key, k: Key)
    requires DistinctKeys(fl) && InUse(Drop(fl, key), k)
    ensures InUse(fl, k) && AgeFor(Drop(fl, key), k) == AgeFor(fl, k)
  {
    if fl != [] {
      KeysRest(fl);
      assert fl == [fl[0]] + fl[1..];
      InUseRest(fl[0], fl[1..], k);
      if fl[0].key != key {
        InUseRest(fl[0], Drop(fl[1..], key), k);
        if fl[0].key != k {
          AgeDrop(fl[1..], key, k);
        }
      } else {
        assert fl[0].key != k;
      }
    }
  }

  lemma {:induction false} AgeSet(fl: seq<Queue>, key: Key, blist: seq<Entry>, k: Key)
    ensures InUse(SetList(fl, key, blist), k) <==> InUse(fl, k)
    ensures AgeFor(SetList(fl, key, blist), k) == AgeFor(fl, k)
  {
    if fl != [] {
      assert fl == [fl[0]] + fl[1..];
      InUseRest(fl[0], fl[1..], k);
      if fl[0].key == key {
        InUseRest(fl[0].(blist := blist), fl[1..], k);
      } else {
        AgeSet(fl[1..], key, blist, k);
        InUseRest(fl[0], SetList(fl[1..], key, blist), k);
      }
    }
  }

  lemma {:induction false} AgeRoom(fl: seq<Queue>, n: nat, k: Key)
    requires n <= |fl| && InUse(fl[..n], k)
    ensures InUse(fl, k) && AgeFor(fl[..n], k) == AgeFor(fl, k)
  {
    var q :| q in fl[..n] && q.key == k;
    assert q in fl;
    if fl[0].key != k {
      assert fl[..n][1..] == fl[1..][..n - 1];
      assert fl[..n] == [fl[0]] + fl[..n][1..];
      InUseRest(fl[0], fl[..n][1..], k);
      AgeRoom(fl[1..], n - 1, k);
    }
  }

  /** The arrival opens a queue for k. */
  predicate Opens(p: Pool, a: Arrival, k: Key) {
    a.key == k && !Unfragmented(a.w.frag) && !InUse(p.flist, k)
  }

  /** What an arrival that opens a queue leaves: that queue in front of what the search did. */
  lemma OpenPool(p: Pool, size: nat, a: Arrival) returns (q: Queue, n: nat)
    requires PoolOk(p, size) && a.w.data != [] && !Unfragmented(a.w.frag) && !InUse(p.flist, a.key)
    ensures q.key == a.key && q.age == a.now + 30000
    ensures var fl := Scan(p.flist, a.key, a.now); n <= |fl| && Reassemble(p, a).0.flist == [q] + fl[..n]
  {
    NotInUse(p.flist, a.key, a.now);
    ScanKeeps(p.flist, a.key, a.now);
    var fl := Scan(p.flist, a.key, a.now);
    n := |Room(fl, p.free + |p.flist| - |fl|)|;
    q := Queue(a.key, a.now + LIFETIME, [Arrived(PieceOf(a.w))]);
  }

  /** A search in vain: the queue opened is the only new one. */
  lemma AgeOpen(p: Pool, size: nat, a: Arrival, k: Key)
    requires PoolOk(p, size) && a.w.data != [] && !Unfragmented(a.w.frag) && !InUse(p.flist, a.key)
    requires InUse(Reassemble(p, a).0.flist, k)
    ensures if a.key == k then AgeFor(Reassemble(p, a).0.flist, k) == a.now + 30000
      else InUse(p.flist, k) && AgeFor(Reassemble(p, a).0.flist, k) == AgeFor(p.flist, k)
  {
    var fl := Scan(p.flist, a.key, a.now);
    var q, n := OpenPool(p, size, a);
    InUseRest(q, fl[..n], k);
    if a.key != k {
      assert ([q] + fl[..n])[1..] == fl[..n];
      AgeRoom(fl, n, k);
      AgeScan(p.flist, a.key, a.now, k);
    }
  }

  /** A search that succeeds, or none to open: no queue is new. */
  lemma AgeOther(p: Pool, size: nat, a: Arrival, k: Key)
    requires PoolOk(p, size) && a.w.data != [] && (Unfragmented(a.w.frag) || InUse(p.flist, a.key))
    requires InUse(Reassemble(p, a).0.flist, k)
    ensures InUse(p.flist, k) && AgeFor(Reassemble(p, a).0.flist, k) == AgeFor(p.flist, k)
  {
    NotInUse(p.flist, a.key, a.now);
    ScanKeeps(p.flist, a.key, a.now);
    var fl := Scan(p.flist, a.key, a.now);
    ListForOk(fl, a.key);
    if InUse(fl, a.key) {
      if Unfragmented(a.w.frag) || Feed(ListFor(fl, a.key), PieceOf(a.w)).out.Some? {
        AgeDrop(fl, a.key, k);
      } else {
        AgeSet(fl, a.key, Feed(ListFor(fl, a.key), PieceOf(a.w)).list, k);
      }
    }
    AgeScan(p.flist, a.key, a.now, k);
  }

  /** An arrival gives no queue another age; the one it opens gets the time it comes and 30000. */
  lemma AgeStep(p: Pool, size: nat, a: Arrival, k: Key)
    requires PoolOk(p, size) && (a.w.frag == 0 || a.w.data != []) && InUse(Deliver(p, a).0.flist, k)
    ensures if Opens(p, a, k) then AgeFor(Deliver(p, a).0.flist, k) == a.now + 30000
      else InUse(p.flist, k) && AgeFor(Deliver(p, a).0.flist, k) == AgeFor(p.flist, k)
  {
    if a.w.frag != 0 {
      if !Unfragmented(a.w.frag) && !InUse(p.flist, a.key) {
        AgeOpen(p, size, a, k);
      } else {
        AgeOther(p, size, a, k);
      }
    }
  }

  // ---------- in a run ----------

  lemma UpTo(arrivals: seq<Arrival>, n: nat)
    requires AllData(arrivals) && n <= |arrivals|
    ensures AllData(arrivals[..n])
  {
    assert forall b | b in arrivals[..n] :: b in arrivals;
  }

  /** A queue for k is there after the first n arrivals. */
  ghost predicate Held(arrivals: seq<Arrival>, size: nat, k: Key, n: nat)
    requires size > 0 && AllData(arrivals) && n <= |arrivals|
  {
    UpTo(arrivals, n);
    InUse(After(arrivals[..n], size).flist, k)
  }

  /** The i-th arrival, a fragment of k, opened the queue that k has had ever since. */
  ghost predicate OpenedBy(arrivals: seq<Arrival>, size: nat, k: Key, i: nat)
    requires size > 0 && AllData(arrivals)
  {
    && i < |arrivals| && arrivals[i].key == k && !Unfragmented(arrivals[i].w.frag)
    && !Held(arrivals, size, k, i)
    && forall j | i < j <= |arrivals| :: Held(arrivals, size, k, j)
  }

  lemma HeldMore(init: seq<Arrival>, a: Arrival, size: nat, k: Key, n: nat)
    requires size > 0 && AllData(init) && AllData(init + [a]) && n <= |init|
    ensures Held(init + [a], size, k, n) == Held(init, size, k, n)
  {
    assert (init + [a])[..n] == init[..n];
  }

  lemma HeldLast(arrivals: seq<Arrival>, size: nat, k: Key)
    requires size > 0 && AllData(arrivals)
    ensures Held(arrivals, size, k, |arrivals|) == InUse(After(arrivals, size).flist, k)
  {
    assert arrivals[..|arrivals|] == arrivals;
  }

  lemma OpenedStill(init: seq<Arrival>, a: Arrival, size: nat, k: Key, i: nat)
    requires size > 0 && AllData(init) && AllData(init + [a]) && OpenedBy(init, size, k, i)
    requires InUse(After(init + [a], size).flist, k)
    ensures OpenedBy(init + [a], size, k, i)
  {
    HeldMore(init, a, size, k, i);
    HeldLast(init + [a], size, k);
    forall j | i < j <= |init + [a]| ensures Held(init + [a], size, k, j) {
      if j <= |init| {
        HeldMore(init, a, size, k, j);
      }
    }
  }

  lemma OpenedNow(init: seq<Arrival>, a: Arrival, size: nat, k: Key)
    requires size > 0 && AllData(init) && AllData(init + [a]) && Opens(After(init, size), a, k)
    requires InUse(After(init + [a], size).flist, k)
    ensures OpenedBy(init + [a], size, k, |init|)
  {
    var all := init + [a];
    HeldMore(init, a, size, k, |init|);
    HeldLast(init, size, k);
    HeldLast(all, size, k);
    assert all[|init|] == a;
    forall j | |init| < j <= |all| ensures Held(all, size, k, j) {
      assert j == |all|;
    }
  }

  /** In every run a queue's age is 30000 more than the time its first fragment came. */
  lemma {:induction false} AgeIs(arrivals: seq<Arrival>, size: nat, k: Key) returns (i: nat)
    requires size > 0 && AllData(arrivals) && InUse(After(arrivals, size).flist, k)
    ensures OpenedBy(arrivals, size, k, i) && AgeFor(After(arrivals, size).flist, k) == arrivals[i].now + 30000
  {
    var init, a := arrivals[..|arrivals| - 1], arrivals[|arrivals| - 1];
    assert arrivals == init + [a] && a in arrivals;
    UpTo(arrivals, |init|);
    AgeStep(After(init, size), size, a, k);
    if Opens(After(init, size), a, k) {
      i := |init|;
      OpenedNow(init, a, size, k);
    } else {
      i := AgeIs(init, size, k);
      OpenedStill(init, a, size, k, i);
    }
  }

  // ---------- going stale ----------

  lemma {:induction false} PassedOld(fl: seq<Queue>, key: Key, now: nat, k: Key)
    requires Passed(fl, key, now, k)
    ensures InUse(fl, k) && AgeFor(fl, k) < now
  {
    assert fl[0] in fl;
    if fl[0].key != k {
      PassedOld(fl[1..], key, now, k);
      InUseRest(fl[0], fl[1..], k);
      assert fl == [fl[0]] + fl[1..];
    }
  }

  /** In every run an arrival frees k's queue as stale only if it comes more than 30000 after the
      fragment that opened it. */
  lemma StaleAfter(arrivals: seq<Arrival>, size: nat, a: Arrival, k: Key) returns (i: nat)
    requires size > 0 && AllData(arrivals) && Passed(After(arrivals, size).flist, a.key, a.now, k)
    ensures OpenedBy(arrivals, size, k, i) && a.now > arrivals[i].now + 30000
  {
    PassedOld(After(arrivals, size).flist, a.key, a.now, k);
    i := AgeIs(arrivals, size, k);
  }

  // ---------- being pushed out ----------

  /** The datagrams of which a fragment came no more than 30000 before now. */
  function Recent(arrivals: seq<Arrival>, now: nat): set<Key> {
    set a | a in arrivals && !Unfragmented(a.w.frag) && now <= a.now + 30000 :: a.key
  }

  function KeysOf(fl: seq<Queue>): set<Key> {
    set q | q in fl :: q.key
  }

  lemma {:induction false} CountKeys(fl: seq<Queue>)
    requires DistinctKeys(fl)
    ensures |KeysOf(fl)| == |fl|
  {
    if fl != [] {
      KeysRest(fl);
      CountKeys(fl[1..]);
      assert fl == [fl[0]] + fl[1..];
      assert KeysOf(fl) == {fl[0].key} + KeysOf(fl[1..]);
    }
  }

  lemma {:induction false} FreshAge(fl: seq<Queue>, now: nat, k: Key)
    requires Fresh(fl, now) && InUse(fl, k)
    ensures AgeFor(fl, k) >= now
  {
    if fl[0].key != k {
      assert fl == [fl[0]] + fl[1..];
      InUseRest(fl[0], fl[1..], k);
      FreshAge(fl[1..], now, k);
    }
  }

  lemma Subset<T>(a: set<T>, b: set<T>)
    requires a <= b
    ensures |a| <= |b|
  {
    assert b == a + (b - a);
  }

  /** In every run an arrival pushes a queue out only if, with it, there are fragments of more than
      size datagrams from the last 30000. */
  lemma PushedOut(arrivals: seq<Arrival>, size: nat, a: Arrival, k: Key)
    requires size > 0 && AllData(arrivals) && Evicted(After(arrivals, size), a, k)
    ensures |Recent(arrivals + [a], a.now)| > size
  {
    var fl := After(arrivals, size).flist;
    var recent := Recent(arrivals + [a], a.now);
    forall x | x in KeysOf(fl) ensures x in recent && x != a.key {
      assert InUse(fl, x);
      var i := AgeIs(arrivals, size, x);
      FreshAge(fl, a.now, x);
      assert arrivals[i] in arrivals + [a];
    }
    CountKeys(fl);
    assert a in arrivals + [a];
    Subset(KeysOf(fl) + {a.key}, recent);
  }

  /** A search in vain leaves no stale queue. */
  lemma {:induction false} ScanFresh(fl: seq<Queue>, key: Key, now: nat)
    requires !InUse(fl, key)
    ensures Fresh(Scan(fl, key, now), now)
  {
    if fl != [] {
      assert fl == [fl[0]] + fl[1..];
      InUseRest(fl[0], fl[1..], key);
      ScanFresh(fl[1..], key, now);
    }
  }

  lemma {:induction false} FreshPrefix(fl: seq<Queue>, n: nat, now: nat)
    requires n <= |fl| && Fresh(fl, now)
    ensures Fresh(fl[..n], now)
  {
    if n > 0 {
      assert fl[..n][1..] == fl[1..][..n - 1];
      FreshPrefix(fl[1..], n - 1, now);
    }
  }

  lemma FreshAfter(p: Pool, size: nat, a: Arrival)
    requires PoolOk(p, size) && a.w.data != [] && !Unfragmented(a.w.frag) && !InUse(p.flist, a.key)
    ensures Fresh(Reassemble(p, a).0.flist, a.now)
  {
    ScanFresh(p.flist, a.key, a.now);
    var q, n := OpenPool(p, size, a);
    var left := Scan(p.flist, a.key, a.now)[..n];
    FreshPrefix(Scan(p.flist, a.key, a.now), n, a.now);
    assert ([q] + left)[1..] == left;
  }

  /** When a fragment opens a queue, all those opened more than 30000 before are gone. */
  lemma NoneStale(arrivals: seq<Arrival>, size: nat, a: Arrival, k: Key) returns (i: nat)
    requires size > 0 && AllData(arrivals) && AllData(arrivals + [a]) && Opens(After(arrivals, size), a, a.key)
    requires InUse(After(arrivals + [a], size).flist, k)
    ensures OpenedBy(arrivals + [a], size, k, i) && a.now <= (arrivals + [a])[i].now + 30000
  {
    var all := arrivals + [a];
    assert all[..|arrivals|] == arrivals && a in all;
    FreshAfter(After(arrivals, size), size, a);
    FreshAge(After(all, size).flist, a.now, k);
    i := AgeIs(all, size, k);
  }

  // ---------- the oldest goes first ----------

  /** k's queue is nearer the front than j's. */
  predicate Above(fl: seq<Queue>, k: Key, j: Key) {
    fl != [] && (if fl[0].key == k then InUse(fl[1..], j) else Above(fl[1..], k, j))
  }

  lemma {:induction false} AboveIn(fl: seq<Queue>, k: Key, j: Key)
    requires Above(fl, k, j)
    ensures InUse(fl, k) && InUse(fl, j) && (DistinctKeys(fl) ==> k != j)
  {
    assert fl == [fl[0]] + fl[1..];
    InUseRest(fl[0], fl[1..], k);
    InUseRest(fl[0], fl[1..], j);
    if fl[0].key != k {
      AboveIn(fl[1..], k, j);
    }
  }

  lemma {:induction false} AboveScan(fl: seq<Queue>, key: Key, now: nat, k: Key, j: Key)
    requires DistinctKeys(fl) && Above(Scan(fl, key, now), k, j)
    ensures Above(fl, k, j)
  {
    if fl != [] && fl[0].key != key {
      KeysRest(fl);
      if fl[0].age < now {
        AboveScan(fl[1..], key, now, k, j);
        AboveIn(fl[1..], k, j);
      } else if fl[0].key != k {
        AboveScan(fl[1..], key, now, k, j);
      } else {
        AgeScan(fl[1..], key, now, j);
      }
    }
  }

  lemma {:induction false} AboveDrop(fl: seq<Queue>, key: Key, k: Key, j: Key)
    requires DistinctKeys(fl) && Above(Drop(fl, key), k, j)
    ensures Above(fl, k, j)
  {
    if fl != [] {
      KeysRest(fl);
      if fl[0].key == key {
        AboveIn(fl[1..], k, j);
      } else if fl[0].key != k {
        AboveDrop(fl[1..], key, k, j);
      } else {
        AgeDrop(fl[1..], key, j);
      }
    }
  }

  lemma {:induction false} AboveSet(fl: seq<Queue>, key: Key, blist: seq<Entry>, k: Key, j: Key)
    requires Above(SetList(fl, key, blist), k, j)
    ensures Above(fl, k, j)
  {
    if fl[0].key != key {
      if fl[0].key != k {
        AboveSet(fl[1..], key, blist, k, j);
      } else {
        AgeSet(fl[1..], key, blist, j);
      }
    }
  }

  lemma {:induction false} AbovePrefix(fl: seq<Queue>, n: nat, k: Key, j: Key)
    requires n <= |fl| && Above(fl[..n], k, j)
    ensures Above(fl, k, j)
  {
    assert fl[..n][1..] == fl[1..][..n - 1];
    if fl[0].key != k {
      AbovePrefix(fl[1..], n - 1, k, j);
    } else {
      AgeRoom(fl[1..], n - 1, j);
    }
  }

  lemma AboveOpen(p: Pool, size: nat, a: Arrival, k: Key, j: Key)
    requires PoolOk(p, size) && a.w.data != [] && !Unfragmented(a.w.frag) && !InUse(p.flist, a.key)
    requires Above(Reassemble(p, a).0.flist, k, j)
    ensures InUse(p.flist, j) && (a.key == k || Above(p.flist, k, j))
  {
    var fl := Scan(p.flist, a.key, a.now);
    var q, n := OpenPool(p, size, a);
    assert ([q] + fl[..n])[1..] == fl[..n];
    if a.key == k {
      AgeRoom(fl, n, j);
      AgeScan(p.flist, a.key, a.now, j);
    } else {
      AbovePrefix(fl, n, k, j);
      AboveScan(p.flist, a.key, a.now, k, j);
      AboveIn(p.flist, k, j);
    }
  }

  lemma AboveOther(p: Pool, size: nat, a: Arrival, k: Key, j: Key)
    requires PoolOk(p, size) && a.w.data != [] && (Unfragmented(a.w.frag) || InUse(p.flist, a.key))
    requires Above(Reassemble(p, a).0.flist, k, j)
    ensures Above(p.flist, k, j)
  {
    NotInUse(p.flist, a.key, a.now);
    ScanKeeps(p.flist, a.key, a.now);
    var fl := Scan(p.flist, a.key, a.now);
    ListForOk(fl, a.key);
    if InUse(fl, a.key) {
      if Unfragmented(a.w.frag) || Feed(ListFor(fl, a.key), PieceOf(a.w)).out.Some? {
        AboveDrop(fl, a.key, k, j);
      } else {
        AboveSet(fl, a.key, Feed(ListFor(fl, a.key), PieceOf(a.w)).list, k, j);
      }
    }
    AboveScan(p.flist, a.key, a.now, k, j);
  }

  lemma AboveStep(p: Pool, size: nat, a: Arrival, k: Key, j: Key)
    requires PoolOk(p, size) && (a.w.frag == 0 || a.w.data != []) && Above(Deliver(p, a).0.flist, k, j)
    ensures InUse(p.flist, j) && (Opens(p, a, k) || Above(p.flist, k, j))
  {
    if a.w.frag == 0 {
      AboveIn(p.flist, k, j);
    } else if !Unfragmented(a.w.frag) && !InUse(p.flist, a.key) {
      AboveOpen(p, size, a, k, j);
    } else {
      AboveOther(p, size, a, k, j);
      AboveIn(p.flist, k, j);
    }
  }

  lemma OpenedOnce(arrivals: seq<Arrival>, size: nat, k: Key, i: nat, j: nat)
    requires size > 0 && AllData(arrivals) && OpenedBy(arrivals, size, k, i) && OpenedBy(arrivals, size, k, j)
    ensures i == j
  {
    assert !Held(arrivals, size, k, i) && !Held(arrivals, size, k, j);
  }

  /** A queue there before the last arrival was opened before it. */
  lemma OpenedBefore(init: seq<Arrival>, a: Arrival, size: nat, k: Key, i: nat)
    requires size > 0 && AllData(init) && AllData(init + [a]) && OpenedBy(init + [a], size, k, i)
    requires InUse(After(init, size).flist, k)
    ensures OpenedBy(init, size, k, i)
  {
    var all := init + [a];
    HeldLast(init, size, k);
    HeldMore(init, a, size, k, |init|);
    assert i < |init|;
    HeldMore(init, a, size, k, i);
    assert all[i] == init[i];
    forall j | i < j <= |init| ensures Held(init, size, k, j) {
      HeldMore(init, a, size, k, j);
      assert Held(all, size, k, j);
    }
  }

  /** In every run the queues stand newest first. */
  lemma {:induction false} NewestFirst(arrivals: seq<Arrival>, size: nat, k: Key, m: Key, i: nat, j: nat)
    requires size > 0 && AllData(arrivals) && Above(After(arrivals, size).flist, k, m)
    requires OpenedBy(arrivals, size, k, i) && OpenedBy(arrivals, size, m, j)
    ensures i > j
  {
    var init, a := arrivals[..|arrivals| - 1], arrivals[|arrivals| - 1];
    assert arrivals == init + [a] && a in arrivals;
    UpTo(arrivals, |init|);
    AboveStep(After(init, size), size, a, k, m);
    AboveIn(After(arrivals, size).flist, k, m);
    OpenedBefore(init, a, size, m, j);
    if Opens(After(init, size), a, k) {
      OpenedNow(init, a, size, k);
      OpenedOnce(arrivals, size, k, i, |init|);
    } else {
      AboveIn(After(init, size).flist, k, m);
      OpenedBefore(init, a, size, k, i);
      NewestFirst(init, size, k, m, i, j);
    }
  }

  lemma {:induction false} LastBelow(fl: seq<Queue>, k: Key, m: Key)
    requires DistinctKeys(fl) && InUse(fl, m) && k != m && fl[|fl| - 1].key == k
    ensures Above(fl, m, k) && InUse(fl, k)
  {
    assert fl == [fl[0]] + fl[1..];
    InUseRest(fl[0], fl[1..], m);
    InUseRest(fl[0], fl[1..], k);
    assert fl[|fl| - 1] in fl;
    if fl[0].key != m {
      LastBelow(fl[1..], k, m);
    }
  }

  /** In every run the queue pushed out is the one opened first, and it does go. */
  lemma OldestOut(arrivals: seq<Arrival>, size: nat, a: Arrival, k: Key, m: Key, i: nat, j: nat)
    requires size > 0 && AllData(arrivals) && AllData(arrivals + [a]) && Evicted(After(arrivals, size), a, k)
    requires OpenedBy(arrivals, size, k, i) && OpenedBy(arrivals, size, m, j) && InUse(After(arrivals, size).flist, m)
    ensures i <= j && !InUse(After(arrivals + [a], size).flist, k)
  {
    var p, all := After(arrivals, size), arrivals + [a];
    assert all[..|arrivals|] == arrivals && a in all;
    OtherQueues(p, size, a, k);
    ListForOk(After(all, size).flist, k);
    if m != k {
      LastBelow(p.flist, k, m);
      NewestFirst(arrivals, size, m, k, j, i);
    } else {
      OpenedOnce(arrivals, size, k, i, j);
    }
  }

  // ---------- delivered in time ----------

  /** Everything after the first fragment of k comes within 30000 of it. */
  predicate InTime(arrivals: seq<Arrival>, k: Key) {
    forall i, n | 0 <= i < n < |arrivals| && arrivals[i].key == k :: arrivals[n].now <= arrivals[i].now + 30000
  }

  /** At no time are there fragments of more than size datagrams from the last 30000. */
  predicate FewAtOnce(arrivals: seq<Arrival>, size: nat) {
    forall n | 0 <= n < |arrivals| :: |Recent(arrivals[..n + 1], arrivals[n].now)| <= size
  }

  lemma NotLost(init: seq<Arrival>, a: Arrival, size: nat, k: Key)
    requires size > 0 && AllData(init) && InTime(init + [a], k) && FewAtOnce(init + [a], size)
    ensures !Loses(After(init, size), a, k)
  {
    var all := init + [a];
    assert all[..|init| + 1] == all && all[|init|] == a;
    assert |Recent(all, a.now)| <= size;
    assert forall i | 0 <= i < |init| :: all[i] == init[i];
    if Evicted(After(init, size), a, k) {
      PushedOut(init, size, a, k);
    } else if Passed(After(init, size).flist, a.key, a.now, k) {
      var i := StaleAfter(init, size, a, k);
    }
  }

  lemma TimesBefore(init: seq<Arrival>, a: Arrival, size: nat, k: Key)
    requires InTime(init + [a], k) && FewAtOnce(init + [a], size)
    ensures InTime(init, k) && FewAtOnce(init, size)
  {
    var all := init + [a];
    assert forall i | 0 <= i < |init| :: all[i] == init[i];
    forall n | 0 <= n < |init| ensures |Recent(init[..n + 1], init[n].now)| <= size {
      assert all[..n + 1] == init[..n + 1];
    }
  }

  lemma KeptMore(init: seq<Arrival>, a: Arrival, size: nat, k: Key)
    requires size > 0 && AllData(init + [a]) && AllData(init) && NeverGivenUp(init, size, k)
    requires InTime(init + [a], k) && FewAtOnce(init + [a], size)
    ensures NeverGivenUp(init + [a], size, k)
  {
    NotLost(init, a, size, k);
    var all := init + [a];
    assert all[..|init|] == init && all[|init|] == a;
  }

  lemma {:induction false} KeptInTime(arrivals: seq<Arrival>, size: nat, k: Key)
    requires size > 0 && AllData(arrivals) && InTime(arrivals, k) && FewAtOnce(arrivals, size)
    ensures NeverGivenUp(arrivals, size, k)
  {
    if arrivals != [] {
      var init, a := arrivals[..|arrivals| - 1], arrivals[|arrivals| - 1];
      assert arrivals == init + [a];
      UpTo(arrivals, |init|);
      TimesBefore(init, a, size, k);
      KeptInTime(init, size, k);
      KeptMore(init, a, size, k);
    }
  }

  /** If every byte arrives, all within 30000, while no more than size datagrams are in progress,
      the datagram comes out. */
  lemma DeliveredInTime(arrivals: seq<Arrival>, size: nat, k: Key, hdr: Bytes, d: Bytes, frag: nat, medialen: int, gates: seq<Gate>)
    requires size > 0 && AllData(arrivals) && FromWay(arrivals, k, hdr, d, frag, medialen, gates)
    requires InTime(arrivals, k) && FewAtOnce(arrivals, size) && AllReached(Came(arrivals, k), d)
    ensures exists n: nat :: Delivers(arrivals, size, k, d, n)
  {
    KeptInTime(arrivals, size, k);
    Delivered(arrivals, size, k, hdr, d, frag, medialen, gates);
  }
}
