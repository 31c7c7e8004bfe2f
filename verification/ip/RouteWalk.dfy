/** Reading the whole table and flushing it, on values. */
module RouteWalk {
  import opened RouteTree
  import opened RouteTable

  /** `rr`: a tree in order, reporting a route only in the bucket its first address hashes to. */
  function Listing(t: Tree, h: nat): seq<Route> {
    if t.Nil? then []
    else Listing(t.left, h) + (if V4H(t.rt.range.lo) == h then [t.rt] else []) + Listing(t.mid, h) + Listing(t.right, h)
  }

  /** A route is at one place of a tree only. */
  lemma OnePlace(t: Tree, x: Route)
    requires Valid(t) && t.Node?
    ensures x in Items(t.left) ==> x !in Items(t.mid) && x !in Items(t.right) && x != t.rt
    ensures x in Items(t.mid) ==> x !in Items(t.right) && x != t.rt
    ensures x in Items(t.right) ==> x != t.rt
    ensures x in Items(t) <==> x in Items(t.left) || x in Items(t.mid) || x in Items(t.right) || x == t.rt
  {
    ValidProper(t);
  }

  lemma Counts(a: seq<Route>, b: seq<Route>, c: seq<Route>, d: seq<Route>, x: Route)
    ensures multiset(a + b + c + d)[x] == multiset(a)[x] + multiset(b)[x] + multiset(c)[x] + multiset(d)[x]
  {
  }

  lemma CountBoth(a: seq<Route>, b: seq<Route>, x: Route)
    ensures multiset(a + b)[x] == multiset(a)[x] + multiset(b)[x]
  {
  }

  lemma SelfCount(rt: Route, h: nat, x: Route)
    ensures multiset(if V4H(rt.range.lo) == h then [rt] else [])[x] == if x == rt && V4H(x.range.lo) == h then 1 else 0
  {
  }

  lemma {:induction false} ListingCount(t: Tree, h: nat, x: Route)
    requires Valid(t)
    ensures multiset(Listing(t, h))[x] == if x in Items(t) && V4H(x.range.lo) == h then 1 else 0
  {
    if t.Node? {
      var self := if V4H(t.rt.range.lo) == h then [t.rt] else [];
      OnePlace(t, x);
      Counts(Listing(t.left, h), self, Listing(t.mid, h), Listing(t.right, h), x);
      ListingCount(t.left, h, x);
      ListingCount(t.mid, h, x);
      ListingCount(t.right, h, x);
      SelfCount(t.rt, h, x);
    }
  }

  /** `ipwalkroutes` over the first n buckets. */
  function WalkTo(ts: seq<Tree>, n: nat): seq<Route>
    requires n <= |ts|
  {
    if n == 0 then [] else WalkTo(ts, n - 1) + Listing(ts[n - 1], n - 1)
  }

  /** What a bucket holds. */
  lemma InBucket(ts: seq<Tree>, A: RouteMap, n: nat, x: Route)
    requires TableInv(ts, A) && n < NROOT
    ensures RouteTree.Valid(ts[n])
    ensures x in Items(ts[n]) <==> x in ItemsOf(A) && Reaches(x.range, n)
    ensures x in ItemsOf(A) ==> Reaches(x.range, V4H(x.range.lo))
  {
    assert Refines(ts[n], Slice(A, n));
    if x in ItemsOf(A) {
      CidrLaminar(x.range, x.range);
      HashInside(x.range, x.range.lo);
      if Reaches(x.range, n) {
        assert x.range in Slice(A, n);
      }
    }
  }

  lemma BucketCount(ts: seq<Tree>, A: RouteMap, n: nat, x: Route)
    requires TableInv(ts, A) && n < NROOT
    ensures multiset(Listing(ts[n], n))[x] == if x in ItemsOf(A) && V4H(x.range.lo) == n then 1 else 0
  {
    InBucket(ts, A, n, x);
    ListingCount(ts[n], n, x);
  }

  /** A route that each bucket lists as often as b is its home is listed once, by its home. */
  lemma {:induction false} WalkCount(ts: seq<Tree>, n: nat, x: Route, b: nat, once: bool)
    requires n <= |ts| && forall h: nat | h < n :: multiset(Listing(ts[h], h))[x] == if once && b == h then 1 else 0
    ensures multiset(WalkTo(ts, n))[x] == if once && b < n then 1 else 0
  {
    if n > 0 {
      WalkCount(ts, n - 1, x, b, once);
      CountBoth(WalkTo(ts, n - 1), Listing(ts[n - 1], n - 1), x);
    }
  }

  /** However many buckets hold a copy of a route, reading the table reports it once. */
  lemma WalkOnce(ts: seq<Tree>, A: RouteMap)
    requires TableInv(ts, A)
    ensures multiset(WalkTo(ts, NROOT)) == multiset(ItemsOf(A))
  {
    forall x: Route ensures multiset(WalkTo(ts, NROOT))[x] == multiset(ItemsOf(A))[x] {
      forall h: nat | h < NROOT
        ensures multiset(Listing(ts[h], h))[x] == if x in ItemsOf(A) && V4H(x.range.lo) == h then 1 else 0
      {
        BucketCount(ts, A, h, x);
      }
      WalkCount(ts, NROOT, x, V4H(x.range.lo), x in ItemsOf(A));
    }
  }

  // ---------- flush ----------

  /** What a flush of a tag, or of everything, removes. */
  predicate Flushable(info: Info, tag: Option<string>) {
    !IsIfc(info.kind) && (tag.None? || Tag4(tag.value) == info.tag)
  }

  /** The route `routeflush` deletes: the first found in middle, left, right, node order. */
  function Victim(t: Tree, tag: Option<string>): Option<Route> {
    if t.Nil? then None
    else
      var m, l, r := Victim(t.mid, tag), Victim(t.left, tag), Victim(t.right, tag);
      if m.Some? then m
      else if l.Some? then l
      else if r.Some? then r
      else if Flushable(t.rt.info, tag) then Some(t.rt)
      else None
  }

  lemma {:induction false} VictimFound(t: Tree, tag: Option<string>)
    ensures match Victim(t, tag)
      case Some(r) => r in Items(t) && Flushable(r.info, tag)
      case None => forall r | r in Items(t) :: !Flushable(r.info, tag)
  {
    if t.Node? {
      VictimFound(t.mid, tag);
      VictimFound(t.left, tag);
      VictimFound(t.right, tag);
    }
  }

  /** The map without what a flush removes. */
  ghost function Flushed(A: RouteMap, tag: Option<string>): RouteMap {
    map r | r in A && !Flushable(A[r], tag) :: A[r]
  }

  /** Between the whole map and the flushed one, with nothing left to flush in the first n buckets. */
  ghost predicate Flushing(A: RouteMap, B: RouteMap, tag: Option<string>, n: nat) {
    && (forall r | r in B :: r in A && B[r] == A[r] && (Flushable(B[r], tag) ==> !(exists h: nat | h < n :: Reaches(r, h))))
    && (forall r | r in A && !Flushable(A[r], tag) :: r in B)
  }

  /** Every route reaches some bucket, so that flushing bucket by bucket misses none. */
  lemma FlushedAll(A: RouteMap, B: RouteMap, tag: Option<string>)
    requires Flushing(A, B, tag, NROOT) && forall r | r in A :: Cidr(r)
    ensures B == Flushed(A, tag)
  {
    forall r | r in B ensures !Flushable(B[r], tag) {
      CidrLaminar(r, r);
      HashInside(r, r.lo);
      assert Reaches(r, V4H(r.lo));
    }
  }

  /** A route that is not an interface's has one reference: deleting it removes it, and no other. */
  lemma FlushOne(A: RouteMap, B: RouteMap, tag: Option<string>, n: nat, r: Route)
    requires Flushing(A, B, tag, n) && RefsOk(B) && r in ItemsOf(B) && Flushable(r.info, tag)
    ensures Flushing(A, AbsDel(B, r.range), tag, n) && RefsOk(AbsDel(B, r.range)) && |AbsDel(B, r.range)| < |B|
  {
    DelExact(B, r.range, r.range);
    assert AbsDel(B, r.range).Keys == B.Keys - {r.range};
  }

  lemma FlushNone(A: RouteMap, B: RouteMap, ts: seq<Tree>, tag: Option<string>, n: nat)
    requires Flushing(A, B, tag, n) && TableInv(ts, B) && n < NROOT && Victim(ts[n], tag) == None
    ensures Flushing(A, B, tag, n + 1)
  {
    VictimFound(ts[n], tag);
    forall r | r in B && Flushable(B[r], tag) ensures !Reaches(r, n) {
      InBucket(ts, B, n, Route(r, B[r]));
    }
  }
}
