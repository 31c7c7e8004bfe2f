/** The v4 forest of a protocol stack, changed in place: 1024 roots, and the map of ranges that the
    whole of it stands for. */
module RouteForest {
  import opened RouteTree
  import opened RouteTable
  import opened RouteHeap
  import opened RouteWalk
  import opened RouteRead

  ghost function AllObjs(shapes: seq<Shape>): set<RouteNode> {
    set h, o | 0 <= h < |shapes| && o in Objs(shapes[h]) :: o
  }

  /** No two trees share a node. */
  ghost predicate Separate(shapes: seq<Shape>) {
    forall i, j | 0 <= i < j < |shapes| :: Objs(shapes[i]) !! Objs(shapes[j])
  }

  lemma ExistAll(shapes: seq<Shape>)
    ensures forall o | o in AllObjs(shapes) :: allocated(o)
  {
    forall h | 0 <= h < |shapes| ensures forall o | o in Objs(shapes[h]) :: allocated(o) {
      Exist(shapes[h]);
    }
  }

  /** `rr`. */
  method Rr(p: RouteNode?, h: nat, f: Format, rw: Walker, ghost s: Shape) returns (more: bool, rw': Walker)
    requires Is(p, s)
    ensures (more, rw') == Walk(Listing(View(s), h), f, rw)
    decreases s, 1
  {
    if !Open(rw) {
      return false, rw;
    }
    if p == null {
      return true, rw;
    }
    Parts(p, s);
    Exist(s);
    ghost var t := View(s);
    Branches(t, h, f, rw);
    more, rw' := Rr(p.left, h, f, rw, s.l);
    ghost var kept := Is(p, s);
    assert kept && View(s) == t;
    if !more {
      return;
    }
    Parts(p, s);
    if V4H(p.lo) == h {
      rw' := Sprint(f(p.Rt()), rw');
    }
    more, rw' := RrRest(p, h, f, rw', s);
    assert View(s) == t;
  }

  method RrRest(p: RouteNode, h: nat, f: Format, rw: Walker, ghost s: Shape) returns (more: bool, rw': Walker)
    requires Is(p, s)
    ensures View(s).Node? && (more, rw') == Walk(Listing(View(s).mid, h) + Listing(View(s).right, h), f, rw)
    decreases s, 0
  {
    Parts(p, s);
    Exist(s);
    ghost var t := View(s);
    WalkJoin(Listing(t.mid, h), Listing(t.right, h), f, rw);
    more, rw' := Rr(p.mid, h, f, rw, s.m);
    ghost var kept := Is(p, s);
    assert kept && View(s) == t;
    if !more {
      return;
    }
    Parts(p, s);
    more, rw' := Rr(p.right, h, f, rw', s.r);
    assert View(s) == t;
  }

  /** The listing of a tree is that of its left, itself, and the rest. */
  lemma Branches(t: Tree, h: nat, f: Format, rw: Walker)
    requires t.Node?
    ensures var l := Walk(Listing(t.left, h), f, rw);
      Walk(Listing(t, h), f, rw) ==
        if !l.0 then l
        else Walk(Listing(t.mid, h) + Listing(t.right, h), f, if V4H(t.rt.range.lo) == h then Sprint(f(t.rt), l.1) else l.1)
  {
    var left, mid, right := Listing(t.left, h), Listing(t.mid, h), Listing(t.right, h);
    var self := if V4H(t.rt.range.lo) == h then [t.rt] else [];
    assert Listing(t, h) == left + (self + (mid + right));
    WalkJoin(left, self + (mid + right), f, rw);
    WalkJoin(self, mid + right, f, Walk(left, f, rw).1);
    assert [t.rt][1..] == [];
  }

  /** The search of `routeflush`: null when the tree holds nothing to flush. */
  method FindVictim(p: RouteNode?, tag: Option<string>, ghost s: Shape) returns (q: RouteNode?)
    requires Is(p, s)
    ensures Victim(View(s), tag) == if q == null then None else Some(q.Rt())
    decreases s
  {
    if p == null {
      return null;
    }
    Parts(p, s);
    Exist(s);
    ghost var t := View(s);
    q := FindVictim(p.mid, tag, s.m);
    assert View(s) == t && View(s.m) == t.mid;
    if q != null {
      return;
    }
    ghost var kept := Is(p.left, s.l) && Is(p.right, s.r);
    assert kept;
    q := FindVictim(p.left, tag, s.l);
    assert View(s) == t && View(s.l) == t.left;
    if q != null {
      return;
    }
    kept := Is(p.right, s.r);
    assert kept;
    q := FindVictim(p.right, tag, s.r);
    assert View(s) == t && View(s.r) == t.right;
    if q != null {
      return;
    }
    if Flushable(p.Rt().info, tag) {
      return p;
    }
  }

  class Forest {
    const v4root: array<RouteNode?>
    ghost var shapes: seq<Shape>

    ghost predicate Valid()
      reads this, v4root, AllObjs(shapes)
    {
      && v4root.Length == NROOT == |shapes| && Separate(shapes)
      && (forall h | 0 <= h < NROOT :: Is(v4root[h], shapes[h]))
    }

    ghost function Trees(): (ts: seq<Tree>)
      requires |shapes| == NROOT
      reads this, AllObjs(shapes)
      ensures |ts| == NROOT
    {
      seq(NROOT, h requires 0 <= h < |shapes| reads this, AllObjs(shapes) => View(shapes[h]))
    }

    /** The forest stands for the map A. */
    ghost predicate Represents(A: RouteMap)
      reads this, v4root, AllObjs(shapes)
    {
      Valid() && TableInv(Trees(), A)
    }

    constructor ()
      ensures Represents(map[])
    {
      v4root := new RouteNode?[NROOT](_ => null);
      shapes := seq(NROOT, _ => Empty);
      new;
      EmptyTable(Trees());
    }

    /** All trees but the h-th are what they were, and share nothing with it. */
    ghost predicate Others(h: nat, ts: seq<Tree>)
      requires v4root.Length == |shapes| == |ts| == NROOT && h < NROOT
      reads this, v4root, AllObjs(shapes)
    {
      forall k | 0 <= k < NROOT && k != h ::
        Is(v4root[k], shapes[k]) && View(shapes[k]) == ts[k] && Objs(shapes[k]) !! Objs(shapes[h])
    }

    lemma OthersNow(h: nat)
      requires Valid() && h < NROOT
      ensures Others(h, Trees())
    {
    }

    /** One turn of the loop of `v4addroute`, before its result is stored. */
    method AddHere(h: nat, nw: RouteNode, ghost ts: seq<Tree>) returns (root: RouteNode?, ghost s: Shape)
      requires v4root.Length == |shapes| == |ts| == NROOT && h < NROOT && Others(h, ts)
      requires Is(v4root[h], shapes[h]) && ts[h] == View(shapes[h])
      requires nw.left == null && nw.mid == null && nw.right == null && nw.depth == 0 && nw !in AllObjs(shapes)
      requires RouteTree.Valid(ts[h]) && Proper(nw.Rt().range) && LaminarWith(nw.Rt().range, Items(ts[h]))
      modifies Objs(shapes[h]) + {nw}
      ensures Is(root, s) && Objs(s) <= Objs(shapes[h]) + {nw} && View(s) == BucketAdd(ts[h], old(nw.Rt()))
      ensures Others(h, ts)
    {
      ExistAll(shapes);
      root, s := AddToTree(v4root[h], nw, shapes[h]);
      forall k | 0 <= k < NROOT && k != h ensures Is(v4root[k], shapes[k]) && View(shapes[k]) == ts[k] {
        assert Objs(shapes[k]) <= AllObjs(shapes);
        ghost var kept := Is(v4root[k], shapes[k]);
        assert kept;
      }
    }

    method AddAt(h: nat, nw: RouteNode)
      requires Valid() && h < NROOT && nw !in AllObjs(shapes)
      requires nw.left == null && nw.mid == null && nw.right == null && nw.depth == 0
      requires RouteTree.Valid(Trees()[h]) && Proper(nw.Rt().range) && LaminarWith(nw.Rt().range, Items(Trees()[h]))
      modifies this, v4root, AllObjs(shapes), nw
      ensures Valid() && AllObjs(shapes) <= old(AllObjs(shapes)) + {nw}
      ensures Trees() == old(Trees())[h := BucketAdd(old(Trees()[h]), old(nw.Rt()))]
    {
      ghost var ts, rt := Trees(), nw.Rt();
      OthersNow(h);
      var root; ghost var s;
      root, s := AddHere(h, nw, ts);
      Store(h, root, s, ts[h := BucketAdd(ts[h], rt)]);
    }

    /** One turn of the loop of `v4delroute`, before its result is stored. */
    method DelHere(h: nat, r: Range, ghost ts: seq<Tree>) returns (root: RouteNode?, ghost s: Shape)
      requires v4root.Length == |shapes| == |ts| == NROOT && h < NROOT && Others(h, ts)
      requires Is(v4root[h], shapes[h]) && ts[h] == View(shapes[h])
      requires RouteTree.Valid(ts[h]) && Proper(r) && LaminarWith(r, Items(ts[h]))
      modifies Objs(shapes[h])
      ensures Is(root, s) && Objs(s) <= Objs(shapes[h]) && View(s) == BucketDel(ts[h], r)
      ensures Others(h, ts)
    {
      ExistAll(shapes);
      root, s := DelFromTree(v4root[h], r, shapes[h]);
      forall k | 0 <= k < NROOT && k != h ensures Is(v4root[k], shapes[k]) && View(shapes[k]) == ts[k] {
        assert Objs(shapes[k]) <= AllObjs(shapes);
        ghost var kept := Is(v4root[k], shapes[k]);
        assert kept;
      }
    }

    method DelAt(h: nat, r: Range)
      requires Valid() && h < NROOT
      requires RouteTree.Valid(Trees()[h]) && Proper(r) && LaminarWith(r, Items(Trees()[h]))
      modifies this, v4root, AllObjs(shapes)
      ensures Valid() && AllObjs(shapes) <= old(AllObjs(shapes))
      ensures Trees() == old(Trees())[h := BucketDel(old(Trees()[h]), r)]
    {
      ghost var ts := Trees();
      OthersNow(h);
      var root; ghost var s;
      root, s := DelHere(h, r, ts);
      Store(h, root, s, ts[h := BucketDel(ts[h], r)]);
    }

    method Store(h: nat, root: RouteNode?, ghost s: Shape, ghost ts: seq<Tree>)
      requires h < NROOT == v4root.Length == |shapes| == |ts| && Separate(shapes) && Is(root, s) && View(s) == ts[h]
      requires Others(h, ts) && Objs(s) * AllObjs(shapes) <= Objs(shapes[h])
      modifies this, v4root
      ensures shapes == old(shapes)[h := s] && Valid() && Trees() == ts
    {
      v4root[h] := root;
      shapes := shapes[h := s];
    }

    /** A node for a route, put into one bucket. */
    method AddNew(h: nat, n: Route, ghost ts: seq<Tree>)
      requires Valid() && h < NROOT && Ready(ts, n.range) && Trees()[h] == ts[h]
      modifies this, v4root, AllObjs(shapes)
      ensures Valid() && Trees() == old(Trees())[h := BucketAdd(ts[h], n)]
      ensures forall o | o in AllObjs(shapes) :: o in old(AllObjs(shapes)) || fresh(o)
    {
      ExistAll(shapes);
      var p := new RouteNode(n.range, n.info);
      AddAt(h, p);
    }

    /** `v4addroute`: a node of its own in every bucket from V4H(start) to V4H(end). */
    method V4AddRoute(addr: nat, host: nat, kind: nat, tag: string, gate: nat, ghost A: RouteMap)
      requires Represents(A) && addr < 0x1_0000_0000 && host <= 32
      modifies this, v4root, AllObjs(shapes)
      ensures Represents(AbsAdd(A, NewRoute(Add(addr, host, kind, tag, gate))))
      ensures forall o | o in AllObjs(shapes) :: o in old(AllObjs(shapes)) || fresh(o)
    {
      var r := Masked(addr, Mask(host));
      MaskedIs(addr, host);
      CoveringCidr(addr, host);
      var n := Route(r, NewInfo(kind, tag, gate));
      ghost var ts := Trees();
      TableReady(ts, A, r);
      TableAddKeeps(ts, A, n);
      var h, eh := V4H(r.lo), V4H(r.hi);
      HashInside(r, r.lo);
      while h <= eh
        invariant V4H(r.lo) <= h <= eh + 1 && Valid()
        invariant forall o | o in AllObjs(shapes) :: o in old(AllObjs(shapes)) || fresh(o)
        invariant forall k | 0 <= k < NROOT :: Trees()[k] == if k < h then TableAdd(ts, n)[k] else ts[k]
      {
        AddNew(h, n, ts);
        h := h + 1;
      }
      assert Trees() == TableAdd(ts, n);
    }

    /** The loop of `v4delroute`. */
    method DelRange(r: Range, ghost A: RouteMap)
      requires Represents(A) && Cidr(r)
      modifies this, v4root, AllObjs(shapes)
      ensures Represents(AbsDel(A, r)) && AllObjs(shapes) <= old(AllObjs(shapes))
    {
      ghost var ts := Trees();
      TableReady(ts, A, r);
      TableDelKeeps(ts, A, r);
      var h, eh := V4H(r.lo), V4H(r.hi);
      HashInside(r, r.lo);
      while h <= eh
        invariant V4H(r.lo) <= h <= eh + 1 && Valid() && AllObjs(shapes) <= old(AllObjs(shapes))
        invariant forall k | 0 <= k < NROOT :: Trees()[k] == if k < h then TableDel(ts, r)[k] else ts[k]
      {
        DelAt(h, r);
        h := h + 1;
      }
      assert Trees() == TableDel(ts, r);
    }

    method V4DelRoute(addr: nat, host: nat, ghost A: RouteMap)
      requires Represents(A) && addr < 0x1_0000_0000 && host <= 32
      modifies this, v4root, AllObjs(shapes)
      ensures Represents(AbsDel(A, Covering(addr, host))) && AllObjs(shapes) <= old(AllObjs(shapes))
    {
      MaskedIs(addr, host);
      CoveringCidr(addr, host);
      DelRange(Masked(addr, Mask(host)), A);
    }

    /** `v4lookup`, without the choice of an interface: the most specific route of the whole map. */
    method V4Lookup(la: nat, ghost A: RouteMap) returns (q: RouteNode?)
      requires Represents(A)
      ensures MostSpecific(ItemsOf(A), la, if q == null then None else Some(q.Rt()))
    {
      TableLookup(Trees(), A, la);
      var h := V4H(la);
      ghost var t := Trees()[h];
      assert t == View(shapes[h]);
      Exist(shapes[h]);
      q := RouteHeap.V4Lookup(v4root[h], la, shapes[h]);
      assert View(shapes[h]) == t;
      assert MostSpecific(ItemsOf(A), la, Lookup(t, la));
    }

    /** The lines of one bucket, after those before it. */
    method WalkBucket(h: nat, f: Format, rw: Walker, ghost rw0: Walker, ghost ts: seq<Tree>) returns (more: bool, rw': Walker)
      requires h < NROOT && Valid() && Trees() == ts && Walk(WalkTo(ts, h), f, rw0) == (true, rw)
      ensures Valid() && Trees() == ts && (more, rw') == Walk(WalkTo(ts, h + 1), f, rw0)
    {
      ExistAll(shapes);
      assert View(shapes[h]) == Trees()[h];
      WalkJoin(WalkTo(ts, h), Listing(ts[h], h), f, rw0);
      more, rw' := Rr(v4root[h], h, f, rw, shapes[h]);
    }

    /** `ipwalkroutes`: the lines of every route, each once. */
    method IpWalkRoutes(f: Format, rw0: Walker, ghost A: RouteMap) returns (rw: Walker, ghost out: seq<Route>)
      requires Represents(A)
      ensures Valid() && out == WalkTo(Trees(), NROOT)
      ensures multiset(out) == multiset(ItemsOf(A)) && rw == Walk(out, f, rw0).1
    {
      ghost var ts := Trees();
      WalkOnce(ts, A);
      ExistAll(shapes);
      out := WalkTo(ts, NROOT);
      rw := rw0;
      if !Open(rw) {
        return;
      }
      var h := 0;
      while h < v4root.Length
        invariant h <= NROOT == v4root.Length && Valid() && Trees() == ts && Walk(WalkTo(ts, h), f, rw0) == (true, rw)
      {
        var more;
        more, rw := WalkBucket(h, f, rw, rw0, ts);
        if !more {
          WalkStops(ts, h + 1, NROOT, f, rw0);
          break;
        }
        h := h + 1;
      }
    }

    /** `routeread`: the text from the offset on, as much of it as the buffer takes, if every line before
        the offset fits it. */
    method RouteRead(f: Format, offset: nat, n: nat, ghost A: RouteMap) returns (buf: Text, ghost out: seq<Route>)
      requires Represents(A)
      ensures Valid() && out == WalkTo(Trees(), NROOT) && multiset(out) == multiset(ItemsOf(A))
      ensures n == 0 ==> buf == ""
      ensures n > 0 && Skippable(out, f, 0 - offset, n) ==> buf == Fit(Past(TextOf(out, f), 0 - offset), n - 1)
    {
      var rw;
      rw, out := IpWalkRoutes(f, Walker("", n, 0 - offset), A);
      WalkFresh(out, f, offset, n);
      buf := rw.buf;
    }

    /** Deleting the range of a node in a bucket. */
    method DelVictim(h: nat, q: RouteNode, ghost A: RouteMap) returns (ghost B: RouteMap)
      requires Represents(A) && h < NROOT && q.Rt() in Items(Trees()[h])
      modifies this, v4root, AllObjs(shapes)
      ensures old(q.Rt()) in ItemsOf(A) && B == AbsDel(A, old(q.Rt()).range)
      ensures Represents(B) && AllObjs(shapes) <= old(AllObjs(shapes))
    {
      InBucket(Trees(), A, h, q.Rt());
      B := AbsDel(A, q.Rt().range);
      var r := Range(q.lo, q.hi);
      CidrConv(r);
      DelRange(Masked(q.lo, ConvMask(r)), A);
    }

    /** `routeflush` of one bucket: delete one route, if there is one to delete. */
    method RouteFlush(h: nat, tag: Option<string>, ghost A: RouteMap) returns (changed: bool, ghost B: RouteMap)
      requires Represents(A) && RefsOk(A) && h < NROOT
      modifies this, v4root, AllObjs(shapes)
      ensures Represents(B) && AllObjs(shapes) <= old(AllObjs(shapes))
      ensures changed <==> Victim(old(Trees())[h], tag).Some?
      ensures changed ==> B == AbsDel(A, Victim(old(Trees())[h], tag).value.range)
      ensures !changed ==> B == A && Trees() == old(Trees())
      ensures changed ==> Victim(old(Trees())[h], tag).value in ItemsOf(A)
    {
      ghost var t := Trees()[h];
      VictimFound(t, tag);
      ExistAll(shapes);
      var q := FindVictim(v4root[h], tag, shapes[h]);
      changed, B := q != null, A;
      if q != null {
        B := DelVictim(h, q, A);
      }
    }

    /** The flush of `routewrite`: bucket by bucket, until nothing changes. */
    method Flush(tag: Option<string>, ghost A: RouteMap)
      requires Represents(A) && RefsOk(A)
      modifies this, v4root, AllObjs(shapes)
      ensures Represents(Flushed(A, tag))
    {
      ghost var B := A;
      var h := 0;
      while h < v4root.Length
        invariant h <= NROOT && Represents(B) && RefsOk(B) && Flushing(A, B, tag, h) && AllObjs(shapes) <= old(AllObjs(shapes))
      {
        var changed := true;
        while changed
          invariant Represents(B) && RefsOk(B) && Flushing(A, B, tag, h) && AllObjs(shapes) <= old(AllObjs(shapes))
          invariant !changed ==> Victim(Trees()[h], tag).None?
          decreases |B|, changed
        {
          ghost var victim, C := Victim(Trees()[h], tag), B;
          VictimFound(Trees()[h], tag);
          changed, B := RouteFlush(h, tag, C);
          if changed {
            FlushOne(A, C, tag, h, victim.value);
          }
        }
        FlushNone(A, B, Trees(), tag, h);
        h := h + 1;
      }
      FlushedAll(A, B, tag);
    }
  }
}
