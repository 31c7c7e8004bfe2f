/** One tree of the routing forest, on values: the insertion with superset replacement, rotation,
    deletion with re-injection and lookup, and what they do to the set of routes in the tree. */
module RouteTree {

  /** A range of addresses, first to last. */
  datatype Range = Range(lo: nat, hi: nat)

  /** What a route carries besides its range.  `ref` counts the interface addresses sharing it. */
  datatype Info = Info(kind: nat, tag: string, gate: nat, ref: int)

  datatype Route = Route(range: Range, info: Info)

  datatype Tree =
    | Nil
    | Node(rt: Route, depth: nat, left: Tree, mid: Tree, right: Tree)

  predicate IsIfc(kind: nat) {
    kind / 2 % 2 == 1
  }

  // ---------- ranges ----------

  datatype Order = Precedes | Follows | Equals | Contains | Contained

  function RangeCompare(a: Range, b: Range): Order {
    if a.hi < b.lo then Precedes
    else if a.lo > b.hi then Follows
    else if a.lo <= b.lo && a.hi >= b.hi then (if a.lo == b.lo && a.hi == b.hi then Equals else Contains)
    else Contained
  }

  predicate Proper(a: Range) {
    a.lo <= a.hi
  }

  predicate Disjoint(a: Range, b: Range) {
    a.hi < b.lo || b.hi < a.lo
  }

  predicate Within(a: Range, b: Range) {
    b.lo <= a.lo && a.hi <= b.hi
  }

  predicate Strictly(a: Range, b: Range) {
    Within(a, b) && a != b
  }

  /** No partial overlap: what makes "everything else is contained" in `rangecompare` right. */
  predicate Laminar(a: Range, b: Range) {
    Disjoint(a, b) || Within(a, b) || Within(b, a)
  }

  predicate Has(a: Range, x: nat) {
    a.lo <= x <= a.hi
  }

  /** What the answers mean of the addresses of two ranges; "contained" is right exactly when the
      ranges do not overlap in part. */
  lemma CompareMeans(a: Range, b: Range)
    requires Proper(a) && Proper(b)
    ensures RangeCompare(a, b) == Precedes <==> forall x, y | Has(a, x) && Has(b, y) :: x < y
    ensures RangeCompare(a, b) == Follows <==> forall x, y | Has(a, x) && Has(b, y) :: x > y
    ensures RangeCompare(a, b) == Equals <==> a == b
    ensures RangeCompare(a, b) == Contains <==> Strictly(b, a)
    ensures RangeCompare(a, b) == Contained ==> (Strictly(a, b) <==> Laminar(a, b))
  {
    assert Has(a, a.lo) && Has(a, a.hi) && Has(b, b.lo) && Has(b, b.hi);
  }

  // ---------- the tree as a set of routes ----------

  function Items(t: Tree): set<Route> {
    if t.Nil? then {} else Items(t.left) + Items(t.mid) + Items(t.right) + {t.rt}
  }

  /** Left wholly before, right wholly after, mid strictly inside. */
  ghost predicate Valid(t: Tree) {
    t.Node? ==>
      var parts := Proper(t.rt.range) && Valid(t.left) && Valid(t.mid) && Valid(t.right);
      && parts
      && (forall k | k in Items(t.left) :: k.range.hi < t.rt.range.lo)
      && (forall k | k in Items(t.right) :: t.rt.range.hi < k.range.lo)
      && (forall k | k in Items(t.mid) :: Strictly(k.range, t.rt.range))
  }

  lemma {:induction false} ValidProper(t: Tree)
    requires Valid(t)
    ensures forall k | k in Items(t) :: Proper(k.range)
  {
    if t.Node? {
      ValidProper(t.left);
      ValidProper(t.mid);
      ValidProper(t.right);
    }
  }

  /** No two routes of a tree have the same range. */
  lemma {:induction false} ValidUnique(t: Tree, a: Route, b: Route)
    requires Valid(t) && a in Items(t) && b in Items(t) && a.range == b.range
    ensures a == b
  {
    ValidProper(t);
    if a in Items(t.left) && b in Items(t.left) {
      ValidUnique(t.left, a, b);
    } else if a in Items(t.mid) && b in Items(t.mid) {
      ValidUnique(t.mid, a, b);
    } else if a in Items(t.right) && b in Items(t.right) {
      ValidUnique(t.right, a, b);
    }
  }

  // ---------- balancing ----------

  function Depth(t: Tree): nat {
    if t.Nil? then 0 else t.depth
  }

  /** Depth is kept in one byte. */
  function CalcD(t: Tree): Tree {
    if t.Nil? then Nil
    else
      var d0 := Depth(t.left);
      var d1 := if Depth(t.right) > d0 then Depth(t.right) else d0;
      var d2 := if Depth(t.mid) > d1 then Depth(t.mid) else d1;
      t.(depth := (d2 + 1) % 256)
  }

  function RotateRight(t: Tree): Tree
    requires t.Node? && t.left.Node?
  {
    CalcD(t.left.(right := CalcD(t.(left := t.left.right))))
  }

  function RotateLeft(t: Tree): Tree
    requires t.Node? && t.right.Node?
  {
    CalcD(t.right.(left := CalcD(t.(right := t.right.left))))
  }

  function Balance(t: Tree): Tree
    requires t.Node?
  {
    var dl, dr := Depth(t.left), Depth(t.right);
    if dl > dr + 1 then RotateRight(t)
    else if dr > dl + 1 then RotateLeft(t)
    else CalcD(t)
  }

  /** Rotation keeps the order and every route. */
  lemma BalanceKeeps(t: Tree)
    requires t.Node? && Valid(t)
    ensures Balance(t).Node? && Valid(Balance(t)) && Items(Balance(t)) == Items(t)
  {
    var dl, dr := Depth(t.left), Depth(t.right);
    if dl > dr + 1 {
      RotateRightKeeps(t);
    } else if dr > dl + 1 {
      RotateLeftKeeps(t);
    }
  }

  lemma RotateRightKeeps(t: Tree)
    requires t.Node? && t.left.Node? && Valid(t)
    ensures Valid(RotateRight(t)) && Items(RotateRight(t)) == Items(t)
  {
    LoweredRight(t);
    var l, p := t.left, CalcD(t.(left := t.left.right));
    assert l.rt in Items(l);
    var b := CalcD(l.(right := p));
    assert Items(b) == Items(l.left) + Items(l.mid) + Items(p) + {l.rt};
  }

  /** The old root without its left child, which it keeps the right side of. */
  lemma LoweredRight(t: Tree)
    requires t.Node? && t.left.Node? && Valid(t)
    ensures var p := CalcD(t.(left := t.left.right));
      Valid(p) && Items(p) == Items(t.left.right) + Items(t.mid) + Items(t.right) + {t.rt}
  {
    assert Items(t.left.right) <= Items(t.left);
  }

  lemma RotateLeftKeeps(t: Tree)
    requires t.Node? && t.right.Node? && Valid(t)
    ensures Valid(RotateLeft(t)) && Items(RotateLeft(t)) == Items(t)
  {
    LoweredLeft(t);
    var r, p := t.right, CalcD(t.(right := t.right.left));
    assert r.rt in Items(r);
    var b := CalcD(r.(left := p));
    assert Items(b) == Items(p) + Items(r.mid) + Items(r.right) + {r.rt};
  }

  lemma LoweredLeft(t: Tree)
    requires t.Node? && t.right.Node? && Valid(t)
    ensures var p := CalcD(t.(right := t.right.left));
      Valid(p) && Items(p) == Items(t.left) + Items(t.mid) + Items(t.right.left) + {t.rt}
  {
    assert Items(t.right.left) <= Items(t.right);
  }

  // ---------- lookup ----------

  datatype Option<T> = None | Some(value: T)

  /** The search loop of `v4lookup`: the last node passed whose range has the address. */
  function LookupFrom(t: Tree, la: nat, q: Option<Route>): Option<Route> {
    if t.Nil? then q
    else if la >= t.rt.range.lo then
      if la <= t.rt.range.hi then LookupFrom(t.mid, la, Some(t.rt)) else LookupFrom(t.right, la, q)
    else LookupFrom(t.left, la, q)
  }

  function Lookup(t: Tree, la: nat): Option<Route> {
    LookupFrom(t, la, None)
  }

  /** best is the most specific of the routes that have the address: it lies within every other. */
  ghost predicate MostSpecific(routes: set<Route>, la: nat, best: Option<Route>) {
    match best
    case None => forall k | k in routes :: !Has(k.range, la)
    case Some(r) => r in routes && Has(r.range, la) && forall k | k in routes && Has(k.range, la) :: Within(r.range, k.range)
  }

  lemma {:induction false} LookupFromBest(t: Tree, la: nat, q: Option<Route>)
    requires Valid(t)
    ensures var r := LookupFrom(t, la, q);
      if exists k :: k in Items(t) && Has(k.range, la) then MostSpecific(Items(t), la, r) else r == q
  {
    if t.Node? {
      if la > t.rt.range.hi {
        LookupFromBest(t.right, la, q);
      } else if la < t.rt.range.lo {
        LookupFromBest(t.left, la, q);
      } else {
        LookupFromBest(t.mid, la, Some(t.rt));
        assert t.rt in Items(t) && Has(t.rt.range, la);
      }
    }
  }

  /** The search returns the most specific route for an address, and nil when there is none. */
  lemma LookupBest(t: Tree, la: nat)
    requires Valid(t)
    ensures MostSpecific(Items(t), la, Lookup(t, la))
  {
    LookupFromBest(t, la, None);
  }

  // ---------- insertion ----------

  /** A new route for a range already present supersedes the old one unless that is an interface;
      interface on interface only counts.  The old tag stays. */
  function Supersede(cur: Info, add: Info): Info {
    if !IsIfc(cur.kind) then cur.(kind := add.kind, gate := add.gate)
    else if IsIfc(add.kind) then cur.(ref := cur.ref + 1)
    else cur
  }

  /** The tree after `addnode`, and the subtree it displaced onto the queue, if any. */
  function AddNode(t: Tree, n: Tree): (r: (Tree, Tree))
    requires n.Node?
    ensures r.0.Node?
  {
    if t.Nil? then (n.(depth := 1), Nil)
    else
      match RangeCompare(n.rt.range, t.rt.range)
      case Precedes =>
        var (l, q) := AddNode(t.left, n);
        (Balance(t.(left := l)), q)
      case Follows =>
        var (r, q) := AddNode(t.right, n);
        (Balance(t.(right := r)), q)
      case Contains =>
        (Balance(n.(depth := 1)), t)
      case Equals =>
        (Balance(t.(rt := Route(t.rt.range, Supersede(t.rt.info, n.rt.info)))), Nil)
      case Contained =>
        var (m, q) := AddNode(t.mid, n);
        (Balance(t.(mid := m)), q)
  }

  /** A node to be put (back) in: nothing beside it, only routes inside its own range below it. */
  ghost predicate Loose(n: Tree) {
    n.Node? && n.left.Nil? && n.right.Nil? && Valid(n)
  }

  /** A route with range r may be walked back among s: it neither equals nor contains any of them. */
  ghost predicate Fits(r: Range, s: set<Route>) {
    forall y | y in s :: Disjoint(r, y.range) || Strictly(r, y.range)
  }

  // Rebuilding a node around one new child, then balancing: what the child lost (D) and gained (E)
  // is what the tree loses and gains.

  lemma Swap(a': set<Route>, a: set<Route>, rest: set<Route>, D: set<Route>, E: set<Route>)
    requires a' + D == a + E
    ensures (a' + rest) + D == (a + rest) + E
  {
    assert (a' + rest) + D == (a' + D) + rest;
    assert (a + rest) + E == (a + E) + rest;
  }

  /** A tree's routes, with any one subtree set apart. */
  lemma Apart(t: Tree)
    requires t.Node?
    ensures Items(t) == Items(t.left) + (Items(t.mid) + Items(t.right) + {t.rt})
    ensures Items(t) == Items(t.mid) + (Items(t.left) + Items(t.right) + {t.rt})
    ensures Items(t) == Items(t.right) + (Items(t.left) + Items(t.mid) + {t.rt})
  {
  }

  lemma PutLeft(t: Tree, l: Tree, D: set<Route>, E: set<Route>)
    requires t.Node? && Valid(t) && Valid(l) && forall k | k in Items(l) :: k.range.hi < t.rt.range.lo
    requires Items(l) + D == Items(t.left) + E
    ensures var b := Balance(t.(left := l)); b.Node? && Valid(b) && Items(b) + D == Items(t) + E
  {
    BalanceKeeps(t.(left := l));
    Apart(t);
    Apart(t.(left := l));
    var rest := Items(t.mid) + Items(t.right) + {t.rt};
    Swap(Items(l), Items(t.left), rest, D, E);
  }

  lemma PutMid(t: Tree, m: Tree, D: set<Route>, E: set<Route>)
    requires t.Node? && Valid(t) && Valid(m) && forall k | k in Items(m) :: Strictly(k.range, t.rt.range)
    requires Items(m) + D == Items(t.mid) + E
    ensures var b := Balance(t.(mid := m)); b.Node? && Valid(b) && Items(b) + D == Items(t) + E
  {
    BalanceKeeps(t.(mid := m));
    Apart(t);
    Apart(t.(mid := m));
    var rest := Items(t.left) + Items(t.right) + {t.rt};
    Swap(Items(m), Items(t.mid), rest, D, E);
  }

  lemma PutRight(t: Tree, r: Tree, D: set<Route>, E: set<Route>)
    requires t.Node? && Valid(t) && Valid(r) && forall k | k in Items(r) :: t.rt.range.hi < k.range.lo
    requires Items(r) + D == Items(t.right) + E
    ensures var b := Balance(t.(right := r)); b.Node? && Valid(b) && Items(b) + D == Items(t) + E
  {
    BalanceKeeps(t.(right := r));
    Apart(t);
    Apart(t.(right := r));
    var rest := Items(t.left) + Items(t.mid) + {t.rt};
    Swap(Items(r), Items(t.right), rest, D, E);
  }

  /** Everything in a loose node lies within the node's own range. */
  lemma LooseWithin(n: Tree)
    requires Loose(n)
    ensures n.rt in Items(n) && forall k | k in Items(n) :: Within(k.range, n.rt.range) && Proper(k.range)
  {
    ValidProper(n);
  }

  /** Putting a node back beside routes it neither equals nor contains displaces nothing. */
  lemma {:induction false} AddNodeBack(t: Tree, n: Tree)
    requires Valid(t) && Loose(n) && Fits(n.rt.range, Items(t))
    ensures var (t', q) := AddNode(t, n);
      q == Nil && Valid(t') && Items(t') + {} == Items(t) + Items(n)
  {
    LooseWithin(n);
    if t.Node? {
      assert t.rt in Items(t);
      match RangeCompare(n.rt.range, t.rt.range)
      case Precedes =>
        AddNodeBack(t.left, n);
        PutLeft(t, AddNode(t.left, n).0, {}, Items(n));
      case Follows =>
        AddNodeBack(t.right, n);
        PutRight(t, AddNode(t.right, n).0, {}, Items(n));
      case Contained =>
        AddNodeBack(t.mid, n);
        PutMid(t, AddNode(t.mid, n).0, {}, Items(n));
    }
  }

  ghost predicate HasRange(s: set<Route>, r: Range) {
    exists k :: k in s && k.range == r
  }

  ghost predicate LaminarWith(r: Range, s: set<Route>) {
    forall k | k in s :: Laminar(r, k.range)
  }

  /** Every route of xs may be walked back among ys. */
  ghost predicate AllFit(xs: set<Route>, ys: set<Route>) {
    forall x, y | x in xs && y in ys :: Disjoint(x.range, y.range) || Strictly(x.range, y.range)
  }

  function Leaf(n: Route): (t: Tree)
    ensures t.Node?
  {
    Node(n, 0, Nil, Nil, Nil)
  }

  /** A route for a range not yet present joins the tree; what it displaces is exactly a subtree,
      all of which can be walked back. */
  lemma {:induction false} AddNodeFresh(t: Tree, n: Route)
    requires Valid(t) && Proper(n.range) && LaminarWith(n.range, Items(t)) && !HasRange(Items(t), n.range)
    ensures var (t', q) := AddNode(t, Leaf(n));
      Valid(t') && Valid(q) && Items(t') + Items(q) == Items(t) + {n} && AllFit(Items(q), Items(t'))
  {
    if t.Node? {
      assert t.rt in Items(t);
      match RangeCompare(n.range, t.rt.range)
      case Precedes =>
        AddNodeFresh(t.left, n);
        var (l, q) := AddNode(t.left, Leaf(n));
        FreshLeft(t, n, l, q);
      case Follows =>
        AddNodeFresh(t.right, n);
        var (r, q) := AddNode(t.right, Leaf(n));
        FreshRight(t, n, r, q);
      case Contained =>
        AddNodeFresh(t.mid, n);
        var (m, q) := AddNode(t.mid, Leaf(n));
        FreshMid(t, n, m, q);
      case Contains =>
        FreshOver(t, n);
    }
  }

  lemma FreshLeft(t: Tree, n: Route, l: Tree, q: Tree)
    requires t.Node? && Valid(t) && n.range.hi < t.rt.range.lo && Valid(l) && Valid(q)
    requires Items(l) + Items(q) == Items(t.left) + {n} && AllFit(Items(q), Items(l))
    ensures var b := Balance(t.(left := l));
      Valid(b) && Items(b) + Items(q) == Items(t) + {n} && AllFit(Items(q), Items(b))
  {
    forall k | k in Items(l) || k in Items(q) ensures k.range.hi < t.rt.range.lo {
      assert k in Items(t.left) + {n};
    }
    PutLeft(t, l, Items(q), {n});
    BalanceKeeps(t.(left := l));
    FitLeft(Items(q), t, l);
  }

  lemma FitLeft(q: set<Route>, t: Tree, l: Tree)
    requires t.Node? && Valid(t) && AllFit(q, Items(l)) && forall k | k in q :: k.range.hi < t.rt.range.lo
    ensures AllFit(q, Items(t.(left := l)))
  {
    ValidProper(t);
    Apart(t.(left := l));
  }

  lemma FreshRight(t: Tree, n: Route, r: Tree, q: Tree)
    requires t.Node? && Valid(t) && n.range.lo > t.rt.range.hi && Valid(r) && Valid(q)
    requires Items(r) + Items(q) == Items(t.right) + {n} && AllFit(Items(q), Items(r))
    ensures var b := Balance(t.(right := r));
      Valid(b) && Items(b) + Items(q) == Items(t) + {n} && AllFit(Items(q), Items(b))
  {
    forall k | k in Items(r) || k in Items(q) ensures t.rt.range.hi < k.range.lo {
      assert k in Items(t.right) + {n};
    }
    PutRight(t, r, Items(q), {n});
    BalanceKeeps(t.(right := r));
    FitRight(Items(q), t, r);
  }

  lemma FitRight(q: set<Route>, t: Tree, r: Tree)
    requires t.Node? && Valid(t) && AllFit(q, Items(r)) && forall k | k in q :: t.rt.range.hi < k.range.lo
    ensures AllFit(q, Items(t.(right := r)))
  {
    ValidProper(t);
    Apart(t.(right := r));
  }

  lemma FreshMid(t: Tree, n: Route, m: Tree, q: Tree)
    requires t.Node? && Valid(t) && Strictly(n.range, t.rt.range) && Valid(m) && Valid(q)
    requires Items(m) + Items(q) == Items(t.mid) + {n} && AllFit(Items(q), Items(m))
    ensures var b := Balance(t.(mid := m));
      Valid(b) && Items(b) + Items(q) == Items(t) + {n} && AllFit(Items(q), Items(b))
  {
    forall k | k in Items(m) || k in Items(q) ensures Strictly(k.range, t.rt.range) {
      assert k in Items(t.mid) + {n};
    }
    PutMid(t, m, Items(q), {n});
    BalanceKeeps(t.(mid := m));
    FitMid(Items(q), t, m);
  }

  lemma FitMid(q: set<Route>, t: Tree, m: Tree)
    requires t.Node? && Valid(t) && AllFit(q, Items(m)) && forall k | k in q :: Strictly(k.range, t.rt.range)
    ensures AllFit(q, Items(t.(mid := m)))
  {
    ValidProper(t);
    Apart(t.(mid := m));
  }

  /** The new route contains the node it meets: it takes the node's place, and the node goes with
      everything beside and below it. */
  lemma FreshOver(t: Tree, n: Route)
    requires t.Node? && Valid(t) && Proper(n.range) && Strictly(t.rt.range, n.range)
    requires LaminarWith(n.range, Items(t)) && !HasRange(Items(t), n.range)
    ensures var b := Balance(Node(n, 1, Nil, Nil, Nil));
      Valid(b) && Items(b) + Items(t) == Items(t) + {n} && AllFit(Items(t), Items(b))
  {
    var b := Node(n, 1, Nil, Nil, Nil);
    BalanceKeeps(b);
    assert Items(b) == {n};
    assert t.rt in Items(t);
    forall x | x in Items(t) ensures Disjoint(x.range, n.range) || Strictly(x.range, n.range) {
      assert Laminar(n.range, x.range) && x.range != n.range;
    }
  }

  /** A route for a range already present changes that route's own data and nothing else. */
  lemma {:induction false} AddNodeOver(t: Tree, n: Route, old_: Route)
    requires Valid(t) && Proper(n.range) && old_ in Items(t) && old_.range == n.range
    ensures var (t', q) := AddNode(t, Leaf(n));
      Valid(t') && q == Nil && Items(t') == Items(t) - {old_} + {Route(n.range, Supersede(old_.info, n.info))}
  {
    var add := Route(n.range, Supersede(old_.info, n.info));
    ValidProper(t);
    if t.rt.range == n.range {
      ValidUnique(t, t.rt, old_);
      BalanceKeeps(t.(rt := add));
      assert Items(t.(rt := add)) == Items(t.left) + Items(t.mid) + Items(t.right) + {add};
      assert forall k | k in Items(t.left) + Items(t.mid) + Items(t.right) :: k.range != n.range;
    } else if old_ in Items(t.left) {
      AddNodeOver(t.left, n, old_);
      OverLeft(t, AddNode(t.left, Leaf(n)).0, old_, add);
    } else if old_ in Items(t.right) {
      AddNodeOver(t.right, n, old_);
      OverRight(t, AddNode(t.right, Leaf(n)).0, old_, add);
    } else {
      AddNodeOver(t.mid, n, old_);
      OverMid(t, AddNode(t.mid, Leaf(n)).0, old_, add);
    }
  }

  lemma Exchange(a: set<Route>, rest: set<Route>, old_: Route, add: Route)
    requires old_ !in rest
    ensures (a - {old_} + {add}) + rest == (a + rest) - {old_} + {add}
  {
  }

  lemma OverLeft(t: Tree, l: Tree, old_: Route, add: Route)
    requires t.Node? && Valid(t) && Valid(l) && old_ in Items(t.left) && old_.range == add.range
    requires Items(l) == Items(t.left) - {old_} + {add}
    ensures var b := Balance(t.(left := l)); Valid(b) && Items(b) == Items(t) - {old_} + {add}
  {
    SetLeft(t, l, old_, add);
    BalanceKeeps(t.(left := l));
  }

  lemma OverRight(t: Tree, r: Tree, old_: Route, add: Route)
    requires t.Node? && Valid(t) && Valid(r) && old_ in Items(t.right) && old_.range == add.range
    requires Items(r) == Items(t.right) - {old_} + {add}
    ensures var b := Balance(t.(right := r)); Valid(b) && Items(b) == Items(t) - {old_} + {add}
  {
    SetRight(t, r, old_, add);
    BalanceKeeps(t.(right := r));
  }

  lemma OverMid(t: Tree, m: Tree, old_: Route, add: Route)
    requires t.Node? && Valid(t) && Valid(m) && old_ in Items(t.mid) && old_.range == add.range
    requires Items(m) == Items(t.mid) - {old_} + {add}
    ensures var b := Balance(t.(mid := m)); Valid(b) && Items(b) == Items(t) - {old_} + {add}
  {
    SetMid(t, m, old_, add);
    BalanceKeeps(t.(mid := m));
  }

  // ---------- walking displaced subtrees back in ----------

  function Push(q: seq<Tree>, t: Tree): seq<Tree> {
    if t.Nil? then q else [t] + q
  }

  /** `walkadd`: the node (keeping its mid), then what was left of it, then what was right of it.
      Anything these displace goes on the queue. */
  function WalkAdd(t: Tree, q: seq<Tree>, p: Tree): (Tree, seq<Tree>)
    decreases p
  {
    if p.Nil? then (t, q)
    else
      var (t1, d) := AddNode(t, p.(left := Nil, right := Nil));
      var (t2, q2) := WalkAdd(t1, Push(q, d), p.left);
      WalkAdd(t2, q2, p.right)
  }

  /** Walking back a subtree that fits loses no route and displaces none. */
  lemma {:induction false} WalkAddKeeps(t: Tree, q: seq<Tree>, p: Tree)
    requires Valid(t) && Valid(p) && AllFit(Items(p), Items(t))
    ensures var (t', q') := WalkAdd(t, q, p);
      Valid(t') && q' == q && Items(t') == Items(t) + Items(p)
    decreases p
  {
    if p.Node? {
      WalkFirst(t, p);
      var t1 := AddNode(t, p.(left := Nil, right := Nil)).0;
      WalkAddKeeps(t1, q, p.left);
      var t2 := WalkAdd(t1, q, p.left).0;
      assert Items(t2) == Items(t1) + Items(p.left);
      WalkAddKeeps(t2, q, p.right);
      Gather(Items(t), p);
    }
  }

  /** The node itself goes in first; both sides then still fit. */
  lemma WalkFirst(t: Tree, p: Tree)
    requires Valid(t) && p.Node? && Valid(p) && AllFit(Items(p), Items(t))
    ensures var (t1, d) := AddNode(t, p.(left := Nil, right := Nil));
      && Valid(t1) && d == Nil && Items(t1) == Items(t) + Items(p.mid) + {p.rt}
      && AllFit(Items(p.left), Items(t1)) && AllFit(Items(p.right), Items(t1) + Items(p.left))
  {
    var n := p.(left := Nil, right := Nil);
    assert p.rt in Items(p);
    assert Fits(n.rt.range, Items(t));
    PutBack(t, n);
    WalkSides(p, t, AddNode(t, n).0);
  }

  lemma PutBack(t: Tree, n: Tree)
    requires Valid(t) && Loose(n) && Fits(n.rt.range, Items(t))
    ensures var (t', d) := AddNode(t, n); Valid(t') && d == Nil && Items(t') == Items(t) + Items(n.mid) + {n.rt}
  {
    AddNodeBack(t, n);
    assert Items(n) == Items(n.mid) + {n.rt};
    assert Items(t) + (Items(n.mid) + {n.rt}) == Items(t) + Items(n.mid) + {n.rt};
  }

  lemma Gather(s: set<Route>, p: Tree)
    requires p.Node?
    ensures ((s + Items(p.mid) + {p.rt}) + Items(p.left)) + Items(p.right) == s + Items(p)
  {
  }

  lemma WalkSides(p: Tree, t: Tree, t1: Tree)
    requires p.Node? && Valid(p) && AllFit(Items(p), Items(t)) && Items(t1) == Items(t) + Items(p.mid) + {p.rt}
    ensures AllFit(Items(p.left), Items(t1)) && AllFit(Items(p.right), Items(t1) + Items(p.left))
  {
    ValidProper(p);
  }

  /** Walking p back never puts anything on the queue. */
  ghost predicate Smooth(t: Tree, q: seq<Tree>, p: Tree)
    decreases p
  {
    p.Node? ==>
      var (t1, d) := AddNode(t, p.(left := Nil, right := Nil));
      d == Nil && Smooth(t1, q, p.left) && WalkAdd(t1, q, p.left).1 == q && Smooth(WalkAdd(t1, q, p.left).0, q, p.right)
  }

  lemma {:induction false} WalkSmooth(t: Tree, q: seq<Tree>, p: Tree)
    requires Valid(t) && Valid(p) && AllFit(Items(p), Items(t))
    ensures Smooth(t, q, p)
    decreases p
  {
    if p.Node? {
      WalkFirst(t, p);
      var t1 := AddNode(t, p.(left := Nil, right := Nil)).0;
      WalkAddKeeps(t1, q, p.left);
      WalkSmooth(t1, q, p.left);
      WalkSmooth(WalkAdd(t1, q, p.left).0, q, p.right);
    }
  }

  function QueueItems(q: seq<Tree>): set<Route> {
    if q == [] then {} else Items(q[0]) + QueueItems(q[1..])
  }

  /** The queue holds subtrees that can be walked back one after the other. */
  ghost predicate Drainable(t: Tree, q: seq<Tree>) {
    && Valid(t)
    && (q != [] ==>
      && q[0].Node? && Valid(q[0]) && AllFit(Items(q[0]), Items(t))
      && AllFit(QueueItems(q[1..]), Items(q[0])) && Drainable(t, q[1..]))
  }

  lemma {:induction false} DrainableAfter(t: Tree, t': Tree, x: set<Route>, q: seq<Tree>)
    requires Drainable(t, q) && Valid(t') && Items(t') == Items(t) + x && AllFit(QueueItems(q), x)
    ensures Drainable(t', q)
    decreases |q|
  {
    if q != [] {
      DrainableAfter(t, t', x, q[1..]);
    }
  }

  lemma DrainStep(t: Tree, q: seq<Tree>)
    requires Drainable(t, q) && q != []
    ensures var (t', q') := WalkAdd(t, q[1..], q[0]);
      q' == q[1..] && Drainable(t', q') && Items(t') == Items(t) + Items(q[0]) && Smooth(t, q[1..], q[0])
  {
    WalkAddKeeps(t, q[1..], q[0]);
    WalkSmooth(t, q[1..], q[0]);
    DrainableAfter(t, WalkAdd(t, q[1..], q[0]).0, Items(q[0]), q[1..]);
  }

  /** The loop that empties the queue; it terminates because nothing is ever pushed back. */
  function Drain(t: Tree, q: seq<Tree>): Tree
    requires Drainable(t, q)
    decreases |q|
  {
    if q == [] then t
    else
      DrainStep(t, q);
      var (t', q') := WalkAdd(t, q[1..], q[0]);
      Drain(t', q')
  }

  lemma {:induction false} DrainKeeps(t: Tree, q: seq<Tree>)
    requires Drainable(t, q)
    ensures Valid(Drain(t, q)) && Items(Drain(t, q)) == Items(t) + QueueItems(q)
    decreases |q|
  {
    if q != [] {
      DrainStep(t, q);
      var (t', q') := WalkAdd(t, q[1..], q[0]);
      DrainKeeps(t', q');
    }
  }

  // ---------- deletion ----------

  /** The tree with the node for a range, and all below it, cut off; and what was cut off. */
  function Cut(t: Tree, r: Range): (Tree, Tree) {
    if t.Nil? then (Nil, Nil)
    else
      match RangeCompare(r, t.rt.range)
      case Contains => (t, Nil)
      case Precedes =>
        var (l, s) := Cut(t.left, r);
        (t.(left := l), s)
      case Follows =>
        var (x, s) := Cut(t.right, r);
        (t.(right := x), s)
      case Contained =>
        var (m, s) := Cut(t.mid, r);
        (t.(mid := m), s)
      case Equals => (Nil, t)
  }

  /** Cutting finds the range exactly when it is there, and what is cut off can be walked back. */
  lemma {:induction false} CutKeeps(t: Tree, r: Range)
    requires Valid(t) && Proper(r) && LaminarWith(r, Items(t))
    ensures var (t', s) := Cut(t, r);
      && Valid(t') && Valid(s) && Items(t') + Items(s) == Items(t) && AllFit(Items(s), Items(t'))
      && (s.Node? <==> HasRange(Items(t), r)) && (s.Node? ==> s.rt.range == r)
  {
    if t.Node? {
      OnPath(t, r);
      match RangeCompare(r, t.rt.range)
      case Contains =>
      case Precedes =>
        CutKeeps(t.left, r);
        CutLeft(t, Cut(t.left, r).0, Cut(t.left, r).1);
      case Follows =>
        CutKeeps(t.right, r);
        CutRight(t, Cut(t.right, r).0, Cut(t.right, r).1);
      case Contained =>
        CutKeeps(t.mid, r);
        CutMid(t, Cut(t.mid, r).0, Cut(t.mid, r).1);
      case Equals =>
    }
  }

  lemma CutLeft(t: Tree, l: Tree, s: Tree)
    requires t.Node? && Valid(t) && Valid(l) && Items(l) + Items(s) == Items(t.left) && AllFit(Items(s), Items(l))
    ensures var t' := t.(left := l); Valid(t') && Items(t') + Items(s) == Items(t) && AllFit(Items(s), Items(t'))
  {
    var t' := t.(left := l);
    forall k | k in Items(l) || k in Items(s) ensures k.range.hi < t.rt.range.lo {
      assert k in Items(t.left);
    }
    FitLeft(Items(s), t, l);
    Regroup(Items(l), Items(s), Items(t.mid) + Items(t.right) + {t.rt});
    Apart(t);
    Apart(t');
  }

  lemma CutRight(t: Tree, x: Tree, s: Tree)
    requires t.Node? && Valid(t) && Valid(x) && Items(x) + Items(s) == Items(t.right) && AllFit(Items(s), Items(x))
    ensures var t' := t.(right := x); Valid(t') && Items(t') + Items(s) == Items(t) && AllFit(Items(s), Items(t'))
  {
    var t' := t.(right := x);
    forall k | k in Items(x) || k in Items(s) ensures t.rt.range.hi < k.range.lo {
      assert k in Items(t.right);
    }
    FitRight(Items(s), t, x);
    Regroup(Items(x), Items(s), Items(t.left) + Items(t.mid) + {t.rt});
    Apart(t);
    Apart(t');
  }

  lemma Regroup(a: set<Route>, d: set<Route>, rest: set<Route>)
    ensures (a + rest) + d == (a + d) + rest
  {
  }

  lemma CutMid(t: Tree, m: Tree, s: Tree)
    requires t.Node? && Valid(t) && Valid(m) && Items(m) + Items(s) == Items(t.mid) && AllFit(Items(s), Items(m))
    ensures var t' := t.(mid := m); Valid(t') && Items(t') + Items(s) == Items(t) && AllFit(Items(s), Items(t'))
  {
    var t' := t.(mid := m);
    forall k | k in Items(m) || k in Items(s) ensures Strictly(k.range, t.rt.range) {
      assert k in Items(t.mid);
    }
    FitMid(Items(s), t, m);
    Regroup(Items(m), Items(s), Items(t.left) + Items(t.right) + {t.rt});
    Apart(t);
    Apart(t');
  }

  /** Comparing with the node tells which subtree a range can be in. */
  lemma OnPath(t: Tree, r: Range)
    requires t.Node? && Valid(t) && Proper(r) && LaminarWith(r, Items(t))
    ensures match RangeCompare(r, t.rt.range)
      case Contains => !HasRange(Items(t), r)
      case Precedes => HasRange(Items(t), r) <==> HasRange(Items(t.left), r)
      case Follows => HasRange(Items(t), r) <==> HasRange(Items(t.right), r)
      case Contained => HasRange(Items(t), r) <==> HasRange(Items(t.mid), r)
      case Equals => HasRange(Items(t), r)
  {
    assert t.rt in Items(t) && Laminar(r, t.rt.range);
    ValidProper(t);
  }

  /** Changing one node's data in place, where the search finds it. */
  function SetInfo(t: Tree, r: Range, info: Info): Tree {
    if t.Nil? then Nil
    else
      match RangeCompare(r, t.rt.range)
      case Contains => t
      case Precedes => t.(left := SetInfo(t.left, r, info))
      case Follows => t.(right := SetInfo(t.right, r, info))
      case Contained => t.(mid := SetInfo(t.mid, r, info))
      case Equals => t.(rt := Route(t.rt.range, info))
  }

  lemma {:induction false} SetInfoKeeps(t: Tree, old_: Route, info: Info)
    requires Valid(t) && old_ in Items(t)
    ensures var t' := SetInfo(t, old_.range, info);
      Valid(t') && Items(t') == Items(t) - {old_} + {Route(old_.range, info)}
  {
    var add := Route(old_.range, info);
    ValidProper(t);
    Apart(t);
    if t.rt.range == old_.range {
      ValidUnique(t, t.rt, old_);
      assert forall k | k in Items(t.left) + Items(t.mid) + Items(t.right) :: k.range != old_.range;
    } else if old_ in Items(t.left) {
      SetInfoKeeps(t.left, old_, info);
      SetLeft(t, SetInfo(t.left, old_.range, info), old_, add);
    } else if old_ in Items(t.right) {
      SetInfoKeeps(t.right, old_, info);
      SetRight(t, SetInfo(t.right, old_.range, info), old_, add);
    } else {
      SetInfoKeeps(t.mid, old_, info);
      SetMid(t, SetInfo(t.mid, old_.range, info), old_, add);
    }
  }

  lemma SetLeft(t: Tree, l: Tree, old_: Route, add: Route)
    requires t.Node? && Valid(t) && Valid(l) && old_ in Items(t.left) && old_.range == add.range
    requires Items(l) == Items(t.left) - {old_} + {add}
    ensures Valid(t.(left := l)) && Items(t.(left := l)) == Items(t) - {old_} + {add}
  {
    ValidProper(t);
    Apart(t);
    Apart(t.(left := l));
    Exchange(Items(t.left), Items(t.mid) + Items(t.right) + {t.rt}, old_, add);
  }

  lemma SetRight(t: Tree, r: Tree, old_: Route, add: Route)
    requires t.Node? && Valid(t) && Valid(r) && old_ in Items(t.right) && old_.range == add.range
    requires Items(r) == Items(t.right) - {old_} + {add}
    ensures Valid(t.(right := r)) && Items(t.(right := r)) == Items(t) - {old_} + {add}
  {
    ValidProper(t);
    Apart(t);
    Apart(t.(right := r));
    Exchange(Items(t.right), Items(t.left) + Items(t.mid) + {t.rt}, old_, add);
  }

  lemma SetMid(t: Tree, m: Tree, old_: Route, add: Route)
    requires t.Node? && Valid(t) && Valid(m) && old_ in Items(t.mid) && old_.range == add.range
    requires Items(m) == Items(t.mid) - {old_} + {add}
    ensures Valid(t.(mid := m)) && Items(t.(mid := m)) == Items(t) - {old_} + {add}
  {
    ValidProper(t);
    Apart(t);
    Apart(t.(mid := m));
    Exchange(Items(t.mid), Items(t.left) + Items(t.right) + {t.rt}, old_, add);
  }

  // ---------- one bucket, against a finite map from ranges ----------

  type RouteMap = map<Range, Info>

  /** The routes of a map. */
  ghost function ItemsOf(A: RouteMap): set<Route> {
    set k | k in A :: Route(k, A[k])
  }

  function AbsAdd(A: RouteMap, n: Route): RouteMap {
    A[n.range := if n.range in A then Supersede(A[n.range], n.info) else n.info]
  }

  function DropRef(info: Info): Info {
    info.(ref := info.ref - 1)
  }

  function AbsDel(A: RouteMap, r: Range): RouteMap {
    if r !in A then A
    else if A[r].ref - 1 == 0 then A - {r}
    else A[r := DropRef(A[r])]
  }

  /** The tree holds exactly the routes of the map. */
  ghost predicate Refines(t: Tree, A: RouteMap) {
    Valid(t) && Items(t) == ItemsOf(A)
  }

  /** What `addnode` leaves on the queue can be drained. */
  lemma AddDrainable(t: Tree, n: Route)
    requires Valid(t) && Proper(n.range) && LaminarWith(n.range, Items(t))
    ensures var (t', d) := AddNode(t, Leaf(n)); Drainable(t', Push([], d))
  {
    if HasRange(Items(t), n.range) {
      var old_ :| old_ in Items(t) && old_.range == n.range;
      AddNodeOver(t, n, old_);
    } else {
      AddNodeFresh(t, n);
    }
    var (t', d) := AddNode(t, Leaf(n));
    PushDrainable(t', [], d);
  }

  /** Adding a route to one bucket: insert, then drain the queue. */
  function BucketAdd(t: Tree, n: Route): Tree
    requires Valid(t) && Proper(n.range) && LaminarWith(n.range, Items(t))
  {
    AddDrainable(t, n);
    var (t', d) := AddNode(t, Leaf(n));
    Drain(t', Push([], d))
  }

  /** Insertion into a tree is insertion into the map it refines. */
  lemma BucketAddRefines(t: Tree, A: RouteMap, n: Route)
    requires Refines(t, A) && Proper(n.range) && LaminarWith(n.range, Items(t))
    ensures Refines(BucketAdd(t, n), AbsAdd(A, n))
  {
    AddDrainable(t, n);
    var (t', d) := AddNode(t, Leaf(n));
    DrainKeeps(t', Push([], d));
    PushItems([], d);
    assert Items(BucketAdd(t, n)) == Items(t') + Items(d);
    BucketItems(t, A, n);
  }

  /** The routes in the tree and on the queue after insertion are those of the new map. */
  lemma BucketItems(t: Tree, A: RouteMap, n: Route)
    requires Refines(t, A) && Proper(n.range) && LaminarWith(n.range, Items(t))
    ensures var (t', d) := AddNode(t, Leaf(n)); Items(t') + Items(d) == ItemsOf(AbsAdd(A, n))
  {
    HasInMap(t, A, n.range);
    if n.range in A {
      AddNodeOver(t, n, Route(n.range, A[n.range]));
      UpdateItems(A, n.range, Supersede(A[n.range], n.info));
    } else {
      AddNodeFresh(t, n);
      JoinItems(A, n);
    }
  }

  lemma UpdateItems(A: RouteMap, r: Range, info: Info)
    requires r in A
    ensures ItemsOf(A[r := info]) == ItemsOf(A) - {Route(r, A[r])} + {Route(r, info)}
  {
    var B := A[r := info];
    forall k: Route ensures k in ItemsOf(B) <==> k in ItemsOf(A) - {Route(r, A[r])} + {Route(r, info)} {
      assert k in ItemsOf(B) <==> k.range in B && B[k.range] == k.info;
      assert k in ItemsOf(A) <==> k.range in A && A[k.range] == k.info;
    }
  }

  lemma JoinItems(A: RouteMap, n: Route)
    requires n.range !in A
    ensures ItemsOf(A[n.range := n.info]) == ItemsOf(A) + {n}
  {
    var B := A[n.range := n.info];
    forall k: Route ensures k in ItemsOf(B) <==> k in ItemsOf(A) + {n} {
      assert k in ItemsOf(B) <==> k.range in B && B[k.range] == k.info;
      assert k in ItemsOf(A) <==> k.range in A && A[k.range] == k.info;
    }
  }

  lemma DropItems(A: RouteMap, r: Range)
    requires r in A
    ensures ItemsOf(A - {r}) == ItemsOf(A) - {Route(r, A[r])}
  {
    var B := A - {r};
    forall k: Route ensures k in ItemsOf(B) <==> k in ItemsOf(A) - {Route(r, A[r])} {
      assert k in ItemsOf(B) <==> k.range in B && B[k.range] == k.info;
      assert k in ItemsOf(A) <==> k.range in A && A[k.range] == k.info;
    }
  }

  /** The queue a deletion fills: right on top of mid on top of left. */
  function Orphans(s: Tree): seq<Tree>
    requires s.Node?
  {
    Push(Push(Push([], s.left), s.mid), s.right)
  }

  lemma OrphansDrainable(t: Tree, s: Tree)
    requires Valid(t) && s.Node? && Valid(s) && AllFit(Items(s), Items(t))
    ensures Drainable(t, Orphans(s)) && QueueItems(Orphans(s)) == Items(s.left) + Items(s.mid) + Items(s.right)
  {
    ChildrenFit(t, s);
    PushDrainable(t, [], s.left);
    OrphansAbove(t, Push([], s.left), s);
  }

  lemma OrphansAbove(t: Tree, q1: seq<Tree>, s: Tree)
    requires s.Node? && Valid(s) && Drainable(t, q1) && QueueItems(q1) == Items(s.left)
    requires AllFit(Items(s.mid), Items(t)) && AllFit(Items(s.right), Items(t))
    requires AllFit(Items(s.left), Items(s.mid)) && AllFit(Items(s.left), Items(s.right)) && AllFit(Items(s.mid), Items(s.right))
    ensures var q := Push(Push(q1, s.mid), s.right);
      Drainable(t, q) && QueueItems(q) == Items(s.left) + Items(s.mid) + Items(s.right)
  {
    PushDrainable(t, q1, s.mid);
    var q2 := Push(q1, s.mid);
    FitUnion(Items(s.mid), Items(s.left), Items(s.right));
    assert QueueItems(q2) == Items(s.mid) + Items(s.left);
    PushDrainable(t, q2, s.right);
    Backwards(Items(s.right), Items(s.mid), Items(s.left));
  }

  lemma Backwards(a: set<Route>, b: set<Route>, c: set<Route>)
    ensures a + (b + c) == c + b + a
  {
  }

  lemma FitUnion(a: set<Route>, b: set<Route>, y: set<Route>)
    requires AllFit(a, y) && AllFit(b, y)
    ensures AllFit(a + b, y)
  {
  }

  lemma ChildrenFit(t: Tree, s: Tree)
    requires s.Node? && Valid(s) && AllFit(Items(s), Items(t))
    ensures AllFit(Items(s.left), Items(t)) && AllFit(Items(s.mid), Items(t)) && AllFit(Items(s.right), Items(t))
    ensures AllFit(Items(s.left), Items(s.mid)) && AllFit(Items(s.left), Items(s.right)) && AllFit(Items(s.mid), Items(s.right))
  {
    ValidProper(s);
  }

  lemma PushDrainable(t: Tree, q: seq<Tree>, x: Tree)
    requires Drainable(t, q) && Valid(x) && AllFit(Items(x), Items(t)) && AllFit(QueueItems(q), Items(x))
    ensures Drainable(t, Push(q, x)) && QueueItems(Push(q, x)) == Items(x) + QueueItems(q)
  {
    PushItems(q, x);
    if x.Node? {
      assert ([x] + q)[1..] == q;
    }
  }

  lemma PushItems(q: seq<Tree>, t: Tree)
    ensures QueueItems(Push(q, t)) == Items(t) + QueueItems(q)
  {
    if t.Node? {
      assert ([t] + q)[1..] == q;
    }
  }

  /** Deleting a range from one bucket: drop a reference, and at zero cut and re-inject. */
  function BucketDel(t: Tree, r: Range): Tree
    requires Valid(t) && Proper(r) && LaminarWith(r, Items(t))
  {
    var (t', s) := Cut(t, r);
    if s.Nil? then t
    else if s.rt.info.ref - 1 == 0 then
      CutKeeps(t, r);
      OrphansDrainable(t', s);
      Drain(t', Orphans(s))
    else SetInfo(t, r, DropRef(s.rt.info))
  }

  /** Deletion from a tree is deletion from the map it refines. */
  lemma BucketDelRefines(t: Tree, A: RouteMap, r: Range)
    requires Refines(t, A) && Proper(r) && LaminarWith(r, Items(t))
    ensures Refines(BucketDel(t, r), AbsDel(A, r))
  {
    CutKeeps(t, r);
    HasInMap(t, A, r);
    var t', s := Cut(t, r).0, Cut(t, r).1;
    if s.Node? {
      CutRoot(t, A, r, s, t');
      if A[r].ref - 1 == 0 {
        LastReference(t, A, r, t', s);
        assert BucketDel(t, r) == Drain(t', Orphans(s));
      } else {
        var info := DropRef(s.rt.info);
        SetInfoKeeps(t, s.rt, info);
        UpdateItems(A, r, info);
        assert BucketDel(t, r) == SetInfo(t, r, info);
      }
    }
  }

  lemma HasInMap(t: Tree, A: RouteMap, r: Range)
    requires Items(t) == ItemsOf(A)
    ensures HasRange(Items(t), r) <==> r in A
  {
    if r in A { assert Route(r, A[r]) in Items(t); }
  }

  lemma CutRoot(t: Tree, A: RouteMap, r: Range, s: Tree, t': Tree)
    requires Items(t) == ItemsOf(A) && s.Node? && s.rt.range == r && Items(t') + Items(s) == Items(t)
    ensures r in A && s.rt == Route(r, A[r]) && s.rt in Items(t)
  {
    assert s.rt in Items(s);
    assert s.rt in Items(t') + Items(s);
  }

  lemma LastReference(t: Tree, A: RouteMap, r: Range, t': Tree, s: Tree)
    requires Items(t) == ItemsOf(A) && r in A && s.Node? && s.rt == Route(r, A[r])
    requires Valid(t') && Valid(s) && Items(t') + Items(s) == Items(t) && AllFit(Items(s), Items(t'))
    ensures Drainable(t', Orphans(s)) && Refines(Drain(t', Orphans(s)), A - {r})
  {
    OrphansDrainable(t', s);
    DrainKeeps(t', Orphans(s));
    DropItems(A, r);
    DeleteItems(t, t', s);
  }

  lemma DeleteItems(t: Tree, t': Tree, s: Tree)
    requires s.Node? && Valid(s) && Items(t') + Items(s) == Items(t) && AllFit(Items(s), Items(t'))
    ensures Items(t') + (Items(s.left) + Items(s.mid) + Items(s.right)) == Items(t) - {s.rt}
  {
    ValidProper(s);
    assert s.rt in Items(s);
    assert s.rt !in Items(t');
    assert s.rt !in Items(s.left) + Items(s.mid) + Items(s.right);
  }
}
