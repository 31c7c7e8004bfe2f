/** The routing trees as they are: nodes that point at each other and are changed in place.

    A `Shape` names the nodes of a tree without their contents, so that it does not change when a
    node does; `Holds` says the pointers have that shape, and `View` reads the tree off the heap.
    Every method below is the corresponding step of RouteTree, applied to the view. */
module RouteHeap {
  import opened RouteTree

  class RouteNode {
    var lo: nat
    var hi: nat
    var kind: nat
    var tag: string
    var gate: nat
    var ref: int
    var depth: nat
    var left: RouteNode?
    var mid: RouteNode?
    var right: RouteNode?

    function Rt(): Route
      reads this
    {
      Route(Range(lo, hi), Info(kind, tag, gate, ref))
    }

    /** `allocroute`: a zeroed node with one reference. */
    constructor (r: Range, info: Info)
      ensures Rt() == Route(r, info) && depth == 0
      ensures left == null && mid == null && right == null
    {
      lo, hi, kind, tag, gate, ref := r.lo, r.hi, info.kind, info.tag, info.gate, info.ref;
      depth, left, mid, right := 0, null, null, null;
    }
  }

  datatype Shape = Empty | At(n: RouteNode, l: Shape, m: Shape, r: Shape)

  ghost function Objs(s: Shape): set<RouteNode> {
    if s.Empty? then {} else {s.n} + Objs(s.l) + Objs(s.m) + Objs(s.r)
  }

  /** No node occurs twice. */
  ghost predicate Distinct(s: Shape) {
    s.At? ==>
      && Distinct(s.l) && Distinct(s.m) && Distinct(s.r)
      && s.n !in Objs(s.l) && s.n !in Objs(s.m) && s.n !in Objs(s.r)
      && Objs(s.l) !! Objs(s.m) && Objs(s.l) !! Objs(s.r) && Objs(s.m) !! Objs(s.r)
  }

  ghost predicate Holds(p: RouteNode?, s: Shape)
    reads Objs(s)`left, Objs(s)`mid, Objs(s)`right
  {
    if s.Empty? then p == null
    else p == s.n && Holds(s.n.left, s.l) && Holds(s.n.mid, s.m) && Holds(s.n.right, s.r)
  }

  ghost function View(s: Shape): Tree
    reads Objs(s)
  {
    if s.Empty? then Nil else Node(s.n.Rt(), s.n.depth, View(s.l), View(s.m), View(s.r))
  }

  ghost predicate Is(p: RouteNode?, s: Shape)
    reads Objs(s)`left, Objs(s)`mid, Objs(s)`right
  {
    var whole := Distinct(s) && Holds(p, s);
    whole
  }

  /** The parts of a shape hold at the node's pointers. */
  lemma Parts(p: RouteNode, s: Shape)
    requires Is(p, s)
    ensures s.At? && s.n == p && Is(p.left, s.l) && Is(p.mid, s.m) && Is(p.right, s.r)
    ensures View(s) == Node(p.Rt(), p.depth, View(s.l), View(s.m), View(s.r))
    ensures Objs(s) == {p} + Objs(s.l) + Objs(s.m) + Objs(s.r) && p !in Objs(s.l) + Objs(s.m) + Objs(s.r)
    ensures Objs(s.l) !! Objs(s.m) && Objs(s.l) !! Objs(s.r) && Objs(s.m) !! Objs(s.r)
  {
  }

  lemma DepthOf(p: RouteNode?, s: Shape)
    requires Is(p, s)
    ensures Depth(View(s)) == if p == null then 0 else p.depth
  {
  }

  /** A node and three trees without it or each other make a tree. */
  lemma Assemble(p: RouteNode, l: Shape, m: Shape, r: Shape)
    requires Is(p.left, l) && Is(p.mid, m) && Is(p.right, r)
    requires p !in Objs(l) + Objs(m) + Objs(r) && Objs(l) !! Objs(m) && Objs(l) !! Objs(r) && Objs(m) !! Objs(r)
    ensures Is(p, At(p, l, m, r))
    ensures View(At(p, l, m, r)) == Node(p.Rt(), p.depth, View(l), View(m), View(r))
  {
  }

  /** The nodes of a shape that is at hand exist, so that calls that do not name them leave them be. */
  lemma {:induction false} Exist(s: Shape)
    ensures forall o | o in Objs(s) :: allocated(o)
  {
    if s.At? {
      Exist(s.l);
      Exist(s.m);
      Exist(s.r);
    }
  }

  method CalcDepth(p: RouteNode, ghost s: Shape)
    requires Is(p, s)
    modifies p`depth
    ensures Is(p, s) && View(s) == CalcD(old(View(s)))
  {
    Parts(p, s);
    DepthOf(p.left, s.l);
    DepthOf(p.mid, s.m);
    DepthOf(p.right, s.r);
    var d := 0;
    if p.left != null {
      d := p.left.depth;
    }
    if p.right != null && p.right.depth > d {
      d := p.right.depth;
    }
    if p.mid != null && p.mid.depth > d {
      d := p.mid.depth;
    }
    p.depth := (d + 1) % 256;
    Assemble(p, s.l, s.m, s.r);
  }

  // The two pointer writes of a rotation.

  method TakeRight(p: RouteNode, l: RouteNode, ghost a: Shape, ghost b: Shape, ghost c: Shape, ghost d: Shape, ghost e: Shape)
    requires p != l && {p, l} !! Objs(a) + Objs(b) + Objs(c) + Objs(d) + Objs(e)
    requires Is(l.left, a) && Is(l.mid, b) && Is(l.right, c) && Is(p.mid, d) && Is(p.right, e)
    modifies p`left
    ensures Is(l.left, a) && Is(l.mid, b) && Is(p.left, c) && Is(p.mid, d) && Is(p.right, e)
    ensures View(a) == old(View(a)) && View(b) == old(View(b)) && View(c) == old(View(c))
    ensures View(d) == old(View(d)) && View(e) == old(View(e))
  {
    p.left := l.right;
  }

  method GiveRight(p: RouteNode, l: RouteNode, ghost a: Shape, ghost b: Shape, ghost c: Shape, ghost d: Shape, ghost e: Shape)
    requires p != l && {p, l} !! Objs(a) + Objs(b) + Objs(c) + Objs(d) + Objs(e)
    requires Is(l.left, a) && Is(l.mid, b) && Is(p.left, c) && Is(p.mid, d) && Is(p.right, e)
    modifies l`right
    ensures l.right == p && Is(l.left, a) && Is(l.mid, b) && Is(p.left, c) && Is(p.mid, d) && Is(p.right, e)
    ensures View(a) == old(View(a)) && View(b) == old(View(b)) && View(c) == old(View(c))
    ensures View(d) == old(View(d)) && View(e) == old(View(e))
  {
    l.right := p;
  }

  method TakeLeft(p: RouteNode, r: RouteNode, ghost a: Shape, ghost b: Shape, ghost c: Shape, ghost d: Shape, ghost e: Shape)
    requires p != r && {p, r} !! Objs(a) + Objs(b) + Objs(c) + Objs(d) + Objs(e)
    requires Is(p.left, a) && Is(p.mid, b) && Is(r.left, c) && Is(r.mid, d) && Is(r.right, e)
    modifies p`right
    ensures Is(p.left, a) && Is(p.mid, b) && Is(p.right, c) && Is(r.mid, d) && Is(r.right, e)
    ensures View(a) == old(View(a)) && View(b) == old(View(b)) && View(c) == old(View(c))
    ensures View(d) == old(View(d)) && View(e) == old(View(e))
  {
    p.right := r.left;
  }

  method GiveLeft(p: RouteNode, r: RouteNode, ghost a: Shape, ghost b: Shape, ghost c: Shape, ghost d: Shape, ghost e: Shape)
    requires p != r && {p, r} !! Objs(a) + Objs(b) + Objs(c) + Objs(d) + Objs(e)
    requires Is(p.left, a) && Is(p.mid, b) && Is(p.right, c) && Is(r.mid, d) && Is(r.right, e)
    modifies r`left
    ensures r.left == p && Is(p.left, a) && Is(p.mid, b) && Is(p.right, c) && Is(r.mid, d) && Is(r.right, e)
    ensures View(a) == old(View(a)) && View(b) == old(View(b)) && View(c) == old(View(c))
    ensures View(d) == old(View(d)) && View(e) == old(View(e))
  {
    r.left := p;
  }

  method RelinkR(p: RouteNode, l: RouteNode, ghost s: Shape) returns (ghost s': Shape)
    requires Is(p, s) && p.left == l
    modifies Objs(s)
    ensures Is(l, s') && Objs(s') == Objs(s) && l.right == p
    ensures var t := old(View(s)); t.Node? && t.left.Node? && View(s') == t.left.(right := t.(left := t.left.right))
  {
    Parts(p, s);
    Parts(l, s.l);
    TakeRight(p, l, s.l.l, s.l.m, s.l.r, s.m, s.r);
    GiveRight(p, l, s.l.l, s.l.m, s.l.r, s.m, s.r);
    Assemble(p, s.l.r, s.m, s.r);
    s' := At(l, s.l.l, s.l.m, At(p, s.l.r, s.m, s.r));
    Assemble(l, s.l.l, s.l.m, s'.r);
  }

  method RelinkL(p: RouteNode, r: RouteNode, ghost s: Shape) returns (ghost s': Shape)
    requires Is(p, s) && p.right == r
    modifies Objs(s)
    ensures Is(r, s') && Objs(s') == Objs(s) && r.left == p
    ensures var t := old(View(s)); t.Node? && t.right.Node? && View(s') == t.right.(left := t.(right := t.right.left))
  {
    Parts(p, s);
    Parts(r, s.r);
    TakeLeft(p, r, s.l, s.m, s.r.l, s.r.m, s.r.r);
    GiveLeft(p, r, s.l, s.m, s.r.l, s.r.m, s.r.r);
    Assemble(p, s.l, s.m, s.r.l);
    s' := At(r, At(p, s.l, s.m, s.r.l), s.r.m, s.r.r);
    Assemble(r, s'.l, s.r.m, s.r.r);
  }

  /** `calcd` of a child, then of its parent. */
  method CalcBoth(child: RouteNode, p: RouteNode, ghost s: Shape, ghost onRight: bool)
    requires Is(p, s) && (if onRight then p.right == child else p.left == child)
    modifies child`depth, p`depth
    ensures Is(p, s) && old(View(s)).Node?
    ensures View(s) == CalcD(WithChild(old(View(s)), onRight))
  {
    Exist(s);
    Parts(p, s);
    ghost var l, m, r := View(s.l), View(s.m), View(s.r);
    ghost var c := if onRight then s.r else s.l;
    CalcDepth(child, c);
    Assemble(p, s.l, s.m, s.r);
    assert View(s.m) == m && (if onRight then View(s.l) == l else View(s.r) == r);
    CalcDepth(p, s);
  }

  ghost function WithChild(t: Tree, onRight: bool): Tree
    requires t.Node?
  {
    if onRight then t.(right := CalcD(t.right)) else t.(left := CalcD(t.left))
  }

  /** `balancetree`, returning what it stores in *cur. */
  method BalanceTree(p: RouteNode, ghost s: Shape) returns (root: RouteNode, ghost s': Shape)
    requires Is(p, s)
    modifies Objs(s)
    ensures Is(root, s') && Objs(s') == Objs(s) && View(s') == Balance(old(View(s)))
  {
    Parts(p, s);
    DepthOf(p.left, s.l);
    DepthOf(p.right, s.r);
    var l, r := p.left, p.right;
    var dl, dr := 0, 0;
    if l != null {
      dl := l.depth;
    }
    if r != null {
      dr := r.depth;
    }
    if dl > dr + 1 {
      s' := RelinkR(p, l, s);
      CalcBoth(p, l, s', true);
      root := l;
    } else if dr > dl + 1 {
      s' := RelinkL(p, r, s);
      CalcBoth(p, r, s', false);
      root := r;
    } else {
      CalcDepth(p, s);
      root, s' := p, s;
    }
  }

  /** Storing a changed subtree at p's left and balancing p. */
  method HangLeft(p: RouteNode, x: RouteNode?, ghost l: Shape, ghost m: Shape, ghost r: Shape)
      returns (root: RouteNode, ghost s': Shape)
    requires Is(x, l) && Is(p.mid, m) && Is(p.right, r)
    requires p !in Objs(l) + Objs(m) + Objs(r) && Objs(l) !! Objs(m) && Objs(l) !! Objs(r) && Objs(m) !! Objs(r)
    modifies {p} + Objs(l) + Objs(m) + Objs(r)
    ensures Is(root, s') && Objs(s') == {p} + Objs(l) + Objs(m) + Objs(r)
    ensures View(s') == Balance(Node(old(p.Rt()), old(p.depth), old(View(l)), old(View(m)), old(View(r))))
  {
    p.left := x;
    ghost var kept := Is(x, l) && Is(p.mid, m) && Is(p.right, r);
    assert kept && View(l) == old(View(l)) && View(m) == old(View(m)) && View(r) == old(View(r));
    Assemble(p, l, m, r);
    root, s' := BalanceTree(p, At(p, l, m, r));
  }

  method HangMid(p: RouteNode, x: RouteNode?, ghost l: Shape, ghost m: Shape, ghost r: Shape)
      returns (root: RouteNode, ghost s': Shape)
    requires Is(p.left, l) && Is(x, m) && Is(p.right, r)
    requires p !in Objs(l) + Objs(m) + Objs(r) && Objs(l) !! Objs(m) && Objs(l) !! Objs(r) && Objs(m) !! Objs(r)
    modifies {p} + Objs(l) + Objs(m) + Objs(r)
    ensures Is(root, s') && Objs(s') == {p} + Objs(l) + Objs(m) + Objs(r)
    ensures View(s') == Balance(Node(old(p.Rt()), old(p.depth), old(View(l)), old(View(m)), old(View(r))))
  {
    p.mid := x;
    ghost var kept := Is(p.left, l) && Is(x, m) && Is(p.right, r);
    assert kept && View(l) == old(View(l)) && View(m) == old(View(m)) && View(r) == old(View(r));
    Assemble(p, l, m, r);
    root, s' := BalanceTree(p, At(p, l, m, r));
  }

  method HangRight(p: RouteNode, x: RouteNode?, ghost l: Shape, ghost m: Shape, ghost r: Shape)
      returns (root: RouteNode, ghost s': Shape)
    requires Is(p.left, l) && Is(p.mid, m) && Is(x, r)
    requires p !in Objs(l) + Objs(m) + Objs(r) && Objs(l) !! Objs(m) && Objs(l) !! Objs(r) && Objs(m) !! Objs(r)
    modifies {p} + Objs(l) + Objs(m) + Objs(r)
    ensures Is(root, s') && Objs(s') == {p} + Objs(l) + Objs(m) + Objs(r)
    ensures View(s') == Balance(Node(old(p.Rt()), old(p.depth), old(View(l)), old(View(m)), old(View(r))))
  {
    p.right := x;
    ghost var kept := Is(p.left, l) && Is(p.mid, m) && Is(x, r);
    assert kept && View(l) == old(View(l)) && View(m) == old(View(m)) && View(r) == old(View(r));
    Assemble(p, l, m, r);
    root, s' := BalanceTree(p, At(p, l, m, r));
  }

  /** The tree and the displaced subtree a step of insertion leaves on the heap. */
  ghost predicate Outcome(root: RouteNode?, s': Shape, disp: RouteNode?, d: Shape, objs: set<RouteNode>, out: (Tree, Tree))
    reads Objs(s'), Objs(d)
  {
    var whole := Is(root, s') && Is(disp, d) && Objs(s') !! Objs(d) && Objs(s') + Objs(d) <= objs;
    whole && View(s') == out.0 && View(d) == out.1
  }

  method FirstDepth(nw: RouteNode, ghost n: Shape)
    requires Is(nw, n)
    modifies nw`depth
    ensures Is(nw, n) && old(View(n)).Node? && View(n) == old(View(n)).(depth := 1)
  {
    Parts(nw, n);
    nw.depth := 1;
    Assemble(nw, n.l, n.m, n.r);
  }

  /** `addnode`: returns what it stores in *cur, and the subtree it puts on the queue, if any. */
  method AddNode(p: RouteNode?, nw: RouteNode, ghost s: Shape, ghost n: Shape)
      returns (root: RouteNode, disp: RouteNode?, ghost s': Shape, ghost d: Shape)
    requires Is(p, s) && Is(nw, n) && Objs(s) !! Objs(n)
    modifies Objs(s) + Objs(n)
    ensures old(View(n)).Node?
    ensures Outcome(root, s', disp, d, Objs(s) + Objs(n), RouteTree.AddNode(old(View(s)), old(View(n))))
    decreases s, 1
  {
    Parts(nw, n);
    if p == null {
      FirstDepth(nw, n);
      root, disp, s', d := nw, null, n, Empty;
      return;
    }
    Parts(p, s);
    AddedIs(View(s), View(n));
    match RangeCompare(Range(nw.lo, nw.hi), Range(p.lo, p.hi)) {
      case Precedes =>
        root, disp, s', d := AddLeft(p, nw, s, n);
      case Follows =>
        root, disp, s', d := AddRight(p, nw, s, n);
      case Contained =>
        root, disp, s', d := AddMid(p, nw, s, n);
      case Contains =>
        root, s' := AddOver(p, nw, s, n);
        disp, d := p, s;
        Displaced(root, s', p, s, Objs(s) + Objs(n));
      case Equals =>
        root, s' := AddEqual(p, nw, s, n);
        disp, d := null, Empty;
        Settled(root, s', Objs(s) + Objs(n));
    }
  }

  // What each case of the comparison leaves, on values.

  ghost function AddedLeft(t: Tree, n: Tree): (Tree, Tree)
    requires t.Node? && n.Node?
  {
    var (l, q) := RouteTree.AddNode(t.left, n);
    (Balance(t.(left := l)), q)
  }

  ghost function AddedRight(t: Tree, n: Tree): (Tree, Tree)
    requires t.Node? && n.Node?
  {
    var (r, q) := RouteTree.AddNode(t.right, n);
    (Balance(t.(right := r)), q)
  }

  ghost function AddedMid(t: Tree, n: Tree): (Tree, Tree)
    requires t.Node? && n.Node?
  {
    var (m, q) := RouteTree.AddNode(t.mid, n);
    (Balance(t.(mid := m)), q)
  }

  ghost function Renewed(t: Tree, n: Tree): Tree
    requires t.Node? && n.Node?
  {
    t.(rt := Route(t.rt.range, Supersede(t.rt.info, n.rt.info)))
  }

  lemma AddedIs(t: Tree, n: Tree)
    requires t.Node? && n.Node?
    ensures RouteTree.AddNode(t, n) ==
      match RangeCompare(n.rt.range, t.rt.range)
      case Precedes => AddedLeft(t, n)
      case Follows => AddedRight(t, n)
      case Contained => AddedMid(t, n)
      case Contains => (Balance(n.(depth := 1)), t)
      case Equals => (Balance(Renewed(t, n)), Nil)
  {
  }

  /** The old tree was displaced. */
  lemma Displaced(root: RouteNode?, s': Shape, p: RouteNode?, s: Shape, objs: set<RouteNode>)
    requires Is(root, s') && Is(p, s) && Objs(s') !! Objs(s) && Objs(s') + Objs(s) <= objs
    ensures Outcome(root, s', p, s, objs, (View(s'), View(s)))
  {
  }

  /** Nothing was displaced. */
  lemma Settled(root: RouteNode?, s': Shape, objs: set<RouteNode>)
    requires Is(root, s') && Objs(s') <= objs
    ensures Outcome(root, s', null, Empty, objs, (View(s'), Nil))
  {
  }

  method AddLeft(p: RouteNode, nw: RouteNode, ghost s: Shape, ghost n: Shape)
      returns (root: RouteNode, disp: RouteNode?, ghost s': Shape, ghost d: Shape)
    requires Is(p, s) && Is(nw, n) && Objs(s) !! Objs(n) && RangeCompare(nw.Rt().range, p.Rt().range) == Precedes
    modifies Objs(s) + Objs(n)
    ensures old(View(n)).Node?
    ensures old(View(s)).Node? && Outcome(root, s', disp, d, Objs(s) + Objs(n), AddedLeft(old(View(s)), old(View(n))))
    decreases s, 0
  {
    Exist(s);
    Parts(p, s);
    Parts(nw, n);
    ghost var t := View(s);
    var x; ghost var l;
    x, disp, l, d := AddNode(p.left, nw, s.l, n);
    Exist(d);
    ghost var kept := Is(p.mid, s.m) && Is(p.right, s.r);
    assert kept && View(s.m) == t.mid && View(s.r) == t.right;
    ghost var vd := View(d);
    root, s' := HangLeft(p, x, l, s.m, s.r);
    kept := Is(disp, d);
    assert kept && View(d) == vd;
  }

  method AddRight(p: RouteNode, nw: RouteNode, ghost s: Shape, ghost n: Shape)
      returns (root: RouteNode, disp: RouteNode?, ghost s': Shape, ghost d: Shape)
    requires Is(p, s) && Is(nw, n) && Objs(s) !! Objs(n) && RangeCompare(nw.Rt().range, p.Rt().range) == Follows
    modifies Objs(s) + Objs(n)
    ensures old(View(n)).Node?
    ensures old(View(s)).Node? && Outcome(root, s', disp, d, Objs(s) + Objs(n), AddedRight(old(View(s)), old(View(n))))
    decreases s, 0
  {
    Exist(s);
    Parts(p, s);
    Parts(nw, n);
    ghost var t := View(s);
    var x; ghost var r;
    x, disp, r, d := AddNode(p.right, nw, s.r, n);
    Exist(d);
    ghost var kept := Is(p.left, s.l) && Is(p.mid, s.m);
    assert kept && View(s.l) == t.left && View(s.m) == t.mid;
    ghost var vd := View(d);
    root, s' := HangRight(p, x, s.l, s.m, r);
    kept := Is(disp, d);
    assert kept && View(d) == vd;
  }

  method AddMid(p: RouteNode, nw: RouteNode, ghost s: Shape, ghost n: Shape)
      returns (root: RouteNode, disp: RouteNode?, ghost s': Shape, ghost d: Shape)
    requires Is(p, s) && Is(nw, n) && Objs(s) !! Objs(n) && RangeCompare(nw.Rt().range, p.Rt().range) == Contained
    modifies Objs(s) + Objs(n)
    ensures old(View(n)).Node?
    ensures old(View(s)).Node? && Outcome(root, s', disp, d, Objs(s) + Objs(n), AddedMid(old(View(s)), old(View(n))))
    decreases s, 0
  {
    Exist(s);
    Parts(p, s);
    Parts(nw, n);
    ghost var t := View(s);
    var x; ghost var m;
    x, disp, m, d := AddNode(p.mid, nw, s.m, n);
    Exist(d);
    ghost var kept := Is(p.left, s.l) && Is(p.right, s.r);
    assert kept && View(s.l) == t.left && View(s.r) == t.right;
    ghost var vd := View(d);
    root, s' := HangMid(p, x, s.l, m, s.r);
    kept := Is(disp, d);
    assert kept && View(d) == vd;
  }

  /** A superset takes the node's place, and the node is put aside with all that hangs on it. */
  method AddOver(p: RouteNode, nw: RouteNode, ghost s: Shape, ghost n: Shape)
      returns (root: RouteNode, ghost s': Shape)
    requires Is(p, s) && Is(nw, n) && Objs(s) !! Objs(n) && RangeCompare(nw.Rt().range, p.Rt().range) == Contains
    modifies Objs(n)
    ensures old(View(n)).Node? && Is(p, s) && View(s) == old(View(s))
    ensures Is(root, s') && Objs(s') == Objs(n) && View(s') == Balance(old(View(n)).(depth := 1))
  {
    Exist(s);
    Exist(n);
    ghost var t := View(s);
    FirstDepth(nw, n);
    root, s' := BalanceTree(nw, n);
    ghost var kept := Is(p, s);
    assert kept && View(s) == t;
  }

  /** The same range: the old entry is superseded, or its reference counted. */
  method AddEqual(p: RouteNode, nw: RouteNode, ghost s: Shape, ghost n: Shape)
      returns (root: RouteNode, ghost s': Shape)
    requires Is(p, s) && Is(nw, n) && Objs(s) !! Objs(n) && RangeCompare(nw.Rt().range, p.Rt().range) == Equals
    modifies Objs(s)
    ensures old(View(n)).Node? && old(View(s)).Node?
    ensures Is(root, s') && Objs(s') == Objs(s) && View(s') == Balance(Renewed(old(View(s)), old(View(n))))
  {
    Parts(p, s);
    Parts(nw, n);
    ghost var t := Renewed(View(s), View(n));
    Renew(p, nw, s);
    assert View(s) == t;
    root, s' := BalanceTree(p, s);
  }

  /** The node's data change, its place does not. */
  method Renew(p: RouteNode, nw: RouteNode, ghost s: Shape)
    requires Is(p, s) && nw !in Objs(s) && nw.Rt().range == p.Rt().range
    modifies Objs(s)
    ensures Is(p, s) && old(View(s)).Node?
    ensures View(s) == old(View(s)).(rt := Route(old(p.Rt().range), Supersede(old(p.Rt().info), old(nw.Rt().info))))
  {
    Exist(s);
    Parts(p, s);
    ghost var t := View(s);
    SupersedeAt(p, nw);
    ghost var kept := Is(p.left, s.l) && Is(p.mid, s.m) && Is(p.right, s.r);
    assert kept && View(s.l) == t.left && View(s.m) == t.mid && View(s.r) == t.right;
    Assemble(p, s.l, s.m, s.r);
  }

  method SupersedeAt(p: RouteNode, nw: RouteNode)
    requires p != nw && nw.Rt().range == p.Rt().range
    modifies p`kind, p`gate, p`ref
    ensures p.Rt() == Route(old(p.Rt().range), Supersede(old(p.Rt().info), nw.Rt().info))
  {
    if !IsIfc(p.kind) {
      p.kind := nw.kind;
      p.gate := nw.gate;
    } else if IsIfc(nw.kind) {
      p.ref := p.ref + 1;
    }
  }

  // ---------- walking back and draining ----------

  /** Taking a node from its sides. */
  method Unside(p: RouteNode, ghost ps: Shape) returns (l: RouteNode?, r: RouteNode?)
    requires Is(p, ps)
    modifies p`left, p`right
    ensures Is(l, ps.l) && Is(r, ps.r) && Is(p, At(p, Empty, ps.m, Empty)) && old(View(ps)).Node?
    ensures View(ps.l) == old(View(ps)).left && View(ps.r) == old(View(ps)).right
    ensures View(At(p, Empty, ps.m, Empty)) == old(View(ps)).(left := Nil, right := Nil)
  {
    Exist(ps);
    Parts(p, ps);
    l, r := p.left, p.right;
    p.left := null;
    p.right := null;
    ghost var kept := Is(p.mid, ps.m) && Is(l, ps.l) && Is(r, ps.r);
    assert kept;
    Assemble(p, Empty, ps.m, Empty);
  }

  /** The first half of `walkadd`: take the node from its sides and put it in.  What insertion
      displaces would go on the queue; a node walked back displaces nothing. */
  method WalkNode(root: RouteNode?, p: RouteNode, ghost s: Shape, ghost ps: Shape)
      returns (x: RouteNode?, l: RouteNode?, r: RouteNode?, ghost s1: Shape)
    requires Is(root, s) && Is(p, ps) && Objs(s) !! Objs(ps) && View(ps).Node?
    requires RouteTree.AddNode(View(s), View(ps).(left := Nil, right := Nil)).1 == Nil
    modifies Objs(s) + {p} + Objs(ps.m)
    ensures Is(x, s1) && Objs(s1) <= Objs(s) + {p} + Objs(ps.m)
    ensures Is(l, ps.l) && Is(r, ps.r) && View(ps.l) == old(View(ps)).left && View(ps.r) == old(View(ps)).right
    ensures View(s1) == RouteTree.AddNode(old(View(s)), old(View(ps)).(left := Nil, right := Nil)).0
  {
    Exist(s);
    Exist(ps);
    Parts(p, ps);
    ghost var t, pt := View(s), View(ps);
    l, r := Unside(p, ps);
    ghost var kept := Is(root, s);
    assert kept && View(s) == t;
    var disp; ghost var d;
    x, disp, s1, d := AddNode(root, p, s, At(p, Empty, ps.m, Empty));
    kept := Is(l, ps.l) && Is(r, ps.r);
    assert kept && View(ps.l) == pt.left && View(ps.r) == pt.right;
  }

  /** `walkadd`: the node, then its left side, then its right side. */
  method WalkAdd(root: RouteNode?, p: RouteNode?, ghost s: Shape, ghost ps: Shape, ghost vq: seq<Tree>)
      returns (root': RouteNode?, ghost s': Shape)
    requires Is(root, s) && Is(p, ps) && Objs(s) !! Objs(ps) && Smooth(View(s), vq, View(ps))
    modifies Objs(s) + Objs(ps)
    ensures Is(root', s') && Objs(s') <= Objs(s) + Objs(ps)
    ensures View(s') == RouteTree.WalkAdd(old(View(s)), vq, old(View(ps))).0
    decreases ps
  {
    if p == null {
      return root, s;
    }
    Parts(p, ps);
    Exist(ps);
    ghost var pt := View(ps);
    var x, l, r; ghost var s1, s2;
    x, l, r, s1 := WalkNode(root, p, s, ps);
    root', s2 := WalkAdd(x, l, s1, ps.l, vq);
    ghost var kept := Is(r, ps.r);
    assert kept && View(ps.r) == pt.right;
    root', s' := WalkAdd(root', r, s2, ps.r, vq);
  }

  /** The queue: nodes and the subtrees that hang from them, all apart from one another. */
  ghost function QueueObjs(qs: seq<Shape>): set<RouteNode> {
    if qs == [] then {} else Objs(qs[0]) + QueueObjs(qs[1..])
  }

  ghost predicate QueueIs(q: seq<RouteNode>, qs: seq<Shape>)
    reads QueueObjs(qs)`left, QueueObjs(qs)`mid, QueueObjs(qs)`right
  {
    if qs == [] then q == []
    else q != [] && Is(q[0], qs[0]) && Objs(qs[0]) !! QueueObjs(qs[1..]) && QueueIs(q[1..], qs[1..])
  }

  ghost function Views(qs: seq<Shape>): seq<Tree>
    reads QueueObjs(qs)
  {
    if qs == [] then [] else [View(qs[0])] + Views(qs[1..])
  }

  lemma {:induction false} ExistQ(qs: seq<Shape>)
    ensures forall o | o in QueueObjs(qs) :: allocated(o)
  {
    if qs != [] {
      Exist(qs[0]);
      ExistQ(qs[1..]);
    }
  }

  /** One turn of the drain: the head of the queue is walked back, the rest is left alone. */
  method DrainOne(root: RouteNode?, queue: seq<RouteNode>, ghost s: Shape, ghost qs: seq<Shape>)
      returns (root': RouteNode?, queue': seq<RouteNode>, ghost s': Shape)
    requires queue != [] && Is(root, s) && QueueIs(queue, qs) && Objs(s) !! QueueObjs(qs)
    requires Views(qs) != [] && Smooth(View(s), Views(qs)[1..], Views(qs)[0])
    modifies Objs(s) + Objs(qs[0])
    ensures queue' == queue[1..] && Is(root', s') && QueueIs(queue', qs[1..])
    ensures Objs(s') <= Objs(s) + Objs(qs[0]) && Views(qs[1..]) == old(Views(qs))[1..]
    ensures old(Views(qs)) != [] && View(s') == RouteTree.WalkAdd(old(View(s)), old(Views(qs))[1..], old(Views(qs))[0]).0
  {
    ExistQ(qs);
    ghost var rest, vrest := qs[1..], Views(qs)[1..];
    assert vrest == Views(rest);
    root', s' := WalkAdd(root, queue[0], s, qs[0], vrest);
    queue' := queue[1..];
    ghost var kept := QueueIs(queue', rest);
    assert kept && Views(rest) == vrest;
  }

  /** The loop `while(p = f->queue)`: walk every queued subtree back in. */
  method DrainQueue(root0: RouteNode?, queue0: seq<RouteNode>, ghost s0: Shape, ghost qs0: seq<Shape>)
      returns (root: RouteNode?, ghost s: Shape)
    requires Is(root0, s0) && QueueIs(queue0, qs0) && Objs(s0) !! QueueObjs(qs0) && Drainable(View(s0), Views(qs0))
    modifies Objs(s0) + QueueObjs(qs0)
    ensures Is(root, s) && Objs(s) <= Objs(s0) + QueueObjs(qs0)
    ensures View(s) == Drain(old(View(s0)), old(Views(qs0)))
  {
    root, s := root0, s0;
    var queue := queue0;
    ghost var qs := qs0;
    while queue != []
      invariant Is(root, s) && QueueIs(queue, qs) && Objs(s) !! QueueObjs(qs)
      invariant Objs(s) + QueueObjs(qs) <= Objs(s0) + QueueObjs(qs0)
      invariant Drainable(View(s), Views(qs)) && Drain(View(s), Views(qs)) == Drain(old(View(s0)), old(Views(qs0)))
      decreases |queue|
    {
      DrainStep(View(s), Views(qs));
      root, queue, s := DrainOne(root, queue, s, qs);
      qs := qs[1..];
    }
  }

  // ---------- adding to one tree ----------

  lemma PushIs(q: seq<RouteNode>, qs: seq<Shape>, p: RouteNode?, d: Shape)
    requires QueueIs(q, qs) && Is(p, d) && Objs(d) !! QueueObjs(qs)
    ensures var (q', qs') := if p == null then (q, qs) else ([p] + q, [d] + qs);
      QueueIs(q', qs') && QueueObjs(qs') == Objs(d) + QueueObjs(qs) && Views(qs') == Push(Views(qs), View(d))
  {
    if p != null {
      assert ([p] + q)[1..] == q && ([d] + qs)[1..] == qs;
    }
  }

  /** The new node goes into the tree; what it displaces is the queue. */
  method InsertNew(root: RouteNode?, nw: RouteNode, ghost s: Shape)
      returns (root': RouteNode?, queue: seq<RouteNode>, ghost s': Shape, ghost qs: seq<Shape>)
    requires Is(root, s) && nw !in Objs(s) && nw.left == null && nw.mid == null && nw.right == null && nw.depth == 0
    modifies Objs(s) + {nw}
    ensures Is(root', s') && QueueIs(queue, qs) && Objs(s') !! QueueObjs(qs) && Objs(s') + QueueObjs(qs) <= Objs(s) + {nw}
    ensures var (t', d) := RouteTree.AddNode(old(View(s)), Leaf(old(nw.Rt())));
      View(s') == t' && Views(qs) == Push([], d)
  {
    Assemble(nw, Empty, Empty, Empty);
    var disp; ghost var d;
    root', disp, s', d := AddNode(root, nw, s, At(nw, Empty, Empty, Empty));
    PushIs([], [], disp, d);
    queue, qs := [], [];
    if disp != null {
      var p: RouteNode := disp;
      queue, qs := [p] + queue, [d] + qs;
    }
  }

  /** One turn of `v4addroute`: insert, then drain the queue. */
  method AddToTree(root: RouteNode?, nw: RouteNode, ghost s: Shape) returns (root': RouteNode?, ghost s': Shape)
    requires Is(root, s) && nw !in Objs(s) && nw.left == null && nw.mid == null && nw.right == null && nw.depth == 0
    requires Valid(View(s)) && Proper(nw.Rt().range) && LaminarWith(nw.Rt().range, Items(View(s)))
    modifies Objs(s) + {nw}
    ensures Is(root', s') && Objs(s') <= Objs(s) + {nw}
    ensures View(s') == BucketAdd(old(View(s)), old(nw.Rt()))
  {
    AddDrainable(View(s), nw.Rt());
    var queue; ghost var s1, qs;
    root', queue, s1, qs := InsertNew(root, nw, s);
    root', s' := DrainQueue(root', queue, s1, qs);
  }

  // ---------- lookup ----------

  /** The search loop of `v4lookup`. */
  method V4Lookup(root: RouteNode?, la: nat, ghost s: Shape) returns (q: RouteNode?)
    requires Is(root, s)
    ensures Lookup(View(s), la) == if q == null then None else Some(q.Rt())
  {
    q := null;
    var p := root;
    ghost var c := s;
    while p != null
      invariant Is(p, c) && Objs(c) <= Objs(s)
      invariant LookupFrom(View(c), la, if q == null then None else Some(q.Rt())) == Lookup(View(s), la)
      decreases c
    {
      Parts(p, c);
      if la >= p.lo {
        if la <= p.hi {
          q, p, c := p, p.mid, c.m;
        } else {
          p, c := p.right, c.r;
        }
      } else {
        p, c := p.left, c.l;
      }
    }
  }

  // ---------- deletion ----------

  /** The way a search took at one node, innermost first in a path, and the two subtrees beside it. */
  datatype Dir = GoLeft | GoMid | GoRight

  datatype Step = Step(n: RouteNode, dir: Dir, a: Shape, b: Shape)

  ghost function PathObjs(path: seq<Step>): set<RouteNode> {
    if path == [] then {} else {path[0].n} + Objs(path[0].a) + Objs(path[0].b) + PathObjs(path[1..])
  }

  /** What a step's node points at: p on the way taken, the other two subtrees beside it. */
  ghost predicate StepIs(st: Step, p: RouteNode?)
    reads {st.n} + Objs(st.a) + Objs(st.b)
  {
    && st.n !in Objs(st.a) + Objs(st.b) && Objs(st.a) !! Objs(st.b)
    && match st.dir
       case GoLeft => st.n.left == p && Is(st.n.mid, st.a) && Is(st.n.right, st.b)
       case GoMid => st.n.mid == p && Is(st.n.left, st.a) && Is(st.n.right, st.b)
       case GoRight => st.n.right == p && Is(st.n.left, st.a) && Is(st.n.mid, st.b)
  }

  /** The path leads from the root to p. */
  ghost predicate PathIs(root: RouteNode?, path: seq<Step>, p: RouteNode?)
    reads PathObjs(path)
  {
    if path == [] then p == root
    else
      && StepIs(path[0], p) && PathIs(root, path[1..], path[0].n)
      && {path[0].n} + Objs(path[0].a) + Objs(path[0].b) !! PathObjs(path[1..])
  }

  ghost function Fill(st: Step, c: Shape): Shape {
    match st.dir
    case GoLeft => At(st.n, c, st.a, st.b)
    case GoMid => At(st.n, st.a, c, st.b)
    case GoRight => At(st.n, st.a, st.b, c)
  }

  /** The whole shape, with c at the end of the path. */
  ghost function Plug(path: seq<Step>, c: Shape): Shape {
    if path == [] then c else Plug(path[1..], Fill(path[0], c))
  }

  ghost function FillView(st: Step, t: Tree): Tree
    reads {st.n} + Objs(st.a) + Objs(st.b)
  {
    var rt, d, a, b := st.n.Rt(), st.n.depth, View(st.a), View(st.b);
    match st.dir
    case GoLeft => Node(rt, d, t, a, b)
    case GoMid => Node(rt, d, a, t, b)
    case GoRight => Node(rt, d, a, b, t)
  }

  ghost function PlugView(path: seq<Step>, t: Tree): Tree
    reads PathObjs(path)
  {
    if path == [] then t else PlugView(path[1..], FillView(path[0], t))
  }

  /** One step, filled. */
  lemma Filled(st: Step, p: RouteNode?, c: Shape)
    requires StepIs(st, p) && Is(p, c) && Objs(c) !! {st.n} + Objs(st.a) + Objs(st.b)
    ensures Is(st.n, Fill(st, c)) && Objs(Fill(st, c)) == Objs(c) + ({st.n} + Objs(st.a) + Objs(st.b))
    ensures View(Fill(st, c)) == FillView(st, View(c))
  {
    match st.dir {
      case GoLeft => Assemble(st.n, c, st.a, st.b);
      case GoMid => Assemble(st.n, st.a, c, st.b);
      case GoRight => Assemble(st.n, st.a, st.b, c);
    }
  }

  lemma {:induction false} Plugged(root: RouteNode?, path: seq<Step>, p: RouteNode?, c: Shape)
    requires PathIs(root, path, p) && Is(p, c) && Objs(c) !! PathObjs(path)
    ensures Is(root, Plug(path, c)) && Objs(Plug(path, c)) == Objs(c) + PathObjs(path)
    ensures View(Plug(path, c)) == PlugView(path, View(c))
  {
    if path != [] {
      Filled(path[0], p, c);
      Plugged(root, path[1..], path[0].n, Fill(path[0], c));
    }
  }

  /** The steps are those a search for r takes. */
  ghost predicate Leads(path: seq<Step>, r: Range)
    reads PathObjs(path)
  {
    path != [] ==>
      && RangeCompare(r, path[0].n.Rt().range) == (match path[0].dir case GoLeft => Precedes case GoMid => Contained case GoRight => Follows)
      && Leads(path[1..], r)
  }

  /** Cutting and changing an entry happen at the end of the search. */
  lemma {:induction false} CutAlong(path: seq<Step>, r: Range, t: Tree)
    requires Leads(path, r)
    ensures Cut(PlugView(path, t), r) == (PlugView(path, Cut(t, r).0), Cut(t, r).1)
  {
    if path != [] {
      CutAlong(path[1..], r, FillView(path[0], t));
    }
  }

  lemma {:induction false} SetAlong(path: seq<Step>, r: Range, t: Tree, info: Info)
    requires Leads(path, r)
    ensures SetInfo(PlugView(path, t), r, info) == PlugView(path, SetInfo(t, r, info))
  {
    if path != [] {
      SetAlong(path[1..], r, FillView(path[0], t), info);
    }
  }

  /** A place a node pointer is stored in: the root, or a field of a node. */
  datatype Slot = RootSlot | Field(n: RouteNode, dir: Dir)

  ghost function EndOf(path: seq<Step>): Slot {
    if path == [] then RootSlot else Field(path[0].n, path[0].dir)
  }

  /** `looknode`: the slot that holds the node for a range, and the node; null when there is none. */
  method LookNode(root: RouteNode?, r: Range, ghost s: Shape)
      returns (slot: Slot, p: RouteNode?, ghost path: seq<Step>, ghost c: Shape)
    requires Is(root, s)
    ensures p == null ==> Cut(View(s), r).1 == Nil
    ensures p != null ==> PathIs(root, path, p) && Is(p, c) && Objs(c) !! PathObjs(path) && Plug(path, c) == s
    ensures p != null ==> slot == EndOf(path) && Leads(path, r) && RangeCompare(r, p.Rt().range) == Equals
  {
    slot, p, path, c := RootSlot, root, [], s;
    while p != null
      invariant PathIs(root, path, p) && Is(p, c) && Objs(c) !! PathObjs(path) && Plug(path, c) == s
      invariant slot == EndOf(path) && Leads(path, r)
      decreases c
    {
      Parts(p, c);
      Plugged(root, path, p, c);
      CutAlong(path, r, View(c));
      match RangeCompare(r, Range(p.lo, p.hi)) {
        case Contains =>
          p := null;
          return;
        case Precedes =>
          path := [Step(p, GoLeft, c.m, c.r)] + path;
          slot, p, c := Field(p, GoLeft), p.left, c.l;
        case Follows =>
          path := [Step(p, GoRight, c.l, c.m)] + path;
          slot, p, c := Field(p, GoRight), p.right, c.r;
        case Contained =>
          path := [Step(p, GoMid, c.l, c.r)] + path;
          slot, p, c := Field(p, GoMid), p.mid, c.m;
        case Equals =>
          return;
      }
    }
    Plugged(root, path, p, c);
    CutAlong(path, r, Nil);
  }

  method ClearField(n: RouteNode, dir: Dir, ghost st: Step, ghost p: RouteNode?)
    requires StepIs(st, p) && st.n == n && st.dir == dir
    modifies n`left, n`mid, n`right
    ensures StepIs(st, null) && forall t :: FillView(st, t) == old(FillView(st, t))
  {
    match dir {
      case GoLeft => n.left := null;
      case GoMid => n.mid := null;
      case GoRight => n.right := null;
    }
  }

  /** `*r = 0`. */
  method ClearSlot(root: RouteNode?, slot: Slot, ghost path: seq<Step>, ghost p: RouteNode?) returns (root': RouteNode?)
    requires PathIs(root, path, p) && slot == EndOf(path)
    modifies PathObjs(path)
    ensures PathIs(root', path, null) && forall t :: PlugView(path, t) == old(PlugView(path, t))
  {
    if slot == RootSlot {
      return null;
    }
    ExistPath(path);
    ClearField(slot.n, slot.dir, path[0], p);
    ghost var kept := PathIs(root, path[1..], path[0].n);
    assert kept;
    root' := root;
  }

  /** Taking a cut node's children out onto the queue: left, then middle, then right. */
  method Unhook(p: RouteNode, ghost c: Shape) returns (queue: seq<RouteNode>, ghost qs: seq<Shape>)
    requires Is(p, c)
    ensures QueueIs(queue, qs) && QueueObjs(qs) <= Objs(c) && Views(qs) == Orphans(View(c))
  {
    Parts(p, c);
    queue, qs := [], [];
    PushIs(queue, qs, p.left, c.l);
    if p.left != null {
      var left: RouteNode := p.left;
      queue, qs := [left] + queue, [c.l] + qs;
    }
    PushIs(queue, qs, p.mid, c.m);
    if p.mid != null {
      var mid: RouteNode := p.mid;
      queue, qs := [mid] + queue, [c.m] + qs;
    }
    PushIs(queue, qs, p.right, c.r);
    if p.right != null {
      var right: RouteNode := p.right;
      queue, qs := [right] + queue, [c.r] + qs;
    }
  }

  /** `*r = 0` and the queueing of what hung below. */
  method CutOut(root: RouteNode?, slot: Slot, p: RouteNode, ghost path: seq<Step>, ghost c: Shape)
      returns (root': RouteNode?, queue: seq<RouteNode>, ghost qs: seq<Shape>)
    requires PathIs(root, path, p) && Is(p, c) && Objs(c) !! PathObjs(path) && slot == EndOf(path)
    modifies PathObjs(path)
    ensures PathIs(root', path, null) && QueueIs(queue, qs) && QueueObjs(qs) <= Objs(c)
    ensures PlugView(path, Nil) == old(PlugView(path, Nil))
    ensures old(View(c)).Node? && Views(qs) == Orphans(old(View(c)))
  {
    Exist(c);
    ExistPath(path);
    ghost var vc := View(c);
    root' := ClearSlot(root, slot, path, p);
    ghost var kept, cut := Is(p, c), PlugView(path, Nil);
    assert kept && View(c) == vc;
    queue, qs := Unhook(p, c);
    kept := PathIs(root', path, null);
    assert kept && PlugView(path, Nil) == cut;
  }

  lemma {:induction false} ExistPath(path: seq<Step>)
    ensures forall o | o in PathObjs(path) :: allocated(o)
  {
    if path != [] {
      Exist(path[0].a);
      Exist(path[0].b);
      ExistPath(path[1..]);
    }
  }

  /** `--(p->ref)`. */
  method Release(root: RouteNode?, p: RouteNode, ghost path: seq<Step>, ghost c: Shape)
    requires PathIs(root, path, p) && Is(p, c) && Objs(c) !! PathObjs(path)
    modifies p`ref
    ensures PathIs(root, path, p) && Is(p, c) && old(View(c)).Node? && p.ref == old(p.ref) - 1
    ensures View(c) == old(View(c)).(rt := Route(old(p.Rt().range), DropRef(old(p.Rt().info))))
    ensures forall t :: PlugView(path, t) == old(PlugView(path, t))
  {
    Parts(p, c);
    ghost var vl, vm, vr := View(c.l), View(c.m), View(c.r);
    p.ref := p.ref - 1;
    ghost var kept := PathIs(root, path, p) && Is(p.left, c.l) && Is(p.mid, c.m) && Is(p.right, c.r);
    assert kept && View(c.l) == vl && View(c.m) == vm && View(c.r) == vr;
    Assemble(p, c.l, c.m, c.r);
  }

  /** What deleting comes to at the node the search found. */
  ghost predicate Doomed(t: Tree, r: Range, vc: Tree, cut: Tree, kept: Tree) {
    && Valid(t) && Proper(r) && LaminarWith(r, Items(t)) && vc.Node? && Drainable(cut, Orphans(vc))
    && BucketDel(t, r) == if vc.rt.info.ref - 1 == 0 then Drain(cut, Orphans(vc)) else kept
  }

  lemma Sentence(root: RouteNode?, path: seq<Step>, p: RouteNode, c: Shape, r: Range)
    requires PathIs(root, path, p) && Is(p, c) && Objs(c) !! PathObjs(path)
    requires Leads(path, r) && RangeCompare(r, p.Rt().range) == Equals
    requires Valid(View(Plug(path, c))) && Proper(r) && LaminarWith(r, Items(View(Plug(path, c))))
    ensures View(c).Node? && View(c).rt == p.Rt()
    ensures Doomed(View(Plug(path, c)), r, View(c), PlugView(path, Nil), PlugView(path, View(c).(rt := Route(p.Rt().range, DropRef(p.Rt().info)))))
  {
    Parts(p, c);
    Plugged(root, path, p, c);
    var vc, t := View(c), View(Plug(path, c));
    CutAlong(path, r, vc);
    SetAlong(path, r, vc, DropRef(p.Rt().info));
    CutKeeps(t, r);
    OrphansDrainable(PlugView(path, Nil), vc);
  }

  /** One turn of `v4delroute`: drop a reference, and at zero cut the node out and walk what hung
      below it back in. */
  method DelFromTree(root: RouteNode?, r: Range, ghost s: Shape) returns (root': RouteNode?, ghost s': Shape)
    requires Is(root, s) && Valid(View(s)) && Proper(r) && LaminarWith(r, Items(View(s)))
    modifies Objs(s)
    ensures Is(root', s') && Objs(s') <= Objs(s)
    ensures View(s') == BucketDel(old(View(s)), r)
  {
    Exist(s);
    ghost var t := View(s);
    root', s' := root, s;
    var slot, p; ghost var path, c;
    slot, p, path, c := LookNode(root, r, s);
    ghost var kept := Is(root, s);
    assert kept && View(s) == t;
    if p != null {
      root', s' := DelFound(root, slot, p, r, path, c);
    }
  }

  method DelFound(root: RouteNode?, slot: Slot, p: RouteNode, r: Range, ghost path: seq<Step>, ghost c: Shape)
      returns (root': RouteNode?, ghost s': Shape)
    requires PathIs(root, path, p) && Is(p, c) && Objs(c) !! PathObjs(path) && slot == EndOf(path)
    requires Leads(path, r) && RangeCompare(r, p.Rt().range) == Equals
    requires Valid(View(Plug(path, c))) && Proper(r) && LaminarWith(r, Items(View(Plug(path, c))))
    modifies Objs(Plug(path, c))
    ensures Is(root', s') && Objs(s') <= Objs(Plug(path, c))
    ensures View(s') == BucketDel(old(View(Plug(path, c))), r)
  {
    Sentence(root, path, p, c, r);
    Plugged(root, path, p, c);
    Release(root, p, path, c);
    if p.ref == 0 {
      var queue; ghost var qs;
      root', queue, qs := CutOut(root, slot, p, path, c);
      Plugged(root', path, null, Empty);
      root', s' := DrainQueue(root', queue, Plug(path, Empty), qs);
    } else {
      Plugged(root, path, p, c);
      root', s' := root, Plug(path, c);
    }
  }
}