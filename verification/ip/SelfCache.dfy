/** The table of a stack's own addresses.  Every address has a chain of links, one for each logical
    interface it is on, and every logical interface has a chain of the same links.

    Pointers are names here: an entry of the table is named by its address, a link by a number. */
module SelfCache {
  type Addr = nat
  type Lifc = nat

  const NHASH: nat := 64

  /** A unicast address of the stack's own. */
  const RUNI: nat := 8

  /** The v4 and the v6 null address. */
  const V4NULL: Addr := 0xFFFF_0000_0000
  const NOADDR: Addr := 0

  predicate IsNull(a: Addr) {
    a == V4NULL || a == NOADDR
  }

  /** `hashipa`: the last two bytes of the address. */
  function Hash(a: Addr): (h: nat)
    ensures h < NHASH
  {
    a % 0x1_0000 % 64
  }

  datatype Link = Link(self: Addr, lifc: Lifc, ref: nat)

  datatype Self = Self(kind: nat, links: seq<nat>)

  datatype Tab = Tab(hash: seq<seq<Addr>>, selfs: map<Addr, Self>, lifcs: map<Lifc, seq<nat>>, links: map<nat, Link>,
                     next: nat, acceptall: bool)

  // ---------- the invariant ----------

  ghost predicate Unique(s: seq<nat>) {
    forall i, j | 0 <= i < j < |s| :: s[i] != s[j]
  }

  /** The hash chains hold exactly the entries, each once and in its own chain. */
  ghost predicate Hashed(t: Tab) {
    && |t.hash| == NHASH
    && (forall h | 0 <= h < NHASH :: Unique(t.hash[h]))
    && (forall h, a | 0 <= h < NHASH && a in t.hash[h] :: a in t.selfs && Hash(a) == h)
    && (forall a | a in t.selfs :: a in t.hash[Hash(a)])
  }

  /** Every entry has links, all its own; only a new entry may have none yet. */
  ghost predicate SelfChains(t: Tab, entered: set<Addr>) {
    forall a | a in t.selfs ::
      && (t.selfs[a].links != [] || a in entered) && Unique(t.selfs[a].links)
      && (forall l | l in t.selfs[a].links :: l in t.links && t.links[l].self == a)
  }

  ghost predicate LifcChains(t: Tab) {
    forall c | c in t.lifcs ::
      && Unique(t.lifcs[c])
      && (forall l | l in t.lifcs[c] :: l in t.links && t.links[l].lifc == c)
  }

  /** Every link is on both its chains, and in use. */
  ghost predicate BothWays(t: Tab) {
    forall l | l in t.links ::
      && l < t.next && t.links[l].ref > 0
      && t.links[l].self in t.selfs && l in t.selfs[t.links[l].self].links
      && t.links[l].lifc in t.lifcs && l in t.lifcs[t.links[l].lifc]
  }

  /** An address and an interface have at most one link. */
  ghost predicate OneLink(t: Tab) {
    forall l, m | l in t.links && m in t.links && t.links[l].self == t.links[m].self && t.links[l].lifc == t.links[m].lifc :: l == m
  }

  ghost predicate InvBut(t: Tab, entered: set<Addr>) {
    Hashed(t) && SelfChains(t, entered) && LifcChains(t) && BothWays(t) && OneLink(t)
  }

  ghost predicate Inv(t: Tab) {
    InvBut(t, {})
  }

  // ---------- the operations ----------

  /** The link of a chain that satisfies the search: of an entry's chain by interface, of an
      interface's chain by entry.  The length of the chain when there is none. */
  function FindLifc(s: seq<nat>, links: map<nat, Link>, c: Lifc): (i: nat)
    ensures i <= |s| && (i < |s| ==> s[i] in links && links[s[i]].lifc == c)
    ensures forall j | 0 <= j < i :: s[j] !in links || links[s[j]].lifc != c
  {
    if s == [] || (s[0] in links && links[s[0]].lifc == c) then 0 else 1 + FindLifc(s[1..], links, c)
  }

  function FindSelf(s: seq<nat>, links: map<nat, Link>, a: Addr): (i: nat)
    ensures i <= |s| && (i < |s| ==> s[i] in links && links[s[i]].self == a)
    ensures forall j | 0 <= j < i :: s[j] !in links || links[s[j]].self != a
  {
    if s == [] || (s[0] in links && links[s[0]].self == a) then 0 else 1 + FindSelf(s[1..], links, a)
  }

  function Find(s: seq<nat>, x: nat): (i: nat)
    ensures i <= |s| && (i < |s| ==> s[i] == x) && (i == |s| ==> x !in s)
  {
    if s == [] || s[0] == x then 0 else 1 + Find(s[1..], x)
  }

  function Without(s: seq<nat>, x: nat): seq<nat> {
    var i := Find(s, x);
    if i == |s| then s else s[..i] + s[i + 1..]
  }

  function LifcChain(t: Tab, c: Lifc): seq<nat> {
    if c in t.lifcs then t.lifcs[c] else []
  }

  /** The entry for an address, made when there is none. */
  function Enter(t: Tab, a: Addr, kind: nat): Tab
    requires |t.hash| == NHASH
  {
    if a in t.selfs then t
    else t.(selfs := t.selfs[a := Self(kind, [])], hash := t.hash[Hash(a) := [a] + t.hash[Hash(a)]],
            acceptall := t.acceptall || IsNull(a))
  }

  /** A new link, put in front of both chains. */
  function Attach(t: Tab, c: Lifc, a: Addr): Tab
    requires a in t.selfs
  {
    t.(links := t.links[t.next := Link(a, c, 1)], next := t.next + 1,
       selfs := t.selfs[a := t.selfs[a].(links := [t.next] + t.selfs[a].links)],
       lifcs := t.lifcs[c := [t.next] + LifcChain(t, c)])
  }

  /** One reference more to an address entered: its link counted again, or a new one. */
  function Refer(t: Tab, c: Lifc, a: Addr): Tab
    requires a in t.selfs
  {
    var s := t.selfs[a].links;
    var i := FindLifc(s, t.links, c);
    if i < |s| then t.(links := t.links[s[i] := t.links[s[i]].(ref := t.links[s[i]].ref + 1)]) else Attach(t, c, a)
  }

  /** `addselfcache`. */
  function Add(t: Tab, c: Lifc, a: Addr, kind: nat): Tab
    requires |t.hash| == NHASH
  {
    Refer(Enter(t, a, kind), c, a)
  }

  /** Taking a link off both its chains; the entry goes with its last link. */
  function Unlink(t: Tab, l: nat): Tab
    requires |t.hash| == NHASH && l in t.links && t.links[l].self in t.selfs && t.links[l].lifc in t.lifcs
  {
    var a, c := t.links[l].self, t.links[l].lifc;
    var rest := Without(t.selfs[a].links, l);
    var t1 := t.(links := t.links - {l}, lifcs := t.lifcs[c := Without(t.lifcs[c], l)]);
    if rest != [] then t1.(selfs := t.selfs[a := t.selfs[a].(links := rest)])
    else
      t1.(selfs := t.selfs - {a}, hash := t.hash[Hash(a) := Without(t.hash[Hash(a)], a)],
          acceptall := t.acceptall && !IsNull(a))
  }

  /** `remselfcache`. */
  function Rem(t: Tab, c: Lifc, a: Addr): Tab
    requires Inv(t)
  {
    if a !in t.selfs then t
    else
      var s := LifcChain(t, c);
      var i := FindSelf(s, t.links, a);
      if i == |s| then t
      else
        var l := s[i];
        var ref := t.links[l].ref - 1;
        if ref != 0 then t.(links := t.links[l := t.links[l].(ref := ref)]) else Unlink(t, l)
  }

  /** `ipforme`: the kind of one of the stack's own addresses; when packets for everyone are taken, any
      other counts as one. */
  function ForMe(t: Tab, a: Addr): nat {
    if a in t.selfs then t.selfs[a].kind else if t.acceptall then RUNI else 0
  }

  // ---------- what they keep ----------

  lemma {:induction false} WithoutIs(s: seq<nat>, x: nat)
    requires Unique(s) && x in s
    ensures Unique(Without(s, x)) && |Without(s, x)| == |s| - 1
    ensures forall y :: y in Without(s, x) <==> y in s && y != x
  {
    var i := Find(s, x);
    var r := Without(s, x);
    assert r == s[..i] + s[i + 1..];
    forall y ensures y in r <==> y in s && y != x {
      if y in s && y != x {
        var j :| 0 <= j < |s| && s[j] == y;
        assert y == r[if j < i then j else j - 1];
      }
    }
  }

  lemma EnterHashed(t: Tab, a: Addr, kind: nat)
    requires Hashed(t) && a !in t.selfs
    ensures Hashed(Enter(t, a, kind))
  {
    var t' := Enter(t, a, kind);
    forall h, b | 0 <= h < NHASH && b in t'.hash[h] ensures b in t'.selfs && Hash(b) == h {
    }
    assert t'.hash[Hash(a)][0] == a;
    forall b | b in t'.selfs ensures b in t'.hash[Hash(b)] {
      if b != a {
        assert b in t.hash[Hash(b)];
      }
    }
  }

  lemma EnterKeeps(t: Tab, a: Addr, kind: nat)
    requires Inv(t)
    ensures InvBut(Enter(t, a, kind), {a}) && a in Enter(t, a, kind).selfs
    ensures a in t.selfs ==> Enter(t, a, kind) == t
  {
    if a !in t.selfs {
      EnterHashed(t, a, kind);
    }
  }

  /** A link counted again. */
  function Counted(t: Tab, l: nat, ref: nat): Tab
    requires l in t.links
  {
    t.(links := t.links[l := t.links[l].(ref := ref)])
  }

  lemma CountChains(t: Tab, l: nat, ref: nat, entered: set<Addr>)
    requires SelfChains(t, entered) && LifcChains(t) && l in t.links
    ensures SelfChains(Counted(t, l, ref), entered) && LifcChains(Counted(t, l, ref))
  {
  }

  lemma CountLinks(t: Tab, l: nat, ref: nat)
    requires BothWays(t) && OneLink(t) && l in t.links && ref > 0
    ensures BothWays(Counted(t, l, ref)) && OneLink(Counted(t, l, ref))
  {
    var t' := Counted(t, l, ref);
    assert forall m | m in t'.links :: m in t.links && t'.links[m].self == t.links[m].self && t'.links[m].lifc == t.links[m].lifc;
  }

  /** One more, or one fewer, reference. */
  lemma CountKeeps(t: Tab, l: nat, ref: nat, entered: set<Addr>)
    requires InvBut(t, entered) && l in t.links && ref > 0
    ensures InvBut(Counted(t, l, ref), entered)
  {
    CountChains(t, l, ref, entered);
    CountLinks(t, l, ref);
  }

  lemma InFront(x: nat, s: seq<nat>)
    requires Unique(s) && x !in s
    ensures Unique([x] + s) && (forall y :: y in [x] + s <==> y == x || y in s)
  {
    forall y | y in [x] + s ensures y == x || y in s {
      var i :| 0 <= i < |[x] + s| && ([x] + s)[i] == y;
      assert i > 0 ==> s[i - 1] == y;
    }
    forall y | y == x || y in s ensures y in [x] + s {
      if y in s {
        var i :| 0 <= i < |s| && s[i] == y;
        assert ([x] + s)[i + 1] == y;
      } else {
        assert ([x] + s)[0] == y;
      }
    }
  }

  /** Nothing links the pair. */
  ghost predicate Unlinked(t: Tab, c: Lifc, a: Addr) {
    forall l | l in t.links :: t.links[l].self != a || t.links[l].lifc != c
  }

  lemma AttachSelfs(t: Tab, c: Lifc, a: Addr)
    requires InvBut(t, {a}) && a in t.selfs
    ensures Hashed(Attach(t, c, a)) && SelfChains(Attach(t, c, a), {})
    ensures t.next !in t.links && forall l :: l in Attach(t, c, a).selfs[a].links <==> l == t.next || l in t.selfs[a].links
  {
    var t' := Attach(t, c, a);
    assert t'.selfs.Keys == t.selfs.Keys;
    InFront(t.next, t.selfs[a].links);
  }

  lemma AttachLifcs(t: Tab, c: Lifc, a: Addr)
    requires InvBut(t, {a}) && a in t.selfs
    ensures LifcChains(Attach(t, c, a))
    ensures forall l :: l in Attach(t, c, a).lifcs[c] <==> l == t.next || l in LifcChain(t, c)
  {
    InFront(t.next, LifcChain(t, c));
  }

  lemma AttachBoth(t: Tab, c: Lifc, a: Addr)
    requires InvBut(t, {a}) && a in t.selfs
    ensures BothWays(Attach(t, c, a))
  {
    AttachSelfs(t, c, a);
    AttachLifcs(t, c, a);
    var t' := Attach(t, c, a);
    forall l | l in t'.links ensures l < t'.next && t'.links[l].ref > 0
        && t'.links[l].self in t'.selfs && l in t'.selfs[t'.links[l].self].links
        && t'.links[l].lifc in t'.lifcs && l in t'.lifcs[t'.links[l].lifc] {
      assert l == t.next || l in t.links;
    }
  }

  lemma AttachOne(t: Tab, c: Lifc, a: Addr)
    requires OneLink(t) && a in t.selfs && Unlinked(t, c, a) && t.next !in t.links
    ensures OneLink(Attach(t, c, a))
  {
    var t' := Attach(t, c, a);
    assert forall l | l in t'.links && l != t.next :: l in t.links && t'.links[l] == t.links[l];
  }

  lemma AttachKeeps(t: Tab, c: Lifc, a: Addr)
    requires InvBut(t, {a}) && a in t.selfs && Unlinked(t, c, a)
    ensures Inv(Attach(t, c, a))
  {
    AttachSelfs(t, c, a);
    AttachLifcs(t, c, a);
    AttachBoth(t, c, a);
    AttachOne(t, c, a);
  }

  /** An entry's chain is where all its links are. */
  lemma NoLifc(t: Tab, c: Lifc, a: Addr, entered: set<Addr>)
    requires InvBut(t, entered) && a in t.selfs
    ensures FindLifc(t.selfs[a].links, t.links, c) == |t.selfs[a].links| ==> Unlinked(t, c, a)
  {
  }

  lemma NoSelf(t: Tab, c: Lifc, a: Addr)
    requires Inv(t)
    ensures FindSelf(LifcChain(t, c), t.links, a) == |LifcChain(t, c)| ==> Unlinked(t, c, a)
  {
  }

  lemma ReferKeeps(t: Tab, c: Lifc, a: Addr)
    requires InvBut(t, {a}) && a in t.selfs
    ensures Inv(Refer(t, c, a))
  {
    var s := t.selfs[a].links;
    var i := FindLifc(s, t.links, c);
    NoLifc(t, c, a, {a});
    if i < |s| {
      CountKeeps(t, s[i], t.links[s[i]].ref + 1, {a});
      assert s[i] in s;
    } else {
      AttachKeeps(t, c, a);
    }
  }

  lemma AddKeeps(t: Tab, c: Lifc, a: Addr, kind: nat)
    requires Inv(t)
    ensures Inv(Add(t, c, a, kind))
  {
    EnterKeeps(t, a, kind);
    ReferKeeps(Enter(t, a, kind), c, a);
  }

  // ---------- removing ----------

  /** An entry taken off its hash chain. */
  lemma HashWithout(t: Tab, a: Addr, t': Tab)
    requires Hashed(t) && a in t.selfs
    requires t'.selfs == t.selfs - {a} && t'.hash == t.hash[Hash(a) := Without(t.hash[Hash(a)], a)]
    ensures Hashed(t')
  {
    WithoutIs(t.hash[Hash(a)], a);
    forall b | b in t'.selfs ensures b in t'.hash[Hash(b)] {
      assert b in t.selfs && b in t.hash[Hash(b)];
    }
  }

  lemma UnlinkHash(t: Tab, l: nat)
    requires Inv(t) && l in t.links
    ensures Hashed(Unlink(t, l))
    ensures forall a :: a in Unlink(t, l).selfs <==> a in t.selfs && (a != t.links[l].self || Without(t.selfs[a].links, l) != [])
  {
    var a, t' := t.links[l].self, Unlink(t, l);
    if Without(t.selfs[a].links, l) == [] {
      HashWithout(t, a, t');
    } else {
      assert t'.selfs.Keys == t.selfs.Keys;
    }
  }

  lemma UnlinkChains(t: Tab, l: nat)
    requires Inv(t) && l in t.links
    ensures SelfChains(Unlink(t, l), {}) && LifcChains(Unlink(t, l))
    ensures var t', a, c := Unlink(t, l), t.links[l].self, t.links[l].lifc;
      && (forall b | b in t'.selfs && b != a :: t'.selfs[b] == t.selfs[b])
      && (a in t'.selfs ==> forall m :: m in t'.selfs[a].links <==> m in t.selfs[a].links && m != l)
      && c in t'.lifcs && (forall m :: m in t'.lifcs[c] <==> m in t.lifcs[c] && m != l)
  {
    var t', a, c := Unlink(t, l), t.links[l].self, t.links[l].lifc;
    UnlinkHash(t, l);
    WithoutIs(t.selfs[a].links, l);
    WithoutIs(t.lifcs[c], l);
    forall d | d in t'.lifcs ensures Unique(t'.lifcs[d]) && (forall m | m in t'.lifcs[d] :: m in t'.links && t'.links[m].lifc == d) {
      if d != c {
        assert t'.lifcs[d] == t.lifcs[d];
      }
    }
    forall b | b in t'.selfs ensures t'.selfs[b].links != [] && Unique(t'.selfs[b].links)
        && (forall m | m in t'.selfs[b].links :: m in t'.links && t'.links[m].self == b) {
      if b != a {
        assert t'.selfs[b] == t.selfs[b];
      }
    }
  }

  /** Taking out a link leaves no entry without links, and no link on one chain only. */
  lemma UnlinkKeeps(t: Tab, l: nat)
    requires Inv(t) && l in t.links
    ensures Inv(Unlink(t, l)) && Unlink(t, l).links == t.links - {l}
  {
    UnlinkHash(t, l);
    UnlinkChains(t, l);
    var t', a, c := Unlink(t, l), t.links[l].self, t.links[l].lifc;
    forall m | m in t'.links ensures m < t'.next && t'.links[m].ref > 0
        && t'.links[m].self in t'.selfs && m in t'.selfs[t'.links[m].self].links
        && t'.links[m].lifc in t'.lifcs && m in t'.lifcs[t'.links[m].lifc] {
      UnlinkOther(t, l, m);
    }
  }

  /** Any other link stays on both its chains. */
  lemma UnlinkOther(t: Tab, l: nat, m: nat)
    requires Inv(t) && l in t.links && m in t.links && m != l
    ensures var t', k := Unlink(t, l), t.links[m];
      && m in t'.links && t'.links[m] == k
      && k.self in t'.selfs && m in t'.selfs[k.self].links && k.lifc in t'.lifcs && m in t'.lifcs[k.lifc]
  {
    StillOnSelf(t, l, m);
    StillOnLifc(t, l, m);
  }

  lemma StillOnSelf(t: Tab, l: nat, m: nat)
    requires Inv(t) && l in t.links && m in t.links && m != l
    ensures t.links[m].self in Unlink(t, l).selfs && m in Unlink(t, l).selfs[t.links[m].self].links
  {
    var a := t.links[l].self;
    StillEntered(t, l, m);
    WithoutIs(t.selfs[a].links, l);
  }

  lemma StillOnLifc(t: Tab, l: nat, m: nat)
    requires Inv(t) && l in t.links && m in t.links && m != l
    ensures t.links[m].lifc in Unlink(t, l).lifcs && m in Unlink(t, l).lifcs[t.links[m].lifc]
  {
    WithoutIs(t.lifcs[t.links[l].lifc], l);
  }

  lemma StillEntered(t: Tab, l: nat, m: nat)
    requires Inv(t) && l in t.links && m in t.links && m != l
    ensures t.links[m].self in Unlink(t, l).selfs
  {
    UnlinkHash(t, l);
    if t.links[m].self == t.links[l].self {
      WithoutIs(t.selfs[t.links[l].self].links, l);
    }
  }

  lemma RemKeeps(t: Tab, c: Lifc, a: Addr)
    requires Inv(t)
    ensures Inv(Rem(t, c, a))
  {
    if a in t.selfs {
      var s := LifcChain(t, c);
      var i := FindSelf(s, t.links, a);
      if i < |s| {
        assert s[i] in s;
        if t.links[s[i]].ref - 1 != 0 {
          CountKeeps(t, s[i], t.links[s[i]].ref - 1, {});
        } else {
          UnlinkKeeps(t, s[i]);
        }
      }
    }
  }

  // ---------- references ----------

  /** How many times an address has been added on an interface and not removed. */
  function Refs(t: Tab, c: Lifc, a: Addr): nat {
    if a !in t.selfs then 0
    else
      var s := t.selfs[a].links;
      var i := FindLifc(s, t.links, c);
      if i < |s| then t.links[s[i]].ref else 0
  }

  lemma RefsIs(t: Tab, l: nat)
    requires Inv(t) && l in t.links
    ensures Refs(t, t.links[l].lifc, t.links[l].self) == t.links[l].ref
  {
    var a, c := t.links[l].self, t.links[l].lifc;
    var s := t.selfs[a].links;
    var i := FindLifc(s, t.links, c);
    assert i < |s| ==> s[i] in s;
  }

  lemma RefsNone(t: Tab, c: Lifc, a: Addr)
    requires Inv(t)
    ensures Refs(t, c, a) == 0 <==> Unlinked(t, c, a)
  {
    if a in t.selfs {
      var s := t.selfs[a].links;
      var i := FindLifc(s, t.links, c);
      NoLifc(t, c, a, {});
      assert i < |s| ==> s[i] in s;
    }
  }

  /** Tables whose links agree on a pair count it alike. */
  lemma RefsSame(t: Tab, t': Tab, c: Lifc, a: Addr)
    requires Inv(t) && Inv(t')
    requires forall l | l in t.links && t.links[l].self == a && t.links[l].lifc == c :: l in t'.links && t'.links[l] == t.links[l]
    requires Unlinked(t, c, a) ==> Unlinked(t', c, a)
    ensures Refs(t', c, a) == Refs(t, c, a)
  {
    RefsNone(t, c, a);
    RefsNone(t', c, a);
    if !Unlinked(t, c, a) {
      var l :| l in t.links && t.links[l].self == a && t.links[l].lifc == c;
      RefsIs(t, l);
      RefsIs(t', l);
    }
  }

  lemma AddCounts(t: Tab, c: Lifc, a: Addr, kind: nat, d: Lifc, b: Addr)
    requires Inv(t)
    ensures Refs(Add(t, c, a, kind), d, b) == Refs(t, d, b) + if d == c && b == a then 1 else 0
  {
    if d == c && b == a {
      AddCountsOwn(t, c, a, kind);
    } else {
      AddCountsOther(t, c, a, kind, d, b);
    }
  }

  lemma AddCountsOther(t: Tab, c: Lifc, a: Addr, kind: nat, d: Lifc, b: Addr)
    requires Inv(t) && (d != c || b != a)
    ensures Refs(Add(t, c, a, kind), d, b) == Refs(t, d, b)
  {
    AddKeeps(t, c, a, kind);
    var l, k := AddLinks(t, c, a, kind);
    RefsSame(t, Add(t, c, a, kind), d, b);
  }

  /** Adding touches one link, of the pair. */
  lemma AddLinks(t: Tab, c: Lifc, a: Addr, kind: nat) returns (l: nat, k: Link)
    requires Inv(t)
    ensures Add(t, c, a, kind).links == t.links[l := k] && k.self == a && k.lifc == c
    ensures l in t.links ==> t.links[l].self == a && t.links[l].lifc == c
  {
    EnterKeeps(t, a, kind);
    l, k := ReferLinks(Enter(t, a, kind), c, a);
  }

  lemma ReferLinks(t: Tab, c: Lifc, a: Addr) returns (l: nat, k: Link)
    requires InvBut(t, {a}) && a in t.selfs
    ensures Refer(t, c, a).links == t.links[l := k] && k.self == a && k.lifc == c
    ensures l in t.links ==> t.links[l].self == a && t.links[l].lifc == c
  {
    var s := t.selfs[a].links;
    var i := FindLifc(s, t.links, c);
    if i < |s| {
      assert s[i] in s;
      l, k := s[i], t.links[s[i]].(ref := t.links[s[i]].ref + 1);
    } else {
      l, k := t.next, Link(a, c, 1);
    }
  }

  lemma AddCountsOwn(t: Tab, c: Lifc, a: Addr, kind: nat)
    requires Inv(t)
    ensures Refs(Add(t, c, a, kind), c, a) == Refs(t, c, a) + 1
  {
    AddKeeps(t, c, a, kind);
    EnterKeeps(t, a, kind);
    var t1, t' := Enter(t, a, kind), Add(t, c, a, kind);
    var s := t1.selfs[a].links;
    var i := FindLifc(s, t1.links, c);
    NoLifc(t1, c, a, {a});
    if i < |s| {
      assert s[i] in s && a in t.selfs;
      RefsIs(t', s[i]);
    } else {
      RefsIs(t', t1.next);
      RefsNone(t, c, a);
    }
  }

  lemma RemCounts(t: Tab, c: Lifc, a: Addr, d: Lifc, b: Addr)
    requires Inv(t)
    ensures Refs(Rem(t, c, a), d, b) == if d == c && b == a && Refs(t, d, b) > 0 then Refs(t, d, b) - 1 else Refs(t, d, b)
  {
    RemKeeps(t, c, a);
    if a in t.selfs {
      var s, t' := LifcChain(t, c), Rem(t, c, a);
      var i := FindSelf(s, t.links, a);
      NoSelf(t, c, a);
      if i == |s| {
        RefsNone(t, c, a);
      } else {
        assert s[i] in s;
        var l := s[i];
        RefsIs(t, l);
        if d == c && b == a {
          if t.links[l].ref > 1 {
            RefsIs(t', l);
          } else {
            UnlinkKeeps(t, l);
            RefsNone(t', c, a);
          }
        } else {
          if t.links[l].ref == 1 {
            UnlinkKeeps(t, l);
          }
          RefsSame(t, t', d, b);
        }
      }
    }
  }

  /** An address is in the hash table exactly when some interface still has it. */
  lemma InTable(t: Tab, a: Addr)
    requires Inv(t)
    ensures a in t.hash[Hash(a)] <==> exists c :: Refs(t, c, a) > 0
  {
    if a in t.selfs {
      var l := t.selfs[a].links[0];
      assert l in t.selfs[a].links;
      RefsIs(t, l);
    }
  }

  // ---------- taking an interface down ----------

  function ChainRefs(s: seq<nat>, links: map<nat, Link>): nat {
    if s == [] then 0 else (if s[0] in links then links[s[0]].ref else 0) + ChainRefs(s[1..], links)
  }

  lemma {:induction false} ChainRefsSame(s: seq<nat>, links: map<nat, Link>, links': map<nat, Link>)
    requires forall l | l in s && l in links :: l in links' && links'[l].ref == links[l].ref
    requires forall l | l in s && l !in links :: l !in links'
    ensures ChainRefs(s, links') == ChainRefs(s, links)
  {
    if s != [] {
      assert s[0] in s && forall l | l in s[1..] :: l in s;
      ChainRefsSame(s[1..], links, links');
    }
  }

  /** Removing the address of an interface's first link lowers the interface's references by one. */
  lemma FirstLowers(t: Tab, c: Lifc)
    requires Inv(t) && LifcChain(t, c) != []
    ensures var l := LifcChain(t, c)[0];
      && l in t.links && t.links[l].self in t.selfs && Refs(t, c, t.links[l].self) > 0
      && var t' := Rem(t, c, t.links[l].self);
         ChainRefs(LifcChain(t', c), t'.links) == ChainRefs(LifcChain(t, c), t.links) - 1
  {
    var s := LifcChain(t, c);
    var l := s[0];
    assert l in s;
    RefsIs(t, l);
    var t' := Rem(t, c, t.links[l].self);
    assert FindSelf(s, t.links, t.links[l].self) == 0;
    forall m | m in s[1..] ensures m != l && m in s {
      var i :| 0 <= i < |s[1..]| && s[1..][i] == m;
      assert s[i + 1] == m;
    }
    ChainRefsSame(s[1..], t.links, t'.links);
    if t.links[l].ref == 1 {
      assert Without(s, l) == s[1..];
    }
  }

  // ---------- accepting everything ----------

  /** The flag says whether a null address is among the stack's own. */
  predicate AcceptRight(t: Tab) {
    t.acceptall <==> V4NULL in t.selfs || NOADDR in t.selfs
  }

  lemma AddAccepts(t: Tab, c: Lifc, a: Addr, kind: nat)
    requires |t.hash| == NHASH && AcceptRight(t)
    ensures AcceptRight(Add(t, c, a, kind))
  {
    var t1 := Enter(t, a, kind);
    assert t1.selfs.Keys == t.selfs.Keys + {a} && AcceptRight(t1);
    assert Add(t, c, a, kind).selfs.Keys == t1.selfs.Keys;
  }

  function OtherNull(a: Addr): Addr {
    if a == V4NULL then NOADDR else V4NULL
  }

  /** The pair's is the only link of the address, and on its last reference. */
  ghost predicate LastLink(t: Tab, c: Lifc, a: Addr) {
    Refs(t, c, a) == 1 && forall d | d != c :: Refs(t, d, a) == 0
  }

  /** An entry goes exactly with the last reference to its address. */
  lemma RemGone(t: Tab, c: Lifc, a: Addr)
    requires Inv(t) && a in t.selfs
    ensures a !in Rem(t, c, a).selfs <==> LastLink(t, c, a)
  {
    var t' := Rem(t, c, a);
    RemKeeps(t, c, a);
    InTable(t, a);
    InTable(t', a);
    forall d ensures Refs(t', d, a) == if d == c && Refs(t, d, a) > 0 then Refs(t, d, a) - 1 else Refs(t, d, a) {
      RemCounts(t, c, a, d, a);
    }
  }

  /** Removing the last link of a null address clears the flag, though the other null address may
      still be there: exactly then the flag goes wrong. */
  lemma RemAccepts(t: Tab, c: Lifc, a: Addr)
    requires Inv(t) && AcceptRight(t)
    ensures AcceptRight(Rem(t, c, a)) <==> !(IsNull(a) && OtherNull(a) in t.selfs && LastLink(t, c, a))
  {
    if a in t.selfs {
      RemGone(t, c, a);
      var s := LifcChain(t, c);
      var i := FindSelf(s, t.links, a);
      if i < |s| {
        assert s[i] in s;
        if t.links[s[i]].ref == 1 {
          UnlinkHash(t, s[i]);
        }
      }
    } else {
      InTable(t, a);
    }
  }

  lemma FlagLost(t: Tab, c: Lifc, a: Addr)
    requires Inv(t) && AcceptRight(t) && IsNull(a) && OtherNull(a) in t.selfs && LastLink(t, c, a)
    ensures OtherNull(a) in Rem(t, c, a).selfs && !Rem(t, c, a).acceptall
  {
    RemAccepts(t, c, a);
    RemKeeps(t, c, a);
    InTable(t, OtherNull(a));
    InTable(Rem(t, c, a), OtherNull(a));
    var d :| Refs(t, d, OtherNull(a)) > 0;
    RemCounts(t, c, a, d, OtherNull(a));
  }

  const NEW: Tab := Tab(seq(64, _ => []), map[], map[], map[], 0, false)

  lemma NewOk()
    ensures Inv(NEW) && AcceptRight(NEW) && forall c, a :: Refs(NEW, c, a) == 0
  {
  }

  lemma AddInTable(t: Tab, c: Lifc, a: Addr)
    requires Inv(t)
    ensures Inv(Add(t, c, a, RUNI)) && a in Add(t, c, a, RUNI).selfs
  {
    AddKeeps(t, c, a, RUNI);
    AddCounts(t, c, a, RUNI, c, a);
    InTable(Add(t, c, a, RUNI), a);
  }

  /** An address added for one interface only, and another for another. */
  lemma TwoAdded(t: Tab, a: Addr, b: Addr)
    requires Inv(t) && AcceptRight(t) && a != b && forall c :: Refs(t, c, a) == 0
    ensures var t2 := Add(Add(t, 1, a, RUNI), 2, b, RUNI);
      Inv(t2) && AcceptRight(t2) && LastLink(t2, 1, a) && b in t2.selfs
  {
    AddedOnce(t, a);
    AddedTo(Add(t, 1, a, RUNI), a, b);
  }

  lemma AddedOnce(t: Tab, a: Addr)
    requires Inv(t) && AcceptRight(t) && forall c :: Refs(t, c, a) == 0
    ensures var t1 := Add(t, 1, a, RUNI); Inv(t1) && AcceptRight(t1) && LastLink(t1, 1, a)
  {
    AddKeeps(t, 1, a, RUNI);
    AddAccepts(t, 1, a, RUNI);
    forall c ensures Refs(Add(t, 1, a, RUNI), c, a) == if c == 1 then 1 else 0 {
      AddCounts(t, 1, a, RUNI, c, a);
    }
  }

  lemma AddedTo(t1: Tab, a: Addr, b: Addr)
    requires Inv(t1) && AcceptRight(t1) && a != b
    ensures var t2 := Add(t1, 2, b, RUNI);
      Inv(t2) && AcceptRight(t2) && b in t2.selfs && forall c :: Refs(t2, c, a) == Refs(t1, c, a)
  {
    AddAccepts(t1, 2, b, RUNI);
    AddInTable(t1, 2, b);
    forall c ensures Refs(Add(t1, 2, b, RUNI), c, a) == Refs(t1, c, a) {
      AddCounts(t1, 2, b, RUNI, c, a);
    }
  }

  /** Both null addresses added and one removed: the other is still the stack's own, but packets for
      everyone are no longer taken. */
  lemma NullForgotten() returns (t2: Tab)
    ensures t2 == Add(Add(NEW, 1, V4NULL, RUNI), 2, NOADDR, RUNI) && Inv(t2)
    ensures NOADDR in Rem(t2, 1, V4NULL).selfs && !Rem(t2, 1, V4NULL).acceptall
  {
    NewOk();
    TwoAdded(NEW, V4NULL, NOADDR);
    t2 := Add(Add(NEW, 1, V4NULL, RUNI), 2, NOADDR, RUNI);
    FlagLost(t2, 1, V4NULL);
  }
}
