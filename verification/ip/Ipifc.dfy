/** The self address cache as it is kept: chains searched and relinked in place. */
module Ipifc {
  import opened SelfCache

  class SelfTab {
    var hash: seq<seq<Addr>>
    var selfs: map<Addr, Self>
    var lifcs: map<Lifc, seq<nat>>
    var links: map<nat, Link>
    var next: nat
    var acceptall: bool

    ghost function View(): Tab
      reads this
    {
      Tab(hash, selfs, lifcs, links, next, acceptall)
    }

    constructor ()
      ensures View() == NEW && Inv(View())
    {
      hash, selfs, lifcs, links, next, acceptall := seq(64, _ => []), map[], map[], map[], 0, false;
      NewOk();
    }

    /** The walk along a hash chain. */
    method FindEntry(a: Addr) returns (l: nat)
      requires |hash| == NHASH
      ensures l == Find(hash[Hash(a)], a)
    {
      var chain := hash[Hash(a)];
      l := 0;
      while l < |chain| && chain[l] != a
        invariant l <= |chain| && Find(chain, a) == l + Find(chain[l..], a)
      {
        assert chain[l..][1..] == chain[l + 1..];
        l := l + 1;
      }
    }

    /** The walk along an entry's chain. */
    method FindByLifc(s: seq<nat>, c: Lifc) returns (l: nat)
      ensures l == FindLifc(s, links, c)
    {
      l := 0;
      while l < |s| && !(s[l] in links && links[s[l]].lifc == c)
        invariant l <= |s| && FindLifc(s, links, c) == l + FindLifc(s[l..], links, c)
      {
        assert s[l..][1..] == s[l + 1..];
        l := l + 1;
      }
    }

    /** The walk along an interface's chain. */
    method FindBySelf(s: seq<nat>, a: Addr) returns (l: nat)
      ensures l == FindSelf(s, links, a)
    {
      l := 0;
      while l < |s| && !(s[l] in links && links[s[l]].self == a)
        invariant l <= |s| && FindSelf(s, links, a) == l + FindSelf(s[l..], links, a)
      {
        assert s[l..][1..] == s[l + 1..];
        l := l + 1;
      }
    }

    /** The entry for an address, put in front of its hash chain when it is new. */
    method EnterAddr(a: Addr, kind: nat)
      requires Hashed(View())
      modifies this
      ensures View() == Enter(old(View()), a, kind)
    {
      var h := Hash(a);
      var p := FindEntry(a);
      if p == |hash[h]| {
        selfs := selfs[a := Self(kind, [])];
        hash := hash[h := [a] + hash[h]];
        if IsNull(a) {
          acceptall := true;
        }
      }
    }

    /** A link in front of both chains. */
    method AttachLink(c: Lifc, a: Addr)
      requires a in selfs
      modifies this
      ensures View() == Attach(old(View()), c, a)
    {
      var lp := next;
      next := next + 1;
      var chain := if c in lifcs then lifcs[c] else [];
      links := links[lp := Link(a, c, 1)];
      selfs := selfs[a := selfs[a].(links := [lp] + selfs[a].links)];
      lifcs := lifcs[c := [lp] + chain];
    }

    /** One reference more to an address entered, on a new link or an old one. */
    method AddLink(c: Lifc, a: Addr)
      requires a in selfs
      modifies this
      ensures View() == Refer(old(View()), c, a)
    {
      var self := selfs[a];
      var i := FindByLifc(self.links, c);
      if i == |self.links| {
        AttachLink(c, a);
      } else {
        var lp := self.links[i];
        links := links[lp := links[lp].(ref := links[lp].ref + 1)];
      }
    }

    /** `addselfcache`. */
    method AddSelfCache(c: Lifc, a: Addr, kind: nat)
      requires Inv(View())
      modifies this
      ensures View() == Add(old(View()), c, a, kind) && Inv(View())
    {
      AddKeeps(View(), c, a, kind);
      EnterAddr(a, kind);
      AddLink(c, a);
    }

    /** The walk along the entry's chain for a link already found. */
    method Unchain(s: seq<nat>, x: nat) returns (r: seq<nat>)
      ensures r == Without(s, x)
    {
      var l := 0;
      while l < |s| && s[l] != x
        invariant l <= |s| && Find(s, x) == l + Find(s[l..], x)
      {
        assert s[l..][1..] == s[l + 1..];
        l := l + 1;
      }
      r := if l < |s| then s[..l] + s[l + 1..] else s;
    }

    /** The two searches of `remselfcache`: the entry of the address, and the interface's link to it. */
    method Locate(c: Lifc, a: Addr) returns (found: bool, link: nat)
      requires Hashed(View())
      ensures found <==> a in selfs && FindSelf(LifcChain(View(), c), links, a) < |LifcChain(View(), c)|
      ensures found ==> link == LifcChain(View(), c)[FindSelf(LifcChain(View(), c), links, a)]
    {
      found, link := false, 0;
      var p := FindEntry(a);
      if p < |hash[Hash(a)]| {
        var chain := if c in lifcs then lifcs[c] else [];
        var i := FindBySelf(chain, a);
        if i < |chain| {
          found, link := true, chain[i];
        }
      }
    }

    /** One reference fewer, and the link goes with the last. */
    method Release(link: nat)
      requires |hash| == NHASH && link in links && links[link].self in selfs && links[link].lifc in lifcs && links[link].ref > 0
      modifies this
      ensures var t := old(View()); var ref := t.links[link].ref - 1;
        View() == if ref != 0 then t.(links := t.links[link := t.links[link].(ref := ref)]) else Unlink(t, link)
    {
      var ref := links[link].ref - 1;
      if ref != 0 {
        links := links[link := links[link].(ref := ref)];
      } else {
        DetachLink(link);
      }
    }

    /** `remselfcache`. */
    method RemSelfCache(c: Lifc, a: Addr)
      requires Inv(View())
      modifies this
      ensures View() == Rem(old(View()), c, a) && Inv(View())
    {
      RemKeeps(View(), c, a);
      var found, link := Locate(c, a);
      if found {
        assert link in LifcChain(View(), c);
        Release(link);
      }
    }

    /** A link off both its chains, and the entry with its last link. */
    method DetachLink(link: nat)
      requires |hash| == NHASH && link in links && links[link].self in selfs && links[link].lifc in lifcs
      modifies this
      ensures View() == Unlink(old(View()), link)
    {
      var a, c := links[link].self, links[link].lifc;
      var h := Hash(a);
      var mine := Unchain(selfs[a].links, link);
      var chain := Unchain(lifcs[c], link);
      lifcs := lifcs[c := chain];
      links := links - {link};
      if mine != [] {
        selfs := selfs[a := selfs[a].(links := mine)];
        return;
      }
      var rest := Unchain(hash[h], a);
      hash := hash[h := rest];
      selfs := selfs - {a};
      if IsNull(a) {
        acceptall := false;
      }
    }

    /** `ipforme`. */
    method IpForMe(a: Addr) returns (kind: nat)
      requires Inv(View())
      ensures kind == ForMe(View(), a)
    {
      var p := FindEntry(a);
      if p < |hash[Hash(a)]| {
        return selfs[a].kind;
      }
      kind := if acceptall then RUNI else 0;
    }

    /** The loop of `ipifcrem`: it ends, with every address gone from this interface and no other
        interface touched. */
    method Disassociate(c: Lifc)
      requires Inv(View())
      modifies this
      ensures Inv(View()) && LifcChain(View(), c) == []
      ensures forall d, b :: Refs(View(), d, b) == if d == c then 0 else Refs(old(View()), d, b)
    {
      while c in lifcs && lifcs[c] != []
        invariant Inv(View())
        invariant forall d, b | d != c :: Refs(View(), d, b) == Refs(old(View()), d, b)
        decreases ChainRefs(LifcChain(View(), c), links)
      {
        ghost var t := View();
        FirstLowers(t, c);
        var a := links[lifcs[c][0]].self;
        RemSelfCache(c, a);
        forall d, b | d != c ensures Refs(View(), d, b) == Refs(t, d, b) {
          RemCounts(t, c, a, d, b);
        }
      }
      forall b ensures Refs(View(), c, b) == 0 {
        NoSelf(View(), c, b);
        RefsNone(View(), c, b);
      }
    }
  }
}
