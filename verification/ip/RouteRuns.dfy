/** What each call does to the routes there are, field by field, after any calls before it. */
module RouteRuns {
  import opened RouteTree
  import opened RouteTable
  import opened RouteWalk

  /** An interface's route. */
  predicate IfcBit(kind: nat) {
    kind / 2 % 2 == 1
  }

  /** The v4 bit set. */
  function V4Bit(kind: nat): nat {
    kind / 2 * 2 + 1
  }

  function FirstFour(tag: string): string {
    if |tag| <= 4 then tag else [tag[0], tag[1], tag[2], tag[3]]
  }

  lemma LastOf(ops: seq<Op>, op: Op)
    ensures AbsRun(ops + [op]) == AbsStep(AbsRun(ops), op)
  {
    var all := ops + [op];
    assert all[..|all| - 1] == ops && all[|all| - 1] == op;
  }

  /** `v4addroute`: only the block of the address under the mask is concerned. */
  lemma AfterAdd(ops: seq<Op>, op: Op)
    requires op.Add?
    ensures var A, B, r := AbsRun(ops), AbsRun(ops + [op]), Covering(op.addr, op.host);
      && r in B && (forall k | k != r :: (k in B <==> k in A) && (k in A ==> B[k] == A[k]))
      && (r !in A ==> B[r].kind == V4Bit(op.kind) && B[r].tag == FirstFour(op.tag) && B[r].gate == op.gate && B[r].ref == 1)
      && (r in A && !IfcBit(A[r].kind) ==>
           B[r].kind == V4Bit(op.kind) && B[r].tag == A[r].tag && B[r].gate == op.gate && B[r].ref == A[r].ref)
      && (r in A && IfcBit(A[r].kind) ==>
           && B[r].kind == A[r].kind && B[r].tag == A[r].tag && B[r].gate == A[r].gate
           && B[r].ref == A[r].ref + if IfcBit(op.kind) then 1 else 0)
  {
    LastOf(ops, op);
    assert |op.tag| > 4 ==> op.tag[..4] == [op.tag[0], op.tag[1], op.tag[2], op.tag[3]];
    Bits(op.kind);
  }

  lemma Bits(kind: nat)
    ensures V4Bit(kind) == (if kind % 2 == 0 then kind + 1 else kind) && (IfcBit(V4Bit(kind)) <==> IfcBit(kind))
  {
  }

  /** `v4delroute`: the range goes with its last reference. */
  lemma AfterDel(ops: seq<Op>, op: Op)
    requires op.Del?
    ensures var A, B, r := AbsRun(ops), AbsRun(ops + [op]), Covering(op.addr, op.host);
      && (forall k | k != r :: (k in B <==> k in A) && (k in A ==> B[k] == A[k]))
      && (r in B <==> r in A && A[r].ref > 1)
      && (r in B ==> B[r].kind == A[r].kind && B[r].tag == A[r].tag && B[r].gate == A[r].gate && B[r].ref == A[r].ref - 1)
  {
    LastOf(ops, op);
    RunRefs(ops);
    DelExact(AbsRun(ops), Covering(op.addr, op.host), Covering(op.addr, op.host));
  }

  /** What a flush leaves: the interfaces' routes, and those with another tag than the one asked for. */
  lemma FlushLeaves(A: RouteMap, tag: Option<string>, r: Range)
    ensures r in Flushed(A, tag) <==>
      r in A && (IfcBit(A[r].kind) || (tag.Some? && A[r].tag != FirstFour(tag.value)))
    ensures r in Flushed(A, tag) ==> Flushed(A, tag)[r] == A[r]
  {
    if tag.Some? && |tag.value| > 4 {
      assert tag.value[..4] == [tag.value[0], tag.value[1], tag.value[2], tag.value[3]];
    }
  }

  /** The hash is ten bits of the address, the five at the top left out. */
  lemma HashBits(top: nat, h: nat, low: nat)
    requires h < 1024 && low < 0x2_0000
    ensures V4H(top * 0x800_0000 + h * 0x2_0000 + low) == h
  {
    var x := h * 0x2_0000 + low;
    assert (top * 0x800_0000 + x) % 0x800_0000 == x;
    assert x / 0x2_0000 == h;
  }

  // ---------- balancing ----------

  /** The recorded depth is one more than the deepest child's, in one byte. */
  predicate Counted(t: Tree) {
    t.Node? && exists c | c in {t.left, t.mid, t.right} ::
      t.depth == (Depth(c) + 1) % 256 && forall o | o in {t.left, t.mid, t.right} :: Depth(o) <= Depth(c)
  }

  /** A side recorded as deeper by two or more has its root turned up, and the nodes touched are counted
      again. */
  lemma BalanceTurns(t: Tree)
    requires t.Node?
    ensures var b, dl, dr := Balance(t), Depth(t.left), Depth(t.right);
      && Counted(b) && b.Node?
      && b.rt == (if dl >= dr + 2 then t.left.rt else if dr >= dl + 2 then t.right.rt else t.rt)
      && (dl >= dr + 2 ==> b.left == t.left.left && Counted(b.right) && b.right.rt == t.rt)
      && (dr >= dl + 2 ==> b.right == t.right.right && Counted(b.left) && b.left.rt == t.rt)
  {
    var dl, dr := Depth(t.left), Depth(t.right);
    if dl >= dr + 2 {
      CalcCounts(t.(left := t.left.right));
      CalcCounts(t.left.(right := CalcD(t.(left := t.left.right))));
    } else if dr >= dl + 2 {
      CalcCounts(t.(right := t.right.left));
      CalcCounts(t.right.(left := CalcD(t.(right := t.right.left))));
    } else {
      CalcCounts(t);
    }
  }

  lemma CalcCounts(t: Tree)
    requires t.Node?
    ensures CalcD(t).Node? && Counted(CalcD(t)) && CalcD(t) == t.(depth := CalcD(t).depth)
  {
    var c := Deepest(t.left, Deepest(t.mid, t.right));
    var all := {t.left, t.mid, t.right};
    assert c in all && forall o | o in all :: Depth(o) <= Depth(c);
    assert CalcD(t).depth == (Depth(c) + 1) % 256;
  }

  function Deepest(t: Tree, o: Tree): Tree {
    if Depth(t) >= Depth(o) then t else o
  }
}
