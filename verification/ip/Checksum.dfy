/** `ptclbsum` and `ptclcsum`: summing without regard to byte order or alignment, and swapping once
    at the end. */
module Checksum {
  import opened Octets
  import opened ChecksumSpec

  const ULONG: nat := 0x1_0000_0000

  /** A 16-bit load. */
  function Load(b: seq<Octet>, i: nat, little: bool): nat
    requires i + 1 < |b|
  {
    if little then Pair(b[i + 1], b[i]) else Pair(b[i], b[i + 1])
  }

  lemma LoadNext(b: seq<Octet>, i: nat, little: bool)
    requires i + 1 < |b| && i % 2 == 0
    ensures Weighted(b[..i + 2], !little) == Weighted(b[..i], !little) + Load(b, i, little)
  {
    WeightedAppend(b[..i], b[i..i + 2], !little);
    assert b[..i + 2] == b[..i] + b[i..i + 2];
    assert b[i..i + 2][1..] == [b[i + 1]] && b[i..i + 2][1..][1..] == [];
    assert Weighted(b[i..i + 2][1..], little) == if little then Pair(b[i + 1], 0) else b[i + 1];
  }

  lemma LoadEight(b: seq<Octet>, i: nat, little: bool)
    requires i + 16 <= |b| && i % 2 == 0
    ensures Weighted(b[..i + 16], !little) == Weighted(b[..i], !little)
      + Load(b, i, little) + Load(b, i + 2, little) + Load(b, i + 4, little) + Load(b, i + 6, little)
      + Load(b, i + 8, little) + Load(b, i + 10, little) + Load(b, i + 12, little) + Load(b, i + 14, little)
  {
    LoadNext(b, i, little);
    LoadNext(b, i + 2, little);
    LoadNext(b, i + 4, little);
    LoadNext(b, i + 6, little);
    LoadNext(b, i + 8, little);
    LoadNext(b, i + 10, little);
    LoadNext(b, i + 12, little);
    LoadNext(b, i + 14, little);
  }

  /** The words of the aligned part, as the machine loads them: eight at a time, then one. */
  method SumWords(b: seq<Octet>, little: bool) returns (mdsum: nat)
    ensures mdsum == Weighted(b[..|b| - |b| % 2], !little)
  {
    mdsum := 0;
    var addr, len := 0, |b|;
    while len >= 16
      invariant addr % 2 == 0 && 0 <= len && addr + len == |b| && mdsum == Weighted(b[..addr], !little)
    {
      LoadEight(b, addr, little);
      var t1 := Load(b, addr, little);
      var t2 := Load(b, addr + 2, little);
      mdsum := mdsum + t1;
      t1 := Load(b, addr + 4, little);
      mdsum := mdsum + t2;
      t2 := Load(b, addr + 6, little);
      mdsum := mdsum + t1;
      t1 := Load(b, addr + 8, little);
      mdsum := mdsum + t2;
      t2 := Load(b, addr + 10, little);
      mdsum := mdsum + t1;
      t1 := Load(b, addr + 12, little);
      mdsum := mdsum + t2;
      t2 := Load(b, addr + 14, little);
      mdsum := mdsum + t1;
      mdsum := mdsum + t2;
      len := len - 16;
      addr := addr + 16;
    }
    while len >= 2
      invariant addr % 2 == 0 && 0 <= len && addr + len == |b| && mdsum == Weighted(b[..addr], !little)
    {
      LoadNext(b, addr, little);
      mdsum := mdsum + Load(b, addr, little);
      len := len - 2;
      addr := addr + 2;
    }
  }

  /** `while(hisum = losum>>16) losum = hisum + (losum & 0xffff)`. */
  method FoldCarries(x: nat) returns (losum: nat)
    ensures losum == Fold(x)
  {
    losum := x;
    while losum / 0x1_0000 != 0
      invariant Alike(losum, x)
      decreases losum
    {
      CarryAlike(losum);
      losum := losum / 0x1_0000 + losum % 0x1_0000;
    }
    FoldAlike(losum, x);
  }

  /** An octet left over at the end, or none. */
  predicate Leftover(tail: seq<Octet>, last: nat) {
    (tail == [] && last == 0) || (|tail| == 1 && tail[0] == last)
  }

  lemma LeftoverIs(tail: seq<Octet>, last: nat, high: bool)
    requires Leftover(tail, last)
    ensures Weighted(tail, high) == if high then 256 * last else last
  {
    if tail != [] {
      assert Weighted(tail[1..], !high) == 0;
    }
  }

  lemma SwappedWith(md: nat, turned: nat, o: nat)
    requires Alike(256 * md, turned)
    ensures Alike(256 * (o + md), turned + 256 * o)
  {
    AlikeSum(256 * md, turned, 256 * o, 256 * o);
  }

  /** Data at an even address: words, then perhaps an octet. */
  lemma AssembledEven(mid: seq<Octet>, tail: seq<Octet>, last: nat, little: bool)
    requires |mid| % 2 == 0 && Leftover(tail, last)
    ensures var mdsum := Weighted(mid, !little);
      Alike(if little then 256 * (last + mdsum) else mdsum + 256 * last, Weighted(mid + tail, true))
  {
    WeightedAppend(mid, tail, true);
    LeftoverIs(tail, last, true);
    if little {
      WeightedSwap(mid, false);
      SwappedWith(Weighted(mid, false), Weighted(mid, true), last);
    }
  }

  /** Data at an odd address: an octet, words, then perhaps an octet. */
  lemma AssembledOdd(first: Octet, mid: seq<Octet>, tail: seq<Octet>, last: nat, little: bool)
    requires |mid| % 2 == 0 && Leftover(tail, last)
    ensures var mdsum := Weighted(mid, !little); var f: nat := first;
      Alike(if little then last + mdsum + 256 * f else last + 256 * (f + mdsum), Weighted([first] + (mid + tail), true))
  {
    WeightedAppend(mid, tail, false);
    LeftoverIs(tail, last, false);
    var b := [first] + (mid + tail);
    assert b[1..] == mid + tail;
    var f: nat := first;
    assert Weighted(b, true) == 256 * f + (Weighted(mid, false) + last);
    if !little {
      WeightedSwap(mid, true);
      SwappedWith(Weighted(mid, true), Weighted(mid, false), f);
      AlikeSum(256 * (f + Weighted(mid, true)), Weighted(mid, false) + 256 * f, last, last);
    }
  }

  /** The final `losum += hisum>>8; losum += (hisum&0xff)<<8`. */
  method Combine(hisum: nat, losum: nat) returns (sum: nat)
    ensures Alike(sum, losum + 256 * hisum)
  {
    SwapAlike(hisum);
    AlikeSum(hisum / 256 + hisum % 256 * 256, 256 * hisum, losum, losum);
    sum := losum + hisum / 256;
    sum := sum + hisum % 256 * 256;
  }

  /** The octet the words leave over. */
  function Last(b: seq<Octet>): nat {
    if |b| % 2 == 1 then b[|b| - 1] else 0
  }

  lemma Parts(b: seq<Octet>)
    ensures var even := |b| - |b| % 2;
      b == b[..even] + b[even..] && |b[..even]| % 2 == 0 && Leftover(b[even..], Last(b))
  {
  }

  /** At an even address. */
  method SumEven(b: seq<Octet>, little: bool) returns (x: nat)
    ensures Alike(x, Weighted(b, true))
  {
    var losum, hisum := 0, 0;
    var mdsum := SumWords(b, little);
    var last := Last(b);
    Parts(b);
    AssembledEven(b[..|b| - |b| % 2], b[|b| - |b| % 2..], last, little);
    hisum := hisum + last;
    if little {
      hisum := hisum + mdsum;
    } else {
      losum := losum + mdsum;
    }
    x := Combine(hisum, losum);
  }

  /** At an odd address. */
  method SumOdd(first: Octet, b: seq<Octet>, little: bool) returns (x: nat)
    ensures Alike(x, Weighted([first] + b, true))
  {
    var losum, hisum := 0, 0;
    hisum := hisum + first;
    var mdsum := SumWords(b, little);
    var last := Last(b);
    Parts(b);
    AssembledOdd(first, b[..|b| - |b| % 2], b[|b| - |b| % 2..], last, little);
    losum := losum + last;
    if little {
      losum := losum + mdsum;
    } else {
      hisum := hisum + mdsum;
    }
    x := Combine(hisum, losum);
  }

  /** `ptclbsum`, on either byte order and with either alignment, is the one's complement sum. */
  method PtclBsum(b: seq<Octet>, odd: bool, little: bool) returns (sum: nat)
    ensures sum == OnesSum(Words(b)) && sum <= 0xFFFF
  {
    var x;
    if odd && b != [] {
      assert b == [b[0]] + b[1..];
      x := SumOdd(b[0], b[1..], little);
    } else {
      x := SumEven(b, little);
    }
    FoldAlike(x, Weighted(b, true));
    SumIsFold(b);
    sum := FoldCarries(x);
  }

  /** No sum of up to 64K octets reaches 32 bits, even with two more words added: `ulong` never wraps. */
  lemma NoWrap(b: seq<Octet>, high: bool)
    requires |b| <= 0x1_0000
    ensures Weighted(b, high) + 0x2_0000 < ULONG
  {
    WeightedBound(b, high);
  }

  // ---------- chains of blocks ----------

  /** A block: the alignment of its first octet, and its octets. */
  datatype Block = Block(odd: bool, data: seq<Octet>)

  function Flat(bp: seq<Block>): seq<Octet> {
    if bp == [] then [] else bp[0].data + Flat(bp[1..])
  }

  /** Skipping to the offset leaves the chain. */
  predicate RunsOut(bp: seq<Block>, offset: nat) {
    bp == [] || (0 < offset && offset >= |bp[0].data| && RunsOut(bp[1..], offset - |bp[0].data|))
  }

  lemma {:induction false} RunsOutPast(bp: seq<Block>, offset: nat)
    ensures RunsOut(bp, offset) ==> offset >= |Flat(bp)|
  {
    if bp != [] && offset >= |bp[0].data| {
      RunsOutPast(bp[1..], offset - |bp[0].data|);
    }
  }

  /** The octets summed. */
  function Span(bp: seq<Block>, offset: nat, len: nat): seq<Octet> {
    var all := Flat(bp);
    if offset >= |all| then [] else if offset + len > |all| then all[offset..] else all[offset..offset + len]
  }

  lemma SpanSkip(bp: seq<Block>, offset: nat, len: nat)
    requires bp != []
    ensures Span(bp[1..], offset, len) == Span(bp, offset + |bp[0].data|, len)
  {
    var n, rest, all := |bp[0].data|, Flat(bp[1..]), Flat(bp);
    assert all == bp[0].data + rest;
    if offset < |rest| {
      assert rest[offset..] == all[offset + n..];
      if offset + len <= |rest| {
        assert rest[offset..offset + len] == all[offset + n..offset + n + len];
      }
    }
  }

  /** The skip to the front of the data. */
  method SkipTo(bp0: seq<Block>, offset0: nat, ghost len: nat) returns (bp: seq<Block>, offset: nat)
    ensures bp == [] <==> RunsOut(bp0, offset0)
    ensures bp != [] ==> offset <= |bp[0].data| && Span(bp, offset, len) == Span(bp0, offset0, len)
  {
    bp, offset := bp0, offset0;
    while bp != [] && offset != 0 && offset >= |bp[0].data|
      invariant RunsOut(bp, offset) == RunsOut(bp0, offset0)
      invariant Span(bp, offset, len) == Span(bp0, offset0, len)
      decreases |bp|
    {
      SpanSkip(bp, offset - |bp[0].data|, len);
      offset := offset - |bp[0].data|;
      bp := bp[1..];
    }
  }

  function Upto(b: seq<Octet>, len: nat): seq<Octet> {
    if len > |b| then b else b[..len]
  }

  lemma AddEven(l: nat, h: nat, w: nat, c: nat, v: nat)
    requires Alike(l + 256 * h, w) && Alike(c, v)
    ensures Alike(l + c + 256 * h, w + v)
  {
    AlikeSum(l + 256 * h, w, c, v);
  }

  lemma AddOdd(l: nat, h: nat, w: nat, c: nat, v: nat, turned: nat)
    requires Alike(l + 256 * h, w) && Alike(c, v) && Alike(256 * v, turned)
    ensures Alike(l + 256 * (h + c), w + turned)
  {
    TimesAlike(c, v);
    AlikeSum(l + 256 * h, w, 256 * c, turned);
  }

  lemma Placed(done: seq<Octet>, b: seq<Octet>, l: nat, h: nat, c: nat)
    requires Alike(l + 256 * h, Weighted(done, true)) && Alike(c, Weighted(b, true))
    ensures Alike(if |done| % 2 == 0 then l + c + 256 * h else l + 256 * (h + c), Weighted(done + b, true))
  {
    WeightedAppend(done, b, true);
    if |done| % 2 == 0 {
      AddEven(l, h, Weighted(done, true), c, Weighted(b, true));
    } else {
      WeightedSwap(b, true);
      AddOdd(l, h, Weighted(done, true), c, Weighted(b, true), Weighted(b, false));
    }
  }

  /** Adding one block's folded sum at an odd or even place. */
  method AddBlock(b: seq<Octet>, start: bool, little: bool, odd0: nat, losum0: nat, hisum0: nat, ghost done: seq<Octet>)
      returns (odd: nat, losum: nat, hisum: nat)
    requires odd0 == |done| % 2 && Alike(losum0 + 256 * hisum0, Weighted(done, true))
    ensures odd == |done + b| % 2 && Alike(losum + 256 * hisum, Weighted(done + b, true))
  {
    var csum := PtclBsum(b, start, little);
    losum, hisum := losum0, hisum0;
    SumIsFold(b);
    FoldIs(Weighted(b, true));
    Placed(done, b, losum0, hisum0, csum);
    if odd0 == 1 {
      hisum := hisum + csum;
    } else {
      losum := losum + csum;
    }
    Parity(|done|, |b|);
    odd := (odd0 + |b|) % 2;
  }

  lemma Parity(a: nat, b: nat)
    ensures (a % 2 + b) % 2 == (a + b) % 2
  {
  }

  lemma UptoSplit(done: seq<Octet>, d: seq<Octet>, rest: seq<Octet>, len: nat)
    ensures var x := if len < |d| then len else |d|;
      done + Upto(d + rest, len) == done + d[..x] + Upto(rest, len - x)
  {
  }

  ghost predicate Summed(odd: nat, losum: nat, hisum: nat, done: seq<Octet>) {
    odd == |done| % 2 && Alike(losum + 256 * hisum, Weighted(done, true))
  }

  /** The blocks' sums, kept apart by whether a block starts at an odd or an even place. */
  method SumBlocks(bp0: seq<Block>, offset: nat, len0: nat, little: bool) returns (losum: nat, hisum: nat)
    requires bp0 != [] && offset <= |bp0[0].data|
    ensures Alike(losum + 256 * hisum, Weighted(Upto(Flat(bp0)[offset..], len0), true))
  {
    ghost var whole := Upto(Flat(bp0)[offset..], len0);
    ghost var done: seq<Octet> := [];
    var bp, len, odd := bp0, len0, 0;
    losum, hisum := 0, 0;
    var d, start := bp[0].data[offset..], offset;
    assert Flat(bp0)[offset..] == d + Flat(bp[1..]);
    while len > 0
      invariant 0 <= len && bp != [] && Summed(odd, losum, hisum, done)
      invariant done + Upto(d + Flat(bp[1..]), len) == whole
      decreases |bp|
    {
      var x := if len < |d| then len else |d|;
      UptoSplit(done, d, Flat(bp[1..]), len);
      odd, losum, hisum := AddBlock(d[..x], bp[0].odd != (start % 2 == 1), little, odd, losum, hisum, done);
      done := done + d[..x];
      len := len - x;
      bp := bp[1..];
      if bp == [] {
        break;
      }
      d, start := bp[0].data, 0;
      assert Flat(bp) == d + Flat(bp[1..]);
    }
    assert done == whole;
  }

  /** `ptclcsum`: the checksum of section 1 of RFC 1071, whatever the blocks and their alignment;
      only when the chain ends before the offset is the answer 0. */
  method PtclCsum(bp0: seq<Block>, offset0: nat, len0: nat, little: bool) returns (sum: int)
    ensures sum == if RunsOut(bp0, offset0) then 0 else Checksum(Span(bp0, offset0, len0))
  {
    var bp, offset := SkipTo(bp0, offset0, len0);
    if bp == [] {
      return 0;
    }
    var blocklen := |bp[0].data| - offset;
    var s: int;
    if |bp| == 1 {
      var len := if blocklen < len0 then blocklen else len0;
      assert Flat(bp) == bp[0].data;
      s := PtclBsum(bp[0].data[offset..][..len], bp[0].odd != (offset % 2 == 1), little);
      assert bp[0].data[offset..][..len] == Span(bp, offset, len0);
    } else {
      var losum, hisum := SumBlocks(bp, offset, len0, little);
      var t := Combine(hisum, losum);
      s := FoldCarries(t);
      FoldAlike(t, Weighted(Upto(Flat(bp)[offset..], len0), true));
      SumIsFold(Upto(Flat(bp)[offset..], len0));
      assert Upto(Flat(bp)[offset..], len0) == Span(bp, offset, len0);
    }
    sum := 0xFFFF - s;
  }

  /** The answer 0 of a chain that ends too soon is not the checksum of no data, so the method's
      answer is the RFC's exactly when the chain does not run out. */
  lemma RunsOutWrong(bp: seq<Block>, offset: nat, len: nat)
    requires RunsOut(bp, offset)
    ensures Checksum(Span(bp, offset, len)) != 0
  {
    RunsOutPast(bp, offset);
  }
}
