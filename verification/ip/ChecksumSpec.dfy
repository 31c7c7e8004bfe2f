/** The Internet checksum of section 1 of RFC 1071, and the arithmetic modulo 65535 behind it. */
module ChecksumSpec {
  import opened Octets

  /** Adjacent octets paired to 16-bit words; a last odd one is padded with zero. */
  function Words(b: seq<Octet>): seq<nat> {
    if b == [] then [] else if |b| == 1 then [Pair(b[0], 0)] else [Pair(b[0], b[1])] + Words(b[2..])
  }

  /** Addition with end-around carry. */
  function OnesAdd(a: nat, b: nat): nat {
    if a + b > 0xFFFF then a + b - 0xFFFF else a + b
  }

  function OnesSum(ws: seq<nat>): nat {
    if ws == [] then 0 else OnesAdd(ws[0], OnesSum(ws[1..]))
  }

  function Checksum(b: seq<Octet>): int {
    0xFFFF - OnesSum(Words(b))
  }

  // ---------- sums of octets ----------

  /** Octets summed with weights 256 and 1 by turns. */
  function Weighted(b: seq<Octet>, high: bool): nat {
    if b == [] then 0 else (if high then Pair(b[0], 0) else b[0]) + Weighted(b[1..], !high)
  }

  /** What any number of end-around carries leaves of a sum. */
  function Fold(x: nat): (r: nat)
    ensures r <= 0xFFFF && (x <= 0xFFFF ==> r == x)
  {
    if x == 0 then 0 else (x - 1) % 0xFFFF + 1
  }

  /** The sums fold alike. */
  predicate Alike(x: nat, y: nat) {
    x % 0xFFFF == y % 0xFFFF && (x == 0 <==> y == 0)
  }

  lemma FoldAlike(x: nat, y: nat)
    requires Alike(x, y)
    ensures Fold(x) == Fold(y)
  {
    if x > 0 {
      Less(x);
      Less(y);
    }
  }

  lemma Less(x: nat)
    requires x > 0
    ensures (x - 1) % 0xFFFF == if x % 0xFFFF == 0 then 0xFFFE else x % 0xFFFF - 1
  {
  }

  lemma FoldIs(x: nat)
    ensures Alike(Fold(x), x)
  {
    if x > 0 {
      Less(x);
    }
  }

  lemma AlikeSum(a: nat, b: nat, c: nat, d: nat)
    requires Alike(a, b) && Alike(c, d)
    ensures Alike(a + c, b + d)
  {
    RestSum(a, c);
    RestSum(b, d);
  }

  lemma RestSum(a: nat, c: nat)
    ensures (a + c) % 0xFFFF == (a % 0xFFFF + c % 0xFFFF) % 0xFFFF
  {
  }

  lemma Shifted(x: nat, y: nat, k: nat)
    requires x == y + 0xFFFF * k && (y == 0 ==> k == 0)
    ensures Alike(x, y)
  {
  }

  /** Multiplying by 256 swaps the octets of a word. */
  lemma SwapAlike(x: nat)
    ensures Alike(x / 256 + x % 256 * 256, 256 * x)
  {
    Shifted(256 * x, x / 256 + x % 256 * 256, x / 256);
  }

  lemma TimesAlike(x: nat, y: nat)
    requires Alike(x, y)
    ensures Alike(256 * x, 256 * y)
    decreases x > y
  {
    if x > y {
      TimesAlike(y, x);
    } else {
      var k := y / 0xFFFF - x / 0xFFFF;
      assert 256 * y == 256 * x + 0xFFFF * (256 * k);
      Shifted(256 * y, 256 * x, 256 * k);
    }
  }

  lemma CarryAlike(x: nat)
    ensures Alike(x / 0x1_0000 + x % 0x1_0000, x)
  {
    Shifted(x, x / 0x1_0000 + x % 0x1_0000, x / 0x1_0000);
  }

  /** Summing the other way round is multiplying by 256. */
  lemma {:induction false} WeightedSwap(b: seq<Octet>, high: bool)
    ensures Alike(256 * Weighted(b, high), Weighted(b, !high))
  {
    if b != [] {
      WeightedSwap(b[1..], !high);
      var o: nat := b[0];
      var x, y := if high then 256 * o else o, if high then o else 256 * o;
      Shifted(256 * x, y, if high then o else 0);
      AlikeSum(256 * x, y, 256 * Weighted(b[1..], !high), Weighted(b[1..], high));
    }
  }

  lemma {:induction false} WeightedAppend(a: seq<Octet>, b: seq<Octet>, high: bool)
    ensures Weighted(a + b, high) == Weighted(a, high) + Weighted(b, if |a| % 2 == 0 then high else !high)
  {
    if a == [] {
      assert a + b == b;
    } else {
      WeightedAppend(a[1..], b, !high);
      assert (a + b)[1..] == a[1..] + b;
    }
  }

  lemma {:induction false} WeightedBound(b: seq<Octet>, high: bool)
    ensures Weighted(b, high) <= 65280 * |b|
  {
    if b != [] {
      WeightedBound(b[1..], !high);
    }
  }

  /** The one's complement sum of the words is the fold of the octets' sum. */
  lemma {:induction false} SumIsFold(b: seq<Octet>)
    ensures OnesSum(Words(b)) == Fold(Weighted(b, true))
    decreases |b|
  {
    if |b| == 1 {
      assert Weighted(b[1..], false) == 0;
      assert Words(b)[1..] == [];
    } else if |b| > 1 {
      SumIsFold(b[2..]);
      assert b[1..][1..] == b[2..];
      var w, rest := Pair(b[0], b[1]), Weighted(b[2..], true);
      assert Words(b)[1..] == Words(b[2..]);
      AddFold(w, rest);
    }
  }

  lemma AddFold(w: nat, x: nat)
    requires w <= 0xFFFF
    ensures OnesAdd(w, Fold(x)) == Fold(w + x)
  {
    FoldIs(x);
    AlikeSum(w, w, Fold(x), x);
    FoldAlike(w + Fold(x), w + x);
    if w + Fold(x) > 0xFFFF {
      assert (w + Fold(x) - 0xFFFF) % 0xFFFF == (w + Fold(x)) % 0xFFFF;
      FoldAlike(w + Fold(x) - 0xFFFF, w + Fold(x));
    }
  }

  // ---------- storing and checking ----------

  /** The data with a checksum stored at an offset. */
  function Stored(b: seq<Octet>, at: nat, sum: int): seq<Octet>
    requires at + 1 < |b| && 0 <= sum <= 0xFFFF
  {
    b[at := sum / 256][at + 1 := sum % 256]
  }

  lemma ChecksumRange(b: seq<Octet>)
    ensures 0 <= Checksum(b) <= 0xFFFF
  {
    SumIsFold(b);
  }

  lemma StoredSum(b: seq<Octet>, at: nat, sum: nat)
    requires at + 1 < |b| && at % 2 == 0 && b[at] == b[at + 1] == 0 && sum <= 0xFFFF
    ensures Weighted(Stored(b, at, sum), true) == Weighted(b, true) + sum
  {
    var hi, lo := sum / 256, sum % 256;
    StoredParts(b, at, hi, lo);
    StoredParts(b, at, 0, 0);
    assert b[at := 0][at + 1 := 0] == b;
    Between(b[..at], 0, 0, b[at + 2..]);
    Between(b[..at], hi, lo, b[at + 2..]);
  }

  lemma StoredParts(b: seq<Octet>, at: nat, hi: Octet, lo: Octet)
    requires at + 1 < |b|
    ensures b[at := hi][at + 1 := lo] == b[..at] + ([hi, lo] + b[at + 2..])
  {
  }

  lemma Between(front: seq<Octet>, x: Octet, y: Octet, back: seq<Octet>)
    requires |front| % 2 == 0
    ensures Weighted(front + ([x, y] + back), true) == Weighted(front, true) + Pair(x, y) + Weighted(back, true)
  {
    WeightedAppend(front, [x, y] + back, true);
    WeightedAppend([x, y], back, true);
    Two(x, y);
  }

  lemma Two(x: Octet, y: Octet)
    ensures Weighted([x, y], true) == Pair(x, y)
  {
    var b: seq<Octet> := [x, y];
    assert b[1..] == [y] && b[1..][1..] == [];
    assert Weighted(b[1..], false) == y;
  }

  /** A checksum stored in a field that was zero, at an even offset, makes the checksum of the whole
      zero (section 1 of RFC 1071). */
  lemma StoredChecks(b: seq<Octet>, at: nat)
    requires at + 1 < |b| && at % 2 == 0 && b[at] == b[at + 1] == 0
    ensures 0 <= Checksum(b) <= 0xFFFF && Checksum(Stored(b, at, Checksum(b))) == 0
  {
    ChecksumRange(b);
    var w, c := Weighted(b, true), Checksum(b);
    SumIsFold(b);
    StoredSum(b, at, c);
    SumIsFold(Stored(b, at, c));
    FoldIs(w);
    AlikeSum(w, Fold(w), c, c);
    FoldAlike(w + c, 0xFFFF);
  }

  /** The numbers of section 3 of RFC 1071: the words sum to 0xDDF2. */
  lemma Numbers(b: seq<Octet>)
    requires b == [0x00, 0x01, 0xF2, 0x03, 0xF4, 0xF5, 0xF6, 0xF7]
    ensures OnesSum(Words(b)) == 0xDDF2 && Checksum(b) == 0x220D
  {
    var c := b[2..];
    var d := c[2..];
    var e := d[2..];
    assert Words(e) == [0xF6F7] && Words(d) == [0xF4F5] + Words(e);
    assert Words(c) == [0xF203] + Words(d) && Words(b) == [0x0001] + Words(c);
    assert OnesSum(Words(e)[1..]) == 0 && OnesSum(Words(e)) == 0xF6F7;
    assert Words(d)[1..] == Words(e) && OnesSum(Words(d)) == 0xEBED;
    assert Words(c)[1..] == Words(d) && OnesSum(Words(c)) == 0xDDF1;
    assert Words(b)[1..] == Words(c);
  }
}
