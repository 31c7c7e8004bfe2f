/** ESP on values: the stream cipher with its out of order receiver, cipher block chaining, and the
    wrapping of a payload. */
module EspSpec {
  type Bytes = seq<bv8>

  datatype Option<T> = None | Some(value: T)

  function Xor(a: Bytes, b: Bytes): (c: Bytes)
    requires |a| == |b|
    ensures |c| == |a|
  {
    seq(|a|, i requires 0 <= i < |a| => a[i] ^ b[i])
  }

  lemma XorTwice(a: Bytes, b: Bytes)
    requires |a| == |b|
    ensures Xor(Xor(a, b), b) == a
  {
    forall i | 0 <= i < |a| ensures Xor(Xor(a, b), b)[i] == a[i] {
      XorByte(a[i], b[i]);
    }
  }

  lemma XorByte(x: bv8, y: bv8)
    ensures (x ^ y) ^ y == x
  {
  }

  // ---------- the stream cipher ----------

  /** The keystream, by position. */
  type Keystream = nat -> bv8

  /** `rc4` from a position on. */
  function Stream(ks: Keystream, pos: nat, b: Bytes): (c: Bytes)
    ensures |c| == |b|
  {
    seq(|b|, i requires 0 <= i < |b| => b[i] ^ ks(pos + i))
  }

  lemma StreamTwice(ks: Keystream, pos: nat, b: Bytes)
    ensures Stream(ks, pos, Stream(ks, pos, b)) == b
  {
    forall i | 0 <= i < |b| ensures Stream(ks, pos, Stream(ks, pos, b))[i] == b[i] {
      XorByte(b[i], ks(pos + i));
    }
  }

  const RC4FORWARD: int := 10485760
  const RC4BACK: int := 102400

  /** A difference of 32-bit sequence numbers, taken as signed. */
  function Signed(x: int): int {
    var y := x % 0x1_0000_0000;
    if y >= 0x8000_0000 then y - 0x1_0000_0000 else y
  }

  lemma SignedIs(a: int, b: int)
    requires -0x8000_0000 <= a - b < 0x8000_0000
    ensures Signed(a % 0x1_0000_0000 - b % 0x1_0000_0000) == a - b
  {
    var x := a % 0x1_0000_0000 - b % 0x1_0000_0000;
    var k := a / 0x1_0000_0000 - b / 0x1_0000_0000;
    assert x == a - b - 0x1_0000_0000 * k;
    SameRest(x, a - b, k);
  }

  lemma SameRest(x: int, y: int, k: int)
    requires x == y - 0x1_0000_0000 * k
    ensures x % 0x1_0000_0000 == y % 0x1_0000_0000
  {
  }

  /** The receiver's state: sequence numbers of 32 bits, and where in the keystream the two cipher
      states really are. */
  datatype Rc4State = Rc4State(cseq: int, current: nat, ovalid: bool, lgseq: int, oseq: int, back: nat)

  function Skip(s: Rc4State): Rc4State {
    var dd := Signed(s.cseq - RC4BACK - s.oseq);
    if s.ovalid && dd > 0 then s.(back := s.back + dd, oseq := (s.oseq + dd) % 0x1_0000_0000) else s
  }

  /** `rc4cipher` for an arriving packet: the sequence number in front of it, and the rest. */
  function Receive(ks: Keystream, s: Rc4State, sn: int, data: Bytes): (Rc4State, Option<Bytes>) {
    var n := |data|;
    var d := Signed(sn - s.cseq);
    if d == 0 then
      var s1 := s.(current := s.current + n, cseq := (s.cseq + n) % 0x1_0000_0000);
      var s2 := if s1.ovalid && Signed(s1.cseq - s1.lgseq) > RC4BACK then s1.(ovalid := false) else s1;
      (Skip(s2), Some(Stream(ks, s.current, data)))
    else if d > 0 then
      if d > RC4FORWARD then (s, None)
      else
        var s1 := s.(lgseq := sn);
        var s2 := if s1.ovalid then s1 else s1.(ovalid := true, oseq := s.cseq, back := s.current);
        var s3 := s2.(current := s.current + d + n, cseq := (sn + n) % 0x1_0000_0000);
        (Skip(s3), Some(Stream(ks, s.current + d, data)))
    else
      var dd := Signed(sn - s.oseq);
      if !s.ovalid || -d > RC4BACK || dd < 0 then (s, None)
      else (s, Some(Stream(ks, s.back + dd, data)))
  }

  /** `rc4cipher` for a packet to send. */
  function Send(ks: Keystream, s: Rc4State, data: Bytes): (Rc4State, int, Bytes) {
    (s.(current := s.current + |data|, cseq := (s.cseq + |data|) % 0x1_0000_0000), s.cseq, Stream(ks, s.current, data))
  }

  /** The current state sits at cseq, and a valid old state at oseq, not far behind. */
  predicate InStep(s: Rc4State) {
    && s.cseq == s.current % 0x1_0000_0000
    && (s.ovalid ==> s.oseq == s.back % 0x1_0000_0000 && s.back <= s.current <= s.back + RC4BACK)
  }

  lemma PlusRest(a: int, b: int, c: int)
    requires c == a % 0x1_0000_0000
    ensures (c + b) % 0x1_0000_0000 == (a + b) % 0x1_0000_0000
  {
  }

  lemma SkipKeeps(s: Rc4State)
    requires s.cseq == s.current % 0x1_0000_0000
    requires s.ovalid ==> s.oseq == s.back % 0x1_0000_0000 && s.back <= s.current < s.back + 0x4000_0000
    ensures InStep(Skip(s)) && Skip(s).current == s.current
  {
    if s.ovalid {
      SameRest(s.cseq - RC4BACK, s.current - RC4BACK, s.current / 0x1_0000_0000);
      PlusRest(s.current, -RC4BACK, s.cseq);
      SignedOff(s.current - RC4BACK, s.back, s.cseq - RC4BACK, s.oseq);
      PlusRest(s.back, Signed(s.cseq - RC4BACK - s.oseq), s.oseq);
    }
  }

  /** Signed differences do not mind that one side has not been brought into range. */
  lemma SignedOff(a: int, b: int, x: int, y: int)
    requires x % 0x1_0000_0000 == a % 0x1_0000_0000 && y == b % 0x1_0000_0000 && -0x8000_0000 <= a - b < 0x8000_0000
    ensures Signed(x - y) == a - b
  {
    SignedIs(a, b);
    var k := a / 0x1_0000_0000 - x / 0x1_0000_0000;
    assert x == a - 0x1_0000_0000 * k;
    SameRest(x - y, a % 0x1_0000_0000 - y, -(x / 0x1_0000_0000));
  }

  /** A packet is taken when it is the next, or not too far ahead, or behind but not before the old
      state and not too far. */
  predicate Acceptable(s: Rc4State, pos: int) {
    || s.current <= pos <= s.current + RC4FORWARD
    || (pos < s.current && s.ovalid && s.back <= pos && s.current - pos <= RC4BACK)
  }

  /** Where the receiver takes a packet to stand: of all the places with its sequence number, the one
      within half the range of numbers of where it is itself. */
  function Place(s: Rc4State, pos: nat): int {
    s.current + Signed(pos - s.current)
  }

  /** Within half the range of sequence numbers of where the receiver stands. */
  predicate InRange(s: Rc4State, pos: nat) {
    -0x8000_0000 <= pos - s.current < 0x8000_0000
  }

  lemma PlaceIs(s: Rc4State, pos: nat)
    ensures -0x8000_0000 <= Place(s, pos) - s.current < 0x8000_0000 && Place(s, pos) % 0x1_0000_0000 == pos % 0x1_0000_0000
    ensures InRange(s, pos) <==> Place(s, pos) == pos
  {
    var x := pos - s.current;
    var y := x % 0x1_0000_0000;
    var k := x / 0x1_0000_0000 + if y >= 0x8000_0000 then 1 else 0;
    assert Signed(x) == x - 0x1_0000_0000 * k;
    SameRest(Place(s, pos), pos, k);
    if InRange(s, pos) {
      SignedIs(pos, s.current);
      SignedOff(pos, s.current, pos, s.current % 0x1_0000_0000);
      assert k == 0;
    }
  }

  /** Whatever arrives, the receiver decrypts it at the place it takes it to stand, if it may, and stays
      in step with itself; so a packet in range comes out as it was sent or not at all. */
  lemma ReceiveRight(ks: Keystream, s: Rc4State, pos: nat, plain: Bytes)
    requires InStep(s) && |plain| < 0x1_0000
    ensures var (s', out) := Receive(ks, s, pos % 0x1_0000_0000, Stream(ks, pos, plain)); var q := Place(s, pos);
      && InStep(s') && out == (if Acceptable(s, q) then Some(Stream(ks, q, Stream(ks, pos, plain))) else None)
      && (InRange(s, pos) ==> out == if Acceptable(s, pos) then Some(plain) else None)
  {
    PlaceIs(s, pos);
    ReceiveAt(ks, s, Place(s, pos), Stream(ks, pos, plain));
    StreamTwice(ks, pos, plain);
  }

  lemma ReceiveAt(ks: Keystream, s: Rc4State, q: int, data: Bytes)
    requires InStep(s) && |data| < 0x1_0000 && -0x8000_0000 <= q - s.current < 0x8000_0000
    ensures var (s', out) := Receive(ks, s, q % 0x1_0000_0000, data);
      InStep(s') && out == if Acceptable(s, q) then Some(Stream(ks, q, data)) else None
  {
    SignedIs(q, s.current);
    if q >= s.current {
      ReceiveAhead(ks, s, q, data);
    } else if s.ovalid && s.current - q <= RC4BACK {
      SignedIs(q, s.back);
    }
  }

  /** Nothing wrong is taken, whatever the keystream and the data, exactly when the place is the right
      one or cannot be accepted. */
  lemma RightExactly(s: Rc4State, pos: nat)
    requires InStep(s)
    ensures (forall ks: Keystream, plain: Bytes | |plain| < 0x1_0000 ::
        Receive(ks, s, pos % 0x1_0000_0000, Stream(ks, pos, plain)).1 in {None, Some(plain)}) <==>
      !Acceptable(s, Place(s, pos)) || Place(s, pos) == pos
  {
    PlaceIs(s, pos);
    forall ks: Keystream, plain: Bytes | |plain| < 0x1_0000 && (!Acceptable(s, Place(s, pos)) || Place(s, pos) == pos)
      ensures Receive(ks, s, pos % 0x1_0000_0000, Stream(ks, pos, plain)).1 in {None, Some(plain)}
    {
      ReceiveRight(ks, s, pos, plain);
    }
    if Acceptable(s, Place(s, pos)) && Place(s, pos) != pos {
      var ks, plain := OneBit(pos), [0];
      ReceiveRight(ks, s, pos, plain);
      assert Stream(ks, Place(s, pos), Stream(ks, pos, plain))[0] == 1;
      assert Receive(ks, s, pos % 0x1_0000_0000, Stream(ks, pos, plain)).1 !in {None, Some(plain)};
    }
  }

  /** A keystream that is zero but for one place. */
  function OneBit(pos: nat): Keystream {
    n => if n == pos then 1 else 0
  }

  lemma ReceiveAhead(ks: Keystream, s: Rc4State, pos: nat, data: Bytes)
    requires InStep(s) && |data| < 0x1_0000 && 0 <= pos - s.current < 0x8000_0000
    ensures InStep(Receive(ks, s, pos % 0x1_0000_0000, data).0)
  {
    var n := |data|;
    SignedIs(pos, s.current);
    PlusRest(pos, n, pos % 0x1_0000_0000);
    if pos == s.current {
      var s1 := s.(current := s.current + n, cseq := (s.cseq + n) % 0x1_0000_0000);
      SkipKeeps(if s1.ovalid && Signed(s1.cseq - s1.lgseq) > RC4BACK then s1.(ovalid := false) else s1);
    } else if pos - s.current <= RC4FORWARD {
      var sn, d := pos % 0x1_0000_0000, pos - s.current;
      var s1 := s.(lgseq := sn);
      var s2 := if s1.ovalid then s1 else s1.(ovalid := true, oseq := s.cseq, back := s.current);
      SkipKeeps(s2.(current := s.current + d + n, cseq := (sn + n) % 0x1_0000_0000));
    }
  }

  // ---------- every order of arrival ----------

  function Total(plains: seq<Bytes>): nat {
    if plains == [] then 0 else |plains[0]| + Total(plains[1..])
  }

  /** Where the i-th packet sent stands in the keystream. */
  function PosOf(plains: seq<Bytes>, i: nat): nat
    requires i <= |plains|
  {
    Total(plains[..i])
  }

  /** The i-th packet, as the sender makes it after the ones before. */
  function Sender(ks: Keystream, plains: seq<Bytes>): Rc4State {
    if plains == [] then Rc4State(0, 0, false, 0, 0, 0)
    else Send(ks, Sender(ks, plains[..|plains| - 1]), plains[|plains| - 1]).0
  }

  lemma {:induction false} TotalAppend(a: seq<Bytes>, b: Bytes)
    ensures Total(a + [b]) == Total(a) + |b|
  {
    if a == [] {
      assert [] + [b] == [b];
    } else {
      TotalAppend(a[1..], b);
      assert (a + [b])[1..] == a[1..] + [b];
    }
  }

  lemma {:induction false} TotalSplit(a: seq<Bytes>, i: nat)
    requires i < |a|
    ensures Total(a[..i]) + |a[i]| <= Total(a)
  {
    if i == 0 {
      assert a[..0] == [];
    } else {
      TotalSplit(a[1..], i - 1);
      assert a[..i][1..] == a[1..][..i - 1];
    }
  }

  /** What the sender puts on the wire is the data against the keystream at its place, under that
      place as sequence number. */
  lemma {:induction false} SenderAt(ks: Keystream, plains: seq<Bytes>)
    ensures Sender(ks, plains).current == Total(plains) && Sender(ks, plains).cseq == Total(plains) % 0x1_0000_0000
  {
    if plains != [] {
      var init, last := plains[..|plains| - 1], plains[|plains| - 1];
      SenderAt(ks, init);
      TotalAppend(init, last);
      assert plains == init + [last];
      PlusRest(Total(init), |last|, Total(init) % 0x1_0000_0000);
    }
  }

  /** The packet the sender makes of its i-th data. */
  function Sent(ks: Keystream, plains: seq<Bytes>, i: nat): (int, Bytes)
    requires i < |plains|
  {
    var r := Send(ks, Sender(ks, plains[..i]), plains[i]);
    (r.1, r.2)
  }

  /** The receiver after packets have come in some order, some of them more than once. */
  function After(ks: Keystream, plains: seq<Bytes>, order: seq<nat>): Rc4State
    requires forall i | 0 <= i < |order| :: order[i] < |plains|
  {
    if order == [] then Rc4State(0, 0, false, 0, 0, 0)
    else
      var (sn, data) := Sent(ks, plains, order[|order| - 1]);
      Receive(ks, After(ks, plains, order[..|order| - 1]), sn, data).0
  }

  lemma {:induction false} StaysInStep(ks: Keystream, plains: seq<Bytes>, order: seq<nat>)
    requires (forall p | p in plains :: |p| < 0x1_0000) && forall j | 0 <= j < |order| :: order[j] < |plains|
    ensures InStep(After(ks, plains, order))
  {
    if order != [] {
      var init, k := order[..|order| - 1], order[|order| - 1];
      StaysInStep(ks, plains, init);
      SenderAt(ks, plains[..k]);
      ReceiveRight(ks, After(ks, plains, init), PosOf(plains, k), plains[k]);
    }
  }

  /** After any packets in any order, however late and however often the sequence numbers wrapped, the
      receiver decrypts the next one at its place or drops it; in range, what it takes comes out as it
      went in, and it takes exactly what is acceptable. */
  lemma AnyOrder(ks: Keystream, plains: seq<Bytes>, order: seq<nat>, i: nat)
    requires (forall p | p in plains :: |p| < 0x1_0000)
    requires i < |plains| && forall j | 0 <= j < |order| :: order[j] < |plains|
    ensures var (sn, data) := Sent(ks, plains, i);
      var s, pos := After(ks, plains, order), PosOf(plains, i);
      && InStep(s)
      && Receive(ks, s, sn, data).1 == (if Acceptable(s, Place(s, pos)) then Some(Stream(ks, Place(s, pos), data)) else None)
      && (InRange(s, pos) ==> Receive(ks, s, sn, data).1 == if Acceptable(s, pos) then Some(plains[i]) else None)
  {
    StaysInStep(ks, plains, order);
    SenderAt(ks, plains[..i]);
    ReceiveRight(ks, After(ks, plains, order), PosOf(plains, i), plains[i]);
  }

  lemma ReceiveBound(ks: Keystream, s: Rc4State, pos: nat, plain: Bytes, top: nat)
    requires InStep(s) && InRange(s, pos) && s.current <= top && pos + |plain| <= top
    ensures Receive(ks, s, pos % 0x1_0000_0000, Stream(ks, pos, plain)).0.current <= top
  {
    SignedIs(pos, s.current);
  }

  /** While a sender has sent less than half the range, every packet comes in range, in every order. */
  lemma {:induction false} ShortRun(ks: Keystream, plains: seq<Bytes>, order: seq<nat>)
    requires Total(plains) < 0x8000_0000 && (forall p | p in plains :: |p| < 0x1_0000)
    requires forall j | 0 <= j < |order| :: order[j] < |plains|
    ensures After(ks, plains, order).current <= Total(plains)
    ensures forall i | 0 <= i < |plains| :: InRange(After(ks, plains, order), PosOf(plains, i))
  {
    if order != [] {
      var init, k := order[..|order| - 1], order[|order| - 1];
      ShortRun(ks, plains, init);
      StaysInStep(ks, plains, init);
      SenderAt(ks, plains[..k]);
      TotalSplit(plains, k);
      ReceiveBound(ks, After(ks, plains, init), PosOf(plains, k), plains[k], Total(plains));
    }
    forall i | 0 <= i < |plains| ensures PosOf(plains, i) <= Total(plains) {
      TotalSplit(plains, i);
    }
  }

  // ---------- cipher block chaining ----------

  /** A block cipher of 8 bytes and its inverse. */
  ghost predicate Inverses(enc: Bytes -> Bytes, dec: Bytes -> Bytes) {
    && (forall b {:trigger enc(b)} | |b| == 8 :: |enc(b)| == 8 && dec(enc(b)) == b)
    && (forall b {:trigger dec(b)} | |b| == 8 :: |dec(b)| == 8)
  }

  /** k blocks chained from an initial vector. */
  ghost function Chain(enc: Bytes -> Bytes, dec: Bytes -> Bytes, iv: Bytes, b: Bytes, k: nat): (c: Bytes)
    requires Inverses(enc, dec) && |iv| == 8 && |b| == 8 * k
    ensures |c| == |b|
    decreases k
  {
    if k == 0 then []
    else
      var first := enc(Xor(b[..8], iv));
      first + Chain(enc, dec, first, b[8..], k - 1)
  }

  ghost function Unchain(enc: Bytes -> Bytes, dec: Bytes -> Bytes, iv: Bytes, c: Bytes, k: nat): (b: Bytes)
    requires Inverses(enc, dec) && |iv| == 8 && |c| == 8 * k
    ensures |b| == |c|
    decreases k
  {
    if k == 0 then []
    else
      var first := dec(c[..8]);
      Xor(first, iv) + Unchain(enc, dec, c[..8], c[8..], k - 1)
  }

  lemma {:induction false} ChainBack(enc: Bytes -> Bytes, dec: Bytes -> Bytes, iv: Bytes, b: Bytes, k: nat)
    requires Inverses(enc, dec) && |iv| == 8 && |b| == 8 * k
    ensures Unchain(enc, dec, iv, Chain(enc, dec, iv, b, k), k) == b
    decreases k
  {
    if k > 0 {
      var first := enc(Xor(b[..8], iv));
      var rest := Chain(enc, dec, first, b[8..], k - 1);
      ChainBack(enc, dec, first, b[8..], k - 1);
      XorTwice(b[..8], iv);
      UnchainOne(enc, dec, iv, first, rest, k);
      assert b == b[..8] + b[8..];
    }
  }

  lemma UnchainOne(enc: Bytes -> Bytes, dec: Bytes -> Bytes, iv: Bytes, first: Bytes, rest: Bytes, k: nat)
    requires Inverses(enc, dec) && |iv| == 8 == |first| && k > 0 && |rest| == 8 * (k - 1)
    ensures Unchain(enc, dec, iv, first + rest, k) == Xor(dec(first), iv) + Unchain(enc, dec, first, rest, k - 1)
  {
    assert (first + rest)[..8] == first && (first + rest)[8..] == rest;
  }
}
