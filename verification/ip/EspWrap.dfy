/** Wrapping a payload for ESP and taking it out again, on values. */
module EspWrap {
  import opened EspSpec

  datatype Alg = NullAlg | DesAlg | Rc4Alg

  function IvLen(a: Alg): nat {
    match a case NullAlg => 0 case DesAlg => 8 case Rc4Alg => 4
  }

  function BlkLen(a: Alg): nat {
    match a case NullAlg => 1 case DesAlg => 8 case Rc4Alg => 4
  }

  /** What the two ends share: the ciphers under their key, and the keyed hash with the number of
      its bytes that are sent. */
  datatype Keys = Keys(ks: Keystream, enc: Bytes -> Bytes, dec: Bytes -> Bytes, mac: (int, int, Bytes) -> Bytes, ahlen: nat)

  ghost predicate KeysOk(k: Keys) {
    Inverses(k.enc, k.dec) && forall spi, sn, b :: |k.mac(spi, sn, b)| == k.ahlen
  }

  /** One end's state. */
  datatype Cb = Cb(alg: Alg, spi: int, seqno: int, ivec: Bytes, rc4: Rc4State)

  /** A packet after its IP header. */
  datatype Packet = Packet(spi: int, seqno: int, raw: Bytes)

  function PutByte(n: int): bv8
    requires 0 <= n < 256
  {
    n as bv8
  }

  lemma ByteBack(n: int)
    requires 0 <= n < 256
    ensures PutByte(n) as int == n
  {
    if n < 128 {
      if n < 64 {
      } else {
      }
    } else {
      if n < 192 {
      } else {
      }
    }
  }

  /** `hnputl` and `nhgetl`. */
  function PutLong(n: int): (b: Bytes)
    requires 0 <= n < 0x1_0000_0000
    ensures |b| == 4
  {
    var n1 := n / 256;
    var n2 := n1 / 256;
    var n3 := n2 / 256;
    [PutByte(n3), PutByte(n2 % 256), PutByte(n1 % 256), PutByte(n % 256)]
  }

  function GetLong(b: Bytes): int
    requires |b| == 4
  {
    ((b[0] as int * 256 + b[1] as int) * 256 + b[2] as int) * 256 + b[3] as int
  }

  lemma LongBack(n: int)
    requires 0 <= n < 0x1_0000_0000
    ensures GetLong(PutLong(n)) == n
  {
    var n1 := n / 256;
    var n2 := n1 / 256;
    var n3 := n2 / 256;
    ByteBack(n3);
    ByteBack(n2 % 256);
    ByteBack(n1 % 256);
    ByteBack(n % 256);
  }

  // ---------- the ciphers on a buffer ----------

  /** A vector and n blocks chained from it. */
  ghost function DesOut(k: Keys, iv: Bytes, buf: Bytes, n: nat): (out: Bytes)
    requires KeysOk(k) && |iv| == 8 && |buf| == 8 * n + 8
    ensures |out| == |buf|
  {
    iv + Chain(k.enc, k.dec, iv, buf[8..], n)
  }

  ghost function DesIn(k: Keys, buf: Bytes, n: nat): (out: Bytes)
    requires KeysOk(k) && |buf| == 8 * n + 8
    ensures |out| == |buf|
  {
    buf[..8] + Unchain(k.enc, k.dec, buf[..8], buf[8..], n)
  }

  lemma DesBack(k: Keys, iv: Bytes, buf: Bytes, n: nat)
    requires KeysOk(k) && |iv| == 8 && |buf| == 8 * n + 8
    ensures DesIn(k, DesOut(k, iv, buf, n), n)[8..] == buf[8..]
  {
    var c := Chain(k.enc, k.dec, iv, buf[8..], n);
    ChainBack(k.enc, k.dec, iv, buf[8..], n);
    var out := iv + c;
    assert out[..8] == iv && out[8..] == c;
    assert (iv + buf[8..])[8..] == buf[8..];
  }

  /** The cipher of an end that sends; the room in front takes the vector or sequence number. */
  ghost function Encipher(k: Keys, cb: Cb, buf: Bytes): (r: (Cb, Bytes))
    requires KeysOk(k) && |cb.ivec| == 8 && 0 <= cb.rc4.cseq < 0x1_0000_0000
    requires |buf| >= IvLen(cb.alg) && (cb.alg.DesAlg? ==> |buf| % 8 == 0)
    ensures |r.1| == |buf| && |r.0.ivec| == 8
  {
    match cb.alg
    case NullAlg => (cb, buf)
    case DesAlg =>
      var out := DesOut(k, cb.ivec, buf, |buf| / 8 - 1);
      (cb.(ivec := out[|out| - 8..]), out)
    case Rc4Alg =>
      var r := Send(k.ks, cb.rc4, buf[4..]);
      (cb.(rc4 := r.0), PutLong(r.1) + r.2)
  }

  /** The cipher of an end that receives. */
  ghost function Decipher(k: Keys, cb: Cb, buf: Bytes): (r: (Cb, Option<Bytes>))
    requires KeysOk(k) && (cb.alg.DesAlg? ==> |buf| % 8 == 0 && |buf| >= 8)
    ensures r.1.Some? ==> |r.1.value| == |buf|
  {
    match cb.alg
    case NullAlg => (cb, Some(buf))
    case DesAlg =>
      (cb.(ivec := buf[|buf| - 8..]), Some(DesIn(k, buf, |buf| / 8 - 1)))
    case Rc4Alg =>
      if |buf| < 4 then (cb, None)
      else
        var r := Receive(k.ks, cb.rc4, GetLong(buf[..4]), buf[4..]);
        (cb.(rc4 := r.0), match r.1 case None => None case Some(b) => Some(buf[..4] + b))
  }

  // ---------- the packet ----------

  function Align(a: Alg): nat {
    if BlkLen(a) > 4 then BlkLen(a) else 4
  }

  /** The padding that makes payload, padding and tail whole units. */
  function Pad(a: Alg, payload: nat): (pad: nat)
    ensures pad < Align(a) && (payload + pad + 2) % Align(a) == 0
  {
    if BlkLen(a) > 4 then 7 - (payload + 1) % 8 else 3 - (payload + 1) % 4
  }

  lemma Units(n: nat, a: Alg)
    requires n % Align(a) == 0
    ensures n % 4 == 0
  {
  }

  /** The buffer before the cipher.  The room in front and the padding hold whatever was there. */
  function Body(a: Alg, data: Bytes, nexthdr: bv8, room: Bytes, junk: Bytes): (b: Bytes)
    requires |room| == IvLen(a) && |junk| == Pad(a, |data| + IvLen(a))
    ensures |b| == |data| + IvLen(a) + Pad(a, |data| + IvLen(a)) + 2 && |b| % Align(a) == 0 && |b| % 4 == 0 && |b| >= IvLen(a)
  {
    Units(|data| + IvLen(a) + Pad(a, |data| + IvLen(a)) + 2, a);
    room + data + junk + [PutByte(|junk|), nexthdr]
  }

  /** `espkick`. */
  ghost function Kick(k: Keys, cb: Cb, data: Bytes, nexthdr: bv8, room: Bytes, junk: Bytes): (Cb, Packet)
    requires KeysOk(k) && |cb.ivec| == 8 && 0 <= cb.rc4.cseq < 0x1_0000_0000
    requires |room| == IvLen(cb.alg) && |junk| == Pad(cb.alg, |data| + IvLen(cb.alg))
  {
    var r := Encipher(k, cb, Body(cb.alg, data, nexthdr, room, junk));
    var sn := (cb.seqno + 1) % 0x1_0000_0000;
    (r.0.(seqno := sn), Packet(cb.spi, sn, r.1 + k.mac(cb.spi, sn, r.1)))
  }

  /** Reading the tail and trimming. */
  function Unpack(a: Alg, buf: Bytes): Option<(Bytes, bv8)>
    requires |buf| >= 2
  {
    var tail := |buf| - 2;
    var left := tail - (buf[tail] as int + IvLen(a));
    if left <= 0 then None else Some((buf[IvLen(a)..IvLen(a) + left], buf[tail + 1]))
  }

  /** `espiput` once the conversation is found: the data and the next header, or nothing. */
  ghost function Input(k: Keys, cb: Cb, p: Packet): (Cb, Option<(Bytes, bv8)>)
    requires KeysOk(k)
  {
    if |p.raw| < IvLen(cb.alg) + 2 + k.ahlen then (cb, None)
    else
      var payload := |p.raw| - k.ahlen;
      var body := p.raw[..payload];
      if k.mac(p.spi, p.seqno, body) != p.raw[payload..] then (cb, None)
      else if payload % 4 != 0 || (cb.alg.DesAlg? && payload % 8 != 0) then (cb, None)
      else
        var r := Decipher(k, cb, body);
        match r.1
        case None => (r.0, None)
        case Some(buf) => (r.0, Unpack(cb.alg, buf))
  }

  /** The receiver's stream stands where it can take what is sent next. */
  predicate Takes(snd: Cb, rcv: Cb) {
    rcv.alg.Rc4Alg? ==> Acceptable(rcv.rc4, snd.rc4.current)
  }

  predicate Meet(snd: Cb, rcv: Cb) {
    && snd.alg == rcv.alg && |snd.ivec| == 8 && 0 <= snd.rc4.cseq < 0x1_0000_0000
    && (rcv.alg.Rc4Alg? ==>
         && snd.rc4.cseq == snd.rc4.current % 0x1_0000_0000 && InStep(rcv.rc4)
         && -0x8000_0000 <= snd.rc4.current - rcv.rc4.current < 0x8000_0000)
  }

  /** Deciphering undoes enciphering, behind the room in front. */
  lemma CipherBack(k: Keys, snd: Cb, rcv: Cb, buf: Bytes)
    requires KeysOk(k) && Meet(snd, rcv) && IvLen(snd.alg) <= |buf| < 0x1_0000 && |buf| % Align(snd.alg) == 0 && |buf| >= 4
    requires snd.alg.DesAlg? ==> |buf| >= 8
    ensures var out := Decipher(k, rcv, Encipher(k, snd, buf).1).1;
      (out.Some? <==> Takes(snd, rcv)) && (out.Some? ==> |out.value| == |buf| && out.value[IvLen(snd.alg)..] == buf[IvLen(snd.alg)..])
  {
    match snd.alg
    case NullAlg =>
    case DesAlg =>
      DesBack(k, snd.ivec, buf, |buf| / 8 - 1);
    case Rc4Alg =>
      StreamBack(k, snd, rcv, buf);
  }

  lemma StreamBack(k: Keys, snd: Cb, rcv: Cb, buf: Bytes)
    requires KeysOk(k) && Meet(snd, rcv) && snd.alg.Rc4Alg? && 4 <= |buf| < 0x1_0000
    ensures var out := Decipher(k, rcv, Encipher(k, snd, buf).1).1;
      (out.Some? <==> Takes(snd, rcv)) && (out.Some? ==> |out.value| == |buf| && out.value[4..] == buf[4..])
  {
    var c := PutLong(snd.rc4.cseq) + Stream(k.ks, snd.rc4.current, buf[4..]);
    assert c[..4] == PutLong(snd.rc4.cseq) && c[4..] == Stream(k.ks, snd.rc4.current, buf[4..]);
    LongBack(snd.rc4.cseq);
    ReceiveRight(k.ks, rcv.rc4, snd.rc4.current, buf[4..]);
    if Takes(snd, rcv) {
      assert (c[..4] + buf[4..])[4..] == buf[4..];
    }
  }

  lemma Front(b: Bytes, i: nat, n: nat)
    requires i + n <= |b|
    ensures b[i..i + n] == b[i..][..n]
  {
  }

  /** The tail of a body, and its data. */
  lemma BodyParts(a: Alg, data: Bytes, nexthdr: bv8, room: Bytes, junk: Bytes)
    requires |room| == IvLen(a) && |junk| == Pad(a, |data| + IvLen(a))
    ensures var rest := Body(a, data, nexthdr, room, junk)[IvLen(a)..];
      && |rest| == |data| + |junk| + 2 && rest[..|data|] == data
      && rest[|data| + |junk|] == PutByte(|junk|) && rest[|data| + |junk| + 1] == nexthdr
  {
    var rest := data + junk + [PutByte(|junk|), nexthdr];
    assert Body(a, data, nexthdr, room, junk)[IvLen(a)..] == rest;
  }

  lemma UnpackBack(a: Alg, data: Bytes, nexthdr: bv8, room: Bytes, junk: Bytes, out: Bytes)
    requires |room| == IvLen(a) && |junk| == Pad(a, |data| + IvLen(a))
    requires var buf := Body(a, data, nexthdr, room, junk); |out| == |buf| && out[IvLen(a)..] == buf[IvLen(a)..]
    ensures Unpack(a, out) == if data != [] then Some((data, nexthdr)) else None
  {
    var iv := IvLen(a);
    BodyParts(a, data, nexthdr, room, junk);
    var tail := |out| - 2;
    assert out[tail] == out[iv..][tail - iv] && out[tail + 1] == out[iv..][tail + 1 - iv];
    ByteBack(|junk|);
    Front(out, iv, |data|);
  }

  /** A packet with its hash in place is deciphered and unpacked. */
  lemma PastHash(k: Keys, rcv: Cb, spi: int, sn: int, enc: Bytes)
    requires KeysOk(k) && |enc| >= IvLen(rcv.alg) + 2 && |enc| % 4 == 0 && |enc| % Align(rcv.alg) == 0
    ensures rcv.alg.DesAlg? ==> |enc| % 8 == 0 && |enc| >= 8
    ensures Input(k, rcv, Packet(spi, sn, enc + k.mac(spi, sn, enc))).1 ==
      match Decipher(k, rcv, enc).1 case None => None case Some(buf) => Unpack(rcv.alg, buf)
  {
    var auth := k.mac(spi, sn, enc);
    assert (enc + auth)[..|enc|] == enc && (enc + auth)[|enc|..] == auth;
  }

  lemma BodySize(a: Alg, data: Bytes, nexthdr: bv8, room: Bytes, junk: Bytes)
    requires |room| == IvLen(a) && |junk| == Pad(a, |data| + IvLen(a)) && |data| < 0xFF00
    ensures var n := |Body(a, data, nexthdr, room, junk)|;
      IvLen(a) + 2 <= n < 0x1_0000 && n >= 4 && n % Align(a) == 0 && n % 4 == 0
  {
  }

  /** A buffer enciphered and hashed is deciphered to something that agrees with it behind the room. */
  lemma SealedBack(k: Keys, snd: Cb, rcv: Cb, buf: Bytes, sn: int) returns (out: Bytes)
    requires KeysOk(k) && Meet(snd, rcv) && IvLen(snd.alg) + 2 <= |buf| < 0x1_0000 && |buf| >= 4
    requires |buf| % Align(snd.alg) == 0 && |buf| % 4 == 0 && (snd.alg.DesAlg? ==> |buf| >= 8)
    ensures |out| == |buf| && out[IvLen(snd.alg)..] == buf[IvLen(snd.alg)..]
    ensures var enc := Encipher(k, snd, buf).1;
      Input(k, rcv, Packet(snd.spi, sn, enc + k.mac(snd.spi, sn, enc))).1 == if Takes(snd, rcv) then Unpack(rcv.alg, out) else None
  {
    CipherBack(k, snd, rcv, buf);
    var enc := Encipher(k, snd, buf).1;
    PastHash(k, rcv, snd.spi, sn, enc);
    var r := Decipher(k, rcv, enc).1;
    out := if r.Some? then r.value else buf;
  }

  /** What is sent comes out as it went in, except that a packet with no data, or one the receiver's
      stream has left behind, is dropped. */
  lemma WrapBack(k: Keys, snd: Cb, rcv: Cb, data: Bytes, nexthdr: bv8, room: Bytes, junk: Bytes)
    requires KeysOk(k) && Meet(snd, rcv) && |data| < 0xFF00
    requires |room| == IvLen(snd.alg) && |junk| == Pad(snd.alg, |data| + IvLen(snd.alg))
    ensures Input(k, rcv, Kick(k, snd, data, nexthdr, room, junk).1).1 ==
      if data != [] && Takes(snd, rcv) then Some((data, nexthdr)) else None
  {
    var buf := Body(snd.alg, data, nexthdr, room, junk);
    BodySize(snd.alg, data, nexthdr, room, junk);
    var out := SealedBack(k, snd, rcv, buf, (snd.seqno + 1) % 0x1_0000_0000);
    UnpackBack(snd.alg, data, nexthdr, room, junk, out);
  }
}
