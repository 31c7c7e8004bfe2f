/** What ESP puts on the wire over whole runs, octet by octet where two ends could agree and still be
    wrong together, and what its receiver makes of them. */
module EspSends {
  import opened EspSpec
  import opened EspWrap

  // ---------- the layout ----------

  /** Words are sent most significant octet first. */
  lemma LongOctets(n: int)
    requires 0 <= n < 0x1_0000_0000
    ensures var b := PutLong(n);
      b[0] as int * 0x100_0000 + b[1] as int * 0x1_0000 + b[2] as int * 0x100 + b[3] as int == n
  {
    LongBack(n);
  }

  /** Payload, padding and the two octets of the tail fill whole units: of 4 octets, the stream cipher's
      behind the 4 of its sequence number, or of 8 behind the 8 of the vector for DES. */
  lemma PacketSize(k: Keys, cb: Cb, it: Item)
    requires Ready(k, cb) && Fits(cb.alg, it)
    ensures |Made(k, cb, it).1.raw| - k.ahlen ==
      match cb.alg
      case NullAlg => (|it.data| + 2 + 3) / 4 * 4
      case Rc4Alg => 4 + (|it.data| + 2 + 3) / 4 * 4
      case DesAlg => 8 + (|it.data| + 2 + 7) / 8 * 8
  {
  }

  /** Every block is enciphered against the enciphered one before it, the first against the vector
      (section 6.2 of FIPS 81). */
  lemma {:induction false} Chained(k: Keys, iv: Bytes, b: Bytes, n: nat, i: nat)
    requires KeysOk(k) && |iv| == 8 && |b| == 8 * n && i < n
    ensures var c := Chain(k.enc, k.dec, iv, b, n);
      c[8 * i..8 * i + 8] == k.enc(Xor(b[8 * i..8 * i + 8], if i == 0 then iv else c[8 * i - 8..8 * i]))
    decreases n
  {
    var first := k.enc(Xor(b[..8], iv));
    var rest := Chain(k.enc, k.dec, first, b[8..], n - 1);
    assert Chain(k.enc, k.dec, iv, b, n) == first + rest;
    if i > 0 {
      Chained(k, first, b[8..], n - 1, i - 1);
      Behind(first, rest, 8 * i, 8 * i + 8);
      Past(b, 8 * i, 8 * i + 8);
      if i > 1 {
        Behind(first, rest, 8 * i - 8, 8 * i);
      } else {
        assert (first + rest)[0..8] == first;
      }
    } else {
      assert (first + rest)[0..8] == first && b[0..8] == b[..8];
    }
  }

  lemma Past(b: Bytes, lo: nat, hi: nat)
    requires 8 <= lo <= hi <= |b|
    ensures b[8..][lo - 8..hi - 8] == b[lo..hi]
  {
  }

  lemma Behind(first: Bytes, rest: Bytes, lo: nat, hi: nat)
    requires |first| == 8 <= lo <= hi <= 8 + |rest|
    ensures (first + rest)[lo..hi] == rest[lo - 8..hi - 8]
  {
  }

  // ---------- a run of packets ----------

  /** One payload to send, with whatever is in the room made for it. */
  datatype Item = Item(data: Bytes, nexthdr: bv8, room: Bytes, junk: Bytes)

  predicate Fits(a: Alg, it: Item) {
    |it.data| < 0xFF00 && |it.room| == IvLen(a) && |it.junk| == Pad(a, |it.data| + IvLen(a))
  }

  ghost predicate Ready(k: Keys, cb: Cb) {
    KeysOk(k) && |cb.ivec| == 8 && cb.rc4.cseq == cb.rc4.current % 0x1_0000_0000
  }

  ghost function Made(k: Keys, cb: Cb, it: Item): (Cb, Packet)
    requires Ready(k, cb) && Fits(cb.alg, it)
  {
    Kick(k, cb, it.data, it.nexthdr, it.room, it.junk)
  }

  lemma StaysReady(k: Keys, cb: Cb, it: Item)
    requires Ready(k, cb) && Fits(cb.alg, it)
    ensures Ready(k, Made(k, cb, it).0) && Made(k, cb, it).0.alg == cb.alg && Made(k, cb, it).0.spi == cb.spi
  {
    if cb.alg.Rc4Alg? {
      PlusRest(cb.rc4.current, |Body(cb.alg, it.data, it.nexthdr, it.room, it.junk)[4..]|, cb.rc4.cseq);
    }
  }

  /** The packets one end makes of its payloads. */
  ghost function Packets(k: Keys, cb: Cb, its: seq<Item>): (ps: seq<Packet>)
    requires Ready(k, cb) && forall it | it in its :: Fits(cb.alg, it)
    ensures |ps| == |its|
    decreases |its|
  {
    if its == [] then []
    else
      StaysReady(k, cb, its[0]);
      [Made(k, cb, its[0]).1] + Packets(k, Made(k, cb, its[0]).0, its[1..])
  }

  lemma {:induction false} Numbered(k: Keys, cb: Cb, its: seq<Item>, i: nat)
    requires Ready(k, cb) && (forall it | it in its :: Fits(cb.alg, it)) && i < |its|
    ensures Packets(k, cb, its)[i].seqno == (cb.seqno + 1 + i) % 0x1_0000_0000
    ensures Packets(k, cb, its)[i].spi == cb.spi
    decreases |its|
  {
    StaysReady(k, cb, its[0]);
    if i > 0 {
      var next := Made(k, cb, its[0]).0;
      Numbered(k, next, its[1..], i - 1);
      PlusRest(cb.seqno + 1, i, next.seqno);
    }
  }

  /** Every packet's sequence number is one more than the last's, from one past the end's own on. */
  lemma {:induction false} Consecutive(k: Keys, cb: Cb, its: seq<Item>, i: nat)
    requires Ready(k, cb) && (forall it | it in its :: Fits(cb.alg, it)) && i < |its|
    ensures Packets(k, cb, its)[i].seqno == ((if i == 0 then cb.seqno else Packets(k, cb, its)[i - 1].seqno) + 1) % 0x1_0000_0000
    decreases |its|
  {
    StaysReady(k, cb, its[0]);
    if i > 0 {
      Consecutive(k, Made(k, cb, its[0]).0, its[1..], i - 1);
    }
  }

  /** With DES every packet's vector is the last block of the packet before it, and the first one's the
      end's own. */
  lemma {:induction false} Vectors(k: Keys, cb: Cb, its: seq<Item>, i: nat)
    requires Ready(k, cb) && (forall it | it in its :: Fits(cb.alg, it)) && i < |its| && cb.alg.DesAlg?
    ensures |Packets(k, cb, its)[i].raw| >= 8 + k.ahlen
    ensures i == 0 ==> Packets(k, cb, its)[0].raw[..8] == cb.ivec
    ensures i > 0 ==>
      var last := Packets(k, cb, its)[i - 1].raw; var end := |last| - k.ahlen;
      end >= 8 && Packets(k, cb, its)[i].raw[..8] == last[end - 8..end]
    decreases |its|
  {
    StaysReady(k, cb, its[0]);
    VectorFirst(k, cb, its[0]);
    var next := Made(k, cb, its[0]).0;
    if i > 0 {
      Vectors(k, next, its[1..], i - 1);
    }
  }

  lemma VectorFirst(k: Keys, cb: Cb, it: Item)
    requires Ready(k, cb) && Fits(cb.alg, it) && cb.alg.DesAlg?
    ensures var raw := Made(k, cb, it).1.raw; var end := |raw| - k.ahlen;
      end >= 8 && raw[..8] == cb.ivec && raw[end - 8..end] == Made(k, cb, it).0.ivec
  {
    var buf := Body(cb.alg, it.data, it.nexthdr, it.room, it.junk);
    var out := DesOut(k, cb.ivec, buf, |buf| / 8 - 1);
    assert Encipher(k, cb, buf).1 == out;
    var auth := k.mac(cb.spi, (cb.seqno + 1) % 0x1_0000_0000, out);
    assert (out + auth)[..8] == out[..8] == cb.ivec;
    assert (out + auth)[|out| - 8..|out|] == out[|out| - 8..];
  }

  // ---------- arriving in order ----------

  /** What an end makes of packets that arrive. */
  ghost function Taken(k: Keys, cb: Cb, ps: seq<Packet>): (outs: seq<Option<(Bytes, bv8)>>)
    requires KeysOk(k)
    ensures |outs| == |ps|
    decreases |ps|
  {
    if ps == [] then [] else [Input(k, cb, ps[0]).1] + Taken(k, Input(k, cb, ps[0]).0, ps[1..])
  }

  /** The receiver's stream stands where the sender's does. */
  predicate Level(snd: Cb, rcv: Cb) {
    && snd.alg == rcv.alg
    && (snd.alg.Rc4Alg? ==> InStep(rcv.rc4) && rcv.rc4.current == snd.rc4.current)
  }

  /** The hash in its place, the state becomes what deciphering makes it. */
  lemma PastHashState(k: Keys, rcv: Cb, spi: int, sn: int, enc: Bytes)
    requires KeysOk(k) && |enc| >= IvLen(rcv.alg) + 2 && |enc| % 4 == 0 && |enc| % Align(rcv.alg) == 0
    ensures rcv.alg.DesAlg? ==> |enc| % 8 == 0 && |enc| >= 8
    ensures Input(k, rcv, Packet(spi, sn, enc + k.mac(spi, sn, enc))).0 == Decipher(k, rcv, enc).0
  {
    var auth := k.mac(spi, sn, enc);
    assert (enc + auth)[..|enc|] == enc && (enc + auth)[|enc|..] == auth;
  }

  lemma StreamNext(ks: Keystream, s: Rc4State, data: Bytes)
    requires InStep(s) && |data| < 0x1_0000
    ensures var s' := Receive(ks, s, s.cseq, data).0; InStep(s') && s'.current == s.current + |data|
  {
    SignedIs(s.current, s.current);
    ReceiveAhead(ks, s, s.current, data);
  }

  lemma StreamLevel(k: Keys, snd: Cb, rcv: Cb, buf: Bytes)
    requires Ready(k, snd) && Level(snd, rcv) && snd.alg.Rc4Alg? && 4 <= |buf| < 0x1_0000
    ensures Level(Encipher(k, snd, buf).0, Decipher(k, rcv, Encipher(k, snd, buf).1).0)
  {
    var data := Stream(k.ks, snd.rc4.current, buf[4..]);
    var c := PutLong(snd.rc4.cseq) + data;
    assert c[..4] == PutLong(snd.rc4.cseq) && c[4..] == data;
    LongBack(snd.rc4.cseq);
    StreamNext(k.ks, rcv.rc4, data);
  }

  /** The sender's state but for its sequence number, which the ciphers do not see. */
  lemma MadeState(k: Keys, snd: Cb, it: Item)
    requires Ready(k, snd) && Fits(snd.alg, it)
    ensures var buf := Body(snd.alg, it.data, it.nexthdr, it.room, it.junk);
      forall rcv :: Level(Made(k, snd, it).0, rcv) <==> Level(Encipher(k, snd, buf).0, rcv)
  {
  }

  lemma StaysLevel(k: Keys, snd: Cb, rcv: Cb, it: Item)
    requires Ready(k, snd) && Level(snd, rcv) && Fits(snd.alg, it)
    ensures Level(Made(k, snd, it).0, Input(k, rcv, Made(k, snd, it).1).0)
  {
    var buf := Body(snd.alg, it.data, it.nexthdr, it.room, it.junk);
    BodySize(snd.alg, it.data, it.nexthdr, it.room, it.junk);
    PastHashState(k, rcv, snd.spi, (snd.seqno + 1) % 0x1_0000_0000, Encipher(k, snd, buf).1);
    MadeState(k, snd, it);
    if snd.alg.Rc4Alg? {
      StreamLevel(k, snd, rcv, buf);
    }
  }

  lemma ComesOut(k: Keys, snd: Cb, rcv: Cb, it: Item)
    requires Ready(k, snd) && Level(snd, rcv) && Fits(snd.alg, it)
    ensures Input(k, rcv, Made(k, snd, it).1).1 == if it.data != [] then Some((it.data, it.nexthdr)) else None
  {
    WrapBack(k, snd, rcv, it.data, it.nexthdr, it.room, it.junk);
  }

  /** Whatever payloads are sent come out, each with its next header, when the packets arrive as they
      were sent; those with no data are dropped and harm none of the others. */
  lemma {:induction false} AllThrough(k: Keys, snd: Cb, rcv: Cb, its: seq<Item>, i: nat)
    requires Ready(k, snd) && Level(snd, rcv) && (forall it | it in its :: Fits(snd.alg, it)) && i < |its|
    ensures Taken(k, rcv, Packets(k, snd, its))[i] == if its[i].data != [] then Some((its[i].data, its[i].nexthdr)) else None
    decreases |its|
  {
    StaysReady(k, snd, its[0]);
    StaysLevel(k, snd, rcv, its[0]);
    ComesOut(k, snd, rcv, its[0]);
    var ps := Packets(k, snd, its);
    assert ps[1..] == Packets(k, Made(k, snd, its[0]).0, its[1..]);
    if i > 0 {
      AllThrough(k, Made(k, snd, its[0]).0, Input(k, rcv, ps[0]).0, its[1..], i - 1);
    }
  }

  /** What arrives under DES leaves its last block as the vector, whether or not there is data in it. */
  lemma VectorLeft(k: Keys, cb: Cb, spi: int, sn: int, body: Bytes)
    requires KeysOk(k) && cb.alg.DesAlg? && |body| > 8 && |body| % 8 == 0
    ensures Input(k, cb, Packet(spi, sn, body + k.mac(spi, sn, body))).0 == cb.(ivec := body[|body| - 8..])
  {
    var auth := k.mac(spi, sn, body);
    assert (body + auth)[..|body|] == body && (body + auth)[|body|..] == auth;
  }

  // ---------- packets refused ----------

  /** A packet too short for its vector, tail and hash, one whose hash is not that of what it covers, or
      one that is not of whole units, is dropped and changes nothing. */
  lemma Refused(k: Keys, cb: Cb, spi: int, sn: int, body: Bytes, auth: Bytes)
    requires KeysOk(k) && |auth| == k.ahlen
    requires auth != k.mac(spi, sn, body) || |body| < IvLen(cb.alg) + 2 || |body| % (if cb.alg.DesAlg? then 8 else 4) != 0
    ensures Input(k, cb, Packet(spi, sn, body + auth)) == (cb, None)
  {
    assert (body + auth)[..|body|] == body && (body + auth)[|body|..] == auth;
  }

  /** No shorter packet is taken either. */
  lemma TooShort(k: Keys, cb: Cb, p: Packet)
    requires KeysOk(k) && |p.raw| < k.ahlen + 2
    ensures Input(k, cb, p) == (cb, None)
  {
  }
}
