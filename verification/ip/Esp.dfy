/** The ESP ciphers as they run: in place on the packet's buffer, with their state kept between
    packets. */
module Esp {
  import opened EspSpec
  import opened EspWrap

  /** `rc4` on the buffer from a place on. */
  method Rc4(ks: Keystream, pos: nat, p: array<bv8>, from: nat)
    requires from <= p.Length
    modifies p
    ensures p[..from] == old(p[..from]) && p[from..] == Stream(ks, pos, old(p[from..]))
  {
    var i := from;
    while i < p.Length
      invariant from <= i <= p.Length
      invariant forall j | 0 <= j < p.Length :: p[j] == if from <= j < i then old(p[j]) ^ ks(pos + j - from) else old(p[j])
    {
      p[i] := p[i] ^ ks(pos + i - from);
      i := i + 1;
    }
  }

  /** Eight bytes into the buffer. */
  method PutBlock(p: array<bv8>, at: nat, b: Bytes)
    requires |b| == 8 && at + 8 <= p.Length
    modifies p
    ensures p[..] == old(p[..at]) + b + old(p[at + 8..])
  {
    var j := 0;
    while j < 8
      invariant 0 <= j <= 8
      invariant forall i | 0 <= i < p.Length :: p[i] == if at <= i < at + j then b[i - at] else old(p[i])
    {
      p[at + j] := b[j];
      j := j + 1;
    }
  }

  class Espcb {
    const incoming: bool
    const keys: Keys
    var alg: Alg
    var spi: int
    var seqno: int
    var ivec: Bytes
    var rc4: Rc4State

    ghost function View(): Cb
      reads this
    {
      Cb(alg, spi, seqno, ivec, rc4)
    }

    constructor (incoming: bool, keys: Keys, alg: Alg, spi: int, ivec: Bytes)
      ensures this.incoming == incoming && this.keys == keys
      ensures View() == Cb(alg, spi, 0, ivec, Rc4State(0, 0, false, 0, 0, 0)) && InStep(rc4)
    {
      this.incoming, this.keys, this.alg, this.spi, this.ivec := incoming, keys, alg, spi, ivec;
      seqno := 0;
      rc4 := Rc4State(0, 0, false, 0, 0, 0);
    }

    /** One block: mixed with the vector, enciphered in place, and the next vector. */
    method EncipherBlock(p: array<bv8>, at: nat)
      requires KeysOk(keys) && |ivec| == 8 && at + 8 <= p.Length
      modifies p, this`ivec
      ensures |ivec| == 8 && ivec == keys.enc(Xor(old(p[at..][..8]), old(ivec)))
      ensures p[..at + 8] == old(p[..at]) + ivec && p[at + 8..] == old(p[at..][8..])
    {
      assert p[at..at + 8] == p[at..][..8] && p[at + 8..] == p[at..][8..];
      ivec := keys.enc(Xor(p[at..at + 8], ivec));
      PutBlock(p, at, ivec);
    }

    method DecipherBlock(p: array<bv8>, at: nat)
      requires KeysOk(keys) && |ivec| == 8 && at + 8 <= p.Length
      modifies p, this`ivec
      ensures |ivec| == 8 && ivec == old(p[at..][..8])
      ensures p[..at + 8] == old(p[..at]) + Xor(keys.dec(old(p[at..][..8])), old(ivec)) && p[at + 8..] == old(p[at..][8..])
    {
      assert p[at..at + 8] == p[at..][..8] && p[at + 8..] == p[at..][8..];
      var tmp := p[at..at + 8];
      PutBlock(p, at, Xor(keys.dec(tmp), ivec));
      ivec := tmp;
    }

    method DesEncipher(p: array<bv8>, ghost n: nat)
      requires KeysOk(keys) && |ivec| == 8 && p.Length == 8 * n + 8
      modifies p, this`ivec
      ensures p[..] == DesOut(keys, old(ivec), old(p[..]), n) && |ivec| == 8 && ivec == p[..][p.Length - 8..]
    {
      ghost var o, iv := p[..], ivec;
      PutBlock(p, 0, ivec);
      assert o[8..] == p[8..] && p[..8] == iv;
      EncipherBlocks(p, n, DesOut(keys, iv, o, n));
    }

    ghost predicate Chaining(done: Bytes, iv: Bytes, rest: Bytes, k: nat, goal: Bytes)
      requires KeysOk(keys)
    {
      var whole := |iv| == 8 && |rest| == 8 * k && done + Chain(keys.enc, keys.dec, iv, rest, k) == goal
        && |done| >= 8 && done[|done| - 8..] == iv;
      whole
    }

    lemma ChainTurn(done: Bytes, iv: Bytes, rest: Bytes, k: nat, goal: Bytes)
      requires KeysOk(keys) && Chaining(done, iv, rest, k, goal) && rest != []
      ensures k > 0 && |rest| >= 8 && var b := keys.enc(Xor(rest[..8], iv)); Chaining(done + b, b, rest[8..], k - 1, goal)
    {
    }

    lemma ChainDone(done: Bytes, iv: Bytes, rest: Bytes, k: nat, goal: Bytes)
      requires KeysOk(keys) && Chaining(done, iv, rest, k, goal) && rest == []
      ensures done == goal && |iv| == 8 && |done| >= 8 && iv == done[|done| - 8..]
    {
    }

    /** One block more. */
    method EncipherTurn(p: array<bv8>, i: nat, ghost k: nat, ghost goal: Bytes)
      requires KeysOk(keys) && 8 <= i < p.Length && Chaining(p[..i], ivec, p[i..], k, goal)
      modifies p, this`ivec
      ensures k > 0 && i + 8 <= p.Length && Chaining(p[..i + 8], ivec, p[i + 8..], k - 1, goal)
    {
      ChainTurn(p[..i], ivec, p[i..], k, goal);
      EncipherBlock(p, i);
    }

    /** Block after block. */
    method EncipherBlocks(p: array<bv8>, ghost n: nat, ghost goal: Bytes)
      requires KeysOk(keys) && p.Length == 8 * n + 8 && Chaining(p[..8], ivec, p[8..], n, goal)
      modifies p, this`ivec
      ensures p[..] == goal && |ivec| == 8 && ivec == p[..][p.Length - 8..]
    {
      ghost var k := n;
      var i := 8;
      while i < p.Length
        invariant 8 <= i <= p.Length == |goal|
        invariant Chaining(p[..i], ivec, p[i..], k, goal)
        decreases p.Length - i
      {
        EncipherTurn(p, i, k, goal);
        k := k - 1;
        i := i + 8;
      }
      ChainDone(p[..i], ivec, p[i..], k, goal);
      assert p[..] == p[..i];
    }

    /** Part of the buffer done, the vector, and what is still to do. */
    ghost predicate Unchaining(done: Bytes, iv: Bytes, rest: Bytes, k: nat, goal: Bytes, last: Bytes)
      requires KeysOk(keys)
    {
      var whole := |iv| == 8 && |rest| == 8 * k && done + Unchain(keys.enc, keys.dec, iv, rest, k) == goal
        && last == (iv + rest)[8 * k..];
      whole
    }

    lemma UnchainTurn(done: Bytes, iv: Bytes, rest: Bytes, k: nat, goal: Bytes, last: Bytes)
      requires KeysOk(keys) && Unchaining(done, iv, rest, k, goal, last) && k > 0
      ensures |rest| >= 8 && |keys.dec(rest[..8])| == 8
      ensures Unchaining(done + Xor(keys.dec(rest[..8]), iv), rest[..8], rest[8..], k - 1, goal, last)
    {
      assert (iv + rest)[8 * k..] == (rest[..8] + rest[8..])[8 * (k - 1)..];
    }

    method DesDecipher(p: array<bv8>, ghost n: nat)
      requires KeysOk(keys) && p.Length == 8 * n + 8
      modifies p, this`ivec
      ensures p[..] == DesIn(keys, old(p[..]), n) && |ivec| == 8 && ivec == old(p[..])[p.Length - 8..]
    {
      ghost var o := p[..];
      ivec := p[..8];
      assert o[8..] == p[8..] && o[..8] == ivec && o == ivec + p[8..];
      DecipherBlocks(p, n, DesIn(keys, o, n), o[p.Length - 8..]);
    }

    /** Block after block. */
    method DecipherBlocks(p: array<bv8>, ghost n: nat, ghost goal: Bytes, ghost last: Bytes)
      requires KeysOk(keys) && p.Length == 8 * n + 8 && Unchaining(p[..8], ivec, p[8..], n, goal, last)
      modifies p, this`ivec
      ensures p[..] == goal && ivec == last && |ivec| == 8
    {
      ghost var done, rest, k := p[..8], p[8..], n;
      var i := 8;
      while i < p.Length
        invariant 8 <= i <= p.Length && p.Length == i + 8 * k && p[..i] == done && p[i..] == rest
        invariant Unchaining(done, ivec, rest, k, goal, last)
        decreases k
      {
        UnchainTurn(done, ivec, rest, k, goal, last);
        done := done + Xor(keys.dec(rest[..8]), ivec);
        DecipherBlock(p, i);
        rest, k := rest[8..], k - 1;
        i := i + 8;
      }
      assert p[..] == p[..i];
    }

    /** `descipher`. */
    method DesCipher(p: array<bv8>)
      requires KeysOk(keys) && |ivec| == 8 && p.Length >= 8 && p.Length % 8 == 0 && alg.DesAlg?
      requires !incoming ==> 0 <= rc4.cseq < 0x1_0000_0000
      modifies p, this`ivec
      ensures incoming ==> (View(), Some(p[..])) == Decipher(keys, old(View()), old(p[..]))
      ensures !incoming ==> (View(), p[..]) == Encipher(keys, old(View()), old(p[..]))
    {
      if incoming {
        DesDecipher(p, p.Length / 8 - 1);
      } else {
        DesEncipher(p, p.Length / 8 - 1);
        assert p[..][p.Length - 8..] == p[p.Length - 8..];
      }
    }

    /** `hnputl(p, cseq)`. */
    method PutSeq(p: array<bv8>, n: int)
      requires p.Length >= 4 && 0 <= n < 0x1_0000_0000
      modifies p
      ensures p[..4] == PutLong(n) && p[4..] == old(p[4..])
    {
      var sn := PutLong(n);
      p[0], p[1], p[2], p[3] := sn[0], sn[1], sn[2], sn[3];
    }

    /** `rc4cipher` for a packet to send. */
    method Rc4Encipher(p: array<bv8>)
      requires p.Length >= 4 && 0 <= rc4.cseq < 0x1_0000_0000
      modifies p, this`rc4
      ensures var r := Send(keys.ks, old(rc4), old(p[4..]));
        rc4 == r.0 && p[..4] == PutLong(r.1) && p[4..] == r.2
    {
      PutSeq(p, rc4.cseq);
      Rc4(keys.ks, rc4.current, p, 4);
      var n := p.Length - 4;
      rc4 := rc4.(current := rc4.current + n, cseq := (rc4.cseq + n) % 0x1_0000_0000);
    }

    lemma Rc4Out(cb: Cb, o: Bytes, p: Bytes, rc4: Rc4State)
      requires KeysOk(keys) && |cb.ivec| == 8 && |o| >= 4 && 0 <= cb.rc4.cseq < 0x1_0000_0000 && cb.alg.Rc4Alg?
      requires var r := Send(keys.ks, cb.rc4, o[4..]); |p| >= 4 && rc4 == r.0 && p[..4] == PutLong(r.1) && p[4..] == r.2
      ensures (cb.(rc4 := rc4), p) == Encipher(keys, cb, o)
    {
      assert p == p[..4] + p[4..];
    }

    /** The end of `rc4cipher`: the old state is kept at most so far behind. */
    method MoveUp()
      requires rc4.cseq == rc4.cseq % 0x1_0000_0000
      modifies this`rc4
      ensures rc4 == Skip(old(rc4))
    {
      if rc4.ovalid {
        var dd := Signed(rc4.cseq - RC4BACK - rc4.oseq);
        if dd > 0 {
          rc4 := rc4.(back := rc4.back + dd);
          rc4 := rc4.(oseq := (rc4.oseq + dd) % 0x1_0000_0000);
        }
      }
    }

    /** The next packet: the old state is forgotten when the last gap is long past. */
    method TakeNext(p: array<bv8>)
      requires p.Length >= 4
      modifies p, this`rc4
      ensures p[..4] == old(p[..4]) && p[4..] == Stream(keys.ks, old(rc4.current), old(p[4..]))
      ensures rc4 == Receive(keys.ks, old(rc4), old(rc4.cseq), old(p[4..])).0
    {
      var n := p.Length - 4;
      Rc4(keys.ks, rc4.current, p, 4);
      rc4 := rc4.(current := rc4.current + n);
      rc4 := rc4.(cseq := (rc4.cseq + n) % 0x1_0000_0000);
      if rc4.ovalid {
        var dd := Signed(rc4.cseq - rc4.lgseq);
        if dd > RC4BACK {
          rc4 := rc4.(ovalid := false);
        }
      }
      MoveUp();
    }

    /** A packet ahead of a gap: the state before the gap is kept for those still missing. */
    method TakeAhead(p: array<bv8>, sn: int, d: int)
      requires p.Length >= 4 && d == Signed(sn - rc4.cseq) && 0 < d <= RC4FORWARD
      modifies p, this`rc4
      ensures p[..4] == old(p[..4]) && p[4..] == Stream(keys.ks, old(rc4.current) + d, old(p[4..]))
      ensures rc4 == Receive(keys.ks, old(rc4), sn, old(p[4..])).0
    {
      var n := p.Length - 4;
      rc4 := rc4.(lgseq := sn);
      if !rc4.ovalid {
        rc4 := rc4.(ovalid := true, oseq := rc4.cseq, back := rc4.current);
      }
      rc4 := rc4.(current := rc4.current + d);
      Rc4(keys.ks, rc4.current, p, 4);
      rc4 := rc4.(current := rc4.current + n);
      rc4 := rc4.(cseq := (sn + n) % 0x1_0000_0000);
      MoveUp();
    }

    /** `rc4cipher` for an arriving packet: next in order, ahead of a gap, or late. */
    method Rc4Decipher(p: array<bv8>) returns (ok: bool)
      requires KeysOk(keys) && alg.Rc4Alg?
      modifies p, this`rc4
      ensures (View(), if ok then Some(p[..]) else None) == Decipher(keys, old(View()), old(p[..]))
      ensures !ok ==> p[..] == old(p[..])
    {
      if p.Length < 4 {
        return false;
      }
      ghost var o := p[..];
      assert o[..4] == p[..4] && o[4..] == p[4..];
      ok := Rc4Take(p);
      assert p[..] == p[..4] + p[4..];
    }

    method Rc4Take(p: array<bv8>) returns (ok: bool)
      requires p.Length >= 4
      modifies p, this`rc4
      ensures (rc4, if ok then Some(p[4..]) else None) == Receive(keys.ks, old(rc4), GetLong(old(p[..4])), old(p[4..]))
      ensures p[..4] == old(p[..4]) && (!ok ==> p[4..] == old(p[4..]))
    {
      ok := true;
      var sn := GetLong(p[..4]);
      var d := Signed(sn - rc4.cseq);
      if d == 0 {
        SameSeq(rc4, sn, p[4..]);
        TakeNext(p);
      } else if d > 0 {
        if d > RC4FORWARD {
          return false;
        }
        TakeAhead(p, sn, d);
      } else {
        var dd := Signed(sn - rc4.oseq);
        if !rc4.ovalid || -d > RC4BACK || dd < 0 {
          return false;
        }
        Rc4(keys.ks, rc4.back + dd, p, 4);
      }
    }

    /** No difference of sequence numbers is no difference to the outcome. */
    lemma SameSeq(s: Rc4State, sn: int, data: Bytes)
      requires Signed(sn - s.cseq) == 0
      ensures Receive(keys.ks, s, sn, data) == Receive(keys.ks, s, s.cseq, data)
    {
    }

    /** The cipher of the conversation, on a buffer to send. */
    method Encrypt(p: array<bv8>)
      requires !incoming && KeysOk(keys) && |ivec| == 8 && 0 <= rc4.cseq < 0x1_0000_0000
      requires p.Length >= IvLen(alg) && (alg.DesAlg? ==> p.Length % 8 == 0)
      modifies p, this`ivec, this`rc4
      ensures (View(), p[..]) == Encipher(keys, old(View()), old(p[..]))
    {
      match alg {
        case NullAlg =>
        case DesAlg => DesCipher(p);
        case Rc4Alg =>
          ghost var cb, o := View(), p[..];
          assert o[4..] == p[4..];
          Rc4Encipher(p);
          assert p[..][..4] == p[..4] && p[..][4..] == p[4..];
          Rc4Out(cb, o, p[..], rc4);
      }
    }

    /** The same on a buffer that came in. */
    method Decrypt(p: array<bv8>) returns (ok: bool)
      requires incoming && KeysOk(keys) && |ivec| == 8 && (alg.DesAlg? ==> p.Length % 8 == 0 && p.Length >= 8)
      modifies p, this`ivec, this`rc4
      ensures (View(), if ok then Some(p[..]) else None) == Decipher(keys, old(View()), old(p[..]))
    {
      ok := true;
      match alg {
        case NullAlg =>
        case DesAlg => DesCipher(p);
        case Rc4Alg => ok := Rc4Decipher(p);
      }
    }

    /** Room for the vector, the payload, the padding and the tail. */
    method MakeBuffer(data: Bytes, nexthdr: bv8, room: Bytes, junk: Bytes) returns (p: array<bv8>)
      requires |room| == IvLen(alg) && |junk| == Pad(alg, |data| + IvLen(alg))
      ensures fresh(p) && p[..] == Body(alg, data, nexthdr, room, junk)
    {
      var payload := |data| + IvLen(alg);
      var pad := Pad(alg, payload);
      var buf := room + data + junk + [PutByte(pad), nexthdr];
      p := new bv8[|buf|](i requires 0 <= i < |buf| => buf[i]);
    }

    /** `espkick`: the buffer, enciphered and hashed. */
    method EspKick(data: Bytes, nexthdr: bv8, room: Bytes, junk: Bytes) returns (pkt: Packet)
      requires !incoming && KeysOk(keys) && |ivec| == 8 && 0 <= rc4.cseq < 0x1_0000_0000
      requires |room| == IvLen(alg) && |junk| == Pad(alg, |data| + IvLen(alg))
      modifies this
      ensures (View(), pkt) == Kick(keys, old(View()), data, nexthdr, room, junk)
    {
      var p := MakeBuffer(data, nexthdr, room, junk);
      Encrypt(p);
      seqno := (seqno + 1) % 0x1_0000_0000;
      var auth := keys.mac(spi, seqno, p[..]);
      pkt := Packet(spi, seqno, p[..] + auth);
    }

    /** `espiput`: length, hash, whole units, decipher, trim. */
    method EspIput(pkt: Packet) returns (up: Option<(Bytes, bv8)>)
      requires incoming && KeysOk(keys) && |ivec| == 8
      modifies this`ivec, this`rc4
      ensures (View(), up) == Input(keys, old(View()), pkt)
    {
      if |pkt.raw| < IvLen(alg) + 2 + keys.ahlen {
        return None;
      }
      var payload := |pkt.raw| - keys.ahlen;
      var body := pkt.raw[..payload];
      if keys.mac(pkt.spi, pkt.seqno, body) != pkt.raw[payload..] {
        return None;
      }
      if payload % 4 != 0 || (BlkLen(alg) == 8 && payload % 8 != 0) {
        return None;
      }
      var p := new bv8[payload](i requires 0 <= i < payload <= |body| => body[i]);
      assert p[..] == body;
      var ok := Decrypt(p);
      if !ok {
        return None;
      }
      up := Trim(p);
    }

    /** Reading the tail, and cutting off vector, padding and tail. */
    method Trim(p: array<bv8>) returns (up: Option<(Bytes, bv8)>)
      requires p.Length >= 2
      ensures up == Unpack(alg, p[..])
    {
      var tail := p.Length - 2;
      var left := tail - (p[tail] as int + IvLen(alg));
      if left <= 0 {
        return None;
      }
      up := Some((p[IvLen(alg)..IvLen(alg) + left], p[tail + 1]));
      assert p[..][IvLen(alg)..IvLen(alg) + left] == p[IvLen(alg)..IvLen(alg) + left];
    }
  }
}
