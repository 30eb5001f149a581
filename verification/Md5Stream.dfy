/** Sections 3.1, 3.2 and 3.5 of RFC 1321, and the 64-byte buffered hasher that must agree
    with them however a message is cut. The compression function is a parameter here; the
    digest fixes it to `Md5.CompressBlock`. */
module Md5Stream {
  import opened Common
  import opened Md5

  type Compression<!S> = (S, Bytes) -> S

  function LengthByte(n: nat, i: nat): byte {
    if i == 0 then n % 0x100 else LengthByte(n / 0x100, i - 1)
  }

  /** A 64-bit quantity, low-order byte first. */
  function LengthBytes(n: nat): (b: Bytes)
    ensures |b| == 8
  {
    seq(8, i requires 0 <= i < 8 => LengthByte(n, i))
  }

  function LowBytes(n: nat, k: nat): Bytes { seq(k, i requires 0 <= i < k => LengthByte(n, i)) }

  lemma {:induction false} LowBytesAre(n: nat, k: nat)
    ensures LittleEndian(LowBytes(n, k)) == n % Pow2(8 * k)
    decreases k
  {
    if k == 0 {
      assert n % 1 == 0;
    } else {
      LowBytesAre(n / 0x100, k - 1);
      assert LowBytes(n, k)[1..] == LowBytes(n / 0x100, k - 1);
      Pow2Adds(8, 8 * k - 8);
      assert Pow2(8) == 0x100;
      ByteAndRest(n, Pow2(8 * k - 8));
    }
  }

  lemma ByteAndRest(n: nat, p: nat)
    requires p > 0
    ensures n % 0x100 + 0x100 * (n / 0x100 % p) == n % (0x100 * p)
  {
    var low, high := n % 0x100, n / 0x100;
    var q, r := high / p, high % p;
    assert high == p * q + r;
    assert n == low + 0x100 * (p * q + r) == 0x100 * p * q + (low + 0x100 * r);
    assert low + 0x100 * r < 0x100 * p;
    Remainder(n, 0x100 * p, q, low + 0x100 * r);
  }

  lemma Remainder(n: nat, d: nat, q: nat, r: nat)
    requires r < d && n == d * q + r
    ensures n % d == r
  {
    var p := n / d;
    assert n == d * p + n % d;
    if p > q {
      Multiples(d, p, q);
    } else if p < q {
      Multiples(d, q, p);
    }
  }

  lemma {:induction false} Multiples(d: nat, a: nat, b: nat)
    requires a > b
    ensures d * a >= d * b + d
    decreases a
  {
    assert d * a == d * (a - 1) + d;
    if a > b + 1 {
      Multiples(d, a - 1, b);
    }
  }

  /** The length field is the low 64 bits of the length, low-order byte first. */
  lemma LengthBytesAre(n: nat)
    ensures LittleEndian(LengthBytes(n)) == n % Pow2(64)
  {
    var k := 8;
    LowBytesAre(n, k);
    assert LengthBytes(n) == LowBytes(n, k);
  }

  function Zeros(n: nat): Bytes { seq(n, _ => 0) }

  /** The length field: the length in bits, modulo 2^64. */
  function LengthField(msg: Bytes): (b: Bytes)
    ensures |b| == 8
  {
    LengthBytes(8 * |msg| % 0x1_0000_0000_0000_0000)
  }

  /** The zero bytes that take the length to 56 modulo 64 after the marking byte. */
  function PadZeros(n: nat): (z: nat)
    ensures z < 64 && (n + 1 + z) % 64 == 56
  {
    var r := n % 64;
    assert n == 64 * (n / 64) + r;
    if r < 56 then 55 - r else 119 - r
  }

  /** One bit, then zeros to 448 modulo 512, then the length field. */
  function Padded(msg: Bytes): (b: Bytes)
    ensures |b| % 64 == 0
  {
    msg + [0x80] + Zeros(PadZeros(|msg|)) + LengthField(msg)
  }

  function Blocks<S>(f: Compression<S>, r: S, b: Bytes): S
    requires |b| % 64 == 0
  {
    if b == [] then r else f(Blocks(f, r, b[..|b| - 64]), b[|b| - 64..])
  }

  function Digest(msg: Bytes): (d: Bytes)
    ensures |d| == 16
  {
    Output(Blocks(CompressBlock, INIT(), Padded(msg)))
  }

  lemma BlocksSnoc<S>(f: Compression<S>, r: S, b: Bytes, block: Bytes)
    requires |b| % 64 == 0 && |block| == 64
    ensures |b + block| % 64 == 0
    ensures Blocks(f, r, b + block) == f(Blocks(f, r, b), block)
  {
    assert (b + block)[..|b + block| - 64] == b && (b + block)[|b + block| - 64..] == block;
  }

  function Concat(pieces: seq<Bytes>): Bytes {
    if pieces == [] then [] else pieces[0] + Concat(pieces[1..])
  }

  /** The part of a message already compressed, in whole blocks. */
  function Full(msg: Bytes): (n: nat)
    ensures n <= |msg| && n % 64 == 0 && |msg| - n == |msg| % 64 < 64
  {
    |msg| - |msg| % 64
  }

  /** What the hasher holds after `msg` has been fed to it. */
  ghost predicate Holds<S>(f: Compression<S>, init: S, state: S, buffer: Bytes, bufLen: nat, msg: Bytes) {
    && |buffer| == 64 && bufLen == |msg| % 64
    && state == Blocks(f, init, msg[..Full(msg)])
    && buffer[..bufLen] == msg[Full(msg)..]
  }

  /** Completing a block. */
  lemma FilledBlock<S>(f: Compression<S>, r: S, msg: Bytes, more: Bytes)
    requires |more| > 0 && |msg| % 64 + |more| == 64
    ensures var fed := msg + more;
      |fed| % 64 == 0 && Full(fed) == |fed|
      && Blocks(f, r, fed) == f(Blocks(f, r, msg[..Full(msg)]), msg[Full(msg)..] + more)
  {
    var whole, last := msg[..Full(msg)], msg[Full(msg)..];
    assert msg + more == whole + (last + more);
    BlocksSnoc(f, r, whole, last + more);
  }

  /** Not completing one. */
  lemma PartialBlock(msg: Bytes, more: Bytes)
    requires |msg| % 64 + |more| < 64
    ensures var fed := msg + more;
      Full(fed) == Full(msg) && |fed| % 64 == |msg| % 64 + |more|
      && fed[..Full(fed)] == msg[..Full(msg)] && fed[Full(fed)..] == msg[Full(msg)..] + more
  {
    RemainderGrows(|msg|, |more|);
  }

  lemma RemainderGrows(n: nat, k: nat)
    requires n % 64 + k < 64
    ensures (n + k) % 64 == n % 64 + k
  {
  }

  /** Room for the length in the block under way. */
  lemma PadsInOneBlock(msg: Bytes)
    requires |msg| % 64 < 56
    ensures Padded(msg) == msg + ([0x80] + Zeros(55 - |msg| % 64) + LengthField(msg))
  {
  }

  /** No room: the padding spills into a second block. */
  lemma PadsInTwoBlocks(msg: Bytes)
    requires |msg| % 64 >= 56
    ensures Padded(msg) == msg + ([0x80] + Zeros(63 - |msg| % 64)) + (Zeros(56) + LengthField(msg))
  {
    var z := 119 - |msg| % 64;
    assert Zeros(z) == Zeros(63 - |msg| % 64) + Zeros(56);
  }

  lemma BitLength(n: nat)
    ensures n % 0x1_0000_0000_0000_0000 * 8 % 0x1_0000_0000_0000_0000 == 8 * n % 0x1_0000_0000_0000_0000
  {
    var q := n / 0x1_0000_0000_0000_0000;
    assert 8 * n == n % 0x1_0000_0000_0000_0000 * 8 + 0x1_0000_0000_0000_0000 * (8 * q);
  }

  lemma LengthGrows(n: nat, k: nat)
    ensures (n % 0x1_0000_0000_0000_0000 + k) % 0x1_0000_0000_0000_0000 == (n + k) % 0x1_0000_0000_0000_0000
  {
    var q := n / 0x1_0000_0000_0000_0000;
    assert n + k == n % 0x1_0000_0000_0000_0000 + k + 0x1_0000_0000_0000_0000 * q;
  }

  /** The buffered hasher. Lengths wrap at 2^64, as RFC 1321 asks of the length field. */
  class Hasher<S> {
    const compress: Compression<S>
    ghost const init: S
    var state: S
    const buffer: array<byte>
    var bufLen: nat
    var totalLen: nat
    ghost var msg: Bytes

    ghost predicate Buffered()
      reads this, buffer
    {
      buffer.Length == 64 && Holds(compress, init, state, buffer[..], bufLen, msg)
    }

    ghost predicate Valid()
      reads this, buffer
    {
      Buffered() && totalLen == |msg| % 0x1_0000_0000_0000_0000
    }

    constructor(compress: Compression<S>, init: S)
      ensures Valid() && msg == [] && fresh(buffer) && this.compress == compress && this.init == init
    {
      this.compress, this.init := compress, init;
      state, buffer, bufLen, totalLen, msg := init, new byte[64](_ => 0), 0, 0, [];
    }

    /** Tops up the buffered block and compresses it. */
    method FillBuffer(data: Bytes)
      requires Buffered() && |data| == 64 - bufLen
      modifies this`state, this`bufLen, this`msg, buffer
      ensures Buffered() && msg == old(msg) + data && bufLen == 0
    {
      CopyInto(buffer, bufLen, data);
      assert buffer[..] == buffer[..bufLen] + buffer[bufLen..];
      assert buffer[..] == msg[Full(msg)..] + data;
      FilledBlock(compress, init, msg, data);
      state := compress(state, buffer[..]);
      bufLen, msg := 0, msg + data;
      assert msg[..Full(msg)] == msg;
    }

    /** Compresses whole blocks straight from the input. */
    method TakeBlocks(data: Bytes) returns (rest: Bytes)
      requires Buffered() && bufLen == 0
      modifies this`state, this`msg
      ensures |rest| < 64 && msg + rest == old(msg) + data
      ensures Buffered() && bufLen == 0
    {
      rest := data;
      while |rest| >= 64
        invariant Buffered() && bufLen == 0
        invariant msg + rest == old(msg) + data
      {
        assert msg[..Full(msg)] == msg;
        BlocksSnoc(compress, init, msg, rest[..64]);
        state := compress(state, rest[..64]);
        assert msg + rest[..64] + rest[64..] == msg + rest;
        msg, rest := msg + rest[..64], rest[64..];
        assert msg[..Full(msg)] == msg;
      }
    }

    /** Keeps what does not fill a block. */
    method KeepTail(data: Bytes)
      requires Buffered() && bufLen + |data| < 64
      modifies this`bufLen, this`msg, buffer
      ensures Buffered() && msg == old(msg) + data
    {
      CopyInto(buffer, bufLen, data);
      PartialBlock(msg, data);
      assert buffer[..bufLen + |data|] == buffer[..bufLen] + buffer[bufLen..bufLen + |data|];
      bufLen, msg := bufLen + |data|, msg + data;
    }

    /** The buffering of `consume`. */
    method Absorb(data: Bytes)
      requires Buffered()
      modifies this`state, this`bufLen, this`msg, buffer
      ensures Buffered() && msg == old(msg) + data
    {
      var rest := data;
      if bufLen > 0 {
        var toFill := 64 - bufLen;
        if |data| >= toFill {
          FillBuffer(data[..toFill]);
          rest := data[toFill..];
          assert data[..toFill] + rest == data;
        } else {
          KeepTail(data);
          return;
        }
      }
      assert msg + rest == old(msg) + data;
      rest := TakeBlocks(rest);
      KeepTail(rest);
    }

    /** `consume`: feeding pieces is feeding their concatenation. */
    method Consume(data: Bytes)
      requires Valid()
      modifies this`state, this`bufLen, this`totalLen, this`msg, buffer
      ensures Valid() && msg == old(msg) + data
    {
      LengthGrows(|msg|, |data|);
      totalLen := (totalLen + |data|) % 0x1_0000_0000_0000_0000;
      Absorb(data);
    }

    method ConsumeAll(pieces: seq<Bytes>)
      requires Valid()
      modifies this`state, this`bufLen, this`totalLen, this`msg, buffer
      ensures Valid() && msg == old(msg) + Concat(pieces)
      decreases |pieces|
    {
      if pieces != [] {
        Consume(pieces[0]);
        ConsumeAll(pieces[1..]);
        assert old(msg) + pieces[0] + Concat(pieces[1..]) == old(msg) + Concat(pieces);
      }
    }

    /** `finalize`: the padding goes through the same buffer, spilling into a second block
        when the length no longer fits. */
    method Finalize() returns (r: S)
      requires Valid()
      modifies this`state, this`bufLen, this`msg, buffer
      ensures r == Blocks(compress, init, Padded(old(msg)))
    {
      var bitLen := totalLen * 8 % 0x1_0000_0000_0000_0000;
      BitLength(|msg|);
      if bufLen + 1 > 56 {
        PadsInTwoBlocks(msg);
        FillBuffer([0x80] + Zeros(63 - bufLen));
        FillBuffer(Zeros(56) + LengthBytes(bitLen));
      } else {
        PadsInOneBlock(msg);
        FillBuffer([0x80] + Zeros(55 - bufLen) + LengthBytes(bitLen));
      }
      assert msg == Padded(old(msg));
      assert msg[..Full(msg)] == msg;
      r := state;
    }
  }

  /** `md5_digest`. */
  method Md5Digest(input: Bytes) returns (d: Bytes)
    ensures d == Digest(input)
  {
    d := Md5Pieces([input]);
    assert Concat([input]) == input;
  }

  /** Any way of cutting a message into `consume` calls hashes the whole message. */
  method HashPieces<S>(compress: Compression<S>, init: S, pieces: seq<Bytes>) returns (r: S)
    ensures r == Blocks(compress, init, Padded(Concat(pieces)))
  {
    var h := new Hasher(compress, init);
    h.ConsumeAll(pieces);
    assert h.msg == Concat(pieces);
    r := h.Finalize();
  }

  /** Any cut gives the one-shot digest. */
  method Md5Pieces(pieces: seq<Bytes>) returns (d: Bytes)
    ensures d == Digest(Concat(pieces))
  {
    var r := HashPieces(CompressBlock, INIT(), pieces);
    d := Output(r);
  }

  const CONTACT_SUFFIX: Bytes := [0x57, 0x41, 0x5F, 0x41, 0x44, 0x44, 0x5F, 0x4E, 0x4F, 0x54, 0x49, 0x46]

  lemma SuffixSpells()
    ensures Spells(CONTACT_SUFFIX, "WA_ADD_NOTIF")
  {
  }

  /** `contact_notification_hash`: three bytes of MD5(user ++ "WA_ADD_NOTIF"). */
  method ContactNotificationHash(user: Bytes) returns (hash: Bytes)
    ensures hash == Digest(user + CONTACT_SUFFIX)[..3]
  {
    var digest := Md5Pieces([user, CONTACT_SUFFIX]);
    assert [user, CONTACT_SUFFIX][1..] == [CONTACT_SUFFIX] && [CONTACT_SUFFIX][1..] == [];
    assert Concat([CONTACT_SUFFIX]) == CONTACT_SUFFIX;
    hash := [digest[0], digest[1], digest[2]];
  }
}
