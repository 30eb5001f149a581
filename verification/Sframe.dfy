/** The trailing SFrame header and the frames it ends: ciphertext, tag, then a header read from
    the back. AES-GCM and the key derivation are parameters. */
module Sframe {
  import opened Common
  import opened Varint

  type Decoder = (Bytes, nat) -> Option<(nat, nat)>

  const U64: nat := 0x1_0000_0000_0000_0000

  /** The header of a counter and a key id. */
  function Header(counter: nat, keyId: nat): Bytes
    requires counter < U64 && keyId < U64
  {
    TenthByte(counter);
    TenthByte(keyId);
    var body := EncVarint(counter) + EncVarint(keyId);
    body + [|body| + 1]
  }

  /** `encode_varint_into`. */
  method EncodeVarintInto(out: array<byte>, at: nat, value: nat) returns (n: nat)
    requires at + |EncVarint(value)| <= out.Length
    modifies out
    ensures n == |EncVarint(value)| && out[at..at + n] == EncVarint(value)
    ensures out[..at] == old(out[..at])
  {
    var v := value;
    n := 0;
    ghost var done: Bytes := [];
    while v > 0x7F
      invariant n == |done| && HoldsAt(out, at, done) && out[..at] == old(out[..at])
      invariant at + n + |EncVarint(v)| <= out.Length && done + EncVarint(v) == EncVarint(value)
    {
      var next := v % 0x80 + 0x80;
      VarintStep(done, v);
      Append(out, at, done, at + n, [next]);
      v, n, done := v / 0x80, n + 1, done + [next];
    }
    Append(out, at, done, at + n, [v]);
    n := n + 1;
  }

  lemma VarintStep(done: Bytes, v: nat)
    requires v > 0x7F
    ensures done + EncVarint(v) == done + [v % 0x80 + 0x80] + EncVarint(v / 0x80)
  {
  }

  /** `build_sframe_header`: 21 bytes are enough for any two 64-bit values. */
  method BuildSframeHeader(counter: nat, keyId: nat) returns (header: Bytes)
    requires counter < U64 && keyId < U64
    ensures header == Header(counter, keyId)
  {
    TenthByte(counter);
    TenthByte(keyId);
    var buf := new byte[21];
    var n := EncodeVarintInto(buf, 0, counter);
    assert buf[..n] == buf[0..0 + n];
    var m := EncodeVarintInto(buf, n, keyId);
    ghost var body := buf[..n + m];
    assert body == buf[..n] + buf[n..n + m];
    buf[n + m] := n + m + 1;
    header := buf[..n + m + 1];
    assert header == body + [n + m + 1];
  }

  /** `parse_sframe_header`, with a pluggable decoder; the length byte must be the header's. */
  function ParseHeader(header: Bytes, decode: Decoder): Option<(nat, nat)> {
    if |header| < 2 || header[|header| - 1] != |header| then None
    else
      var body := header[..|header| - 1];
      var counter := decode(body, 0);
      if counter.None? then None
      else
        var keyId := decode(body, counter.value.1);
        if keyId.None? then None else Some((counter.value.0, keyId.value.0))
  }

  /** A decoder that reads encodings back wherever they stand. */
  ghost predicate Inverts(decode: Decoder) {
    forall v: nat, before: Bytes, rest: Bytes :: v < U64 ==>
      decode(before + EncVarint(v) + rest, |before|) == Some((v, |before| + |EncVarint(v)|))
  }

  /** Parsing inverts building, for every counter and key id. */
  lemma ParseInvertsBuild(counter: nat, keyId: nat, decode: Decoder)
    requires counter < U64 && keyId < U64 && Inverts(decode)
    ensures ParseHeader(Header(counter, keyId), decode) == Some((counter, keyId))
  {
    var c, k := EncVarint(counter), EncVarint(keyId);
    var header := Header(counter, keyId);
    assert header[..|header| - 1] == c + k;
    var none: Bytes := [];
    assert none + c + k == c + k && c + k + none == c + k;
    assert decode(none + c + k, |none|) == Some((counter, |none| + |c|));
    assert decode(c + k + none, |c|) == Some((keyId, |c| + |k|));
  }

  /** Both families of decoders qualify. */
  lemma DecodersInvert(strict: bool)
    ensures Inverts((data: Bytes, offset: nat) => FromOffset(data, offset, if strict then Strict else Loose))
  {
    forall v: nat, before: Bytes, rest: Bytes | v < U64
      ensures FromOffset(before + EncVarint(v) + rest, |before|, if strict then Strict else Loose)
              == Some((v, |before| + |EncVarint(v)|))
    {
      DecodesAt(v, before, rest);
    }
  }

  lemma DecodesAt(v: nat, before: Bytes, rest: Bytes)
    requires v < U64
    ensures var data := before + EncVarint(v) + rest;
      FromOffset(data, |before|, Loose) == FromOffset(data, |before|, Strict) == Some((v, |before| + |EncVarint(v)|))
  {
    var data := before + EncVarint(v) + rest;
    assert data[|before|..] == EncVarint(v) + rest;
    EncodingInverts(v, rest);
  }

  // ---------------------------------------------------------------- frames

  datatype Gcm = Gcm(
    derive: (Bytes, Bytes) -> Bytes,
    seal: (Bytes, Bytes, Bytes) -> Bytes,
    open: (Bytes, Bytes, Bytes) -> Option<Bytes>)

  ghost predicate Lawful(g: Gcm) {
    && (forall k, n, p :: g.open(k, n, g.seal(k, n, p)) == Some(p))
    && (forall k, n, p :: |g.seal(k, n, p)| == |p| + 16)
  }

  function LittleEndianBytes(n: nat, width: nat): (b: Bytes)
    ensures |b| == width
  {
    if width == 0 then [] else [n % 0x100] + LittleEndianBytes(n / 0x100, width - 1)
  }

  /** `counter_to_iv`: eight zero bytes, then the counter, little-endian. */
  function CounterToIv(counter: nat): Bytes {
    [0, 0, 0, 0, 0, 0, 0, 0] + LittleEndianBytes(counter, 8)
  }

  lemma {:induction false} LittleEndianValue(n: nat, width: nat)
    requires n < Pow2(8 * width)
    ensures LittleEndian(LittleEndianBytes(n, width)) == n
    decreases width
  {
    if width > 0 {
      EightBits(8 * width - 8);
      LittleEndianValue(n / 0x100, width - 1);
      assert LittleEndianBytes(n, width)[1..] == LittleEndianBytes(n / 0x100, width - 1);
    }
  }

  lemma IvIs(counter: nat)
    requires counter < U64
    ensures var iv := CounterToIv(counter);
      |iv| == 16 && iv[..8] == [0, 0, 0, 0, 0, 0, 0, 0] && LittleEndian(iv[8..]) == counter
  {
    var width := 8;
    TopBits(8 * width);
    LittleEndianValue(counter, width);
    assert CounterToIv(counter)[8..] == LittleEndianBytes(counter, width);
  }

  lemma IvsDiffer(a: nat, b: nat)
    requires a < U64 && b < U64 && CounterToIv(a) == CounterToIv(b)
    ensures a == b
  {
    IvIs(a);
    IvIs(b);
  }

  datatype SframeIn = Decrypted(plain: Bytes) | Plaintext | AuthFailed

  function ParseProduction(header: Bytes): Option<(nat, nat)> {
    ParseHeader(header, (data, offset) => FromOffset(data, offset, Loose))
  }

  /** Reading a frame from the back. */
  function Received(g: Gcm, key: Bytes, frame: Bytes): SframeIn {
    if |frame| < 19 then Plaintext
    else
      var headerLen := frame[|frame| - 1];
      if headerLen < 3 || headerLen > |frame| then Plaintext
      else
        var start := |frame| - headerLen;
        if start < 17 then Plaintext
        else
          var parsed := ParseProduction(frame[start..]);
          if parsed.None? then Plaintext
          else
            var plain := g.open(key, CounterToIv(parsed.value.0), frame[..start]);
            if plain.None? then AuthFailed else Decrypted(plain.value)
  }

  function Wrapped(g: Gcm, key: Bytes, counter: nat, plain: Bytes): Bytes
    requires counter < U64
  {
    g.seal(key, CounterToIv(counter), plain) + Header(counter, 0)
  }

  /** A frame comes back decrypted exactly when it carries something: an empty one is taken for
      a plain payload. */
  lemma FrameRoundTrip(g: Gcm, key: Bytes, counter: nat, plain: Bytes)
    requires Lawful(g) && counter < U64
    ensures Received(g, key, Wrapped(g, key, counter, plain)) == if plain == [] then Plaintext else Decrypted(plain)
  {
    var sealed, header := g.seal(key, CounterToIv(counter), plain), Header(counter, 0);
    var frame := sealed + header;
    assert |sealed| == |plain| + 16;
    assert frame[|frame| - 1] == header[|header| - 1] == |header|;
    assert frame[|frame| - |header|..] == header && frame[..|frame| - |header|] == sealed;
    DecodersInvert(false);
    ParseInvertsBuild(counter, 0, (data, offset) => FromOffset(data, offset, Loose));
  }

  /** One direction per key, each frame under the next counter. */
  class SframeSession {
    const gcm: Gcm
    const encryptKey: Bytes
    const decryptKey: Bytes
    var txCounter: nat

    ghost predicate Valid()
      reads this
    {
      txCounter < U64
    }

    constructor(gcm: Gcm, callKey: Bytes, self: Bytes, peer: Bytes)
      requires |callKey| == 32
      ensures Valid() && txCounter == 0 && this.gcm == gcm
      ensures encryptKey == gcm.derive(callKey, peer) && decryptKey == gcm.derive(callKey, self)
    {
      this.gcm, txCounter := gcm, 0;
      encryptKey, decryptKey := gcm.derive(callKey, peer), gcm.derive(callKey, self);
    }

    method Encrypt(plain: Bytes) returns (frame: Bytes)
      requires Valid()
      modifies this
      ensures Valid() && txCounter == (old(txCounter) + 1) % U64
      ensures frame == Wrapped(gcm, encryptKey, old(txCounter), plain)
    {
      var counter := txCounter;
      txCounter := (txCounter + 1) % U64;
      var header := BuildSframeHeader(counter, 0);
      frame := gcm.seal(encryptKey, CounterToIv(counter), plain) + header;
    }

    method Decrypt(frame: Bytes) returns (r: SframeIn)
      requires Valid()
      ensures r == Received(gcm, decryptKey, frame)
    {
      if |frame| < 19 {
        return Plaintext;
      }
      var headerLen := frame[|frame| - 1];
      if headerLen < 3 || headerLen > |frame| {
        return Plaintext;
      }
      var start := |frame| - headerLen;
      var header, ciphertext := frame[start..], frame[..start];
      if |ciphertext| < 17 {
        return Plaintext;
      }
      var parsed := ParseProduction(header);
      if parsed.None? {
        return Plaintext;
      }
      var plain := gcm.open(decryptKey, CounterToIv(parsed.value.0), ciphertext);
      r := if plain.Some? then Decrypted(plain.value) else AuthFailed;
    }
  }

  /** `SframeSession::new`: only a 32-byte call key makes a session. */
  method NewSession(gcm: Gcm, callKey: Bytes, self: Bytes, peer: Bytes) returns (s: SframeSession?)
    ensures s == null <==> |callKey| != 32
    ensures s != null ==> fresh(s) && s.Valid() && s.gcm == gcm && s.txCounter == 0
    ensures s != null ==> s.encryptKey == gcm.derive(callKey, peer) && s.decryptKey == gcm.derive(callKey, self)
  {
    if |callKey| != 32 {
      return null;
    }
    s := new SframeSession(gcm, callKey, self, peer);
  }

  /** Two sessions of one call with the participants swapped: what one wraps the other unwraps. */
  method Exchange(gcm: Gcm, callKey: Bytes, alice: Bytes, bob: Bytes, frames: seq<Bytes>) returns (got: seq<SframeIn>)
    requires |callKey| == 32 && Lawful(gcm)
    ensures |got| == |frames|
    ensures forall i :: 0 <= i < |frames| ==> got[i] == if frames[i] == [] then Plaintext else Decrypted(frames[i])
  {
    var sender := new SframeSession(gcm, callKey, alice, bob);
    var receiver := new SframeSession(gcm, callKey, bob, alice);
    got := [];
    for n := 0 to |frames|
      invariant sender.Valid() && receiver.Valid() && fresh(sender) && |got| == n
      invariant forall i :: 0 <= i < n ==> got[i] == if frames[i] == [] then Plaintext else Decrypted(frames[i])
    {
      FrameRoundTrip(gcm, sender.encryptKey, sender.txCounter, frames[n]);
      var frame := sender.Encrypt(frames[n]);
      var r := receiver.Decrypt(frame);
      got := got + [r];
    }
  }
}
