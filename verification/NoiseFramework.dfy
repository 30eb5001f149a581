/** The initiator of XX against the Noise Protocol Framework, written out over the primitives:
    section 5.2 for the symmetric state, section 7.5 for the pattern. */
module NoiseFramework {
  import opened Common
  import opened Noise
  import opened Sessions

  /** Nonces of section 5.1 for AES-GCM: the counter big-endian in the last eight bytes. */
  const NONCE0: Bytes := [0, 0, 0, 0, 0, 0, 0, 0, 0, 0, 0, 0]
  const NONCE1: Bytes := [0, 0, 0, 0, 0, 0, 0, 0, 0, 0, 0, 1]

  const PROTOCOL_NAME: string := "Noise_XX_25519_AESGCM_SHA256"

  /** A name of at most 32 bytes, padded with zeros. */
  function ProtocolHash(): (h: Bytes)
    ensures |h| == 32
  {
    seq(32, i requires 0 <= i < 32 =>
      if i < |PROTOCOL_NAME| && PROTOCOL_NAME[i] < '\U{80}' then PROTOCOL_NAME[i] as int else 0)
  }

  /** The handshake hash and the chaining key at the end, the four messages of the two sides, and
      what the initiator read. */
  datatype Xx = Xx(
    hash: Bytes, chainingKey: Bytes, serverStatic: Bytes, cert: Bytes, sealedStatic: Bytes, sealedPayload: Bytes)

  /** XX as the initiator runs it: -> e, <- e, ee, s, es, -> s, se. The first message has no
      payload part. */
  function RunPattern(c: Crypto, prologue: Bytes, client: Secrets, re: Bytes, sealedRs: Bytes, sealedCert: Bytes,
                      payload: Bytes): Option<Xx>
  {
    var h := c.sha(c.sha(c.sha(ProtocolHash() + prologue) + c.publicKey(client.ephemeral)) + re);
    var ee := c.agree(client.ephemeral, re);
    if ee.None? then None
    else
      var (ck1, k1) := c.hkdf(ProtocolHash(), ee.value);
      var rs := c.open(k1, NONCE0, h, sealedRs);
      if rs.None? then None
      else
        var h1, es := c.sha(h + sealedRs), c.agree(client.ephemeral, rs.value);
        if es.None? then None else AfterEs(c, h1, ck1, client, re, rs.value, es.value, sealedCert, payload)
  }

  function AfterEs(c: Crypto, h: Bytes, ck: Bytes, client: Secrets, re: Bytes, rs: Bytes, es: Bytes, sealedCert: Bytes,
                   payload: Bytes): Option<Xx>
  {
    var (ck2, k2) := c.hkdf(ck, es);
    var cert := c.open(k2, NONCE0, h, sealedCert);
    var se := c.agree(client.static_, re);
    if cert.None? || se.None? then None
    else
      var h1 := c.sha(h + sealedCert);
      var sealedStatic := c.seal(k2, NONCE1, h1, c.publicKey(client.static_));
      var h2 := c.sha(h1 + sealedStatic);
      var (ck3, k3) := c.hkdf(ck2, se.value);
      var sealedPayload := c.seal(k3, NONCE0, h2, payload);
      Some(Xx(c.sha(h2 + sealedPayload), ck3, rs, cert.value, sealedStatic, sealedPayload))
  }

  /** EncryptAndHash and DecryptAndHash of section 5.2, for a counter of 32 bits whose last value is
      refused. */
  lemma MessagesFollowFramework(c: Crypto, s: NoiseState, nonce: Bytes, plaintext: Bytes, ciphertext: Bytes)
    requires |nonce| == 12 && (forall i :: 0 <= i < 8 ==> nonce[i] == 0)
    requires s.counter == 0x100_0000 * (nonce[8] as int) + 0x1_0000 * (nonce[9] as int)
                          + 0x100 * (nonce[10] as int) + nonce[11] as int
    ensures var out := c.seal(s.key, nonce, s.hash, plaintext);
      Encrypt(c, s, plaintext) == if s.counter == 0xFFFF_FFFF then (s, None)
        else (NoiseState(c.sha(s.hash + out), s.salt, s.key, s.counter + 1), Some(out))
    ensures var got := c.open(s.key, nonce, s.hash, ciphertext);
      Decrypt(c, s, ciphertext) == if s.counter == 0xFFFF_FFFF then (s, None)
        else (NoiseState(if got.None? then s.hash else c.sha(s.hash + ciphertext), s.salt, s.key, s.counter + 1), got)
  {
    NonceIs(s.counter, nonce);
  }

  /** There is one nonce for a counter. */
  lemma NonceIs(counter: Counter, nonce: Bytes)
    requires |nonce| == 12 && (forall i :: 0 <= i < 8 ==> nonce[i] == 0)
    requires counter == 0x100_0000 * (nonce[8] as int) + 0x1_0000 * (nonce[9] as int)
                        + 0x100 * (nonce[10] as int) + nonce[11] as int
    ensures GenerateIv(counter) == nonce
  {
    IvIs(counter);
    var iv := GenerateIv(counter);
    assert forall i :: 0 <= i < 8 ==> iv[i] == iv[..8][i];
    SameDigits(iv[8], iv[9], iv[10], iv[11], nonce[8], nonce[9], nonce[10], nonce[11]);
  }

  lemma SameDigits(a: int, b: int, c: int, d: int, e: int, f: int, g: int, h: int)
    requires 0 <= a < 0x100 && 0 <= b < 0x100 && 0 <= c < 0x100 && 0 <= d < 0x100
    requires 0 <= e < 0x100 && 0 <= f < 0x100 && 0 <= g < 0x100 && 0 <= h < 0x100
    requires 0x100_0000 * a + 0x1_0000 * b + 0x100 * c + d == 0x100_0000 * e + 0x1_0000 * f + 0x100 * g + h
    ensures a == e && b == f && c == g && d == h
  {
  }

  lemma Nonces()
    ensures GenerateIv(0) == NONCE0 && GenerateIv(1) == NONCE1
  {
  }

  lemma ProtocolName()
    ensures NOISE_MODE == ProtocolHash()
  {
  }

  /** The chaining key and the hash both start as the padded name. */
  lemma OpenedState(c: Crypto, publicKey: Bytes, header: Bytes, routing: Option<Bytes>)
    ensures var h := Opened(c, publicKey, header, routing).handshake;
      && h.Some? && h.value.hash == c.sha(c.sha(ProtocolHash() + header) + publicKey)
      && h.value.salt == ProtocolHash() && h.value.counter == 0
  {
    ProtocolName();
    assert NOISE_MODE + [] == NOISE_MODE;
  }

  /** Section 5.3 would mix the empty payload of the first message into the hash; the initiator does
      not, so its hash is then the framework's exactly if SHA-256 maps it to itself. */
  lemma FirstPayloadOmitted(c: Crypto, publicKey: Bytes, header: Bytes, routing: Option<Bytes>)
    ensures var h := c.sha(c.sha(ProtocolHash() + header) + publicKey);
      var s := Opened(c, publicKey, header, routing).handshake;
      s.Some? && (s.value.hash == c.sha(h + []) <==> c.sha(h) == h)
  {
    OpenedState(c, publicKey, header, routing);
    var h := c.sha(c.sha(ProtocolHash() + header) + publicKey);
    assert h + [] == h;
  }

  /** Whatever the server sends: the initiator finishes exactly when the pattern does, with the same
      messages and the same final hash, and it writes with the first of the two keys of section
      5.2's Split and reads with the second. */
  lemma XxFollowsFramework(c: Crypto, header: Bytes, routing: Option<Bytes>, client: Secrets, hello: ServerHello,
                           payload: Bytes)
    ensures var s := Opened(c, c.publicKey(client.ephemeral), header, routing);
      var reply := Initiate(c, s, hello, client, payload);
      var x := RunPattern(c, header, client, hello.ephemeral, hello.sealedStatic, hello.sealedPayload, payload);
      && (x.Some? <==> reply.cert.Some? && reply.sealedStatic.Some?)
      && (x.Some? ==>
            && reply.ok && reply.cert == Some(x.value.cert)
            && reply.sealedStatic == Some(x.value.sealedStatic) && reply.sealedPayload == Some(x.value.sealedPayload)
            && reply.handshake.Some? && reply.handshake.value.hash == x.value.hash
            && reply.session.finished
            && reply.session.encKey == Some(c.hkdf(x.value.chainingKey, []).0)
            && reply.session.decKey == Some(c.hkdf(x.value.chainingKey, []).1)
            && reply.session.readCounter == 0 && reply.session.writeCounter == 0)
  {
    OpenedState(c, c.publicKey(client.ephemeral), header, routing);
    Nonces();
  }
}
