/** The symmetric state of the Noise handshake (section 5.2 of the Noise Protocol Framework)
    and the agreement of the two sides of XX. The primitives are parameters. */
module Noise {
  import opened Common

  /** SHA-256, HKDF, AES-GCM and X25519. Key agreement and opening can fail. */
  datatype Crypto = Crypto(
    sha: Bytes -> Bytes,
    hkdf: (Bytes, Bytes) -> (Bytes, Bytes),
    seal: (Bytes, Bytes, Bytes, Bytes) -> Bytes,
    open: (Bytes, Bytes, Bytes, Bytes) -> Option<Bytes>,
    publicKey: Bytes -> Bytes,
    agree: (Bytes, Bytes) -> Option<Bytes>)

  const TAG_LEN: nat := 16

  /** A sealed message opens under its own key, nonce and associated data, and is a tag longer
      than the plaintext; agreement works between 32-byte private keys and is symmetric. */
  ghost predicate Lawful(c: Crypto) {
    && (forall k, n, a, p :: c.open(k, n, a, c.seal(k, n, a, p)) == Some(p))
    && (forall k, n, a, p :: |c.seal(k, n, a, p)| == |p| + TAG_LEN)
    && (forall x, y :: |x| == |y| == 32 ==> Agrees(c, x, y))
  }

  ghost predicate Agrees(c: Crypto, x: Bytes, y: Bytes) {
    c.agree(x, c.publicKey(y)).Some? && c.agree(x, c.publicKey(y)) == c.agree(y, c.publicKey(x))
  }

  /** Byte `k` of a 32-bit word, counting from the low end. */
  function ByteAt(n: nat, k: nat): (b: int)
    requires n < 0x1_0000_0000
    ensures 0 <= b < 0x100
  {
    match k
    case 0 => n % 0x100
    case 1 => n / 0x100 % 0x100
    case 2 => n / 0x1_0000 % 0x100
    case _ => n / 0x100_0000
  }

  /** `generate_iv`: the counter in the last four bytes, big-endian. */
  function GenerateIv(counter: nat): (iv: Bytes)
    requires counter < 0x1_0000_0000
    ensures |iv| == 12
  {
    seq(12, i requires 0 <= i < 12 => if i < 8 then 0 else ByteAt(counter, 11 - i))
  }

  /** A word from its bytes. */
  lemma FromBytes(n: nat)
    requires n < 0x1_0000_0000
    ensures n == ByteAt(n, 0) + 0x100 * ByteAt(n, 1) + 0x1_0000 * ByteAt(n, 2) + 0x100_0000 * ByteAt(n, 3)
  {
    var q1, q2 := n / 0x100, n / 0x1_0000;
    assert q2 == q1 / 0x100 && n / 0x100_0000 == q2 / 0x100;
    assert n == 0x100 * q1 + n % 0x100 && q1 == 0x100 * q2 + q1 % 0x100;
  }

  lemma IvInjective(a: nat, b: nat)
    requires a < 0x1_0000_0000 && b < 0x1_0000_0000 && GenerateIv(a) == GenerateIv(b)
    ensures a == b
  {
    var x, y := GenerateIv(a), GenerateIv(b);
    assert x[8] == y[8] && x[9] == y[9] && x[10] == y[10] && x[11] == y[11];
    FromBytes(a);
    FromBytes(b);
  }

  /** Eight zero bytes, then the counter, high-order byte first. */
  lemma IvIs(counter: nat)
    requires counter < 0x1_0000_0000
    ensures var iv := GenerateIv(counter);
      && iv[..8] == [0, 0, 0, 0, 0, 0, 0, 0]
      && counter == 0x100_0000 * (iv[8] as int) + 0x1_0000 * (iv[9] as int) + 0x100 * (iv[10] as int) + iv[11] as int
  {
    FromBytes(counter);
  }

  type Counter = n: int | 0 <= n < 0x1_0000_0000 witness 0

  datatype NoiseState = NoiseState(hash: Bytes, salt: Bytes, key: Bytes, counter: Counter)

  function Authenticate(c: Crypto, s: NoiseState, data: Bytes): NoiseState {
    s.(hash := c.sha(s.hash + data))
  }

  /** `NoiseState::new`: a short protocol name is padded, a long one hashed. */
  function NewState(c: Crypto, pattern: Bytes, prologue: Bytes): NoiseState {
    var h := if |pattern| <= 32 then pattern + seq(32 - |pattern|, _ => 0) else c.sha(pattern);
    Authenticate(c, NoiseState(h, h, h, 0), prologue)
  }

  /** The last counter value is never used: the increment after it is refused. */
  predicate Exhausted(s: NoiseState) {
    s.counter == 0xFFFF_FFFF
  }

  function Encrypt(c: Crypto, s: NoiseState, plaintext: Bytes): (NoiseState, Option<Bytes>) {
    if Exhausted(s) then (s, None)
    else
      var out := c.seal(s.key, GenerateIv(s.counter), s.hash, plaintext);
      (Authenticate(c, s.(counter := s.counter + 1), out), Some(out))
  }

  /** A refused ciphertext leaves the hash alone but has used up a counter value. */
  function Decrypt(c: Crypto, s: NoiseState, ciphertext: Bytes): (NoiseState, Option<Bytes>) {
    if Exhausted(s) then (s, None)
    else
      var r := c.open(s.key, GenerateIv(s.counter), s.hash, ciphertext);
      var s1 := s.(counter := s.counter + 1);
      if r.None? then (s1, None) else (Authenticate(c, s1, ciphertext), r)
  }

  function MixKey(c: Crypto, s: NoiseState, ikm: Bytes): NoiseState {
    var (salt, key) := c.hkdf(s.salt, ikm);
    s.(counter := 0, salt := salt, key := key)
  }

  function MixSharedSecret(c: Crypto, s: NoiseState, private: Bytes, public: Bytes): (NoiseState, bool) {
    var secret := c.agree(private, public);
    if secret.None? then (s, false) else (MixKey(c, s, secret.value), true)
  }

  /** `split`: the write and the read key. */
  function Split(c: Crypto, s: NoiseState): (Bytes, Bytes) {
    c.hkdf(s.salt, [])
  }

  /** Two sides in one state stay in one state across a message. */
  lemma Lockstep(c: Crypto, s: NoiseState, plaintext: Bytes)
    requires Lawful(c)
    ensures Encrypt(c, s, plaintext).1.Some? <==> !Exhausted(s)
    ensures !Exhausted(s) ==>
      Decrypt(c, s, Encrypt(c, s, plaintext).1.value) == (Encrypt(c, s, plaintext).0, Some(plaintext))
  {
  }

  // ---------------------------------------------------------------- the responder

  /** What a responder to XX sends: its ephemeral key, its sealed static key and payload. */
  datatype ServerHello = ServerHello(ephemeral: Bytes, sealedStatic: Bytes, sealedPayload: Bytes)

  function Responder(c: Crypto, pattern: Bytes, prologue: Bytes, clientEphemeral: Bytes): NoiseState {
    Authenticate(c, NewState(c, pattern, prologue), clientEphemeral)
  }

  /** The responder's message: e, ee, s, es and a payload. */
  function Serve(c: Crypto, s: NoiseState, clientEphemeral: Bytes, ephemeral: Bytes, static_: Bytes, payload: Bytes)
    : (NoiseState, Option<ServerHello>)
  {
    var s1 := Authenticate(c, s, c.publicKey(ephemeral));
    var (s2, ee) := MixSharedSecret(c, s1, ephemeral, clientEphemeral);
    var (s3, sealedStatic) := Encrypt(c, s2, c.publicKey(static_));
    var (s4, es) := MixSharedSecret(c, s3, static_, clientEphemeral);
    var (s5, sealedPayload) := Encrypt(c, s4, payload);
    if ee && es && sealedStatic.Some? && sealedPayload.Some?
    then (s5, Some(ServerHello(c.publicKey(ephemeral), sealedStatic.value, sealedPayload.value)))
    else (s5, None)
  }

  /** The responder's reading of s, se and a payload. */
  function Accept(c: Crypto, s: NoiseState, ephemeral: Bytes, sealedStatic: Bytes, sealedPayload: Bytes)
    : (NoiseState, Option<Bytes>)
  {
    var (s1, clientStatic) := Decrypt(c, s, sealedStatic);
    if clientStatic.None? then (s1, None)
    else
      var (s2, se) := MixSharedSecret(c, s1, ephemeral, clientStatic.value);
      if !se then (s2, None) else Decrypt(c, s2, sealedPayload)
  }
}
