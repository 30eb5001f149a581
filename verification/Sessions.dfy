/** The Noise session: the initiator of an XX handshake, the switch to transport ciphers, the
    per-direction counters and the one-shot intro header. */
module Sessions {
  import opened Common
  import opened Framing
  import opened Noise

  /** What a session holds. `N` is the decoded form of a transport message. */
  datatype Session = Session(
    handshake: Option<NoiseState>,
    encKey: Option<Bytes>,
    decKey: Option<Bytes>,
    readCounter: Counter,
    writeCounter: Counter,
    finished: bool,
    intro: Option<Bytes>,
    buffer: Bytes)

  datatype Delivered<N> = Raw(frame: Bytes) | Node(node: N)

  /** "Noise_XX_25519_AESGCM_SHA256", padded to 32 bytes. */
  const NOISE_MODE: Bytes :=
    [0x4E, 0x6F, 0x69, 0x73, 0x65, 0x5F, 0x58, 0x58, 0x5F, 0x32, 0x35, 0x35, 0x31, 0x39, 0x5F, 0x41,
     0x45, 0x53, 0x47, 0x43, 0x4D, 0x5F, 0x53, 0x48, 0x41, 0x32, 0x35, 0x36, 0, 0, 0, 0]

  /** The handshake and the ciphers are never both there. */
  ghost predicate Coherent(s: Session) {
    if s.finished then s.handshake.None? && s.encKey.Some? && s.decKey.Some?
    else s.handshake.Some? && s.encKey.None? && s.decKey.None?
  }

  function Opened(c: Crypto, publicKey: Bytes, header: Bytes, routing: Option<Bytes>): Session {
    Session(Some(Authenticate(c, NewState(c, NOISE_MODE, header), publicKey)), None, None, 0, 0, false,
            Some(BuildHandshakeHeader(routing)), [])
  }

  function Established(encKey: Bytes, decKey: Bytes, routing: Option<Bytes>): Session {
    Session(None, Some(encKey), Some(decKey), 0, 0, true, Some(BuildHandshakeHeader(routing)), [])
  }

  /** The counters are 32-bit and wrap. */
  function Next(n: Counter): Counter {
    (n + 1) % 0x1_0000_0000
  }

  function AfterEncrypt(c: Crypto, s: Session, plaintext: Bytes): (Session, Option<Bytes>) {
    if s.finished then
      if s.encKey.None? then (s, None)
      else (s.(writeCounter := Next(s.writeCounter)),
            Some(c.seal(s.encKey.value, GenerateIv(s.writeCounter), [], plaintext)))
    else if s.handshake.None? then (s, None)
    else
      var (h, r) := Encrypt(c, s.handshake.value, plaintext);
      (s.(handshake := Some(h)), r)
  }

  function AfterDecrypt(c: Crypto, s: Session, ciphertext: Bytes): (Session, Option<Bytes>) {
    if s.finished then
      if s.decKey.None? then (s, None)
      else (s.(readCounter := Next(s.readCounter)),
            c.open(s.decKey.value, GenerateIv(s.readCounter), [], ciphertext))
    else if s.handshake.None? then (s, None)
    else
      var (h, r) := Decrypt(c, s.handshake.value, ciphertext);
      (s.(handshake := Some(h)), r)
  }

  function AfterFinish(c: Crypto, s: Session): (Session, bool) {
    if s.handshake.None? then (s, false)
    else
      var (write, read) := Split(c, s.handshake.value);
      (s.(handshake := None, encKey := Some(write), decKey := Some(read),
          readCounter := 0, writeCounter := 0, finished := true), true)
  }

  /** `authenticate`: nothing to do once the handshake is over. */
  function AfterAuthenticate(c: Crypto, s: Session, data: Bytes): Session {
    if s.handshake.None? then s else s.(handshake := Some(Authenticate(c, s.handshake.value, data)))
  }

  /** `mix_into_key`. */
  function AfterMix(c: Crypto, s: Session, data: Bytes): (Session, bool) {
    if s.handshake.None? then (s, false) else (s.(handshake := Some(MixKey(c, s.handshake.value, data))), true)
  }

  /** A refused frame has already used a counter value and the intro header. */
  function AfterEncode(c: Crypto, s: Session, data: Bytes): (Session, Option<Bytes>) {
    var (s1, encrypted) := if s.finished then AfterEncrypt(c, s, data) else (s, Some(data));
    if encrypted.None? then (s1, None)
    else (s1.(intro := None), EncodeFrame(encrypted.value, s1.intro))
  }

  /** Delivers the buffered frames; one that does not open or parse ends the call with an error,
      which loses the frames before it and keeps those behind it. */
  function Drain<N>(c: Crypto, parse: Bytes -> Option<N>, s: Session): (Session, Option<seq<Delivered<N>>>)
    decreases |s.buffer|
  {
    if !Ready(s.buffer) then (s, Some([]))
    else
      var n := 3 + Length(s.buffer);
      var (s1, got) := Deliver(c, parse, s.(buffer := s.buffer[n..]), s.buffer[3..n]);
      if got.None? then (s1, None)
      else After([got.value], Drain(c, parse, s1))
  }

  /** An outcome, with what had been delivered before it. */
  function After<N>(before: seq<Delivered<N>>, r: (Session, Option<seq<Delivered<N>>>))
    : (Session, Option<seq<Delivered<N>>>)
  {
    (r.0, if r.1.None? then None else Some(before + r.1.value))
  }

  lemma AfterAfter<N>(a: seq<Delivered<N>>, b: seq<Delivered<N>>, r: (Session, Option<seq<Delivered<N>>>))
    ensures After(a, After(b, r)) == After(a + b, r) && After([], r) == r
  {
    if r.1.Some? {
      assert a + (b + r.1.value) == a + b + r.1.value && [] + r.1.value == r.1.value;
    }
  }

  /** One frame taken off the buffer. */
  function Deliver<N>(c: Crypto, parse: Bytes -> Option<N>, s: Session, frame: Bytes)
    : (r: (Session, Option<Delivered<N>>))
    ensures r.0.buffer == s.buffer
  {
    if !s.finished then (s, Some(Raw(frame)))
    else
      var (s1, plaintext) := AfterDecrypt(c, s, frame);
      if plaintext.None? then (s1, None)
      else
        var node := parse(plaintext.value);
        (s1, if node.None? then None else Some(Node(node.value)))
  }

  function AfterHello(c: Crypto, s: Session, ephemeral: Bytes, sealedStatic: Bytes, sealedPayload: Bytes,
                                private: Bytes): (Session, Option<Bytes>)
  {
    if s.handshake.None? then (s, None)
    else
      var h1 := Authenticate(c, s.handshake.value, ephemeral);
      var (h2, ee) := MixSharedSecret(c, h1, private, ephemeral);
      if !ee then (s.(handshake := Some(h2)), None)
      else
        var (h3, serverStatic) := Decrypt(c, h2, sealedStatic);
        if serverStatic.None? then (s.(handshake := Some(h3)), None)
        else
          var (h4, es) := MixSharedSecret(c, h3, private, serverStatic.value);
          if !es then (s.(handshake := Some(h4)), None)
          else
            var (h5, payload) := Decrypt(c, h4, sealedPayload);
            (s.(handshake := Some(h5)), payload)
  }

  function AfterReply(c: Crypto, s: Session, public: Bytes, private: Bytes, ephemeral: Bytes)
    : (Session, Option<Bytes>)
  {
    if s.handshake.None? then (s, None)
    else
      var (h1, sealedStatic) := Encrypt(c, s.handshake.value, public);
      if sealedStatic.None? then (s.(handshake := Some(h1)), None)
      else
        var (h2, se) := MixSharedSecret(c, h1, private, ephemeral);
        (s.(handshake := Some(h2)), if se then sealedStatic else None)
  }

  // ---------------------------------------------------------------- agreement

  /** Keys of the two sides: ephemeral and static private keys. */
  datatype Secrets = Secrets(ephemeral: Bytes, static_: Bytes)

  ghost predicate WellFormed(k: Secrets) {
    |k.ephemeral| == 32 && |k.static_| == 32
  }

  /** The server's message, read by the initiator: both sides end in one state, and the
      initiator has the server's payload. */
  lemma HelloAgrees(c: Crypto, s: Session, client: Secrets, server: Secrets, cert: Bytes)
    requires Lawful(c) && WellFormed(client) && WellFormed(server) && s.handshake.Some?
    ensures var e := c.publicKey(client.ephemeral);
      var served := Serve(c, s.handshake.value, e, server.ephemeral, server.static_, cert);
      served.1.Some? && !Exhausted(served.0)
      && var hello := served.1.value;
         AfterHello(c, s, hello.ephemeral, hello.sealedStatic, hello.sealedPayload, client.ephemeral)
         == (s.(handshake := Some(served.0)), Some(cert))
  {
    var e := c.publicKey(client.ephemeral);
    var s1 := Authenticate(c, s.handshake.value, c.publicKey(server.ephemeral));
    assert Agrees(c, client.ephemeral, server.ephemeral) && Agrees(c, client.ephemeral, server.static_);
    var s2 := MixSharedSecret(c, s1, server.ephemeral, e).0;
    Lockstep(c, s2, c.publicKey(server.static_));
    var s3 := Encrypt(c, s2, c.publicKey(server.static_)).0;
    var s4 := MixSharedSecret(c, s3, server.static_, e).0;
    Lockstep(c, s4, cert);
  }

  /** The client's last message, read by the server. */
  lemma FinishAgrees(c: Crypto, s: Session, client: Secrets, server: Secrets, payload: Bytes)
    requires Lawful(c) && WellFormed(client) && WellFormed(server)
    requires s.handshake.Some? && !s.finished && !Exhausted(s.handshake.value)
    ensures var finish := AfterReply(c, s, c.publicKey(client.static_), client.static_,
                                                 c.publicKey(server.ephemeral));
      var last := AfterEncrypt(c, finish.0, payload);
      finish.1.Some? && last.1.Some? && !last.0.finished && last.0.handshake.Some?
      && Accept(c, s.handshake.value, server.ephemeral, finish.1.value, last.1.value)
         == (last.0.handshake.value, Some(payload))
  {
    assert Agrees(c, client.static_, server.ephemeral);
    var h := s.handshake.value;
    Lockstep(c, h, c.publicKey(client.static_));
    var h1 := Encrypt(c, h, c.publicKey(client.static_)).0;
    var h2 := MixSharedSecret(c, h1, client.static_, c.publicKey(server.ephemeral)).0;
    Lockstep(c, h2, payload);
  }

  /** What the initiator does with the responder's message: reads it, answers, sends its
      payload and switches to transport. */
  datatype Reply = Reply(
    session: Session, handshake: Option<NoiseState>, cert: Option<Bytes>, sealedStatic: Option<Bytes>,
    sealedPayload: Option<Bytes>, ok: bool)

  function Initiate(c: Crypto, s: Session, hello: ServerHello, client: Secrets, payload: Bytes): Reply {
    var (s1, cert) := AfterHello(c, s, hello.ephemeral, hello.sealedStatic, hello.sealedPayload, client.ephemeral);
    var (s2, sealedStatic) := AfterReply(c, s1, c.publicKey(client.static_), client.static_, hello.ephemeral);
    var (s3, sealedPayload) := AfterEncrypt(c, s2, payload);
    var (s4, ok) := AfterFinish(c, s3);
    Reply(s4, s3.handshake, cert, sealedStatic, sealedPayload, ok)
  }

  /** A session in transport mode with these keys. */
  function Transporting(s: Session, encKey: Bytes, decKey: Bytes): Session {
    s.(handshake := None, encKey := Some(encKey), decKey := Some(decKey),
       readCounter := 0, writeCounter := 0, finished := true)
  }

  /** The whole handshake, initiator against responder: every payload arrives, both end in one
      state with one hash and chaining key, and what one side writes with the other reads with. */
  lemma XxAgrees(c: Crypto, s: Session, client: Secrets, server: Secrets, cert: Bytes, payload: Bytes)
    requires Lawful(c) && WellFormed(client) && WellFormed(server) && s.handshake.Some? && !s.finished
    ensures var e := c.publicKey(client.ephemeral);
      var served := Serve(c, s.handshake.value, e, server.ephemeral, server.static_, cert);
      served.1.Some?
      && var reply := Initiate(c, s, served.1.value, client, payload);
         reply.cert == Some(cert) && reply.sealedStatic.Some? && reply.sealedPayload.Some? && reply.ok
         && var accepted := Accept(c, served.0, server.ephemeral, reply.sealedStatic.value, reply.sealedPayload.value);
            accepted.1 == Some(payload) && reply.handshake == Some(accepted.0)
            && reply.session == Transporting(s, Split(c, accepted.0).0, Split(c, accepted.0).1)
  {
    var e := c.publicKey(client.ephemeral);
    HelloAgrees(c, s, client, server, cert);
    var served := Serve(c, s.handshake.value, e, server.ephemeral, server.static_, cert);
    FinishAgrees(c, s.(handshake := Some(served.0)), client, server, payload);
  }
}
