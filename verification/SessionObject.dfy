/** The session as an object whose methods update it in place. */
module SessionObject {
  import opened Common
  import opened Framing
  import opened Noise
  import opened Sessions

  class NoiseSession<N> {
    const crypto: Crypto
    const parse: Bytes -> Option<N>
    var handshake: Option<NoiseState>
    var encKey: Option<Bytes>
    var decKey: Option<Bytes>
    var readCounter: Counter
    var writeCounter: Counter
    var isFinished: bool
    var introHeader: Option<Bytes>
    const frameDecoder: FrameDecoder

    ghost function View(): Session
      reads this, frameDecoder
    {
      Session(handshake, encKey, decKey, readCounter, writeCounter, isFinished, introHeader, frameDecoder.buffer)
    }

    ghost predicate Valid()
      reads this, frameDecoder
    {
      Coherent(View())
    }

    constructor(crypto: Crypto, parse: Bytes -> Option<N>, publicKey: Bytes, header: Bytes, routing: Option<Bytes>)
      ensures Valid() && fresh(frameDecoder) && this.crypto == crypto && this.parse == parse
      ensures View() == Opened(crypto, publicKey, header, routing)
    {
      this.crypto, this.parse := crypto, parse;
      handshake := Some(Noise.Authenticate(crypto, NewState(crypto, NOISE_MODE, header), publicKey));
      encKey, decKey, readCounter, writeCounter, isFinished := None, None, 0, 0, false;
      introHeader := Some(BuildHandshakeHeader(routing));
      frameDecoder := new FrameDecoder();
    }

    constructor FromCiphers(crypto: Crypto, parse: Bytes -> Option<N>, encKey: Bytes, decKey: Bytes,
                            routing: Option<Bytes>)
      ensures Valid() && fresh(frameDecoder) && this.crypto == crypto && this.parse == parse
      ensures View() == Established(encKey, decKey, routing)
    {
      this.crypto, this.parse := crypto, parse;
      handshake, this.encKey, this.decKey := None, Some(encKey), Some(decKey);
      readCounter, writeCounter, isFinished := 0, 0, true;
      introHeader := Some(BuildHandshakeHeader(routing));
      frameDecoder := new FrameDecoder();
    }

    /** `authenticate`: MixHash of section 5.2. */
    method Authenticate(data: Bytes)
      requires Valid()
      modifies this
      ensures Valid() && View() == AfterAuthenticate(crypto, old(View()), data)
      ensures !isFinished ==>
        handshake == Some(old(handshake).value.(hash := crypto.sha(old(handshake).value.hash + data)))
    {
      if handshake.Some? {
        handshake := Some(Noise.Authenticate(crypto, handshake.value, data));
      }
    }

    /** `mix_into_key`: MixKey of section 5.2. */
    method MixIntoKey(data: Bytes) returns (ok: bool)
      requires Valid()
      modifies this
      ensures Valid() && (View(), ok) == AfterMix(crypto, old(View()), data)
      ensures ok <==> !isFinished
      ensures ok ==>
        var (salt, key) := crypto.hkdf(old(handshake).value.salt, data);
        handshake == Some(NoiseState(old(handshake).value.hash, salt, key, 0))
    {
      ok := handshake.Some?;
      if ok {
        handshake := Some(MixKey(crypto, handshake.value, data));
      }
    }

    method EncryptVec(plaintext: Bytes) returns (r: Option<Bytes>)
      requires Valid()
      modifies this
      ensures Valid() && (View(), r) == AfterEncrypt(crypto, old(View()), plaintext)
    {
      if isFinished {
        var counter := writeCounter;
        writeCounter := (writeCounter + 1) % 0x1_0000_0000;
        r := Some(crypto.seal(encKey.value, GenerateIv(counter), [], plaintext));
      } else {
        var (h, out) := Encrypt(crypto, handshake.value, plaintext);
        handshake, r := Some(h), out;
      }
    }

    method DecryptVec(ciphertext: Bytes) returns (r: Option<Bytes>)
      requires Valid()
      modifies this
      ensures Valid() && (View(), r) == AfterDecrypt(crypto, old(View()), ciphertext)
    {
      if isFinished {
        var counter := readCounter;
        readCounter := (readCounter + 1) % 0x1_0000_0000;
        r := crypto.open(decKey.value, GenerateIv(counter), [], ciphertext);
      } else {
        var (h, out) := Decrypt(crypto, handshake.value, ciphertext);
        handshake, r := Some(h), out;
      }
    }

    method FinishInit() returns (ok: bool)
      requires Valid()
      modifies this
      ensures Valid() && (View(), ok) == AfterFinish(crypto, old(View()))
      ensures ok <==> !old(isFinished)
    {
      if handshake.None? {
        return false;
      }
      var (write, read) := Split(crypto, handshake.value);
      handshake := None;
      encKey, decKey := Some(write), Some(read);
      readCounter, writeCounter := 0, 0;
      isFinished := true;
      ok := true;
    }

    method EncodeFrameRaw(data: Bytes) returns (r: Option<Bytes>)
      requires Valid()
      modifies this
      ensures Valid() && (View(), r) == AfterEncode(crypto, old(View()), data)
    {
      var encrypted := Some(data);
      if isFinished {
        encrypted := EncryptVec(data);
        if encrypted.None? {
          return None;
        }
      }
      var header := introHeader;
      introHeader := None;
      r := EncodeFrame(encrypted.value, header);
    }

    /** One frame taken off the decoder: as it is during the handshake, decrypted and parsed after. */
    method DeliverFrame(frame: Bytes) returns (r: Option<Delivered<N>>)
      requires Valid()
      modifies this
      ensures Valid() && frameDecoder.buffer == old(frameDecoder.buffer)
      ensures (View(), r) == Deliver(crypto, parse, old(View()), frame)
    {
      if !isFinished {
        return Some(Raw(frame));
      }
      var plaintext := DecryptVec(frame);
      if plaintext.None? {
        return None;
      }
      var node := parse(plaintext.value);
      r := if node.None? then None else Some(Node(node.value));
    }

    /** `decode_frame`: feeds the decoder and delivers every whole frame. */
    method DecodeFrame(newData: Bytes) returns (r: Option<seq<Delivered<N>>>)
      requires Valid()
      modifies this, frameDecoder
      ensures Valid() && (View(), r) == Drain(crypto, parse, old(View()).(buffer := old(frameDecoder.buffer) + newData))
    {
      frameDecoder.Feed(newData);
      ghost var start := View();
      var delivered: seq<Delivered<N>> := [];
      AfterAfter([], [], Drain(crypto, parse, start));
      while true
        invariant Valid()
        invariant Drain(crypto, parse, start) == After(delivered, Drain(crypto, parse, View()))
        decreases |frameDecoder.buffer|
      {
        var frame := frameDecoder.DecodeFrame();
        if frame.None? {
          assert delivered + [] == delivered;
          return Some(delivered);
        }
        var got := DeliverFrame(frame.value);
        if got.None? {
          return None;
        }
        AfterAfter(delivered, [got.value], Drain(crypto, parse, View()));
        delivered := delivered + [got.value];
      }
    }

    method ProcessHandshakeInit(ephemeral: Bytes, sealedStatic: Bytes, sealedPayload: Bytes, private: Bytes)
      returns (r: Option<Bytes>)
      requires Valid()
      modifies this
      ensures Valid() && (View(), r) == AfterHello(crypto, old(View()), ephemeral, sealedStatic, sealedPayload, private)
    {
      if handshake.None? {
        return None;
      }
      handshake := Some(Noise.Authenticate(crypto, handshake.value, ephemeral));
      var (h2, ee) := MixSharedSecret(crypto, handshake.value, private, ephemeral);
      handshake := Some(h2);
      if !ee {
        return None;
      }
      var (h3, serverStatic) := Decrypt(crypto, h2, sealedStatic);
      handshake := Some(h3);
      if serverStatic.None? {
        return None;
      }
      var (h4, es) := MixSharedSecret(crypto, h3, private, serverStatic.value);
      handshake := Some(h4);
      if !es {
        return None;
      }
      var (h5, payload) := Decrypt(crypto, h4, sealedPayload);
      handshake, r := Some(h5), payload;
    }

    method ProcessHandshakeFinish(public: Bytes, private: Bytes, ephemeral: Bytes) returns (r: Option<Bytes>)
      requires Valid()
      modifies this
      ensures Valid() && (View(), r) == AfterReply(crypto, old(View()), public, private, ephemeral)
    {
      if handshake.None? {
        return None;
      }
      var (h1, sealedStatic) := Encrypt(crypto, handshake.value, public);
      handshake := Some(h1);
      if sealedStatic.None? {
        return None;
      }
      var (h2, se) := MixSharedSecret(crypto, h1, private, ephemeral);
      handshake := Some(h2);
      r := if se then sealedStatic else None;
    }
  }
}
