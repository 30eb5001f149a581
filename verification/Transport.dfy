/** Messages after the handshake: the counters of a run, what the receiver gets, and the whole way
    from the hello frame to both directions of transport. */
module Transport {
  import opened Common
  import opened Framing
  import opened Noise
  import opened Sessions

  /** Symbolic authentication: a sealed message opens under no other 12-byte nonce. */
  ghost predicate Binding(c: Crypto) {
    forall k, n, m, a, p :: |n| == |m| == 12 && n != m ==> c.open(k, m, a, c.seal(k, n, a, p)) == None
  }

  /** Sealing that prepends the nonce. */
  function Prepending(): Crypto {
    Crypto(_ => [], (_, _) => ([], []),
           (_, n, _, p) => (if |n| == 12 then n else seq(12, _ => 0)) + [0, 0, 0, 0] + p,
           (_, n, _, ct) => if |ct| >= 16 && (|n| == 12 ==> ct[..12] == n) then Some(ct[16..]) else None,
           _ => [], (_, _) => Some([]))
  }

  /** The laws can be met together. */
  lemma LawsHold()
    ensures Lawful(Prepending()) && Binding(Prepending())
  {
    var c := Prepending();
    forall k, n, a, p
      ensures c.open(k, n, a, c.seal(k, n, a, p)) == Some(p) && |c.seal(k, n, a, p)| == |p| + TAG_LEN
      ensures forall m :: |n| == |m| == 12 && n != m ==> c.open(k, m, a, c.seal(k, n, a, p)) == None
    {
      var sealed := c.seal(k, n, a, p);
      assert sealed[16..] == p;
      assert |n| == 12 ==> sealed[..12] == n;
    }
    forall x, y | |x| == |y| == 32 ensures Agrees(c, x, y) {
    }
  }

  predicate Fits(data: Bytes) {
    |data| + TAG_LEN < FRAME_MAX_SIZE
  }

  function At(n: Counter, i: nat): Counter {
    (n + i) % 0x1_0000_0000
  }

  lemma AtNext(n: Counter, i: nat)
    ensures At(Next(n), i) == At(n, i + 1)
  {
  }

  /** A run of `encode_frame_raw`, refused attempts included. */
  function SendAll(c: Crypto, s: Session, attempts: seq<Bytes>): (Session, seq<Option<Bytes>>)
    decreases |attempts|
  {
    if attempts == [] then (s, [])
    else
      var (s1, out) := AfterEncode(c, s, attempts[0]);
      var (s2, outs) := SendAll(c, s1, attempts[1..]);
      (s2, [out] + outs)
  }

  /** What attempt `i` of a run from transport state `s` puts on the wire. */
  function Sent(c: Crypto, s: Session, i: nat, data: Bytes): Option<Bytes>
    requires s.encKey.Some?
  {
    EncodeFrame(c.seal(s.encKey.value, GenerateIv(At(s.writeCounter, i)), [], data),
                if i == 0 then s.intro else None)
  }

  /** Attempt `i` is sealed under counter `i` past the first, and only attempt 0 can carry the
      intro header. */
  lemma {:induction false} RunIs(c: Crypto, s: Session, attempts: seq<Bytes>)
    requires s.finished && s.encKey.Some?
    ensures |SendAll(c, s, attempts).1| == |attempts|
    ensures forall i :: 0 <= i < |attempts| ==> SendAll(c, s, attempts).1[i] == Sent(c, s, i, attempts[i])
    ensures SendAll(c, s, attempts).0 ==
            s.(writeCounter := At(s.writeCounter, |attempts|), intro := if attempts == [] then s.intro else None)
    decreases |attempts|
  {
    if attempts != [] {
      var s1 := AfterEncode(c, s, attempts[0]).0;
      RunIs(c, s1, attempts[1..]);
      AtNext(s.writeCounter, |attempts| - 1);
      forall i | 0 < i < |attempts| ensures SendAll(c, s, attempts).1[i] == Sent(c, s, i, attempts[i]) {
        assert SendAll(c, s, attempts).1[i] == SendAll(c, s1, attempts[1..]).1[i - 1];
        AtNext(s.writeCounter, i - 1);
      }
    }
  }

  /** The nonces of a run of `n` messages are pairwise distinct exactly up to 2^32 messages. */
  lemma NoncesDistinct(w: Counter, n: nat)
    ensures (forall i: nat, j: nat :: i < j < n ==> GenerateIv(At(w, i)) != GenerateIv(At(w, j)))
            <==> n <= 0x1_0000_0000
  {
    if n <= 0x1_0000_0000 {
      forall i: nat, j: nat | i < j < n ensures GenerateIv(At(w, i)) != GenerateIv(At(w, j)) {
        CountersApart(w, i, j);
        if GenerateIv(At(w, i)) == GenerateIv(At(w, j)) {
          IvInjective(At(w, i), At(w, j));
        }
      }
    } else {
      var j := 0x1_0000_0000;
      assert At(w, 0) == At(w, j);
      assert 0 < j < n;
    }
  }

  lemma CountersApart(w: Counter, i: nat, j: nat)
    requires i < j < i + 0x1_0000_0000
    ensures At(w, i) != At(w, j)
  {
  }

  /** The ciphertexts of the attempts that fit a frame. */
  function Sealed(c: Crypto, key: Bytes, w: Counter, attempts: seq<Bytes>): seq<Bytes>
    decreases |attempts|
  {
    if attempts == [] then []
    else (if Fits(attempts[0]) then [c.seal(key, GenerateIv(w), [], attempts[0])] else [])
         + Sealed(c, key, Next(w), attempts[1..])
  }

  function OnWire(outs: seq<Option<Bytes>>): Bytes {
    if outs == [] then [] else (if outs[0].Some? then outs[0].value else []) + OnWire(outs[1..])
  }

  lemma {:induction false} SealedFit(c: Crypto, key: Bytes, w: Counter, attempts: seq<Bytes>)
    requires Lawful(c)
    ensures forall i :: 0 <= i < |Sealed(c, key, w, attempts)| ==> |Sealed(c, key, w, attempts)[i]| < FRAME_MAX_SIZE
    decreases |attempts|
  {
    if attempts != [] {
      SealedFit(c, key, Next(w), attempts[1..]);
      assert |c.seal(key, GenerateIv(w), [], attempts[0])| == |attempts[0]| + TAG_LEN;
    }
  }

  /** A run puts exactly the frames of those ciphertexts on the wire. */
  lemma {:induction false} WireIsSealed(c: Crypto, s: Session, key: Bytes, attempts: seq<Bytes>)
    requires Lawful(c) && s.finished && s.encKey == Some(key) && s.intro == None
    ensures forall i :: 0 <= i < |Sealed(c, key, s.writeCounter, attempts)| ==>
      |Sealed(c, key, s.writeCounter, attempts)[i]| < FRAME_MAX_SIZE
    ensures OnWire(SendAll(c, s, attempts).1) == Wire(Sealed(c, key, s.writeCounter, attempts))
    decreases |attempts|
  {
    SealedFit(c, key, s.writeCounter, attempts);
    if attempts != [] {
      var (s1, out) := AfterEncode(c, s, attempts[0]);
      var rest := Sealed(c, key, Next(s.writeCounter), attempts[1..]);
      WireIsSealed(c, s1, key, attempts[1..]);
      var ct := c.seal(key, GenerateIv(s.writeCounter), [], attempts[0]);
      assert |ct| == |attempts[0]| + TAG_LEN;
      assert SendAll(c, s, attempts).1[1..] == SendAll(c, s1, attempts[1..]).1;
      if Fits(attempts[0]) {
        assert Sealed(c, key, s.writeCounter, attempts) == [ct] + rest;
        assert ([ct] + rest)[1..] == rest;
        FramedIs(ct, None);
        assert [] + Frame(ct) == Frame(ct);
      } else {
        assert Sealed(c, key, s.writeCounter, attempts) == rest;
      }
    }
  }

  /** Opening ciphertexts in order from counter `n`. */
  function OpenAll<N>(c: Crypto, parse: Bytes -> Option<N>, key: Bytes, n: Counter, cts: seq<Bytes>)
    : Option<seq<Delivered<N>>>
    decreases |cts|
  {
    if cts == [] then Some([])
    else
      var p := c.open(key, GenerateIv(n), [], cts[0]);
      if p.None? || parse(p.value).None? then None
      else
        var rest := OpenAll(c, parse, key, Next(n), cts[1..]);
        if rest.None? then None else Some([Node(parse(p.value).value)] + rest.value)
  }

  lemma {:induction false} DrainOpens<N>(c: Crypto, parse: Bytes -> Option<N>, r: Session, key: Bytes, cts: seq<Bytes>)
    requires r.finished && r.decKey == Some(key)
    requires forall i :: 0 <= i < |cts| ==> |cts[i]| < FRAME_MAX_SIZE
    requires r.buffer == Wire(cts)
    ensures Drain(c, parse, r).1 == OpenAll(c, parse, key, r.readCounter, cts)
    ensures Drain(c, parse, r).1.Some? ==>
      Drain(c, parse, r).0 == r.(readCounter := At(r.readCounter, |cts|), buffer := [])
    decreases |cts|
  {
    if cts != [] {
      PrefixLength(cts[0], Wire(cts[1..]));
      var s1 := Deliver(c, parse, r.(buffer := Wire(cts[1..])), cts[0]).0;
      DrainOpens(c, parse, s1, key, cts[1..]);
      AtNext(r.readCounter, |cts| - 1);
    }
  }

  /** How many of the first `i` attempts were refused. */
  function Refused(attempts: seq<Bytes>, i: nat): nat
    requires i <= |attempts|
  {
    if i == 0 then 0 else Refused(attempts, i - 1) + if Fits(attempts[i - 1]) then 0 else 1
  }

  lemma {:induction false} RefusedTail(attempts: seq<Bytes>, i: nat)
    requires i < |attempts|
    ensures Refused(attempts, i + 1) == (if Fits(attempts[0]) then 0 else 1) + Refused(attempts[1..], i)
    decreases i
  {
    if i > 0 {
      RefusedTail(attempts, i - 1);
    }
  }

  /** A multiple of 2^32, which makes no difference to a counter. */
  predicate Turns(n: nat) { n % 0x1_0000_0000 == 0 }

  ghost predicate InStepAt(attempts: seq<Bytes>, lag: nat, i: nat)
    requires i < |attempts|
  {
    Fits(attempts[i]) ==> Turns(lag + Refused(attempts, i))
  }

  /** For a writer `lag` counter values ahead of the reader: whenever a message is framed, the lag
      and the attempts refused so far are a multiple of 2^32. */
  ghost predicate InStepFrom(attempts: seq<Bytes>, lag: nat) {
    forall i | 0 <= i < |attempts| :: InStepAt(attempts, lag, i)
  }

  ghost predicate InStep(attempts: seq<Bytes>) { InStepFrom(attempts, 0) }

  lemma InStepNext(attempts: seq<Bytes>, lag: nat, i: nat)
    requires i + 1 < |attempts|
    ensures InStepAt(attempts, lag, i + 1) <==>
            InStepAt(attempts[1..], if Fits(attempts[0]) then lag else lag + 1, i)
  {
    RefusedTail(attempts, i);
    var next := if Fits(attempts[0]) then lag else lag + 1;
    assert lag + Refused(attempts, i + 1) == next + Refused(attempts[1..], i);
  }

  lemma InStepTail(attempts: seq<Bytes>, lag: nat)
    requires attempts != []
    ensures InStepFrom(attempts, lag) <==>
            if Fits(attempts[0]) then Turns(lag) && InStepFrom(attempts[1..], lag)
            else InStepFrom(attempts[1..], lag + 1)
  {
    var rest, next := attempts[1..], if Fits(attempts[0]) then lag else lag + 1;
    assert InStepAt(attempts, lag, 0) <==> (Fits(attempts[0]) ==> Turns(lag)) by {
      assert lag + Refused(attempts, 0) == lag;
    }
    forall i | 0 <= i < |rest| ensures InStepAt(attempts, lag, i + 1) <==> InStepAt(rest, next, i) {
      InStepNext(attempts, lag, i);
    }
    if InStepAt(attempts, lag, 0) && InStepFrom(rest, next) {
      forall j | 0 <= j < |attempts| ensures InStepAt(attempts, lag, j) {
        assert j > 0 ==> InStepAt(rest, next, j - 1);
      }
    }
  }

  /** No refused attempt comes before one that fits. */
  predicate InOrder(attempts: seq<Bytes>) {
    forall i, j :: 0 <= i < j < |attempts| && Fits(attempts[j]) ==> Fits(attempts[i])
  }

  lemma {:induction false} RefusedBefore(attempts: seq<Bytes>, i: nat)
    requires i <= |attempts|
    ensures Refused(attempts, i) <= i
    ensures Refused(attempts, i) == 0 <==> forall k :: 0 <= k < i ==> Fits(attempts[k])
  {
    if i > 0 {
      RefusedBefore(attempts, i - 1);
    }
  }

  /** Up to 2^32 attempts the condition is that none is refused before one that fits. */
  lemma InOrderIsInStep(attempts: seq<Bytes>)
    ensures InOrder(attempts) ==> InStep(attempts)
    ensures |attempts| <= 0x1_0000_0000 && InStep(attempts) ==> InOrder(attempts)
  {
    forall j | 0 <= j < |attempts| && Fits(attempts[j])
      ensures (forall i :: 0 <= i < j ==> Fits(attempts[i])) ==> InStepAt(attempts, 0, j)
      ensures j < 0x1_0000_0000 && InStepAt(attempts, 0, j) ==> forall i :: 0 <= i < j ==> Fits(attempts[i])
    {
      RefusedBefore(attempts, j);
    }
  }

  ghost predicate Parses<N>(parse: Bytes -> Option<N>, attempts: seq<Bytes>) {
    forall i :: 0 <= i < |attempts| && Fits(attempts[i]) ==> parse(attempts[i]).Some?
  }

  ghost function Parsed<N>(parse: Bytes -> Option<N>, attempts: seq<Bytes>): seq<Delivered<N>>
    requires Parses(parse, attempts)
  {
    if attempts == [] then []
    else (if Fits(attempts[0]) then [Node(parse(attempts[0]).value)] else []) + Parsed(parse, attempts[1..])
  }

  lemma AtSucc(n: Counter, lag: nat)
    ensures At(n, lag + 1) == Next(At(n, lag))
  {
    var x := n + lag;
    assert (x + 1) % 0x1_0000_0000 == (x % 0x1_0000_0000 + 1) % 0x1_0000_0000;
  }

  lemma AtTurns(n: Counter, lag: nat)
    ensures At(n, lag) == n <==> Turns(lag)
  {
    var q, r := lag / 0x1_0000_0000, lag % 0x1_0000_0000;
    assert lag == 0x1_0000_0000 * q + r;
    assert At(n, lag) == At(n, r);
  }

  /** The first ciphertext of several opens exactly under the counter it was sealed under. */
  lemma OpenFirst<N>(c: Crypto, parse: Bytes -> Option<N>, key: Bytes, n: Counter, w: Counter, data: Bytes,
                     cts: seq<Bytes>)
    requires Lawful(c) && parse(data).Some?
    ensures var all := [c.seal(key, GenerateIv(w), [], data)] + cts;
      && (n == w ==> OpenAll(c, parse, key, n, all)
                     == Ahead(Node(parse(data).value), OpenAll(c, parse, key, Next(n), cts)))
      && (Binding(c) && n != w ==> OpenAll(c, parse, key, n, all) == None)
  {
    var all := [c.seal(key, GenerateIv(w), [], data)] + cts;
    assert all[1..] == cts;
    if Binding(c) && n != w {
      LateCiphertext(c, key, n, w, data);
    }
  }

  function Ahead<N>(first: Delivered<N>, rest: Option<seq<Delivered<N>>>): Option<seq<Delivered<N>>> {
    if rest.None? then None else Some([first] + rest.value)
  }

  lemma SealedFirst(c: Crypto, key: Bytes, w: Counter, attempts: seq<Bytes>)
    requires attempts != []
    ensures Sealed(c, key, w, attempts) ==
            (if Fits(attempts[0]) then [c.seal(key, GenerateIv(w), [], attempts[0])] else [])
            + Sealed(c, key, Next(w), attempts[1..])
  {
  }

  /** What the reader gets of a run. */
  ghost predicate Opens<N>(c: Crypto, parse: Bytes -> Option<N>, key: Bytes, n: Counter, w: Counter,
                           attempts: seq<Bytes>, inStep: bool)
    requires Parses(parse, attempts)
  {
    && (inStep ==> OpenAll(c, parse, key, n, Sealed(c, key, w, attempts)) == Some(Parsed(parse, attempts)))
    && (Binding(c) && !inStep ==> OpenAll(c, parse, key, n, Sealed(c, key, w, attempts)) == None)
  }

  lemma OpensFramed<N>(c: Crypto, parse: Bytes -> Option<N>, key: Bytes, n: Counter, w: Counter, attempts: seq<Bytes>,
                       later: bool)
    requires Lawful(c) && Parses(parse, attempts) && attempts != [] && Fits(attempts[0])
    requires Opens(c, parse, key, Next(n), Next(w), attempts[1..], later)
    ensures Opens(c, parse, key, n, w, attempts, n == w && later)
  {
    SealedFirst(c, key, w, attempts);
    OpenFirst(c, parse, key, n, w, attempts[0], Sealed(c, key, Next(w), attempts[1..]));
  }

  lemma OpensRefused<N>(c: Crypto, parse: Bytes -> Option<N>, key: Bytes, n: Counter, w: Counter, attempts: seq<Bytes>,
                        later: bool)
    requires Parses(parse, attempts) && attempts != [] && !Fits(attempts[0])
    requires Opens(c, parse, key, n, Next(w), attempts[1..], later)
    ensures Opens(c, parse, key, n, w, attempts, later)
  {
    SealedFirst(c, key, w, attempts);
    assert [] + Sealed(c, key, Next(w), attempts[1..]) == Sealed(c, key, Next(w), attempts[1..]);
    assert Parsed(parse, attempts) == Parsed(parse, attempts[1..]);
  }

  /** The writer is `lag` counter values ahead. */
  ghost predicate Leads(w: Counter, n: Counter, lag: nat) { w == At(n, lag) }

  lemma LeadsOn(w: Counter, n: Counter, lag: nat)
    requires Leads(w, n, lag)
    ensures Leads(Next(w), Next(n), lag) && Leads(Next(w), n, lag + 1) && (n == w <==> Turns(lag))
  {
    AtSucc(n, lag);
    AtNext(n, lag);
    AtTurns(n, lag);
    assert Next(w) == At(n, lag + 1) == At(Next(n), lag);
  }

  /** In-order transport, for a writer `lag` counter values ahead of the reader: the reader gets
      every message that was framed, in order, exactly when the attempts are in step. A refused
      attempt has used a counter value the reader never sees. */
  lemma {:induction false} OpensExactly<N>(c: Crypto, parse: Bytes -> Option<N>, key: Bytes, n: Counter, w: Counter,
                                           lag: nat, attempts: seq<Bytes>)
    requires Lawful(c) && Parses(parse, attempts) && Leads(w, n, lag)
    ensures Opens(c, parse, key, n, w, attempts, InStepFrom(attempts, lag))
    decreases |attempts|
  {
    if attempts != [] {
      LeadsOn(w, n, lag);
      InStepTail(attempts, lag);
      if Fits(attempts[0]) {
        OpensExactly(c, parse, key, Next(n), Next(w), lag, attempts[1..]);
        OpensFramed(c, parse, key, n, w, attempts, InStepFrom(attempts[1..], lag));
      } else {
        OpensExactly(c, parse, key, n, Next(w), lag + 1, attempts[1..]);
        OpensRefused(c, parse, key, n, w, attempts, InStepFrom(attempts[1..], lag + 1));
      }
    }
  }

  lemma OpensInStep<N>(c: Crypto, parse: Bytes -> Option<N>, key: Bytes, w: Counter, attempts: seq<Bytes>)
    requires Lawful(c) && Parses(parse, attempts)
    ensures Opens(c, parse, key, w, w, attempts, InStep(attempts))
  {
    OpensExactly(c, parse, key, w, w, 0, attempts);
  }

  lemma LateCiphertext(c: Crypto, key: Bytes, n: Counter, w: Counter, data: Bytes)
    requires Binding(c) && n != w
    ensures c.open(key, GenerateIv(n), [], c.seal(key, GenerateIv(w), [], data)) == None
  {
    if GenerateIv(n) == GenerateIv(w) {
      IvInjective(n, w);
    }
  }

  /** The same between two sessions: what `encode_frame_raw` put on the wire, `decode_frame`
      delivers. */
  lemma TransportDelivers<N>(c: Crypto, parse: Bytes -> Option<N>, sender: Session, receiver: Session,
                             attempts: seq<Bytes>)
    requires Lawful(c)
    requires sender.finished && sender.encKey.Some? && sender.intro == None
    requires receiver.finished && receiver.decKey == sender.encKey && receiver.readCounter == sender.writeCounter
    requires receiver.buffer == OnWire(SendAll(c, sender, attempts).1)
    requires Parses(parse, attempts)
    ensures InStep(attempts) ==> Drain(c, parse, receiver).1 == Some(Parsed(parse, attempts))
    ensures Binding(c) && !InStep(attempts) ==> Drain(c, parse, receiver).1 == None
  {
    var key := sender.encKey.value;
    WireIsSealed(c, sender, key, attempts);
    DrainOpens(c, parse, receiver, key, Sealed(c, key, sender.writeCounter, attempts));
    OpensInStep(c, parse, key, sender.writeCounter, attempts);
  }

  /** Such a run, with the laws met and every hypothesis concrete. */
  lemma OversizeWitness()
    ensures var sender := Established([1], [2], None).(intro := None);
      var receiver := Established([2], [1], None);
      var wire := OnWire(SendAll(Prepending(), sender, [seq(0x100_0000, _ => 0), [7]]).1);
      Drain(Prepending(), b => Some(b), receiver.(buffer := wire)).1 == None
  {
    LawsHold();
    var sender := Established([1], [2], None).(intro := None);
    var receiver := Established([2], [1], None);
    var wire := OnWire(SendAll(Prepending(), sender, [seq(0x100_0000, _ => 0), [7]]).1);
    OversizeDesyncs(Prepending(), b => Some(b), sender, receiver.(buffer := wire), [7]);
  }

  /** Both ends of a completed handshake, and the payloads each received. */
  datatype Exchange = Exchange(client: Session, peer: Session, cert: Option<Bytes>, payload: Option<Bytes>)

  /** A client session and a responder run XX against each other. */
  function RunXx(c: Crypto, s: Session, r: NoiseState, client: Secrets, server: Secrets, cert: Bytes, payload: Bytes)
    : Option<Exchange>
  {
    var (r1, hello) := Serve(c, r, c.publicKey(client.ephemeral), server.ephemeral, server.static_, cert);
    if hello.None? then None
    else
      var reply := Initiate(c, s, hello.value, client, payload);
      if reply.sealedStatic.None? || reply.sealedPayload.None? || !reply.ok then None
      else
        var (r2, got) := Accept(c, r1, server.ephemeral, reply.sealedStatic.value, reply.sealedPayload.value);
        var (write, read) := Split(c, r2);
        Some(Exchange(reply.session, Transporting(s, read, write), reply.cert, got))
  }

  lemma XxRuns(c: Crypto, s: Session, client: Secrets, server: Secrets, cert: Bytes, payload: Bytes)
    requires Lawful(c) && WellFormed(client) && WellFormed(server) && s.handshake.Some? && !s.finished
    ensures exists write, read ::
      RunXx(c, s, s.handshake.value, client, server, cert, payload)
      == Some(Exchange(Transporting(s, write, read), Transporting(s, read, write), Some(cert), Some(payload)))
  {
    XxAgrees(c, s, client, server, cert, payload);
  }

  /** `to` is sent what `from` frames of `attempts`, and delivers exactly that. */
  ghost predicate Delivers<N>(c: Crypto, parse: Bytes -> Option<N>, from: Session, to: Session, attempts: seq<Bytes>)
    requires Parses(parse, attempts)
  {
    Drain(c, parse, to.(buffer := OnWire(SendAll(c, from, attempts).1))).1 == Some(Parsed(parse, attempts))
  }

  /** From the first frame on: a client that sends its hello, completes XX with a responder and
      switches to transport exchanges messages with it in both directions, each side getting
      exactly what the other framed. */
  lemma EndToEnd<N>(c: Crypto, parse: Bytes -> Option<N>, header: Bytes, routing: Option<Bytes>, client: Secrets,
                    server: Secrets, hello: Bytes, cert: Bytes, payload: Bytes, up: seq<Bytes>, down: seq<Bytes>)
    requires Lawful(c) && WellFormed(client) && WellFormed(server)
    requires InStep(up) && InStep(down) && Parses(parse, up) && Parses(parse, down)
    ensures var e := c.publicKey(client.ephemeral);
      var s := AfterEncode(c, Opened(c, e, header, routing), hello).0;
      var x := RunXx(c, s, Responder(c, NOISE_MODE, header, e), client, server, cert, payload);
      && AfterEncode(c, Opened(c, e, header, routing), hello).1
         == (if |hello| < FRAME_MAX_SIZE then Some(BuildHandshakeHeader(routing) + Frame(hello)) else None)
      && x.Some? && x.value.cert == Some(cert) && x.value.payload == Some(payload)
      && Delivers(c, parse, x.value.client, x.value.peer, up)
      && Delivers(c, parse, x.value.peer, x.value.client, down)
  {
    var e := c.publicKey(client.ephemeral);
    var s := AfterEncode(c, Opened(c, e, header, routing), hello).0;
    if |hello| < FRAME_MAX_SIZE {
      FramedIs(hello, Some(BuildHandshakeHeader(routing)));
    }
    XxRuns(c, s, client, server, cert, payload);
    var x := RunXx(c, s, Responder(c, NOISE_MODE, header, e), client, server, cert, payload).value;
    TransportDelivers(c, parse, x.client, x.peer.(buffer := OnWire(SendAll(c, x.client, up).1)), up);
    TransportDelivers(c, parse, x.peer, x.client.(buffer := OnWire(SendAll(c, x.peer, down).1)), down);
  }

  /** A run that breaks: one frame too many bytes long, then a small one. */
  lemma OversizeDesyncs(c: Crypto, parse: Bytes -> Option<Bytes>, sender: Session, receiver: Session, small: Bytes)
    requires Lawful(c) && Binding(c) && Fits(small) && parse(small).Some?
    requires sender.finished && sender.encKey.Some? && sender.intro == None
    requires receiver.finished && receiver.decKey == sender.encKey && receiver.readCounter == sender.writeCounter
    requires receiver.buffer == OnWire(SendAll(c, sender, [seq(0x100_0000, _ => 0), small]).1)
    ensures Drain(c, parse, receiver).1 == None
  {
    var attempts := [seq(0x100_0000, _ => 0), small];
    assert !Fits(attempts[0]) && Fits(attempts[1]);
    assert Refused(attempts, 1) == Refused(attempts, 0) + 1 && !InStepAt(attempts, 0, 1);
    TransportDelivers(c, parse, sender, receiver, attempts);
  }

  /** Delivery does not look at the frames behind. */
  lemma DeliverApart<N>(c: Crypto, parse: Bytes -> Option<N>, s: Session, buffer: Bytes, frame: Bytes)
    ensures var (s1, got) := Deliver(c, parse, s, frame);
      Deliver(c, parse, s.(buffer := buffer), frame) == (s1.(buffer := buffer), got)
  {
  }

  /** The first frame of a buffer is delivered alike with more bytes behind it. */
  lemma FirstDelivery<N>(c: Crypto, parse: Bytes -> Option<N>, s: Session, b: Bytes)
    requires Ready(s.buffer)
    ensures var n := 3 + Length(s.buffer);
      var (s1, got) := Deliver(c, parse, s.(buffer := s.buffer[n..]), s.buffer[3..n]);
      got.Some? ==>
        Drain(c, parse, s.(buffer := s.buffer + b)) == After([got.value], Drain(c, parse, s1.(buffer := s1.buffer + b)))
  {
    var a, fed := s.buffer, s.(buffer := s.buffer + b);
    var n := 3 + Length(a);
    ReadyGrows(a, b);
    DeliverApart(c, parse, s.(buffer := a[n..]), a[n..] + b, a[3..n]);
    assert fed.(buffer := a[n..] + b) == s.(buffer := a[n..]).(buffer := a[n..] + b);
  }

  lemma Joined<N>(got: Delivered<N>, rest: (Session, Option<seq<Delivered<N>>>),
                  all: (Session, Option<seq<Delivered<N>>>), later: (Session, Option<seq<Delivered<N>>>))
    requires all == After([got], rest) && rest.1.Some?
    ensures all.0 == rest.0 && After([got], After(rest.1.value, later)) == After(all.1.value, later)
  {
    AfterAfter([got], rest.1.value, later);
  }

  /** Where the chunks of the stream end does not matter, as long as no call has failed. */
  lemma {:induction false} ChunkedDrain<N>(c: Crypto, parse: Bytes -> Option<N>, s: Session, b: Bytes)
    requires Drain(c, parse, s).1.Some?
    ensures var first := Drain(c, parse, s);
      Drain(c, parse, s.(buffer := s.buffer + b))
      == After(first.1.value, Drain(c, parse, first.0.(buffer := first.0.buffer + b)))
    decreases |s.buffer|
  {
    if Ready(s.buffer) {
      var n := 3 + Length(s.buffer);
      var (s1, got) := Deliver(c, parse, s.(buffer := s.buffer[n..]), s.buffer[3..n]);
      assert Drain(c, parse, s) == After([got.value], Drain(c, parse, s1)) && |s1.buffer| == |s.buffer| - n;
      FirstDelivery(c, parse, s, b);
      ChunkedDrain(c, parse, s1, b);
      var rest := Drain(c, parse, s1);
      Joined(got.value, rest, Drain(c, parse, s), Drain(c, parse, rest.0.(buffer := rest.0.buffer + b)));
    } else {
      AfterAfter([], [], Drain(c, parse, s.(buffer := s.buffer + b)));
    }
  }
}
