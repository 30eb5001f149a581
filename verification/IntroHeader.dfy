/** The one-shot intro header, over every run of calls on a session. */
module IntroHeader {
  import opened Common
  import opened Framing
  import opened Noise
  import opened Sessions
  import opened Transport

  /** A call on a session. `encode_frame` sends a marshalled node; the getters change nothing. */
  datatype Call =
    | SendFrame(data: Bytes)
    | EncryptBytes(plaintext: Bytes)
    | DecryptBytes(ciphertext: Bytes)
    | ReceiveBytes(data: Bytes)
    | ReadHello(hello: ServerHello, private: Bytes)
    | WriteReply(publicKey: Bytes, private: Bytes, ephemeral: Bytes)
    | SwitchOver
    | AuthenticateBytes(data: Bytes)
    | MixIntoKey(data: Bytes)
    | ClearBuffer

  /** The session after a call, and the frame it put on the wire. */
  function Called<N>(c: Crypto, parse: Bytes -> Option<N>, s: Session, call: Call): (Session, Option<Bytes>) {
    match call
    case SendFrame(data) => AfterEncode(c, s, data)
    case EncryptBytes(plaintext) => (AfterEncrypt(c, s, plaintext).0, None)
    case DecryptBytes(ciphertext) => (AfterDecrypt(c, s, ciphertext).0, None)
    case ReceiveBytes(data) => (Drain(c, parse, s.(buffer := s.buffer + data)).0, None)
    case ReadHello(h, private) => (AfterHello(c, s, h.ephemeral, h.sealedStatic, h.sealedPayload, private).0, None)
    case WriteReply(publicKey, private, ephemeral) => (AfterReply(c, s, publicKey, private, ephemeral).0, None)
    case SwitchOver => (AfterFinish(c, s).0, None)
    case AuthenticateBytes(data) => (AfterAuthenticate(c, s, data), None)
    case MixIntoKey(data) => (AfterMix(c, s, data).0, None)
    case ClearBuffer => (s.(buffer := []), None)
  }

  /** Every call of a run, in either mode and across the switch between them. */
  function Calls<N>(c: Crypto, parse: Bytes -> Option<N>, s: Session, calls: seq<Call>): (Session, seq<Option<Bytes>>)
    decreases |calls|
  {
    if calls == [] then (s, [])
    else
      var (s1, out) := Called(c, parse, s, calls[0]);
      var (s2, outs) := Calls(c, parse, s1, calls[1..]);
      (s2, [out] + outs)
  }

  lemma DeliverKeepsIntro<N>(c: Crypto, parse: Bytes -> Option<N>, s: Session, frame: Bytes, intro: Option<Bytes>)
    ensures Deliver(c, parse, s.(intro := intro), frame)
         == (Deliver(c, parse, s, frame).0.(intro := intro), Deliver(c, parse, s, frame).1)
    ensures Deliver(c, parse, s, frame).0.intro == s.intro
  {
  }

  /** A session with another header. */
  function Swap<N>(r: (Session, Option<seq<Delivered<N>>>), intro: Option<Bytes>)
    : (Session, Option<seq<Delivered<N>>>)
  {
    (r.0.(intro := intro), r.1)
  }

  lemma {:induction false} DrainKeepsIntro<N>(c: Crypto, parse: Bytes -> Option<N>, s: Session, intro: Option<Bytes>)
    ensures Drain(c, parse, s.(intro := intro)) == Swap(Drain(c, parse, s), intro)
    ensures Drain(c, parse, s).0.intro == s.intro
    decreases |s.buffer|
  {
    if Ready(s.buffer) {
      var n := 3 + Length(s.buffer);
      var rest, frame := s.(buffer := s.buffer[n..]), s.buffer[3..n];
      assert s.(intro := intro).(buffer := s.buffer[n..]) == rest.(intro := intro);
      DeliverKeepsIntro(c, parse, rest, frame, intro);
      DrainKeepsIntro(c, parse, Deliver(c, parse, rest, frame).0, intro);
    }
  }

  /** No call but an encode reads or changes the intro header. */
  lemma IntroUntouched<N>(c: Crypto, parse: Bytes -> Option<N>, s: Session, call: Call, intro: Option<Bytes>)
    requires !call.SendFrame?
    ensures Called(c, parse, s.(intro := intro), call) == (Called(c, parse, s, call).0.(intro := intro), None)
    ensures Called(c, parse, s, call).0.intro == s.intro
  {
    if call.ReceiveBytes? {
      DrainKeepsIntro(c, parse, s.(buffer := s.buffer + call.data), intro);
      assert s.(intro := intro).(buffer := s.buffer + call.data) == s.(buffer := s.buffer + call.data).(intro := intro);
    }
  }

  /** Once it is gone the header never comes back. */
  lemma {:induction false} NoIntro<N>(c: Crypto, parse: Bytes -> Option<N>, s: Session, calls: seq<Call>)
    requires s.intro == None
    ensures Calls(c, parse, s, calls).0.intro == None
    decreases |calls|
  {
    if calls != [] {
      if !calls[0].SendFrame? {
        IntroUntouched(c, parse, s, calls[0], None);
      }
      NoIntro(c, parse, Called(c, parse, s, calls[0]).0, calls[1..]);
    }
  }

  /** Whether a payload fits a frame in the mode the session is in. */
  predicate FitsNow(s: Session, data: Bytes) {
    if s.finished then Fits(data) else |data| < FRAME_MAX_SIZE
  }

  /** What the first encode of a session does with the header: it is on the wire exactly when the
      payload fits, and gone in any case. */
  lemma FirstEncode(c: Crypto, s: Session, data: Bytes)
    requires Lawful(c) && Coherent(s) && s.intro.Some?
    ensures var (s1, out) := AfterEncode(c, s, data);
      var bare := AfterEncode(c, s.(intro := None), data);
      s1.intro == None && bare.0 == s1 && (bare.1.Some? <==> FitsNow(s, data))
      && out == if FitsNow(s, data) then Some(s.intro.value + bare.1.value) else None
  {
    var payload := if s.finished then c.seal(s.encKey.value, GenerateIv(s.writeCounter), [], data) else data;
    if FitsNow(s, data) {
      FramedIs(payload, s.intro);
      FramedIs(payload, None);
      assert [] + Frame(payload) == Frame(payload);
    }
  }

  lemma CoherentAfter<N>(c: Crypto, parse: Bytes -> Option<N>, s: Session, call: Call)
    requires Coherent(s)
    ensures Coherent(Called(c, parse, s, call).0)
  {
    if call.ReceiveBytes? {
      CoherentDrain(c, parse, s.(buffer := s.buffer + call.data));
    }
  }

  lemma {:induction false} CoherentDrain<N>(c: Crypto, parse: Bytes -> Option<N>, s: Session)
    requires Coherent(s)
    ensures Coherent(Drain(c, parse, s).0)
    decreases |s.buffer|
  {
    if Ready(s.buffer) {
      var n := 3 + Length(s.buffer);
      CoherentDrain(c, parse, Deliver(c, parse, s.(buffer := s.buffer[n..]), s.buffer[3..n]).0);
    }
  }

  /** Two runs whose frames differ only in call `k`, which carries the header if it fits. */
  ghost predicate HeaderAt(with: seq<Option<Bytes>>, without: seq<Option<Bytes>>, k: nat, intro: Bytes, fits: bool) {
    && k < |with| == |without|
    && (forall i :: 0 <= i < |with| && i != k ==> with[i] == without[i])
    && (without[k].Some? <==> fits)
    && with[k] == if fits then Some(intro + without[k].value) else None
  }

  lemma HeaderLater(first: Option<Bytes>, with: seq<Option<Bytes>>, without: seq<Option<Bytes>>, k: nat, intro: Bytes,
                    fits: bool)
    requires HeaderAt(with, without, k, intro, fits)
    ensures HeaderAt([first] + with, [first] + without, k + 1, intro, fits)
  {
  }

  lemma CallsCons<N>(c: Crypto, parse: Bytes -> Option<N>, s: Session, calls: seq<Call>)
    requires calls != []
    ensures var (s1, out) := Called(c, parse, s, calls[0]);
      Calls(c, parse, s, calls) == (Calls(c, parse, s1, calls[1..]).0, [out] + Calls(c, parse, s1, calls[1..]).1)
  {
  }

  /** Over every run of calls on a session that still has its intro header, in either mode and
      across the switch: the first encode, call `k`, carries it exactly when its payload fits; no
      other frame differs from those of a session without it; and after call `k` it is gone. */
  lemma {:induction false} IntroOnce<N>(c: Crypto, parse: Bytes -> Option<N>, s: Session, calls: seq<Call>, k: nat)
    requires Lawful(c) && Coherent(s) && s.intro.Some?
    requires k < |calls| && calls[k].SendFrame? && forall i :: 0 <= i < k ==> !calls[i].SendFrame?
    ensures Calls(c, parse, s, calls).0 == Calls(c, parse, s.(intro := None), calls).0
    ensures Calls(c, parse, s, calls).0.intro == None && |Calls(c, parse, s, calls).1| == |calls|
    ensures HeaderAt(Calls(c, parse, s, calls).1, Calls(c, parse, s.(intro := None), calls).1, k, s.intro.value,
                     FitsNow(Calls(c, parse, s, calls[..k]).0, calls[k].data))
    decreases |calls|
  {
    var s1, rest := Called(c, parse, s, calls[0]).0, calls[1..];
    CallsCons(c, parse, s, calls);
    CallsCons(c, parse, s.(intro := None), calls);
    if k == 0 {
      assert calls[..0] == [];
      FirstEncode(c, s, calls[0].data);
      NoIntro(c, parse, s1, rest);
      RunLength(c, parse, s1, rest);
    } else {
      IntroUntouched(c, parse, s, calls[0], None);
      CoherentAfter(c, parse, s, calls[0]);
      IntroOnce(c, parse, s1, rest, k - 1);
      assert calls[..k][0] == calls[0] && calls[..k][1..] == rest[..k - 1];
      CallsCons(c, parse, s, calls[..k]);
      HeaderLater(None, Calls(c, parse, s1, rest).1, Calls(c, parse, s1.(intro := None), rest).1, k - 1, s.intro.value,
                  FitsNow(Calls(c, parse, s1, rest[..k - 1]).0, calls[k].data));
    }
  }

  lemma {:induction false} RunLength<N>(c: Crypto, parse: Bytes -> Option<N>, s: Session, calls: seq<Call>)
    ensures |Calls(c, parse, s, calls).1| == |calls|
    decreases |calls|
  {
    if calls != [] {
      RunLength(c, parse, Called(c, parse, s, calls[0]).0, calls[1..]);
    }
  }
}
