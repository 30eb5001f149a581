/** Frames of the socket: a three-byte big-endian length, then the payload. */
module Framing {
  import opened Common

  const FRAME_MAX_SIZE: nat := 0x100_0000

  function PrefixByte(n: nat, i: nat): byte
    requires n < FRAME_MAX_SIZE
  {
    if i == 0 then n / 0x1_0000 else if i == 1 then n / 0x100 % 0x100 else n % 0x100
  }

  function Prefix(n: nat): (b: Bytes)
    requires n < FRAME_MAX_SIZE
    ensures |b| == 3
  {
    seq(3, i requires 0 <= i < 3 => PrefixByte(n, i))
  }

  /** The length, high-order byte first. */
  lemma PrefixIs(n: nat)
    requires n < FRAME_MAX_SIZE
    ensures n == 0x1_0000 * (Prefix(n)[0] as int) + 0x100 * (Prefix(n)[1] as int) + Prefix(n)[2] as int
  {
    assert n / 0x100 / 0x100 == n / 0x1_0000;
  }

  /** `encode_frame_into`. */
  function EncodeFrame(payload: Bytes, header: Option<Bytes>): Option<Bytes> {
    if |payload| >= FRAME_MAX_SIZE then None
    else Some((if header.Some? then header.value else []) + Prefix(|payload|) + payload)
  }

  function Frame(payload: Bytes): Bytes
    requires |payload| < FRAME_MAX_SIZE
  {
    Prefix(|payload|) + payload
  }

  lemma FramedIs(payload: Bytes, header: Option<Bytes>)
    requires |payload| < FRAME_MAX_SIZE
    ensures EncodeFrame(payload, header) == Some((if header.Some? then header.value else []) + Frame(payload))
  {
    var h := if header.Some? then header.value else [];
    assert h + Prefix(|payload|) + payload == h + Frame(payload);
  }

  function Length(buffer: Bytes): nat
    requires |buffer| >= 3
  {
    var high: nat, mid: nat, low: nat := buffer[0], buffer[1], buffer[2];
    0x1_0000 * high + 0x100 * mid + low
  }

  /** A whole frame is buffered. */
  predicate Ready(buffer: Bytes) {
    |buffer| >= 3 && |buffer| >= 3 + Length(buffer)
  }

  /** The whole frames at the front of a byte stream, and what is left after them. */
  function Frames(buffer: Bytes): seq<Bytes> {
    if !Ready(buffer) then []
    else [buffer[3..3 + Length(buffer)]] + Frames(buffer[3 + Length(buffer)..])
  }

  function Residue(buffer: Bytes): (r: Bytes)
    ensures !Ready(r)
  {
    if !Ready(buffer) then buffer else Residue(buffer[3 + Length(buffer)..])
  }

  /** A buffered frame stays the first one when more arrives. */
  lemma ReadyGrows(a: Bytes, b: Bytes)
    requires Ready(a)
    ensures Ready(a + b) && Length(a + b) == Length(a)
    ensures var n := 3 + Length(a);
      (a + b)[3..n] == a[3..n] && (a + b)[n..] == a[n..] + b
  {
    assert (a + b)[..3] == a[..3];
  }

  lemma {:induction false} ResiduesAgree(a: Bytes, b: Bytes)
    ensures Residue(a + b) == Residue(Residue(a) + b)
    decreases |a|
  {
    if Ready(a) {
      ReadyGrows(a, b);
      ResiduesAgree(a[3 + Length(a)..], b);
    }
  }

  lemma FramesStep(a: Bytes, b: Bytes)
    requires Ready(a)
    ensures var n := 3 + Length(a);
      Frames(a + b) == [a[3..n]] + Frames(a[n..] + b) && Residue(a) == Residue(a[n..])
  {
    ReadyGrows(a, b);
  }

  /** The frames of a stream do not depend on where its chunks end. */
  lemma {:induction false} ChunksAgree(a: Bytes, b: Bytes)
    ensures Frames(a + b) == Frames(a) + Frames(Residue(a) + b)
    decreases |a|
  {
    if Ready(a) {
      FramesStep(a, b);
      FramesStep(a, []);
      ChunksAgree(a[3 + Length(a)..], b);
    }
  }

  function Wire(payloads: seq<Bytes>): Bytes
    requires forall i :: 0 <= i < |payloads| ==> |payloads[i]| < FRAME_MAX_SIZE
  {
    if payloads == [] then [] else Frame(payloads[0]) + Wire(payloads[1..])
  }

  lemma PrefixLength(payload: Bytes, rest: Bytes)
    requires |payload| < FRAME_MAX_SIZE
    ensures Ready(Frame(payload) + rest) && Length(Frame(payload) + rest) == |payload|
    ensures (Frame(payload) + rest)[3..3 + |payload|] == payload
    ensures (Frame(payload) + rest)[3 + |payload|..] == rest
  {
    var s := Frame(payload) + rest;
    var n := |payload|;
    assert s[0] == PrefixByte(n, 0) && s[1] == PrefixByte(n, 1) && s[2] == PrefixByte(n, 2);
    assert n / 0x100 / 0x100 == n / 0x1_0000;
  }

  /** Reading back what was framed. */
  lemma {:induction false} WireDecodes(payloads: seq<Bytes>)
    requires forall i :: 0 <= i < |payloads| ==> |payloads[i]| < FRAME_MAX_SIZE
    ensures Frames(Wire(payloads)) == payloads && Residue(Wire(payloads)) == []
  {
    if payloads != [] {
      PrefixLength(payloads[0], Wire(payloads[1..]));
      WireDecodes(payloads[1..]);
    }
  }

  class FrameDecoder {
    var buffer: Bytes

    constructor()
      ensures buffer == []
    {
      buffer := [];
    }

    method Feed(data: Bytes)
      modifies this
      ensures buffer == old(buffer) + data
    {
      buffer := buffer + data;
    }

    /** `decode_frame`: the next frame of the stream, if it is all there. */
    method DecodeFrame() returns (r: Option<Bytes>)
      modifies this
      ensures r.Some? <==> Ready(old(buffer))
      ensures r.Some? ==> r.value == old(buffer)[3..3 + Length(old(buffer))]
      ensures r.Some? ==> buffer == old(buffer)[3 + Length(old(buffer))..]
      ensures r.None? ==> buffer == old(buffer) == Residue(old(buffer))
      ensures r.Some? ==> Frames(old(buffer)) == [r.value] + Frames(buffer) && Residue(old(buffer)) == Residue(buffer)
      ensures r.Some? ==> |buffer| < |old(buffer)|
    {
      if |buffer| < 3 {
        return None;
      }
      var frameLen := Length(buffer);
      if |buffer| < 3 + frameLen {
        return None;
      }
      r := Some(buffer[3..3 + frameLen]);
      buffer := buffer[3 + frameLen..];
    }

    method Clear()
      modifies this
      ensures buffer == []
    {
      buffer := [];
    }
  }

  const WA_CONN_HEADER: Bytes := [0x57, 0x41, 6, 3]
  const EDGE_MAGIC: Bytes := [0x45, 0x44, 0, 1]

  /** `build_handshake_header`: routing information too long for its length field is left out. */
  function BuildHandshakeHeader(routing: Option<Bytes>): Bytes {
    if routing.None? || |routing.value| > 0xFF_FFFF then WA_CONN_HEADER
    else EDGE_MAGIC + Frame(routing.value) + WA_CONN_HEADER
  }

  /** The routing information can be read back from the header, whatever follows it; without it the
      header is "WA", 6, 3. */
  lemma HeaderReads(routing: Bytes, rest: Bytes)
    requires |routing| <= 0xFF_FFFF
    ensures var s := BuildHandshakeHeader(Some(routing)) + rest;
      s[..4] == EDGE_MAGIC && Ready(s[4..]) && s[7..7 + Length(s[4..])] == routing
      && s[7 + Length(s[4..])..] == BuildHandshakeHeader(None) + rest
    ensures Spells(EDGE_MAGIC[..2], "ED") && EDGE_MAGIC[2..] == [0, 1]
    ensures Spells(BuildHandshakeHeader(None)[..2], "WA") && BuildHandshakeHeader(None)[2..] == [6, 3]
  {
    var s := BuildHandshakeHeader(Some(routing)) + rest;
    assert s[4..] == Frame(routing) + (WA_CONN_HEADER + rest);
    PrefixLength(routing, WA_CONN_HEADER + rest);
    assert s[7..7 + |routing|] == s[4..][3..3 + |routing|];
    assert s[7 + |routing|..] == s[4..][3 + |routing|..];
  }
}
