/** Passing a JavaScript string to WebAssembly: UTF-16 code units in, UTF-8 bytes out. */
module Utf {
  import opened Common

  type Unit = u: int | 0 <= u < 0x1_0000

  /** Unicode scalar values: code points that are not surrogates. */
  predicate IsScalar(c: int) { 0 <= c < 0x11_0000 && !(0xD800 <= c < 0xE000) }
  type Scalar = c: int | 0 <= c < 0x11_0000 && !(0xD800 <= c < 0xE000) witness 0

  predicate IsHigh(u: Unit) { 0xD800 <= u < 0xDC00 }
  predicate IsLow(u: Unit) { 0xDC00 <= u < 0xE000 }

  /** How many units the first character of `s` takes. */
  function FirstLen(s: seq<Unit>): nat
    requires s != []
  {
    if IsHigh(s[0]) && |s| > 1 && IsLow(s[1]) then 2 else 1
  }

  function Paired(high: int, low: int): Scalar
    requires 0xD800 <= high < 0xDC00 <= low < 0xE000
  {
    0x1_0000 + (high - 0xD800) * 0x400 + (low - 0xDC00)
  }

  /** The first character; a lone surrogate is read as U+FFFD. */
  function FirstScalar(s: seq<Unit>): Scalar
    requires s != []
  {
    if FirstLen(s) == 2 then Paired(s[0], s[1])
    else if IsHigh(s[0]) || IsLow(s[0]) then 0xFFFD
    else s[0]
  }

  /** The text of a JavaScript string, as the encoder reads it. */
  function Scalars(s: seq<Unit>): seq<Scalar>
    decreases |s|
  {
    if s == [] then [] else [FirstScalar(s)] + Scalars(s[FirstLen(s)..])
  }

  /** Six payload bits behind the continuation marker. */
  function Tail(x: int): byte { 0x80 + x % 0x40 }

  function Lead(marker: int, x: int): byte
    requires 0 <= x && 0 <= marker && marker + x < 256
  {
    marker + x
  }

  /** Section 3 of RFC 3629. */
  function Encode(c: Scalar): (b: Bytes)
    ensures 1 <= |b| <= 4
  {
    if c < 0x80 then [Lead(0, c)]
    else if c < 0x800 then [Lead(0xC0, c / 0x40), Tail(c)]
    else if c < 0x1_0000 then [Lead(0xE0, c / 0x1000), Tail(c / 0x40), Tail(c)]
    else [Lead(0xF0, c / 0x4_0000), Tail(c / 0x1000), Tail(c / 0x40), Tail(c)]
  }

  function EncodeAll(cs: seq<Scalar>): Bytes {
    if cs == [] then [] else Encode(cs[0]) + EncodeAll(cs[1..])
  }

  function Utf8(s: seq<Unit>): Bytes { EncodeAll(Scalars(s)) }

  // ---------------------------------------------------------------- decoding, as a partner

  predicate Continuation(b: byte) { 0x80 <= b < 0xC0 }

  function Value2(b0: int, b1: int): int { (b0 - 0xC0) * 0x40 + (b1 - 0x80) }
  function Value3(b0: int, b1: int, b2: int): int { (b0 - 0xE0) * 0x1000 + (b1 - 0x80) * 0x40 + (b2 - 0x80) }
  function Value4(b0: int, b1: int, b2: int, b3: int): int {
    (b0 - 0xF0) * 0x4_0000 + (b1 - 0x80) * 0x1000 + (b2 - 0x80) * 0x40 + (b3 - 0x80)
  }

  /** One character of the ABNF in section 4 of RFC 3629; `None` for anything that is not
      the shortest form of a scalar value. */
  function DecodeFirst(b: Bytes): Option<(Scalar, nat)> {
    if b == [] then None
    else if b[0] < 0x80 then Some((b[0], 1))
    else if 0xC2 <= b[0] < 0xE0 && |b| >= 2 && Continuation(b[1]) then
      Some((Value2(b[0], b[1]), 2))
    else if 0xE0 <= b[0] < 0xF0 && |b| >= 3 && Continuation(b[1]) && Continuation(b[2]) then
      var c := Value3(b[0], b[1], b[2]);
      if c >= 0x800 && IsScalar(c) then Some((c, 3)) else None
    else if 0xF0 <= b[0] < 0xF5 && |b| >= 4 && Continuation(b[1]) && Continuation(b[2]) && Continuation(b[3]) then
      var c := Value4(b[0], b[1], b[2], b[3]);
      if c >= 0x1_0000 && IsScalar(c) then Some((c, 4)) else None
    else None
  }

  function DecodeAll(b: Bytes): Option<seq<Scalar>>
    decreases |b|
  {
    if b == [] then Some([])
    else
      var first := DecodeFirst(b);
      if first.None? then None
      else
        var rest := DecodeAll(b[first.value.1..]);
        if rest.None? then None else Some([first.value.0] + rest.value)
  }

  lemma Values(c: Scalar)
    ensures c < 0x800 ==> Value2(0xC0 + c / 0x40, Tail(c)) == c
    ensures c < 0x1_0000 ==> Value3(0xE0 + c / 0x1000, Tail(c / 0x40), Tail(c)) == c
    ensures Value4(0xF0 + c / 0x4_0000, Tail(c / 0x1000), Tail(c / 0x40), Tail(c)) == c
  {
    assert c / 0x1000 == c / 0x40 / 0x40;
    assert c / 0x4_0000 == c / 0x1000 / 0x40;
  }

  lemma DecodeEncoded(c: Scalar, rest: Bytes)
    ensures DecodeFirst(Encode(c) + rest) == Some((c, |Encode(c)|))
  {
    Values(c);
    var b := Encode(c) + rest;
    assert forall i :: 0 <= i < |Encode(c)| ==> b[i] == Encode(c)[i];
  }

  /** The encoding loses nothing. */
  lemma {:induction false} EncodeRoundTrip(cs: seq<Scalar>)
    ensures DecodeAll(EncodeAll(cs)) == Some(cs)
  {
    if cs != [] {
      EncodeRoundTrip(cs[1..]);
      DecodeEncoded(cs[0], EncodeAll(cs[1..]));
      assert (Encode(cs[0]) + EncodeAll(cs[1..]))[|Encode(cs[0])|..] == EncodeAll(cs[1..]);
      assert [cs[0]] + cs[1..] == cs;
    }
  }

  // ---------------------------------------------------------------- UTF-16

  /** Section 2.1 of RFC 2781. */
  function Units(c: Scalar): (s: seq<Unit>)
    ensures 1 <= |s| <= 2
  {
    if c < 0x1_0000 then [c] else [0xD800 + (c - 0x1_0000) / 0x400, 0xDC00 + (c - 0x1_0000) % 0x400]
  }

  function Utf16(cs: seq<Scalar>): seq<Unit> {
    if cs == [] then [] else Units(cs[0]) + Utf16(cs[1..])
  }

  lemma FirstOfUnits(c: Scalar, rest: seq<Unit>)
    ensures FirstLen(Units(c) + rest) == |Units(c)| && FirstScalar(Units(c) + rest) == c
  {
    var s := Units(c) + rest;
    assert s[0] == Units(c)[0];
    if c >= 0x1_0000 {
      assert s[1] == Units(c)[1];
      assert c - 0x1_0000 == (c - 0x1_0000) / 0x400 * 0x400 + (c - 0x1_0000) % 0x400;
    }
  }

  /** A well-formed string is read as the text it encodes. */
  lemma {:induction false} ScalarsInvert(cs: seq<Scalar>)
    ensures Scalars(Utf16(cs)) == cs
  {
    if cs != [] {
      var rest := Utf16(cs[1..]);
      ScalarsInvert(cs[1..]);
      FirstOfUnits(cs[0], rest);
      assert (Units(cs[0]) + rest)[|Units(cs[0])|..] == rest;
      assert [cs[0]] + cs[1..] == cs;
    }
  }

  /** A surrogate without its other half. */
  predicate Lone(s: seq<Unit>, k: nat)
    requires k < |s|
  {
    || (IsHigh(s[k]) && !(k + 1 < |s| && IsLow(s[k + 1])))
    || (IsLow(s[k]) && !(k > 0 && IsHigh(s[k - 1])))
  }

  lemma UnitsOfFirst(s: seq<Unit>)
    requires s != []
    ensures Units(FirstScalar(s)) == if Lone(s, 0) then [0xFFFD] else s[..FirstLen(s)]
  {
    if FirstLen(s) == 2 {
      var high: int, low: int := s[0] - 0xD800, s[1] - 0xDC00;
      assert (high * 0x400 + low) / 0x400 == high && (high * 0x400 + low) % 0x400 == low;
      assert s[..2] == [s[0], s[1]];
    } else {
      assert s[..1] == [s[0]];
    }
  }

  /** `s` with U+FFFD in the place of each lone surrogate. */
  function Mended(s: seq<Unit>): seq<Unit> {
    seq(|s|, k requires 0 <= k < |s| => if Lone(s, k) then 0xFFFD else s[k])
  }

  lemma MendedFront(s: seq<Unit>)
    requires s != []
    ensures Mended(s) == Units(FirstScalar(s)) + Mended(s[FirstLen(s)..])
  {
    UnitsOfFirst(s);
    var n := FirstLen(s);
    assert forall k :: 0 <= k < |s| - n ==> (Lone(s[n..], k) <==> Lone(s, n + k));
  }

  /** Any string is read as the text of its mended form. */
  lemma {:induction false} LoneReplaced(s: seq<Unit>)
    ensures Utf16(Scalars(s)) == Mended(s)
    decreases |s|
  {
    if s != [] {
      LoneReplaced(s[FirstLen(s)..]);
      MendedFront(s);
      assert Scalars(s)[1..] == Scalars(s[FirstLen(s)..]);
    }
  }

  // ---------------------------------------------------------------- the space bound

  lemma FirstFits(s: seq<Unit>)
    requires s != []
    ensures |Encode(FirstScalar(s))| <= 3 * FirstLen(s)
  {
  }

  /** Three bytes per unit always suffice. */
  lemma {:induction false} Utf8Fits(s: seq<Unit>)
    ensures |Utf8(s)| <= 3 * |s|
    decreases |s|
  {
    if s != [] {
      FirstFits(s);
      Utf8Fits(s[FirstLen(s)..]);
      assert Scalars(s)[1..] == Scalars(s[FirstLen(s)..]);
    }
  }

  // ---------------------------------------------------------------- whole characters

  /** Cutting `s` at `i` splits no character. */
  ghost predicate Between(s: seq<Unit>, i: nat) {
    i <= |s| && Scalars(s[..i]) + Scalars(s[i..]) == Scalars(s)
  }

  lemma Associative(x: Bytes, y: Bytes, z: Bytes)
    ensures x + (y + z) == x + y + z
  {
  }

  lemma {:induction false} EncodeAllAppend(a: seq<Scalar>, b: seq<Scalar>)
    ensures EncodeAll(a + b) == EncodeAll(a) + EncodeAll(b)
  {
    if a == [] {
      assert a + b == b;
    } else {
      EncodeAllAppend(a[1..], b);
      assert (a + b)[1..] == a[1..] + b;
      Associative(Encode(a[0]), EncodeAll(a[1..]), EncodeAll(b));
    }
  }

  lemma EncodeSnoc(a: seq<Scalar>, c: Scalar)
    ensures EncodeAll(a + [c]) == EncodeAll(a) + Encode(c)
  {
    EncodeAllAppend(a, [c]);
    assert EncodeAll([c]) == Encode(c) + EncodeAll([c][1..]) == Encode(c);
  }

  lemma Utf8Split(s: seq<Unit>, i: nat)
    requires Between(s, i)
    ensures Utf8(s[..i]) + Utf8(s[i..]) == Utf8(s)
  {
    EncodeAllAppend(Scalars(s[..i]), Scalars(s[i..]));
  }

  lemma FrontOff(s: seq<Unit>, j: nat)
    requires s != [] && FirstLen(s) <= j <= |s|
    ensures Scalars(s[..j]) == [FirstScalar(s)] + Scalars(s[FirstLen(s)..][..j - FirstLen(s)])
  {
    assert s[..j][FirstLen(s)..] == s[FirstLen(s)..][..j - FirstLen(s)];
  }

  /** One character off the front of the rest is one more at the end of what was read. */
  lemma {:induction false} ScalarsSnoc(s: seq<Unit>, i: nat)
    requires i < |s| && Between(s, i)
    ensures i + FirstLen(s[i..]) <= |s|
    ensures Scalars(s[..i + FirstLen(s[i..])]) == Scalars(s[..i]) + [FirstScalar(s[i..])]
    decreases i
  {
    if i == 0 {
      assert s[0..] == s && s[..0] == [];
      FrontOff(s, FirstLen(s));
    } else {
      var n, j := FirstLen(s), i + FirstLen(s[i..]);
      FirstWhole(s, i);
      assert s[n..][i - n..] == s[i..];
      ScalarsSnoc(s[n..], i - n);
      FrontBoth(s, i, j, FirstScalar(s[i..]));
    }
  }

  lemma FrontBoth(s: seq<Unit>, i: nat, j: nat, c: Scalar)
    requires s != [] && FirstLen(s) <= i <= j <= |s|
    requires var n := FirstLen(s); Scalars(s[n..][..j - n]) == Scalars(s[n..][..i - n]) + [c]
    ensures Scalars(s[..j]) == Scalars(s[..i]) + [c]
  {
    FrontOff(s, i);
    FrontOff(s, j);
  }

  /** A cut between characters lies past the first one. */
  lemma FirstWhole(s: seq<Unit>, i: nat)
    requires 0 < i <= |s| && Between(s, i)
    ensures FirstLen(s) <= i && FirstScalar(s[..i]) == FirstScalar(s) && FirstLen(s[..i]) == FirstLen(s)
    ensures Between(s[FirstLen(s)..], i - FirstLen(s))
  {
    assert Scalars(s)[0] == Scalars(s[..i])[0] == FirstScalar(s[..i]);
    var n := FirstLen(s);
    var rest := s[n..];
    FrontOff(s, i);
    assert rest[i - n..] == s[i..];
    var a, b := Scalars(s[..i]), Scalars(s[i..]);
    assert (a + b)[1..] == a[1..] + b;
    assert a[1..] == Scalars(rest[..i - n]) && Scalars(s)[1..] == Scalars(rest);
  }

  /** `out` is the encoding of the first `i` units, which end with a whole character. */
  ghost predicate Encoded(s: seq<Unit>, i: nat, out: Bytes) {
    Between(s, i) && out == Utf8(s[..i])
  }

  lemma Utf8Step(s: seq<Unit>, i: nat, out: Bytes, len: nat, bytes: Bytes)
    requires i < |s| && Encoded(s, i, out) && len == FirstLen(s[i..]) && bytes == Encode(FirstScalar(s[i..]))
    ensures Encoded(s, i + len, out + bytes) && |out| + |bytes| <= |Utf8(s)|
  {
    var rest := s[i..];
    var c, j := FirstScalar(rest), i + FirstLen(rest);
    var a, b := Scalars(s[..i]), Scalars(s[j..]);
    ScalarsSnoc(s, i);
    assert rest[FirstLen(rest)..] == s[j..];
    assert a + ([c] + b) == a + [c] + b;
    EncodeSnoc(a, c);
    Utf8Split(s, j);
  }

  lemma WholeText(s: seq<Unit>)
    ensures Encoded(s, 0, []) && Encoded(s, |s|, Utf8(s))
  {
    assert s[..|s|] == s == s[0..] && s[..0] == [] == s[|s|..];
    assert Scalars([]) == [];
  }

  /** A prefix of ASCII units encodes to itself and splits no character. */
  lemma AsciiPrefix(s: seq<Unit>, k: nat)
    requires k <= |s| && forall i :: 0 <= i < k ==> s[i] < 0x80
    ensures Scalars(s[..k]) + Scalars(s[k..]) == Scalars(s)
    ensures Utf8(s[..k]) == s[..k] && Utf8(s) == s[..k] + Utf8(s[k..])
  {
    AsciiEncoded(s, k);
    Utf8Split(s, k);
  }

  lemma {:induction false} AsciiEncoded(s: seq<Unit>, k: nat)
    requires k <= |s| && forall i :: 0 <= i < k ==> s[i] < 0x80
    ensures Encoded(s, k, s[..k])
    decreases k
  {
    if k == 0 {
      WholeText(s);
    } else {
      AsciiEncoded(s, k - 1);
      AsciiUnit(s[k - 1..]);
      Utf8Step(s, k - 1, s[..k - 1], 1, [s[k - 1]]);
      assert s[..k] == s[..k - 1] + [s[k - 1]];
    }
  }

  lemma AsciiUnit(s: seq<Unit>)
    requires s != [] && s[0] < 0x80
    ensures Encode(FirstScalar(s)) == [s[0]] && FirstLen(s) == 1
  {
  }

  // ---------------------------------------------------------------- passStringToWasm0

  method NextCharacter(s: seq<Unit>, i: nat) returns (len: nat, bytes: Bytes)
    requires i < |s|
    ensures len == FirstLen(s[i..]) && bytes == Encode(FirstScalar(s[i..])) && i + len <= |s|
  {
    len, bytes := FirstLen(s[i..]), Encode(FirstScalar(s[i..]));
  }

  /** `TextEncoder.encodeInto`: writes whole characters from `at` on, in order, and stops only
      at the end of the string or before a character that does not fit. */
  method EncodeInto(s: seq<Unit>, block: array<byte>, at: nat) returns (read: nat, written: nat)
    requires at <= block.Length
    modifies block
    ensures read <= |s| && Scalars(s[..read]) + Scalars(s[read..]) == Scalars(s)
    ensures at + written <= block.Length && block[..at] == old(block[..at])
    ensures block[at..at + written] == Utf8(s[..read])
    ensures read < |s| ==> at + written + |Encode(FirstScalar(s[read..]))| > block.Length
    ensures read == |s| <==> at + |Utf8(s)| <= block.Length
  {
    read, written := 0, 0;
    ghost var out: Bytes := [];
    WholeText(s);
    while read < |s|
      invariant read <= |s| && Encoded(s, read, out)
      invariant written == |out| && block[..at] == old(block[..at]) && HoldsAt(block, at, out)
    {
      var len, bytes := NextCharacter(s, read);
      Utf8Step(s, read, out, len, bytes);
      if at + written + |bytes| > block.Length {
        return;
      }
      Append(block, at, out, at + written, bytes);
      read, written, out := read + len, written + |bytes|, out + bytes;
    }
  }

  /** A block moved by the allocator keeps the bytes both sizes have. */
  method Realloc(block: array<byte>, size: nat) returns (moved: array<byte>)
    ensures fresh(moved) && moved.Length == size
    ensures forall k :: 0 <= k < size && k < block.Length ==> moved[k] == block[k]
  {
    moved := new byte[size];
    for k := 0 to size
      invariant forall n :: 0 <= n < k && n < block.Length ==> moved[n] == block[n]
    {
      if k < block.Length {
        moved[k] := block[k];
      }
    }
  }

  /** The first loop of `passStringToWasm0`: single-byte units, up to the first that is not. */
  method WriteAscii(arg: seq<Unit>, block: array<byte>) returns (offset: nat)
    requires block.Length == |arg|
    modifies block
    ensures offset <= |arg| && block[..offset] + Utf8(arg[offset..]) == Utf8(arg)
  {
    offset := 0;
    while offset < |arg| && arg[offset] <= 0x7F
      invariant 0 <= offset <= |arg|
      invariant forall i :: 0 <= i < offset ==> arg[i] < 0x80 && block[i] == arg[i]
    {
      block[offset] := arg[offset];
      offset := offset + 1;
    }
    AsciiPrefix(arg, offset);
    assert block[..offset] == arg[..offset];
  }

  /** The rest: room for three bytes a unit, then only what was written is kept. */
  method WriteRest(rest: seq<Unit>, block: array<byte>, start: nat) returns (packed: array<byte>)
    requires start <= block.Length
    ensures fresh(packed) && packed[..] == block[..start] + Utf8(rest)
  {
    Utf8Fits(rest);
    ghost var front := block[..start];
    var wide := Realloc(block, start + 3 * |rest|);
    assert wide[..start] == front;
    var read, written := EncodeInto(rest, wide, start);
    assert rest[..read] == rest;
    ghost var filled := wide[..start + written];
    assert filled == wide[..start] + wide[start..start + written];
    packed := Realloc(wide, start + written);
    assert packed[..] == filled;
  }

  /** `passStringToWasm0`: the block handed to WebAssembly holds exactly the UTF-8 encoding
      of the string, and the recorded length is the encoded length. */
  method PassStringToWasm(arg: seq<Unit>, canRealloc: bool) returns (block: array<byte>, vectorLen: nat)
    ensures fresh(block) && block[..] == Utf8(arg) && vectorLen == |Utf8(arg)|
  {
    if !canRealloc {
      var buf := Utf8(arg);
      block := new byte[|buf|];
      CopyInto(block, 0, buf);
      assert block[0..0 + |buf|] == block[..];
      return block, |buf|;
    }
    block := new byte[|arg|];
    var offset := WriteAscii(arg, block);
    if offset != |arg| {
      block := WriteRest(arg[offset..], block, offset);
    } else {
      assert arg[offset..] == [] && block[..] == block[..offset];
    }
    vectorLen := block.Length;
    assert |block[..]| == vectorLen;
  }
}
