/** The LEB128 decoders of the SFrame header, from a byte loop to a bit extraction, and the
    encoder they invert. A 64-bit word is a natural below 2^64. */
module Varint {
  import opened Bitwise
  import opened Common

  // ---------------------------------------------------------------- shifts

  /** A left shift of a 64-bit word: bits past the top are lost. */
  function Shl(x: nat, shift: nat): nat {
    if shift == 0 then x % 0x1_0000_0000_0000_0000 else 2 * Shl(x, shift - 1) % 0x1_0000_0000_0000_0000
  }

  lemma {:induction false} ShlIs(x: nat, shift: nat)
    ensures Shl(x, shift) == x * Pow2(shift) % 0x1_0000_0000_0000_0000
  {
    if shift > 0 {
      ShlIs(x, shift - 1);
      DoubleModulo(x, Pow2(shift - 1), Pow2(shift));
    }
  }

  lemma DoubleModulo(x: nat, p: nat, q: nat)
    requires q == 2 * p
    ensures 2 * (x * p % 0x1_0000_0000_0000_0000) % 0x1_0000_0000_0000_0000 == x * q % 0x1_0000_0000_0000_0000
  {
    var a := x * p;
    assert x * q == 2 * a;
    assert 2 * a == 2 * (a % 0x1_0000_0000_0000_0000) + 0x1_0000_0000_0000_0000 * (2 * (a / 0x1_0000_0000_0000_0000));
  }

  lemma SmallModulo(a: nat)
    requires a < 0x1_0000_0000_0000_0000
    ensures a % 0x1_0000_0000_0000_0000 == a
  {
  }

  /** Only the lowest bit of a word survives a shift by 63. */
  lemma TopModulo(x: nat)
    ensures x * 0x8000_0000_0000_0000 % 0x1_0000_0000_0000_0000 == x % 2 * 0x8000_0000_0000_0000
  {
    var q := x / 2;
    assert x * 0x8000_0000_0000_0000 == x % 2 * 0x8000_0000_0000_0000 + 0x1_0000_0000_0000_0000 * q;
  }

  lemma SumModulo(a: nat, b: nat)
    requires a < 0x8000_0000_0000_0000
    requires b % 0x1_0000_0000_0000_0000 <= 0x8000_0000_0000_0000
    ensures (a + b) % 0x1_0000_0000_0000_0000 == a + b % 0x1_0000_0000_0000_0000
  {
    var q := b / 0x1_0000_0000_0000_0000;
    assert a + b == a + b % 0x1_0000_0000_0000_0000 + 0x1_0000_0000_0000_0000 * q;
  }

  // ---------------------------------------------------------------- the encoding

  /** The seven-bit groups of a byte string, least significant first. */
  function Groups(s: Bytes): nat {
    if s == [] then 0 else s[0] % 0x80 + 0x80 * Groups(s[1..])
  }

  /** How many continuation bytes `s` starts with. */
  function Run(s: Bytes): (n: nat)
    ensures n <= |s| && (forall i :: 0 <= i < n ==> s[i] >= 0x80) && (n < |s| ==> s[n] < 0x80)
  {
    if s == [] || s[0] < 0x80 then 0 else 1 + Run(s[1..])
  }

  lemma RunIs(s: Bytes, n: nat)
    requires n < |s| && s[n] < 0x80 && forall i :: 0 <= i < n ==> s[i] >= 0x80
    ensures Run(s) == n
  {
  }

  /** What the looping decoders compute: up to ten bytes, the value modulo 2^64. */
  function Loose(s: Bytes): Option<(nat, nat)> {
    var n := Run(s);
    if n == |s| || n >= 10 then None else Some((Groups(s[..n + 1]) % 0x1_0000_0000_0000_0000, n + 1))
  }

  /** What the other two compute: a tenth byte may only carry the top bit. */
  function Strict(s: Bytes): Option<(nat, nat)> {
    if Run(s) == 9 && |s| > 9 && s[9] > 1 then None else Loose(s)
  }

  lemma ShapesDiffer(s: Bytes)
    ensures Loose(s) != Strict(s) <==>
            |s| >= 10 && (forall i :: 0 <= i < 9 ==> s[i] >= 0x80) && 2 <= s[9] < 0x80
    ensures Loose(s) != Strict(s) ==> Loose(s).Some? && Strict(s) == None
  {
    if |s| >= 10 && (forall i :: 0 <= i < 9 ==> s[i] >= 0x80) && s[9] < 0x80 {
      RunIs(s, 9);
    }
  }

  function EncVarint(v: nat): (b: Bytes)
    ensures b != []
  {
    if v > 0x7F then [v % 0x80 + 0x80] + EncVarint(v / 0x80) else [v]
  }

  /** The encoding ends itself: whatever follows, its run and its groups give the value back. */
  lemma EncodedReads(v: nat, rest: Bytes)
    ensures Run(EncVarint(v) + rest) == |EncVarint(v)| - 1
    ensures Groups(EncVarint(v)) == v
  {
    EncodedRun(v, rest);
    EncodedGroups(v);
  }

  lemma {:induction false} EncodedRun(v: nat, rest: Bytes)
    ensures Run(EncVarint(v) + rest) == |EncVarint(v)| - 1
  {
    var b := EncVarint(v);
    if v > 0x7F {
      EncodedRun(v / 0x80, rest);
      assert (b + rest)[1..] == EncVarint(v / 0x80) + rest;
    } else {
      assert (b + rest)[0] == v;
    }
  }

  lemma {:induction false} EncodedGroups(v: nat)
    ensures Groups(EncVarint(v)) == v
  {
    var b := EncVarint(v);
    if v > 0x7F {
      EncodedGroups(v / 0x80);
      assert b[1..] == EncVarint(v / 0x80);
      assert b[0] % 0x80 == v % 0x80;
    } else {
      assert Groups(b[1..]) == 0;
    }
  }

  /** A value below 2^(7n) takes at most `n` bytes. */
  lemma {:induction false} EncodedLength(v: nat, n: nat)
    requires n > 0 && v < Pow2(7 * n)
    ensures |EncVarint(v)| <= n
    decreases n
  {
    if v > 0x7F {
      SevenBits(n - 1);
      assert Pow2(7 * 1) == 0x80;
      assert n > 1;
      EncodedLength(v / 0x80, n - 1);
    }
  }

  lemma SevenBits(n: nat)
    ensures Pow2(7 * n + 7) == 0x80 * Pow2(7 * n)
  {
    assert Pow2(7 * n + 2) == 4 * Pow2(7 * n);
    assert Pow2(7 * n + 4) == 4 * Pow2(7 * n + 2);
    assert Pow2(7 * n + 6) == 4 * Pow2(7 * n + 4);
  }

  lemma {:induction false} GroupsSnoc(s: Bytes, b: byte)
    ensures Groups(s + [b]) == Groups(s) + b % 0x80 * Pow2(7 * |s|)
  {
    if s == [] {
      assert Groups([b][1..]) == 0;
    } else {
      GroupsSnoc(s[1..], b);
      SevenBits(|s| - 1);
      assert (s + [b])[1..] == s[1..] + [b];
      assert 0x80 * (b % 0x80 * Pow2(7 * |s| - 7)) == b % 0x80 * Pow2(7 * |s|);
    }
  }

  lemma {:induction false} GroupsBound(s: Bytes)
    ensures Groups(s) < Pow2(7 * |s|)
  {
    if s != [] {
      GroupsBound(s[1..]);
      SevenBits(|s| - 1);
    }
  }

  lemma TopBits(n: nat)
    ensures n == 63 ==> Pow2(n) == 0x8000_0000_0000_0000
    ensures n == 64 ==> Pow2(n) == 0x1_0000_0000_0000_0000
  {
    if n == 63 || n == 64 {
      assert Pow2(7) == 0x80 && Pow2(8) == 0x100;
      assert n - 56 == 7 || n - 56 == 8;
      EightBits(n - 56);
      EightBits(n - 48);
      EightBits(n - 40);
      EightBits(n - 32);
      EightBits(n - 24);
      EightBits(n - 16);
      EightBits(n - 8);
    }
  }

  lemma EightBits(n: nat)
    ensures Pow2(n + 8) == 0x100 * Pow2(n)
  {
    Pow2Adds(8, n);
    assert Pow2(8) == 0x100;
  }

  lemma TenGroups(b: Bytes, n: nat)
    requires n == 9 && |b| == n + 1 && Groups(b) < 0x1_0000_0000_0000_0000
    ensures b[n] % 0x80 <= 1
  {
    assert b[..n] + [b[n]] == b;
    GroupsSnoc(b[..n], b[n]);
    TopBits(7 * n);
  }

  lemma {:induction false} LastIsSmall(v: nat)
    ensures var b := EncVarint(v); b[|b| - 1] < 0x80
  {
    if v > 0x7F {
      LastIsSmall(v / 0x80);
    }
  }

  /** An encoding of ten bytes has only the top bit in the tenth. */
  lemma TenthByte(v: nat)
    requires v < 0x1_0000_0000_0000_0000
    ensures |EncVarint(v)| <= 10 && (|EncVarint(v)| == 10 ==> EncVarint(v)[9] <= 1)
  {
    var n := 9;
    TopBits(7 * n + 1);
    Pow2Grows(7 * n + 1, 7 * (n + 1));
    EncodedLength(v, n + 1);
    EncodedReads(v, []);
    LastIsSmall(v);
    if |EncVarint(v)| == n + 1 {
      TenGroups(EncVarint(v), n);
    }
  }

  lemma {:induction false} Pow2Grows(a: nat, b: nat)
    requires a <= b
    ensures Pow2(a) <= Pow2(b)
    decreases b
  {
    if a < b {
      Pow2Grows(a, b - 1);
    }
  }

  /** Every 64-bit value comes back from its encoding, whatever follows it. */
  lemma EncodingInverts(v: nat, rest: Bytes)
    requires v < 0x1_0000_0000_0000_0000
    ensures |EncVarint(v)| <= 10
    ensures Loose(EncVarint(v) + rest) == Strict(EncVarint(v) + rest) == Some((v, |EncVarint(v)|))
  {
    var b := EncVarint(v);
    TenthByte(v);
    EncodedReads(v, rest);
    assert (b + rest)[..|b|] == b;
    SmallModulo(v);
  }

  // ---------------------------------------------------------------- the byte loop

  /** The first `k` bytes are continuation bytes, and `value` holds their groups. */
  ghost predicate Read(s: Bytes, k: nat, value: nat) {
    k <= |s| && (forall i :: 0 <= i < k ==> s[i] >= 0x80) && value == Groups(s[..k])
  }

  lemma GroupsNext(s: Bytes, k: nat)
    requires k < |s|
    ensures Groups(s[..k + 1]) == Groups(s[..k]) + s[k] % 0x80 * Pow2(7 * k)
    ensures Groups(s[..k]) < Pow2(7 * k) && Groups(s[..k + 1]) < Pow2(7 * k + 7)
  {
    assert s[..k + 1] == s[..k] + [s[k]];
    GroupsSnoc(s[..k], s[k]);
    GroupsBound(s[..k]);
    GroupsBound(s[..k + 1]);
  }

  /** One more byte or-ed in. At shift 63 only its lowest bit is left. */
  lemma Accumulate(s: Bytes, k: nat, value: nat)
    requires Read(s, k, value) && k < |s| && k <= 9
    ensures Combined(Or, value, Shl(s[k] % 0x80, 7 * k), 64) == Groups(s[..k + 1]) % 0x1_0000_0000_0000_0000
    ensures k < 9 ==> Groups(s[..k + 1]) < 0x1_0000_0000_0000_0000
  {
    GroupsNext(s, k);
    Merged(Groups(s[..k + 1]), value, s[k] % 0x80, k);
  }

  lemma Merged(sum: nat, value: nat, x: nat, k: nat)
    requires k <= 9 && value < Pow2(7 * k) && sum == value + x * Pow2(7 * k) && sum < Pow2(7 * k + 7)
    ensures Combined(Or, value, Shl(x, 7 * k), 64) == sum % 0x1_0000_0000_0000_0000
    ensures k < 9 ==> sum < 0x1_0000_0000_0000_0000
  {
    if k < 9 {
      Below64(7 * k + 7);
      Placed(value, x, 7 * k);
      SmallModulo(sum);
    } else {
      LastByte(value, x, 7 * k);
    }
  }

  lemma Below64(n: nat)
    requires n <= 63
    ensures Pow2(n) <= 0x8000_0000_0000_0000
  {
    var top := 63;
    TopBits(top);
    Pow2Grows(n, top);
  }

  lemma HighPart(x: nat, shift: nat)
    requires shift <= 63 && x * Pow2(shift) < 0x1_0000_0000_0000_0000
    ensures x < Pow2(64 - shift)
  {
    var top := 64;
    TopBits(top);
    Pow2Adds(top - shift, shift);
    if x >= Pow2(top - shift) {
      MoreTimes(x, Pow2(top - shift), Pow2(shift));
    }
  }

  lemma MoreTimes(x: nat, y: nat, p: nat)
    requires x >= y
    ensures x * p >= y * p
  {
    assert x * p == y * p + (x - y) * p;
  }

  lemma Placed(value: nat, x: nat, shift: nat)
    requires shift <= 63 && value < Pow2(shift) && value + x * Pow2(shift) < 0x1_0000_0000_0000_0000
    ensures Combined(Or, value, Shl(x, shift), 64) == value + x * Pow2(shift)
  {
    ShlIs(x, shift);
    SmallModulo(x * Pow2(shift));
    HighPart(x, shift);
    OrIsSum(value, x, Pow2(shift) * x, shift, 64 - shift);
  }

  lemma ShlTop(x: nat, shift: nat)
    requires shift == 63
    ensures Shl(x, shift) == x % 2 * 0x8000_0000_0000_0000
  {
    TopBits(shift);
    ShlIs(x, shift);
    TopModulo(x);
  }

  lemma SumTop(value: nat, x: nat, y: nat)
    requires value < 0x8000_0000_0000_0000 && y == x % 2 * 0x8000_0000_0000_0000
    ensures (value + x * 0x8000_0000_0000_0000) % 0x1_0000_0000_0000_0000 == value + y
  {
    TopModulo(x);
    SumModulo(value, x * 0x8000_0000_0000_0000);
  }

  lemma LastByte(value: nat, x: nat, shift: nat)
    requires shift == 63 && value < Pow2(shift)
    ensures Combined(Or, value, Shl(x, shift), 64) == (value + x * Pow2(shift)) % 0x1_0000_0000_0000_0000
  {
    var low, y := x % 2, x % 2 * 0x8000_0000_0000_0000;
    TopBits(shift);
    ShlTop(x, shift);
    OrIsSum(value, low, y, shift, 1);
    SumTop(value, x, y);
  }

  lemma Found(s: Bytes, k: nat)
    requires k < |s| && k <= 9 && s[k] < 0x80 && forall i :: 0 <= i < k ==> s[i] >= 0x80
    ensures Loose(s) == Some((Groups(s[..k + 1]) % 0x1_0000_0000_0000_0000, k + 1))
  {
    RunIs(s, k);
  }

  lemma Unfinished(s: Bytes, k: nat)
    requires k == |s| || (k == 10 && k <= |s|)
    requires forall i :: 0 <= i < k ==> s[i] >= 0x80
    ensures Loose(s) == None && Strict(s) == None
  {
  }

  /** A decoder of the bytes from `offset` on, as a decoder of the whole buffer. */
  function FromOffset(data: Bytes, offset: nat, decode: Bytes -> Option<(nat, nat)>): Option<(nat, nat)> {
    if offset > |data| then None
    else
      var r := decode(data[offset..]);
      if r.None? then None else Some((r.value.0, offset + r.value.1))
  }

  /** At any offset, the two differ exactly on nine continuation bytes followed by a byte from
      2 to 127: the looping decoders return a value there and the other two refuse. */
  lemma DifferExactly(data: Bytes, offset: nat)
    ensures FromOffset(data, offset, Loose) != FromOffset(data, offset, Strict) <==>
            && offset + 10 <= |data| && (forall i :: offset <= i < offset + 9 ==> data[i] >= 0x80)
            && 2 <= data[offset + 9] < 0x80
    ensures FromOffset(data, offset, Loose) != FromOffset(data, offset, Strict) ==>
            FromOffset(data, offset, Loose).Some? && FromOffset(data, offset, Strict) == None
  {
    if offset <= |data| {
      var s := data[offset..];
      ShapesDiffer(s);
      if |s| >= 10 && forall i :: 0 <= i < 9 ==> s[i] >= 0x80 {
        forall i | offset <= i < offset + 9 ensures data[i] >= 0x80 {
          assert data[i] == s[i - offset];
        }
      }
    }
  }

  /** `decode_loop`, the production decoder. */
  method DecodeLoop(data: Bytes, offset: nat) returns (r: Option<(nat, nat)>)
    ensures r == FromOffset(data, offset, Loose)
  {
    var value, shift, i := 0, 0, offset;
    r := LoopFrom(data, offset, 0, value, shift, i);
  }

  /** `decode_fastpath`: a single-byte value first, then the loop from the second byte. */
  method DecodeFastpath(data: Bytes, offset: nat) returns (r: Option<(nat, nat)>)
    ensures r == FromOffset(data, offset, Loose)
  {
    if offset >= |data| {
      return None;
    }
    var first := data[offset];
    ghost var s := data[offset..];
    assert s[..1] == [s[0]] && Groups([s[0]][1..]) == 0;
    if first < 0x80 {
      Found(s, 0);
      return Some((first, offset + 1));
    }
    r := LoopFrom(data, offset, 1, first % 0x80, 7, offset + 1);
  }

  /** The loop both share, entered after `k` bytes. */
  method LoopFrom(data: Bytes, ghost offset: nat, ghost start: nat, value0: nat, shift0: nat, i0: nat)
    returns (r: Option<(nat, nat)>)
    requires i0 == offset + start && shift0 == 7 * start && start <= 9
    requires if offset <= |data| then Read(data[offset..], start, value0) else start == 0
    ensures r == FromOffset(data, offset, Loose)
  {
    var value, shift, i := value0, shift0, i0;
    if |data| < i {
      return None;
    }
    ghost var s, k := data[offset..], start;
    while i < |data|
      invariant i == offset + k && shift == 7 * k && k <= 9 && i <= |data|
      invariant Read(s, k, value)
    {
      var b := data[i];
      i := i + 1;
      Accumulate(s, k, value);
      value := Combined(Or, value, Shl(b % 0x80, shift), 64);
      if b < 0x80 {
        Found(s, k);
        return Some((value, i));
      }
      shift := shift + 7;
      k := k + 1;
      if shift > 63 {
        Unfinished(s, k);
        return None;
      }
      SmallModulo(Groups(s[..k]));
    }
    Unfinished(s, k);
    return None;
  }

  // ---------------------------------------------------------------- unrolled

  /** Byte `k` or-ed in at its place, below the tenth. */
  method Merge(s: Bytes, k: nat, value: nat) returns (v: nat)
    requires Read(s, k, value) && k < |s| && k <= 8
    ensures s[k] >= 0x80 ==> Read(s, k + 1, v)
    ensures s[k] < 0x80 ==> Strict(s) == Some((v, k + 1))
  {
    Accumulate(s, k, value);
    v := Combined(Or, value, Shl(s[k] % 0x80, 7 * k), 64);
    SmallModulo(Groups(s[..k + 1]));
    if s[k] < 0x80 {
      Found(s, k);
      RunIs(s, k);
    }
  }

  /** The tenth byte. */
  method MergeTop(s: Bytes, value: nat) returns (v: nat)
    requires Read(s, 9, value) && 9 < |s| && s[9] <= 1
    ensures Strict(s) == Some((v, 10))
  {
    var k := 9;
    Accumulate(s, k, value);
    v := Combined(Or, value, Shl(s[k], 7 * k), 64);
    Found(s, k);
  }

  /** `unrolled_core`: no loop and no running shift. */
  method UnrolledCore(data: Bytes) returns (r: Option<(nat, nat)>)
    ensures r == Strict(data)
  {
    if |data| == 0 { return None; }
    assert data[..0] == [];
    var value := Merge(data, 0, 0);
    if data[0] < 0x80 { return Some((value, 1)); }
    if |data| == 1 { return None; }
    value := Merge(data, 1, value);
    if data[1] < 0x80 { return Some((value, 2)); }
    if |data| == 2 { return None; }
    value := Merge(data, 2, value);
    if data[2] < 0x80 { return Some((value, 3)); }
    if |data| == 3 { return None; }
    value := Merge(data, 3, value);
    if data[3] < 0x80 { return Some((value, 4)); }
    if |data| == 4 { return None; }
    value := Merge(data, 4, value);
    if data[4] < 0x80 { return Some((value, 5)); }
    if |data| == 5 { return None; }
    value := Merge(data, 5, value);
    if data[5] < 0x80 { return Some((value, 6)); }
    if |data| == 6 { return None; }
    value := Merge(data, 6, value);
    if data[6] < 0x80 { return Some((value, 7)); }
    if |data| == 7 { return None; }
    value := Merge(data, 7, value);
    if data[7] < 0x80 { return Some((value, 8)); }
    if |data| == 8 { return None; }
    value := Merge(data, 8, value);
    if data[8] < 0x80 { return Some((value, 9)); }
    if |data| == 9 { return None; }
    if data[9] > 1 { return None; }
    value := MergeTop(data, value);
    return Some((value, 10));
  }

  method DecodeUnrolled(data: Bytes, offset: nat) returns (r: Option<(nat, nat)>)
    ensures r == FromOffset(data, offset, Strict)
  {
    if offset > |data| {
      return None;
    }
    var core := UnrolledCore(data[offset..]);
    r := if core.None? then None else Some((core.value.0, offset + core.value.1));
  }
}
