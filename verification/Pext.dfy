/** The bulk decoder: one 64-bit load and a parallel bit extraction. Words are bit sequences,
    least significant bit first. */
module Pext {
  import opened Common
  import opened Varint

  type Bits = seq<bool>

  function ValueOf(bits: Bits): nat {
    if bits == [] then 0 else (if bits[0] then 1 else 0) + 2 * ValueOf(bits[1..])
  }

  function BitsOf(n: nat, width: nat): (bits: Bits)
    ensures |bits| == width
  {
    if width == 0 then [] else [n % 2 == 1] + BitsOf(n / 2, width - 1)
  }

  function And(a: Bits, b: Bits): (r: Bits)
    requires |a| == |b|
    ensures |r| == |a|
  {
    seq(|a|, i requires 0 <= i < |a| => a[i] && b[i])
  }

  function Not(a: Bits): (r: Bits)
    ensures |r| == |a|
  {
    seq(|a|, i requires 0 <= i < |a| => !a[i])
  }

  function TrailingZeros(bits: Bits): (n: nat)
    ensures n <= |bits| && (n < |bits| <==> exists i :: 0 <= i < |bits| && bits[i])
  {
    if bits == [] || bits[0] then 0 else 1 + TrailingZeros(bits[1..])
  }

  /** The bits of `src` at the set bits of `mask`, packed together; those above are zero. */
  function Extract(src: Bits, mask: Bits): Bits
    requires |src| == |mask|
  {
    if src == [] then [] else (if mask[0] then [src[0]] else []) + Extract(src[1..], mask[1..])
  }

  function Repeated(bit: bool, n: nat): (r: Bits)
    ensures |r| == n
  {
    seq(n, _ => bit)
  }

  /** A byte pattern repeated. */
  function Mask(low: bool, n: nat): (r: Bits)
    ensures |r| == 8 * n
  {
    seq(8 * n, i => if i % 8 == 7 then !low else low)
  }

  /** A little-endian load. */
  function Word(data: Bytes): (w: Bits)
    ensures |w| == 8 * |data|
  {
    if data == [] then [] else BitsOf(data[0], 8) + Word(data[1..])
  }

  function Keep(n: nat, total: nat): (r: Bits)
    requires n <= total
    ensures |r| == 8 * total
  {
    Repeated(true, 8 * n) + Repeated(false, 8 * (total - n))
  }

  // ---------------------------------------------------------------- one byte

  lemma TopBit(b: byte)
    ensures BitsOf(b, 8)[7] <==> b >= 0x80
  {
    var n: nat := b;
    assert BitsOf(n, 8)[7] == BitsOf(n / 2, 7)[6];
    assert BitsOf(n / 2, 7)[6] == BitsOf(n / 2 / 2, 6)[5];
    assert BitsOf(n / 2 / 2, 6)[5] == BitsOf(n / 2 / 2 / 2, 5)[4];
    var m := n / 2 / 2 / 2;
    assert m == n / 8;
    assert BitsOf(m, 5)[4] == BitsOf(m / 2, 4)[3];
    assert BitsOf(m / 2, 4)[3] == BitsOf(m / 2 / 2, 3)[2];
    assert BitsOf(m / 2 / 2, 3)[2] == BitsOf(m / 2 / 2 / 2, 2)[1];
    assert BitsOf(m / 2 / 2 / 2, 2)[1] == BitsOf(m / 2 / 2 / 2 / 2, 1)[0];
  }

  lemma {:induction false} LowBits(n: nat, width: nat, low: nat)
    requires low <= width
    ensures BitsOf(n, width)[..low] == BitsOf(n, low)
    decreases low
  {
    if low > 0 {
      LowBits(n / 2, width - 1, low - 1);
    }
  }

  lemma {:induction false} BitsValue(n: nat, width: nat) returns (q: nat)
    ensures n == ValueOf(BitsOf(n, width)) + Pow2(width) * q && ValueOf(BitsOf(n, width)) < Pow2(width)
    decreases width
  {
    if width == 0 {
      q := n;
    } else {
      q := BitsValue(n / 2, width - 1);
      assert BitsOf(n, width)[1..] == BitsOf(n / 2, width - 1);
      assert 2 * (Pow2(width - 1) * q) == Pow2(width) * q;
    }
  }

  lemma {:induction false} ValueConcat(a: Bits, b: Bits)
    ensures ValueOf(a + b) == ValueOf(a) + Pow2(|a|) * ValueOf(b)
  {
    if a == [] {
      assert a + b == b;
    } else {
      ValueConcat(a[1..], b);
      assert (a + b)[1..] == a[1..] + b;
      assert 2 * (Pow2(|a| - 1) * ValueOf(b)) == Pow2(|a|) * ValueOf(b);
    }
  }

  lemma {:induction false} ExtractConcat(a: Bits, m: Bits, b: Bits, k: Bits)
    requires |a| == |m| && |b| == |k|
    ensures Extract(a + b, m + k) == Extract(a, m) + Extract(b, k)
  {
    if a == [] {
      assert a + b == b && m + k == k;
    } else {
      var s, t := a + b, m + k;
      assert s[1..] == a[1..] + b && t[1..] == m[1..] + k;
      ExtractConcat(a[1..], m[1..], b, k);
      var head := if m[0] then [a[0]] else [];
      assert Extract(s, t) == head + (Extract(a[1..], m[1..]) + Extract(b, k));
    }
  }

  lemma {:induction false} ExtractAll(a: Bits, m: Bits)
    requires |a| == |m| && forall i :: 0 <= i < |m| ==> m[i]
    ensures Extract(a, m) == a
  {
    if a != [] {
      ExtractAll(a[1..], m[1..]);
    }
  }

  // ---------------------------------------------------------------- a word, byte by byte

  lemma AndConcat(a: Bits, m: Bits, b: Bits, k: Bits)
    requires |a| == |m| && |b| == |k|
    ensures And(a + b, m + k) == And(a, m) + And(b, k)
  {
  }

  lemma MaskByte(low: bool, n: nat)
    requires n > 0
    ensures Mask(low, n) == Mask(low, 1) + Mask(low, n - 1)
  {
    assert forall i :: 8 <= i < 8 * n ==> (i - 8) % 8 == i % 8;
  }

  lemma KeepByte(n: nat, total: nat)
    requires 0 < total && n <= total
    ensures Keep(n, total) ==
            if n > 0 then Repeated(true, 8) + Keep(n - 1, total - 1) else Repeated(false, 8) + Keep(0, total - 1)
  {
  }

  /** The bits that mark the last byte of a varint. */
  function Terminators(data: Bytes): (r: Bits)
    ensures |r| == 8 * |data|
  {
    And(Not(Word(data)), Mask(false, |data|))
  }

  lemma TerminatorByte(data: Bytes)
    requires data != []
    ensures Terminators(data) == Repeated(false, 7) + ([data[0] < 0x80] + Terminators(data[1..]))
  {
    var first, rest := BitsOf(data[0], 8), Word(data[1..]);
    MaskByte(false, |data|);
    assert Not(first + rest) == Not(first) + Not(rest);
    AndConcat(Not(first), Mask(false, 1), Not(rest), Mask(false, |data| - 1));
    TopBit(data[0]);
    assert And(Not(first), Mask(false, 1)) == Repeated(false, 7) + [data[0] < 0x80];
    assert Terminators(data) == Repeated(false, 7) + [data[0] < 0x80] + Terminators(data[1..]);
  }

  lemma {:induction false} ZerosAdd(n: nat, bits: Bits)
    ensures TrailingZeros(Repeated(false, n) + bits) == n + TrailingZeros(bits)
  {
    var s := Repeated(false, n) + bits;
    if n == 0 {
      assert s == bits;
    } else {
      ZerosAdd(n - 1, bits);
      assert s[1..] == Repeated(false, n - 1) + bits;
    }
  }

  /** The lowest marking bit belongs to the byte that ends the run. */
  lemma {:induction false} FirstTerminator(data: Bytes)
    ensures TrailingZeros(Terminators(data)) == if Run(data) == |data| then 8 * |data| else 8 * Run(data) + 7
  {
    if data != [] {
      var rest := Terminators(data[1..]);
      TerminatorByte(data);
      ZerosAdd(7, [data[0] < 0x80] + rest);
      assert ([data[0] < 0x80] + rest)[1..] == rest;
      FirstTerminator(data[1..]);
    }
  }

  /** The bits extracted from the first `n` of the loaded bytes. */
  function Packed(data: Bytes, n: nat): Bits
    requires n <= |data|
  {
    Extract(And(And(Word(data), Keep(n, |data|)), Mask(true, |data|)), Mask(true, |data|))
  }

  function PackedByte(b: byte, kept: bool): Bits {
    Extract(And(And(BitsOf(b, 8), Repeated(kept, 8)), Mask(true, 1)), Mask(true, 1))
  }

  /** The seven low bits of one byte, if it is kept. */
  lemma ExtractByte(b: byte, kept: bool)
    ensures |PackedByte(b, kept)| == 7 && ValueOf(PackedByte(b, kept)) == if kept then b % 0x80 else 0
  {
    var masked := And(And(BitsOf(b, 8), Repeated(kept, 8)), Mask(true, 1));
    var low := if kept then BitsOf(b, 7) else Repeated(false, 7);
    LowBits(b, 8, 7);
    assert kept ==> forall i :: 0 <= i < 7 ==> masked[i] == BitsOf(b, 8)[..7][i];
    assert masked == low + [false];
    assert Mask(true, 1) == Repeated(true, 7) + [false];
    ExtractConcat(low, Repeated(true, 7), [false], [false]);
    ExtractAll(low, Repeated(true, 7));
    assert PackedByte(b, kept) == low by {
      assert Extract([false], [false]) == [];
    }
    SevenBitValue(b);
    NoBits(7);
  }

  lemma SevenBitValue(n: nat)
    ensures ValueOf(BitsOf(n, 7)) == n % 0x80
  {
    var width := 7;
    var q := BitsValue(n, width);
    assert Pow2(7) == 0x80;
    assert n == ValueOf(BitsOf(n, width)) + 0x80 * q;
  }

  lemma {:induction false} NoBits(n: nat)
    ensures ValueOf(Repeated(false, n)) == 0
  {
    if n > 0 {
      NoBits(n - 1);
      assert Repeated(false, n)[1..] == Repeated(false, n - 1);
    }
  }

  lemma PackedSplits(data: Bytes, n: nat)
    requires n <= |data| && data != []
    ensures Packed(data, n) == PackedByte(data[0], n > 0) + Packed(data[1..], if n > 0 then n - 1 else 0)
  {
    var b, rest := data[0], data[1..];
    var m: nat := if n > 0 then n - 1 else 0;
    var k8, low := Repeated(n > 0, 8), Mask(true, |rest|);
    MaskByte(true, |data|);
    KeepByte(n, |data|);
    AndConcat(BitsOf(b, 8), k8, Word(rest), Keep(m, |rest|));
    var first, others := And(BitsOf(b, 8), k8), And(Word(rest), Keep(m, |rest|));
    AndConcat(first, Mask(true, 1), others, low);
    ExtractConcat(And(first, Mask(true, 1)), Mask(true, 1), And(others, low), low);
  }

  lemma SevenThen(a: Bits, b: Bits)
    requires |a| == 7
    ensures ValueOf(a + b) == ValueOf(a) + 0x80 * ValueOf(b)
  {
    ValueConcat(a, b);
    assert Pow2(7) == 0x80;
  }

  lemma GroupsFirst(data: Bytes, n: nat)
    requires n <= |data| && data != []
    ensures Groups(data[..n]) == if n > 0 then data[0] % 0x80 + 0x80 * Groups(data[1..][..n - 1]) else 0
    ensures Groups(data[1..][..0]) == 0
  {
    assert n > 0 ==> data[..n][1..] == data[1..][..n - 1];
  }

  /** The extraction gathers the groups of the kept bytes. */
  lemma {:induction false} PackedGroups(data: Bytes, n: nat)
    requires n <= |data|
    ensures ValueOf(Packed(data, n)) == Groups(data[..n])
    decreases |data|
  {
    if data != [] {
      var m: nat := if n > 0 then n - 1 else 0;
      PackedSplits(data, n);
      ExtractByte(data[0], n > 0);
      PackedGroups(data[1..], m);
      SevenThen(PackedByte(data[0], n > 0), Packed(data[1..], m));
      GroupsFirst(data, n);
    }
  }

  // ---------------------------------------------------------------- the decoder

  /** `pext_bmi2`. */
  method PextBmi2(data: Bytes) returns (r: Option<(nat, nat)>)
    requires |data| >= 8
    ensures r == Strict(data)
  {
    var chunk := data[..8];
    var terminators := Terminators(chunk);
    FirstTerminator(chunk);
    var zeros := TrailingZeros(terminators);
    if zeros == 64 {
      r := UnrolledCore(data);
      return;
    }
    var nbytes := zeros / 8 + 1;
    var value := ValueOf(Packed(chunk, nbytes));
    PackedGroups(chunk, nbytes);
    WithinWord(data, nbytes - 1);
    assert chunk[..nbytes] == data[..nbytes];
    r := Some((value, nbytes));
  }

  /** A varint of at most eight bytes is no larger than a word. */
  lemma WithinWord(data: Bytes, k: nat)
    requires k < 8 <= |data| && k == Run(data[..8])
    ensures Strict(data) == Some((Groups(data[..k + 1]), k + 1))
  {
    assert forall i :: 0 <= i < 8 ==> data[i] == data[..8][i];
    RunIs(data, k);
    GroupsBound(data[..k + 1]);
    Below64(7 * k + 7);
    SmallModulo(Groups(data[..k + 1]));
  }

  /** `pext_core`: the bulk load only where eight bytes can be loaded. */
  method DecodePext(data: Bytes, offset: nat, bmi2: bool) returns (r: Option<(nat, nat)>)
    ensures r == FromOffset(data, offset, Strict)
  {
    if offset > |data| {
      return None;
    }
    var s := data[offset..];
    var core;
    if bmi2 && |s| >= 8 {
      core := PextBmi2(s);
    } else {
      core := UnrolledCore(s);
    }
    r := if core.None? then None else Some((core.value.0, offset + core.value.1));
  }
}
