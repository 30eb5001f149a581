/** The collection hash of app-state sync: 64 little-endian 16-bit lanes, each a sum
    modulo 2^16 of what HKDF derives from every value MAC in the collection. HKDF is
    the parameter `derive`; nothing is assumed of it. */
module LtHash {
  import opened Common
  import Swar

  type Lane = Swar.Lane
  type Hash = h: seq<Lane> | |h| == 64 witness seq(64, _ => 0)

  function EmptyHash(): Hash { seq(64, _ => 0) }

  // ---------------------------------------------------------------- bytes

  /** 16-bit lanes, little-endian, of any even number of bytes. */
  function LanesIn(b: Bytes): (lanes: seq<Lane>)
    ensures |lanes| == |b| / 2
  {
    seq(|b| / 2, j requires 0 <= j < |b| / 2 => (b[2 * j] as int) + 0x100 * (b[2 * j + 1] as int))
  }

  /** The hash stored as 128 bytes. */
  function LanesOf(b: Bytes): Hash
    requires |b| == 128
  {
    LanesIn(b)
  }

  /** The 128 bytes of a hash. */
  function HashBytes(h: Hash): (b: Bytes)
    ensures |b| == 128
  {
    seq(128, i requires 0 <= i < 128 => if i % 2 == 0 then h[i / 2] % 0x100 else h[i / 2] / 0x100)
  }

  lemma LanesOfBytes(h: Hash)
    ensures LanesOf(HashBytes(h)) == h
  {
    forall j | 0 <= j < 64 ensures LanesOf(HashBytes(h))[j] == h[j] {
      Halves(j);
      Rejoined(h[j]);
    }
  }

  lemma Halves(j: nat)
    ensures 2 * j / 2 == j && 2 * j % 2 == 0 && (2 * j + 1) / 2 == j && (2 * j + 1) % 2 == 1
  {
  }

  lemma Rejoined(x: nat)
    ensures x % 0x100 + 0x100 * (x / 0x100) == x
  {
  }

  /** Writing the lanes of a buffer back gives the buffer. */
  lemma BytesOfLanes(b: Bytes)
    requires |b| == 128
    ensures HashBytes(LanesOf(b)) == b
  {
    forall i | 0 <= i < 128 ensures HashBytes(LanesOf(b))[i] == b[i] {
      var j := i / 2;
      TwoBytes(b[2 * j], b[2 * j + 1]);
      assert i == 2 * j || i == 2 * j + 1;
    }
  }

  lemma TwoBytes(low: byte, high: byte)
    ensures ((low as int) + 0x100 * (high as int)) % 0x100 == low
    ensures ((low as int) + 0x100 * (high as int)) / 0x100 == high
  {
  }

  /** A little-endian number is the packing of its lanes: the words the fold works on are the
      64-bit little-endian words of the buffer. */
  lemma {:induction false} WordOfLanes(b: Bytes)
    requires |b| % 2 == 0
    ensures LittleEndian(b) == Swar.Word(LanesIn(b))
    decreases |b|
  {
    if b != [] {
      var rest := b[2..];
      WordOfLanes(rest);
      assert b[1..][1..] == rest;
      assert LittleEndian(b) == b[0] as int + 0x100 * (b[1] as int) + 0x1_0000 * LittleEndian(rest);
      assert LanesIn(b)[1..] == LanesIn(rest);
    }
  }

  lemma WordAtByte(b: Bytes, w: nat)
    requires |b| == 128 && w < 16
    ensures LittleEndian(b[8 * w..8 * w + 8]) == Swar.Word(LanesOf(b)[4 * w..4 * w + 4])
  {
    WordOfLanes(b[8 * w..8 * w + 8]);
    assert LanesIn(b[8 * w..8 * w + 8]) == LanesOf(b)[4 * w..4 * w + 4];
  }

  // ---------------------------------------------------------------- reference

  /** Lane `j` of the sum of a list of operands, as an unbounded integer. */
  ghost function SeqSum(derive: Bytes -> Hash, j: nat, operands: seq<Bytes>): int
    requires j < 64
  {
    if operands == [] then 0
    else SeqSum(derive, j, operands[..|operands| - 1]) + derive(operands[|operands| - 1])[j]
  }

  /** Lane `j` of the sum of a stored index-MAC to value-MAC map. */
  ghost function MapSum(derive: Bytes -> Hash, j: nat, macs: map<Bytes, Bytes>): int
    requires j < 64
  {
    if macs == map[] then 0
    else
      var k :| k in macs;
      derive(macs[k])[j] + MapSum(derive, j, macs - {k})
  }

  /** The law the whole subsystem exists to keep: the hash is the sum of the store. */
  ghost predicate IsSumOf(derive: Bytes -> Hash, hash: Hash, macs: map<Bytes, Bytes>) {
    forall j :: 0 <= j < 64 ==> hash[j] == MapSum(derive, j, macs) % 0x1_0000
  }

  ghost function SumHash(derive: Bytes -> Hash, macs: map<Bytes, Bytes>): Hash {
    seq(64, j requires 0 <= j < 64 => MapSum(derive, j, macs) % 0x1_0000)
  }

  lemma SumHashIsSum(derive: Bytes -> Hash, macs: map<Bytes, Bytes>, hash: Hash)
    ensures IsSumOf(derive, hash, macs) <==> hash == SumHash(derive, macs)
  {
  }

  /** What subtracting one list of operands and then adding another must produce. */
  ghost function Folded(derive: Bytes -> Hash, base: Hash, subtract: seq<Bytes>, add: seq<Bytes>): Hash {
    seq(64, j requires 0 <= j < 64 =>
      (base[j] - SeqSum(derive, j, subtract) + SeqSum(derive, j, add)) % 0x1_0000)
  }

  lemma SeqSumSnoc(derive: Bytes -> Hash, j: nat, s: seq<Bytes>, x: Bytes)
    requires j < 64
    ensures SeqSum(derive, j, s + [x]) == SeqSum(derive, j, s) + derive(x)[j]
  {
    assert (s + [x])[..|s + [x]| - 1] == s;
  }

  lemma {:induction false} SeqSumConcat(derive: Bytes -> Hash, j: nat, s: seq<Bytes>, t: seq<Bytes>)
    requires j < 64
    ensures SeqSum(derive, j, s + t) == SeqSum(derive, j, s) + SeqSum(derive, j, t)
  {
    if t == [] {
      assert s + t == s;
    } else {
      var u, x := t[..|t| - 1], t[|t| - 1];
      SeqSumConcat(derive, j, s, u);
      SeqSumSnoc(derive, j, s + u, x);
      assert s + t == s + u + [x];
    }
  }

  /** The sum does not depend on the order in which a map is enumerated. */
  lemma {:induction false} MapSumRemove(derive: Bytes -> Hash, j: nat, macs: map<Bytes, Bytes>, k: Bytes)
    requires j < 64 && k in macs
    ensures MapSum(derive, j, macs) == derive(macs[k])[j] + MapSum(derive, j, macs - {k})
    decreases |macs|
  {
    var c :| c in macs && MapSum(derive, j, macs) == derive(macs[c])[j] + MapSum(derive, j, macs - {c});
    if c != k {
      MapSumRemove(derive, j, macs - {c}, k);
      MapSumRemove(derive, j, macs - {k}, c);
      assert macs - {c} - {k} == macs - {k} - {c};
    }
  }

  /** Storing a value replaces exactly the previous one's share of the sum. */
  lemma MapSumPut(derive: Bytes -> Hash, j: nat, macs: map<Bytes, Bytes>, k: Bytes, v: Bytes)
    requires j < 64
    ensures MapSum(derive, j, macs[k := v]) == MapSum(derive, j, macs) - Share(derive, j, macs, k) + derive(v)[j]
  {
    MapSumRemove(derive, j, macs[k := v], k);
    assert macs[k := v] - {k} == macs - {k};
    MapSumDrop(derive, j, macs, k);
  }

  lemma MapSumDrop(derive: Bytes -> Hash, j: nat, macs: map<Bytes, Bytes>, k: Bytes)
    requires j < 64
    ensures MapSum(derive, j, macs - {k}) == MapSum(derive, j, macs) - Share(derive, j, macs, k)
  {
    if k in macs {
      MapSumRemove(derive, j, macs, k);
    } else {
      assert macs - {k} == macs;
    }
  }

  /** What index `k` contributes to lane `j`. */
  ghost function Share(derive: Bytes -> Hash, j: nat, macs: map<Bytes, Bytes>, k: Bytes): int
    requires j < 64
  {
    if k in macs then derive(macs[k])[j] else 0
  }

  // ---------------------------------------------------------------- folding in place

  /** One word of the buffer: read as four lanes, combined, written back. */
  method WordAt(base: array<Lane>, input: seq<Lane>, k: nat, subtract: bool)
    requires base.Length == |input| && k + 4 <= base.Length
    modifies base
    ensures forall i :: k <= i < k + 4 ==> base[i] == Swar.WrapOp(old(base[i]), input[i], subtract)
    ensures forall i :: 0 <= i < base.Length && !(k <= i < k + 4) ==> base[i] == old(base[i])
  {
    var a, b := base[k..k + 4], input[k..k + 4];
    Swar.WordOpIsLanewise(a, b, subtract);
    Swar.LanesWord(Swar.EachWrap(a, b, subtract));
    var r := Swar.Lanes(Swar.WordOp(Swar.Word(a), Swar.Word(b), subtract), 4);
    assert r == Swar.EachWrap(a, b, subtract);
    base[k], base[k + 1], base[k + 2], base[k + 3] := r[0], r[1], r[2], r[3];
  }

  /** `perform_pointwise_with_overflow`: whole words first, then the lanes left over. */
  method PerformPointwise(base: array<Lane>, input: seq<Lane>, subtract: bool)
    requires base.Length == |input|
    modifies base
    ensures forall i :: 0 <= i < base.Length ==> base[i] == Swar.WrapOp(old(base[i]), input[i], subtract)
  {
    var words := base.Length / 4;
    for w := 0 to words
      invariant forall i :: 0 <= i < 4 * w ==> base[i] == Swar.WrapOp(old(base[i]), input[i], subtract)
      invariant forall i :: 4 * w <= i < base.Length ==> base[i] == old(base[i])
    {
      WordAt(base, input, 4 * w, subtract);
    }
    for i := 4 * words to base.Length
      invariant forall n :: 0 <= n < i ==> base[n] == Swar.WrapOp(old(base[n]), input[n], subtract)
      invariant forall n :: i <= n < base.Length ==> base[n] == old(base[n])
    {
      base[i] := Swar.WrapOp(base[i], input[i], subtract);
    }
  }

  /** Lane `j` after a list of operands has been added to, or taken from, `start`. */
  ghost function Accumulated(derive: Bytes -> Hash, j: nat, start: Lane, operands: seq<Bytes>, subtract: bool): Lane
    requires j < 64
  {
    (if subtract then start - SeqSum(derive, j, operands) else start + SeqSum(derive, j, operands)) % 0x1_0000
  }

  lemma AccumulatedStep(derive: Bytes -> Hash, j: nat, start: Lane, operands: seq<Bytes>, x: Bytes, subtract: bool)
    requires j < 64
    ensures Accumulated(derive, j, start, operands + [x], subtract)
         == Swar.WrapOp(Accumulated(derive, j, start, operands, subtract), derive(x)[j], subtract)
  {
    SeqSumSnoc(derive, j, operands, x);
    var s: int, d: int := SeqSum(derive, j, operands), derive(x)[j];
    if subtract {
      WrapSum(start - s, -d);
    } else {
      WrapSum(start + s, d);
    }
  }

  /** `multiple_op`: folds every operand of one list into the accumulator. */
  method MultipleOp(derive: Bytes -> Hash, base: array<Lane>, input: seq<Bytes>, subtract: bool)
    requires base.Length == 64
    modifies base
    ensures forall j :: 0 <= j < 64 ==>
      base[j] == Accumulated(derive, j, old(base[j]), input, subtract)
  {
    for i := 0 to |input|
      invariant forall j :: 0 <= j < 64 ==>
        base[j] == Accumulated(derive, j, old(base[j]), input[..i], subtract)
    {
      ghost var before := base[..];
      PerformPointwise(base, derive(input[i]), subtract);
      assert input[..i + 1] == input[..i] + [input[i]];
      forall j | 0 <= j < 64
        ensures base[j] == Accumulated(derive, j, old(base[j]), input[..i + 1], subtract)
      {
        AccumulatedStep(derive, j, old(base[j]), input[..i], input[i], subtract);
        assert base[j] == Swar.WrapOp(before[j], derive(input[i])[j], subtract);
      }
    }
    assert input[..|input|] == input;
  }

  /** `subtract_then_add_in_place` computes the closed form. */
  method SubtractThenAddInPlace(derive: Bytes -> Hash, base: array<Lane>, subtract: seq<Bytes>, add: seq<Bytes>)
    requires base.Length == 64
    modifies base
    ensures base[..] == Folded(derive, old(base[..]), subtract, add)
  {
    ghost var start := base[..];
    MultipleOp(derive, base, subtract, true);
    ghost var middle := base[..];
    MultipleOp(derive, base, add, false);
    forall j | 0 <= j < 64
      ensures base[j] == Folded(derive, start, subtract, add)[j]
    {
      var s, a := SeqSum(derive, j, subtract), SeqSum(derive, j, add);
      assert middle[j] == (start[j] - s) % 0x1_0000;
      assert base[j] == (middle[j] + a) % 0x1_0000;
      WrapSum(start[j] - s, a);
    }
  }

  lemma WrapSum(x: int, y: int)
    ensures (x % 0x1_0000 + y) % 0x1_0000 == (x + y) % 0x1_0000
  {
    var q := x / 0x1_0000;
    assert x == q * 0x1_0000 + x % 0x1_0000;
    assert (x + y) == q * 0x1_0000 + (x % 0x1_0000 + y);
  }

  lemma WrapTwice(x: int, s1: int, a1: int, s2: int, a2: int)
    ensures ((x - s1 + a1) % 0x1_0000 - s2 + a2) % 0x1_0000 == (x - (s1 + s2) + (a1 + a2)) % 0x1_0000
  {
    WrapSum(x - s1 + a1, a2 - s2);
  }

  /** Order of application is irrelevant: folding twice is folding the joined lists. */
  lemma FoldedConcat(derive: Bytes -> Hash, base: Hash, s1: seq<Bytes>, a1: seq<Bytes>, s2: seq<Bytes>, a2: seq<Bytes>)
    ensures Folded(derive, Folded(derive, base, s1, a1), s2, a2) == Folded(derive, base, s1 + s2, a1 + a2)
  {
    forall j | 0 <= j < 64
      ensures Folded(derive, Folded(derive, base, s1, a1), s2, a2)[j] == Folded(derive, base, s1 + s2, a1 + a2)[j]
    {
      SeqSumConcat(derive, j, s1, s2);
      SeqSumConcat(derive, j, a1, a2);
      WrapTwice(base[j], SeqSum(derive, j, s1), SeqSum(derive, j, a1), SeqSum(derive, j, s2), SeqSum(derive, j, a2));
    }
  }

  /** Adding operands and then subtracting the same ones restores the hash. */
  lemma AddThenSubtract(derive: Bytes -> Hash, base: Hash, operands: seq<Bytes>)
    ensures Folded(derive, Folded(derive, base, [], operands), operands, []) == base
  {
    FoldedConcat(derive, base, [], operands, operands, []);
    assert [] + operands == operands && operands + [] == operands;
  }
}
