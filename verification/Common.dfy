/** Vocabulary shared by every module: bytes, and the two failure-carrying values. */
module Common {

  type byte = b: int | 0 <= b < 256
  type Bytes = seq<byte>

  /** Rows of a collection: index MAC to value MAC. */
  type Macs = map<Bytes, Bytes>

  datatype Option<+T> = None | Some(value: T)

  datatype Result<+T, +E> = Ok(value: T) | Err(error: E)

  ghost predicate NoDuplicates<T>(s: seq<T>) {
    forall i, j :: 0 <= i < j < |s| ==> s[i] != s[j]
  }

  function Elements<T>(s: seq<T>): set<T> {
    set x | x in s
  }

  lemma ElementsOfSnoc<T>(s: seq<T>, x: T)
    ensures Elements(s + [x]) == Elements(s) + {x}
  {
  }

  /** `copy_from_slice` into part of a buffer. */
  method CopyInto(block: array<byte>, at: nat, bytes: Bytes)
    requires at + |bytes| <= block.Length
    modifies block
    ensures block[..at] == old(block[..at])
    ensures block[at..at + |bytes|] == bytes
  {
    for k := 0 to |bytes|
      invariant block[..at] == old(block[..at])
      invariant block[at..at + k] == bytes[..k]
    {
      block[at + k] := bytes[k];
      assert block[at..at + k + 1] == block[at..at + k] + [bytes[k]];
    }
  }

  /** `out` stands in `block` from `at` on. */
  ghost predicate HoldsAt(block: array<byte>, at: nat, out: Bytes)
    reads block
  {
    at + |out| <= block.Length && block[at..at + |out|] == out
  }

  /** Appends to what already stands there. */
  method Append(block: array<byte>, at: nat, ghost out: Bytes, end: nat, bytes: Bytes)
    requires HoldsAt(block, at, out) && end == at + |out| && end + |bytes| <= block.Length
    modifies block
    ensures block[..at] == old(block[..at]) && HoldsAt(block, at, out + bytes)
  {
    CopyInto(block, end, bytes);
    assert block[..at] == block[..end][..at] && old(block[..at]) == old(block[..end])[..at];
    assert block[at..end] == block[..end][at..] && old(block[at..end]) == old(block[..end])[at..];
    assert block[at..end + |bytes|] == block[at..end] + block[end..end + |bytes|];
  }

  /** `b` spells `text`. */
  predicate Spells(b: Bytes, text: string) {
    |b| == |text| && forall i :: 0 <= i < |b| ==> b[i] as int == text[i] as int
  }

  /** The number whose bytes these are, low-order byte first. */
  function LittleEndian(b: Bytes): (x: nat)
    ensures |b| == 0 ==> x == 0
    ensures |b| <= 1 ==> x < 0x100
    ensures |b| <= 2 ==> x < 0x1_0000
    ensures |b| <= 3 ==> x < 0x100_0000
    ensures |b| <= 4 ==> x < 0x1_0000_0000
  {
    if b == [] then 0 else b[0] + 0x100 * LittleEndian(b[1..])
  }

  lemma LittleEndianFour(b: Bytes)
    requires |b| == 4
    ensures LittleEndian(b)
      == b[0] as int + 0x100 * (b[1] as int) + 0x1_0000 * (b[2] as int) + 0x100_0000 * (b[3] as int)
  {
    var x, y, z := b[1..], b[1..][1..], b[1..][1..][1..];
    assert LittleEndian(z) == z[0] + 0x100 * LittleEndian(z[1..]);
    assert LittleEndian(y) == y[0] + 0x100 * LittleEndian(z);
    assert LittleEndian(x) == x[0] + 0x100 * LittleEndian(y);
  }

  function Pow2(k: nat): (p: nat)
    ensures p > 0
  {
    if k == 0 then 1 else 2 * Pow2(k - 1)
  }

  lemma {:induction false} Pow2Adds(a: nat, b: nat)
    ensures Pow2(a) * Pow2(b) == Pow2(a + b)
    decreases a
  {
    if a > 0 {
      Pow2Adds(a - 1, b);
      assert Pow2(a) * Pow2(b) == 2 * (Pow2(a - 1) * Pow2(b));
    }
  }
}
