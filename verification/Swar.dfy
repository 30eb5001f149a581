/** The word-parallel form of the collection hash: four 16-bit lanes added or subtracted in one
    64-bit operation. A word is a natural below 2^64 and the masks act on its bits. */
module Swar {
  import opened Bitwise
  import opened Common

  type Lane = x: int | 0 <= x < 0x1_0000

  // ---------------------------------------------------------------- one lane

  function Low(l: Lane): Lane { l % 0x8000 }
  function TopBit(l: Lane): Lane { l / 0x8000 }

  lemma TopJoins(l: Lane)
    ensures l == Low(l) + 0x8000 * TopBit(l)
  {
  }

  lemma SplitBits(op: BitOp, l: nat, m: nat, a: nat, high: nat, b: nat, top: nat, n: nat)
    requires a < Pow2(n) && b < Pow2(n) && l == a + Pow2(n) * high && m == b + Pow2(n) * top
    ensures Combined(op, l, m, n + 1) == Combined(op, a, b, n) + Pow2(n) * Combined(op, high, top, 1)
  {
    CombinedSplit(op, a, high, b, top, n, 1);
  }

  /** A lane is its fifteen low bits and its top bit, under every bitwise operation. */
  lemma LaneBits(op: BitOp, l: Lane, m: Lane)
    ensures Combined(op, l, m, 16)
         == Combined(op, Low(l), Low(m), 15) + 0x8000 * Combined(op, TopBit(l), TopBit(m), 1)
  {
    Powers();
    TopJoins(l);
    TopJoins(m);
    SplitBits(op, l, m, Low(l), TopBit(l), Low(m), TopBit(m), 15);
  }

  lemma Powers()
    ensures Pow2(15) == 0x8000 && Pow2(16) == 0x1_0000
  {
    assert Pow2(8) == 0x100;
  }

  lemma OneBit(op: BitOp, a: nat, b: nat)
    requires a <= 1 && b <= 1
    ensures Combined(op, a, b, 1) == if Bit(op, a == 1, b == 1) then 1 else 0
  {
  }

  lemma TopOnly(bit: nat)
    requires bit <= 1
    ensures 0x8000 * bit < 0x1_0000 && Low(0x8000 * bit) == 0 && TopBit(0x8000 * bit) == bit
  {
  }

  lemma AndLow(l: Lane)
    ensures Combined(And, l, 0x7FFF, 16) == Low(l)
  {
    var m, n := 0x7FFF, 15;
    LaneBits(And, l, m);
    assert Low(m) == m && TopBit(m) == 0;
    OneBit(And, TopBit(l), 0);
    Powers();
    KeepsBits(And, true, Low(l), n);
  }

  lemma AndTop(l: Lane)
    ensures Combined(And, l, 0x8000, 16) == 0x8000 * TopBit(l)
  {
    var m, n := 0x8000, 15;
    LaneBits(And, l, m);
    TopOnly(1);
    OneBit(And, TopBit(l), 1);
    ClearsBits(And, false, Low(l), n);
  }

  lemma OrTop(l: Lane)
    ensures Combined(Or, l, 0x8000, 16) == Low(l) + 0x8000
  {
    var m, n := 0x8000, 15;
    LaneBits(Or, l, m);
    TopOnly(1);
    OneBit(Or, TopBit(l), 1);
    Powers();
    KeepsBits(Or, false, Low(l), n);
  }

  lemma TopFlip(l: Lane, bit: nat)
    requires bit <= 1
    ensures (l + 0x8000 * bit) % 0x1_0000 == Low(l) + 0x8000 * (if (TopBit(l) == 1) != (bit == 1) then 1 else 0)
  {
    var low, top := Low(l), TopBit(l);
    assert l == low + 0x8000 * top && (top == 0 || top == 1);
  }

  /** Exclusive or with a top bit adds it modulo 2^16. */
  lemma XorTop(l: Lane, m: Lane, bit: nat)
    requires bit <= 1 && m == 0x8000 * bit
    ensures Combined(Xor, l, m, 16) == (l + m) % 0x1_0000
  {
    TopOnly(bit);
    TopFlip(l, bit);
    LaneBits(Xor, l, m);
    OneBit(Xor, TopBit(l), bit);
    Powers();
    KeepsBits(Xor, false, Low(l), 15);
  }

  lemma XorTopBit(l: Lane, m: Lane)
    ensures Combined(Xor, l, m, 16) < 0x1_0000
    ensures TopBit(Combined(Xor, l, m, 16)) == (TopBit(l) + TopBit(m)) % 2
  {
    LaneBits(Xor, l, m);
    OneBit(Xor, TopBit(l), TopBit(m));
    Powers();
  }

  function WrapOp(x: Lane, y: Lane, subtract: bool): Lane {
    if subtract then (x - y) % 0x1_0000 else (x + y) % 0x1_0000
  }

  /** One lane of the masked operation: a set top bit covers any borrow, and two clear ones
      leave room for any carry. */
  function Masked(x: Lane, y: Lane, subtract: bool): Lane {
    if subtract then Low(x) + 0x8000 - Low(y) else Low(x) + Low(y)
  }

  /** What the top bits decide, `x ^ y`, or `x ^ !y` when subtracting. */
  function Restore(x: Lane, y: Lane, subtract: bool): nat {
    (TopBit(x) + TopBit(if subtract then 0xFFFF - y else y)) % 2
  }

  lemma LaneRestored(x: Lane, y: Lane, subtract: bool)
    ensures (Masked(x, y, subtract) + 0x8000 * Restore(x, y, subtract)) % 0x1_0000 == WrapOp(x, y, subtract)
  {
    var i: int, p: int, j: int, q: int := Low(x), TopBit(x), Low(y), TopBit(y);
    assert x == i + 0x8000 * p && y == j + 0x8000 * q;
    assert TopBit(0xFFFF - y) == 1 - q;
    if subtract {
      SignedWrap(i, p, -j, -q);
    } else {
      SignedWrap(i, p, j, q);
    }
  }

  /** Adding the low parts, then the top bits back. */
  lemma SignedWrap(i: int, p: int, j: int, q: int)
    requires 0 <= i < 0x8000 && 0 <= p <= 1 && -0x8000 < j < 0x8000 && -1 <= q <= 1
    ensures (i + j + 0x8000 * ((p + q) % 2)) % 0x1_0000 == (i + 0x8000 * p + (j + 0x8000 * q)) % 0x1_0000
    ensures (i + 0x8000 + j + 0x8000 * ((p + 1 + q) % 2)) % 0x1_0000 == (i + 0x8000 * p + (j + 0x8000 * q)) % 0x1_0000
  {
  }

  // ---------------------------------------------------------------- lanes in a word

  /** The first lane in the low bits. */
  function Word(a: seq<Lane>): nat {
    if a == [] then 0 else a[0] + 0x1_0000 * Word(a[1..])
  }

  function Lanes(w: nat, k: nat): (a: seq<Lane>)
    ensures |a| == k
  {
    if k == 0 then [] else [w % 0x1_0000] + Lanes(w / 0x1_0000, k - 1)
  }

  function Span(k: nat): nat { if k == 0 then 1 else 0x1_0000 * Span(k - 1) }

  lemma Cons(l: Lane, w: nat)
    ensures (l + 0x1_0000 * w) % 0x1_0000 == l && (l + 0x1_0000 * w) / 0x1_0000 == w
  {
  }

  lemma {:induction false} LanesWord(a: seq<Lane>)
    ensures Lanes(Word(a), |a|) == a
  {
    if a != [] {
      LanesWord(a[1..]);
      Cons(a[0], Word(a[1..]));
      assert a == [a[0]] + a[1..];
    }
  }

  lemma {:induction false} WordSpan(a: seq<Lane>)
    ensures Word(a) < Span(|a|)
  {
    if a != [] {
      WordSpan(a[1..]);
    }
  }

  function EachBitwise(op: BitOp, a: seq<Lane>, b: seq<Lane>): (r: seq<Lane>)
    requires |a| == |b|
  {
    seq(|a|, i requires 0 <= i < |a| => LaneOp(op, a[i], b[i]))
  }

  function LaneOp(op: BitOp, l: Lane, m: Lane): Lane {
    Powers();
    Combined(op, l, m, 16)
  }

  lemma FirstLane(op: BitOp, l: Lane, x: nat, m: Lane, y: nat, width: nat)
    ensures Combined(op, l + 0x1_0000 * x, m + 0x1_0000 * y, 16 + width)
         == LaneOp(op, l, m) + 0x1_0000 * Combined(op, x, y, width)
  {
    var n := 16;
    Powers();
    CombinedSplit(op, l, x, m, y, n, width);
  }

  /** A bitwise operation on words is the operation on each pair of lanes. */
  lemma {:induction false} BitwiseLanes(op: BitOp, a: seq<Lane>, b: seq<Lane>)
    requires |a| == |b|
    ensures Combined(op, Word(a), Word(b), 16 * |a|) == Word(EachBitwise(op, a, b))
  {
    if a != [] {
      var x, y, width := Word(a[1..]), Word(b[1..]), 16 * |a[1..]|;
      BitwiseLanes(op, a[1..], b[1..]);
      FirstLane(op, a[0], x, b[0], y, width);
      assert 16 * |a| == 16 + width;
      var r := EachBitwise(op, a, b);
      assert r[1..] == EachBitwise(op, a[1..], b[1..]) && r[0] == LaneOp(op, a[0], b[0]);
    }
  }

  lemma {:induction false} WordPlus(a: seq<Lane>, b: seq<Lane>, c: seq<Lane>)
    requires |a| == |b| == |c| && forall i :: 0 <= i < |a| ==> c[i] == a[i] as int + b[i]
    ensures Word(a) + Word(b) == Word(c)
  {
    if a != [] {
      WordPlus(a[1..], b[1..], c[1..]);
    }
  }

  /** Four times the same lane. */
  function Four(l: Lane): seq<Lane> { seq(4, _ => l) }

  lemma WordFour(l: Lane)
    ensures Word(Four(l)) == l + 0x1_0000 * (l + 0x1_0000 * (l + 0x1_0000 * l))
  {
    var a := Four(l);
    assert Word(a[1..][1..][1..]) == l + 0x1_0000 * Word(a[1..][1..][1..][1..]);
    assert Word(a[1..][1..]) == l + 0x1_0000 * Word(a[1..][1..][1..]);
    assert Word(a[1..]) == l + 0x1_0000 * Word(a[1..][1..]);
  }

  // ---------------------------------------------------------------- the word operation

  const LOW := 0x7FFF_7FFF_7FFF_7FFF
  const HIGH := 0x8000_8000_8000_8000

  function Not(w: nat): nat
    requires w < 0x1_0000_0000_0000_0000
  {
    0xFFFF_FFFF_FFFF_FFFF - w
  }

  /** One word of `perform_pointwise_with_overflow`. */
  function WordOp(x: nat, y: nat, subtract: bool): nat
    requires x < 0x1_0000_0000_0000_0000 && y < 0x1_0000_0000_0000_0000
  {
    var other := if subtract then Not(y) else y;
    Combined(Xor, MaskedWord(x, y, subtract), Combined(And, Combined(Xor, x, other, 64), HIGH, 64), 64)
  }

  function MaskedWord(x: nat, y: nat, subtract: bool): nat {
    (if subtract then Combined(Or, x, HIGH, 64) - Combined(And, y, LOW, 64)
     else Combined(And, x, LOW, 64) + Combined(And, y, LOW, 64)) % 0x1_0000_0000_0000_0000
  }

  /** One operation on a word, lane by lane. */
  lemma InLanes(op: BitOp, a: seq<Lane>, b: seq<Lane>, r: seq<Lane>)
    requires |a| == |b| == |r| == 4 && forall i :: 0 <= i < 4 ==> r[i] == LaneOp(op, a[i], b[i])
    ensures Combined(op, Word(a), Word(b), 64) == Word(r)
  {
    BitwiseLanes(op, a, b);
    assert r == EachBitwise(op, a, b);
    assert 16 * |a| == 64;
  }

  lemma Masks()
    ensures LOW == Word(Four(0x7FFF)) && HIGH == Word(Four(0x8000)) && Word(Four(0xFFFF)) == 0xFFFF_FFFF_FFFF_FFFF
  {
    WordFour(0x7FFF);
    WordFour(0x8000);
    WordFour(0xFFFF);
  }

  lemma InWord(a: seq<Lane>)
    requires |a| == 4
    ensures Word(a) < 0x1_0000_0000_0000_0000
  {
    WordSpan(a);
    assert Span(4) == 0x1_0000_0000_0000_0000;
  }

  lemma SmallModulo(w: nat)
    requires w < 0x1_0000_0000_0000_0000
    ensures w % 0x1_0000_0000_0000_0000 == w
  {
  }

  function EachMasked(a: seq<Lane>, b: seq<Lane>, subtract: bool): seq<Lane>
    requires |a| == |b|
  {
    seq(|a|, i requires 0 <= i < |a| => Masked(a[i], b[i], subtract))
  }

  function EachLow(a: seq<Lane>): seq<Lane> { seq(|a|, i requires 0 <= i < |a| => Low(a[i])) }
  function EachHigh(a: seq<Lane>): seq<Lane> { seq(|a|, i requires 0 <= i < |a| => Low(a[i]) + 0x8000) }
  function EachNot(a: seq<Lane>): seq<Lane> { seq(|a|, i requires 0 <= i < |a| => 0xFFFF - a[i]) }

  lemma LowWord(a: seq<Lane>)
    requires |a| == 4
    ensures Combined(And, Word(a), LOW, 64) == Word(EachLow(a))
  {
    forall i | 0 <= i < 4 ensures EachLow(a)[i] == LaneOp(And, a[i], Four(0x7FFF)[i]) {
      AndLow(a[i]);
    }
    InLanes(And, a, Four(0x7FFF), EachLow(a));
    Masks();
  }

  lemma HighWord(a: seq<Lane>)
    requires |a| == 4
    ensures Combined(Or, Word(a), HIGH, 64) == Word(EachHigh(a))
  {
    forall i | 0 <= i < 4 ensures EachHigh(a)[i] == LaneOp(Or, a[i], Four(0x8000)[i]) {
      OrTop(a[i]);
    }
    InLanes(Or, a, Four(0x8000), EachHigh(a));
    Masks();
  }

  lemma LowPlus(a: seq<Lane>, b: seq<Lane>)
    requires |a| == |b|
    ensures Word(EachLow(a)) + Word(EachLow(b)) == Word(EachMasked(a, b, false))
  {
    WordPlus(EachLow(a), EachLow(b), EachMasked(a, b, false));
  }

  lemma HighMinus(a: seq<Lane>, b: seq<Lane>)
    requires |a| == |b|
    ensures Word(EachHigh(a)) - Word(EachLow(b)) == Word(EachMasked(a, b, true))
  {
    WordPlus(EachMasked(a, b, true), EachLow(b), EachHigh(a));
  }

  lemma MaskedFrom(x: nat, y: nat, subtract: bool, p: nat, q: nat, r: nat)
    requires p == if subtract then Combined(Or, x, HIGH, 64) else Combined(And, x, LOW, 64)
    requires q == Combined(And, y, LOW, 64) && r == (if subtract then p - q else p + q) < 0x1_0000_0000_0000_0000
    ensures MaskedWord(x, y, subtract) == r
  {
    SmallModulo(r);
  }

  /** No carry or borrow leaves its lane. */
  lemma MaskedLanes(a: seq<Lane>, b: seq<Lane>, subtract: bool)
    requires |a| == |b| == 4
    ensures MaskedWord(Word(a), Word(b), subtract) == Word(EachMasked(a, b, subtract))
  {
    LowWord(b);
    InWord(EachMasked(a, b, subtract));
    if subtract {
      HighWord(a);
      HighMinus(a, b);
      MaskedFrom(Word(a), Word(b), true, Word(EachHigh(a)), Word(EachLow(b)), Word(EachMasked(a, b, true)));
    } else {
      LowWord(a);
      LowPlus(a, b);
      MaskedFrom(Word(a), Word(b), false, Word(EachLow(a)), Word(EachLow(b)), Word(EachMasked(a, b, false)));
    }
  }

  function EachRestore(a: seq<Lane>, b: seq<Lane>, subtract: bool): seq<Lane>
    requires |a| == |b|
  {
    seq(|a|, i requires 0 <= i < |a| => 0x8000 * Restore(a[i], b[i], subtract))
  }

  lemma NotLanes(b: seq<Lane>)
    requires |b| == 4
    ensures Word(b) < 0x1_0000_0000_0000_0000 && Not(Word(b)) == Word(EachNot(b))
  {
    InWord(b);
    Masks();
    WordPlus(b, EachNot(b), Four(0xFFFF));
  }

  lemma TopMixed(x: Lane, y: Lane, other: Lane, mixed: Lane, subtract: bool)
    requires other == (if subtract then 0xFFFF - y else y) && mixed == LaneOp(Xor, x, other)
    ensures TopBit(mixed) == Restore(x, y, subtract)
  {
    XorTopBit(x, other);
  }

  lemma RestoreLanes(a: seq<Lane>, b: seq<Lane>, other: seq<Lane>, subtract: bool)
    requires |a| == |b| == 4 && other == if subtract then EachNot(b) else b
    ensures Combined(And, Combined(Xor, Word(a), Word(other), 64), HIGH, 64) == Word(EachRestore(a, b, subtract))
  {
    var mixed, r := EachBitwise(Xor, a, other), EachRestore(a, b, subtract);
    InLanes(Xor, a, other, mixed);
    forall i | 0 <= i < 4 ensures r[i] == LaneOp(And, mixed[i], Four(0x8000)[i]) {
      TopMixed(a[i], b[i], other[i], mixed[i], subtract);
      AndTop(mixed[i]);
    }
    InLanes(And, mixed, Four(0x8000), r);
    Masks();
  }

  function EachWrap(a: seq<Lane>, b: seq<Lane>, subtract: bool): seq<Lane>
    requires |a| == |b|
  {
    seq(|a|, i requires 0 <= i < |a| => WrapOp(a[i], b[i], subtract))
  }

  lemma LaneWraps(x: Lane, y: Lane, subtract: bool)
    ensures LaneOp(Xor, Masked(x, y, subtract), 0x8000 * Restore(x, y, subtract)) == WrapOp(x, y, subtract)
  {
    LaneRestored(x, y, subtract);
    XorTop(Masked(x, y, subtract), 0x8000 * Restore(x, y, subtract), Restore(x, y, subtract));
  }

  lemma LanesRestored(a: seq<Lane>, b: seq<Lane>, subtract: bool)
    requires |a| == |b| == 4
    ensures Combined(Xor, Word(EachMasked(a, b, subtract)), Word(EachRestore(a, b, subtract)), 64)
         == Word(EachWrap(a, b, subtract))
  {
    var c, r, t := EachMasked(a, b, subtract), EachRestore(a, b, subtract), EachWrap(a, b, subtract);
    forall i | 0 <= i < 4 ensures t[i] == LaneOp(Xor, c[i], r[i]) {
      LaneWraps(a[i], b[i], subtract);
    }
    InLanes(Xor, c, r, t);
  }

  /** The word operation is four independent 16-bit wrapping operations. */
  lemma WordOpIsLanewise(a: seq<Lane>, b: seq<Lane>, subtract: bool)
    requires |a| == |b| == 4
    ensures Word(a) < 0x1_0000_0000_0000_0000 && Word(b) < 0x1_0000_0000_0000_0000
    ensures WordOp(Word(a), Word(b), subtract) == Word(EachWrap(a, b, subtract))
  {
    InWord(a);
    NotLanes(b);
    MaskedLanes(a, b, subtract);
    RestoreLanes(a, b, if subtract then EachNot(b) else b, subtract);
    LanesRestored(a, b, subtract);
  }
}
