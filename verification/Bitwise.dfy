/** Bitwise operations on words written as naturals. */
module Bitwise {
  import opened Common

  datatype BitOp = And | Or | Xor

  predicate Bit(op: BitOp, a: bool, b: bool) {
    match op
    case And => a && b
    case Or => a || b
    case Xor => a != b
  }

  /** The lowest `width` bits of a bitwise operation. */
  function Combined(op: BitOp, a: nat, b: nat, width: nat): (r: nat)
    ensures r < Pow2(width)
  {
    if width == 0 then 0
    else (if Bit(op, a % 2 == 1, b % 2 == 1) then 1 else 0) + 2 * Combined(op, a / 2, b / 2, width - 1)
  }

  /** A bitwise operation on a word is the operation on its two parts, wherever it is cut. */
  lemma {:induction false} CombinedSplit(op: BitOp, a: nat, high: nat, b: nat, top: nat, n: nat, m: nat)
    requires a < Pow2(n) && b < Pow2(n)
    ensures Combined(op, a + Pow2(n) * high, b + Pow2(n) * top, n + m)
         == Combined(op, a, b, n) + Pow2(n) * Combined(op, high, top, m)
    decreases n
  {
    if n > 0 {
      Halved(a, n, high);
      Halved(b, n, top);
      CombinedSplit(op, a / 2, high, b / 2, top, n - 1, m);
      Doubled(n, Combined(op, high, top, m));
    }
  }

  lemma Doubled(n: nat, x: nat)
    requires n > 0
    ensures Pow2(n) * x == 2 * (Pow2(n - 1) * x)
  {
  }

  lemma Halved(a: nat, n: nat, high: nat)
    requires n > 0
    ensures (a + Pow2(n) * high) % 2 == a % 2 && (a + Pow2(n) * high) / 2 == a / 2 + Pow2(n - 1) * high
  {
    Doubled(n, high);
  }

  /** All `n` bits equal. */
  function Filled(bit: bool, n: nat): nat { if bit then Pow2(n) - 1 else 0 }

  lemma FilledHalves(bit: bool, n: nat)
    requires n > 0
    ensures Filled(bit, n) / 2 == Filled(bit, n - 1) && (Filled(bit, n) % 2 == 1) == bit
  {
  }

  lemma {:induction false} KeepsBits(op: BitOp, bit: bool, x: nat, n: nat)
    requires x < Pow2(n) && Bit(op, false, bit) == false && Bit(op, true, bit) == true
    ensures Combined(op, x, Filled(bit, n), n) == x
    decreases n
  {
    if n > 0 {
      FilledHalves(bit, n);
      KeepsBits(op, bit, x / 2, n - 1);
    }
  }

  lemma {:induction false} ClearsBits(op: BitOp, bit: bool, x: nat, n: nat)
    requires !Bit(op, false, bit) && !Bit(op, true, bit)
    ensures Combined(op, x, Filled(bit, n), n) == 0
    decreases n
  {
    if n > 0 {
      FilledHalves(bit, n);
      ClearsBits(op, bit, x / 2, n - 1);
    }
  }

  lemma {:induction false} OrZero(x: nat, n: nat)
    requires x < Pow2(n)
    ensures Combined(Or, 0, x, n) == x
    decreases n
  {
    if n > 0 {
      OrZero(x / 2, n - 1);
    }
  }

  /** Bits that do not overlap: the or is the sum. */
  lemma {:induction false} OrIsSum(a: nat, x: nat, y: nat, shift: nat, rest: nat)
    requires a < Pow2(shift) && x < Pow2(rest) && y == Pow2(shift) * x
    ensures Combined(Or, a, y, shift + rest) == a + y
    decreases shift
  {
    if shift == 0 {
      OrZero(x, rest);
    } else {
      var half := Pow2(shift - 1) * x;
      Doubled(shift, x);
      OrIsSum(a / 2, x, half, shift - 1, rest);
      EvenOr(a, half, shift - 1 + rest);
    }
  }

  lemma EvenOr(a: nat, half: nat, width: nat)
    ensures Combined(Or, a, 2 * half, width + 1) == a % 2 + 2 * Combined(Or, a / 2, half, width)
  {
    assert 2 * half / 2 == half && 2 * half % 2 == 0;
  }
}
