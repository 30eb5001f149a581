/** A byte as a number and as eight bits. */
module ByteBits {
  /** The binary digits of a number below 256. */
  function ToBits(n: nat): bv8 {
    if n == 0 then 0 else (ToBits(n / 2) << 1) | (if n % 2 == 1 then 1 else 0)
  }

  lemma OneMoreBit(x: bv8, bit: bool, y: bv8)
    requires x as int < 128 && y == (x << 1) | (if bit then 1 else 0)
    ensures y as int == 2 * (x as int) + if bit then 1 else 0
  {
  }

  /** They are those of the number. */
  lemma {:induction false} ToBitsIs(n: nat)
    requires n < 256
    ensures ToBits(n) as int == n
  {
    if n > 0 {
      ToBitsIs(n / 2);
      OneMoreBit(ToBits(n / 2), n % 2 == 1, ToBits(n));
    }
  }

  lemma BitsInjective(x: bv8, y: bv8)
    requires x as int == y as int
    ensures x == y
  {
  }

  lemma ToBitsBack(x: bv8)
    ensures ToBits(x as int) == x
  {
    ToBitsIs(x as int);
    BitsInjective(ToBits(x as int), x);
  }
}
