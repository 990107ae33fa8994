/** The bit operations that the codec uses, on natural numbers. */
module Bits {

  function Pow2(n: nat): (p: nat)
    ensures p > 0
  {
    if n == 0 then 1 else 2 * Pow2(n - 1)
  }

  /** a | b */
  function Or(a: nat, b: nat): (r: nat) {
    if a == 0 then b
    else if b == 0 then a
    else (if a % 2 + b % 2 == 0 then 0 else 1) + 2 * Or(a / 2, b / 2)
  }

  /** a ^ b in a register of n bits */
  function Xor(a: nat, b: nat, n: nat): (r: nat)
    ensures r < Pow2(n)
  {
    if n == 0 then 0 else (a % 2 + b % 2) % 2 + 2 * Xor(a / 2, b / 2, n - 1)
  }

  /** -a in a register of n bits */
  function Negated(a: nat, n: nat): (r: nat)
    ensures r < Pow2(n)
  {
    if a % Pow2(n) == 0 then 0 else Pow2(n) - a % Pow2(n)
  }

  lemma Twice(m: nat, p: nat)
    ensures m * (2 * p) == 2 * (m * p)
  {
  }

  lemma Halves(a: nat)
    ensures a == a % 2 + 2 * (a / 2)
  {
  }

  lemma Even(b: nat)
    ensures 2 * b % 2 == 0 && 2 * b / 2 == b
  {
  }

  lemma OrStep(a: nat, b: nat)
    requires Or(a / 2, b) == a / 2 + b
    ensures Or(a, 2 * b) == a + 2 * b
  {
    if a == 0 || b == 0 {
    } else {
      var high, c := Or(a / 2, b), 2 * b;
      Halves(a);
      Even(b);
      assert Or(a, c) == a % 2 + 2 * high;
    }
  }

  /** Nothing of a reaches up to bit n, and b has nothing below it: their bits add up. */
  lemma {:induction false} OrDisjoint(a: nat, m: nat, n: nat)
    requires a < Pow2(n)
    ensures Or(a, m * Pow2(n)) == a + m * Pow2(n)
  {
    if n == 0 {
    } else {
      var b := m * Pow2(n - 1);
      Twice(m, Pow2(n - 1));
      OrDisjoint(a / 2, m, n - 1);
      OrStep(a, b);
    }
  }

  lemma {:induction false} XorZero(a: nat, n: nat)
    requires a < Pow2(n)
    ensures Xor(a, 0, n) == a
  {
    if n == 0 {
    } else {
      XorZero(a / 2, n - 1);
      assert Xor(a, 0, n) == a % 2 + 2 * (a / 2);
    }
  }

  lemma Odd(p: nat)
    requires 0 < p
    ensures (2 * p - 1) % 2 == 1 && (2 * p - 1) / 2 == p - 1
  {
  }

  lemma Complement(a: nat, p: nat)
    requires 0 < p
    ensures (a % 2 + 1) % 2 + 2 * (p - 1 - a / 2) == 2 * p - 1 - a
  {
  }

  /** All ones complement every bit. */
  lemma {:induction false} XorOnes(a: nat, n: nat)
    requires a < Pow2(n)
    ensures Xor(a, Pow2(n) - 1, n) == Pow2(n) - 1 - a
  {
    if n == 0 {
    } else {
      XorOnes(a / 2, n - 1);
      Odd(Pow2(n - 1));
      Complement(a, Pow2(n - 1));
    }
  }

  lemma NegatedBit(bit: nat, n: nat)
    requires bit <= 1 && 0 < n
    ensures Negated(bit, n) == if bit == 0 then 0 else Pow2(n) - 1
  {
    Remains(bit, Pow2(n));
  }

  lemma Remains(a: nat, p: nat)
    requires a < p
    ensures a % p == a
  {
  }

  /** value ^ -bit: kept or complemented. */
  lemma XorNegated(a: nat, bit: nat, n: nat)
    requires a < Pow2(n) && bit <= 1 && 0 < n
    ensures Xor(a, Negated(bit, n), n) == if bit == 0 then a else Pow2(n) - 1 - a
  {
    NegatedBit(bit, n);
    if bit == 0 {
      XorZero(a, n);
    } else {
      XorOnes(a, n);
    }
  }

  lemma {:induction false} Pow2Sum(m: nat, n: nat)
    ensures Pow2(m + n) == Pow2(m) * Pow2(n)
  {
    if m == 0 {
    } else {
      Pow2Sum(m - 1, n);
      assert Pow2(m + n) == 2 * (Pow2(m - 1) * Pow2(n)) == (2 * Pow2(m - 1)) * Pow2(n);
    }
  }

  lemma Pow2Values()
    ensures Pow2(7) == 0x80 && Pow2(32) == 0x1_0000_0000 && Pow2(64) == 0x1_0000_0000_0000_0000
  {
    assert Pow2(4) == 0x10;
    Pow2Sum(4, 3);
    Pow2Sum(4, 4);
    Pow2Sum(8, 8);
    Pow2Sum(16, 16);
    Pow2Sum(32, 32);
  }
}
