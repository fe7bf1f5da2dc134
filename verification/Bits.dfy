/** Bitwise operators of C++ on unsigned values, over `nat`. */
module Bits {

  function Or(a: nat, b: nat): nat
    decreases a + b
  {
    if a == 0 && b == 0 then 0
    else (if a % 2 == 1 || b % 2 == 1 then 1 else 0) + 2 * Or(a / 2, b / 2)
  }

  /** Conversion to `uint8_t`. */
  function Low8(n: nat): (r: nat)
    ensures r < 256
    ensures n < 256 ==> r == n
  {
    n % 256
  }

  /** The bit at a place. */
  predicate Bit(n: nat, place: nat) {
    if place == 0 then n % 2 == 1 else Bit(n / 2, place - 1)
  }

  lemma OrHalf(a: nat, b: nat)
    ensures Or(a, b) / 2 == Or(a / 2, b / 2)
    ensures Or(a, b) % 2 == 1 <==> a % 2 == 1 || b % 2 == 1
  {
    if a == 0 && b == 0 {
      assert Or(a, b) == 0;
    } else {
      var rest := Or(a / 2, b / 2);
      assert Or(a, b) == (if a % 2 == 1 || b % 2 == 1 then 1 else 0) + 2 * rest;
      hide Or;
    }
  }

  /** A bit of the result is set exactly when it is in one of the operands. */
  lemma {:induction false} OrBit(a: nat, b: nat, place: nat)
    ensures Bit(Or(a, b), place) <==> Bit(a, place) || Bit(b, place)
    decreases place
  {
    hide Or;
    OrHalf(a, b);
    if place > 0 {
      OrBit(a / 2, b / 2, place - 1);
    }
  }

  lemma OrZero(a: nat)
    ensures Or(a, 0) == a
  {
  }

  lemma OrEven(a: nat, b: nat)
    ensures Or(2 * a, b) == b % 2 + 2 * Or(a, b / 2)
  {
  }

  /** `(a << 4) | b` puts a four-bit value into the low bits. */
  lemma OrNibble(a: nat, b: nat)
    requires b < 16
    ensures Or(16 * a, b) == 16 * a + b
  {
    OrZero(a);
    hide Or;
    OrEven(8 * a, b);
    OrEven(4 * a, b / 2);
    OrEven(2 * a, b / 4);
    OrEven(a, b / 8);
  }

  /** `(a << 6) | b` puts a six-bit value into the low bits. */
  lemma OrSextet(a: nat, b: nat)
    requires b < 64
    ensures Or(64 * a, b) == 64 * a + b
  {
    hide Or;
    OrEven(32 * a, b);
    OrEven(16 * a, b / 2);
    OrNibble(a, b / 4);
  }

  lemma {:induction false} OrBelow(a: nat, b: nat, bound: nat)
    requires a < bound && b < bound && bound in {1, 2, 4, 8, 16, 32, 64, 128, 256}
    ensures Or(a, b) < bound
  {
    if a + b > 0 {
      OrBelow(a / 2, b / 2, bound / 2);
    }
  }

  /** Quotient and remainder, for the divisors that occur here. */
  lemma DivModUnique(n: nat, m: nat, q: nat, r: nat)
    requires m in {1, 2, 4, 8, 16, 32, 64, 128, 256, 1024, 4096}
    requires r < m && n == m * q + r
    ensures n / m == q && n % m == r
  {
    if m == 1 {
    } else if m == 2 {
    } else if m == 4 {
    } else if m == 8 {
    } else if m == 16 {
    } else if m == 32 {
    } else if m == 64 {
    } else if m == 128 {
    } else if m == 256 {
    } else if m == 1024 {
    } else {
    }
  }
}
