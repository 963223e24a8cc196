/** Bitwise operations on unbounded naturals, as Python's `&` and `|` on
    non-negative ints. Both are defined bit by bit from the least significant
    bit, with the same case split, so that their lemmas share one induction. */
module Bits {

  /** `a & b` */
  function And(a: nat, b: nat): nat
    decreases a + b
  {
    if a == 0 && b == 0 then 0
    else 2 * And(a / 2, b / 2) + (if a % 2 == 1 && b % 2 == 1 then 1 else 0)
  }

  /** `a | b` */
  function Or(a: nat, b: nat): nat
    decreases a + b
  {
    if a == 0 && b == 0 then 0
    else 2 * Or(a / 2, b / 2) + (if a % 2 == 1 || b % 2 == 1 then 1 else 0)
  }

  /** Python's truth value of `mask & bits`. */
  predicate HasAny(mask: nat, bits: nat) {
    And(mask, bits) != 0
  }

  /** `n` is 1, 2, 4, 8, ... */
  predicate IsPow2(n: nat)
    decreases n
  {
    n == 1 || (n > 1 && n % 2 == 0 && IsPow2(n / 2))
  }

  lemma {:induction false} AndZero(a: nat)
    ensures And(a, 0) == 0 && And(0, a) == 0
    decreases a
  {
    if a != 0 {
      AndZero(a / 2);
    }
  }

  lemma {:induction false} OrZero(a: nat)
    ensures Or(a, 0) == a && Or(0, a) == a
    decreases a
  {
    if a != 0 {
      OrZero(a / 2);
    }
  }

  lemma {:induction false} AndSelf(a: nat)
    ensures And(a, a) == a
    decreases a
  {
    if a != 0 {
      AndSelf(a / 2);
    }
  }

  lemma {:induction false} AndComm(a: nat, b: nat)
    ensures And(a, b) == And(b, a)
    decreases a + b
  {
    if a != 0 || b != 0 {
      AndComm(a / 2, b / 2);
    }
  }

  /** `a | b` is zero exactly when both operands are. */
  lemma {:induction false} OrIsZero(a: nat, b: nat)
    ensures Or(a, b) == 0 <==> a == 0 && b == 0
    decreases a + b
  {
    if a != 0 || b != 0 {
      OrIsZero(a / 2, b / 2);
    }
  }

  /** `a | b` is at least as large as each operand. */
  lemma {:induction false} OrUpper(a: nat, b: nat)
    ensures a <= Or(a, b) && b <= Or(a, b)
    decreases a + b
  {
    if a != 0 || b != 0 {
      OrUpper(a / 2, b / 2);
    }
  }

  /** `a & b` is at most each operand. */
  lemma {:induction false} AndUpper(a: nat, b: nat)
    ensures And(a, b) <= a && And(a, b) <= b
    decreases a + b
  {
    if a != 0 || b != 0 {
      AndUpper(a / 2, b / 2);
    }
  }

  /** `(a | b) & c == (a & c) | (b & c)` */
  lemma {:induction false} AndOrDistrib(a: nat, b: nat, c: nat)
    ensures And(Or(a, b), c) == Or(And(a, c), And(b, c))
    decreases a + b + c
  {
    if a == 0 && b == 0 {
      AndZero(c);
      OrZero(0);
    } else if c == 0 {
      AndZero(Or(a, b));
      AndZero(a);
      AndZero(b);
    } else {
      AndOrDistrib(a / 2, b / 2, c / 2);
      var x, y, z := Or(a, b), And(a, c), And(b, c);
      assert x / 2 == Or(a / 2, b / 2) && x % 2 == (if a % 2 == 1 || b % 2 == 1 then 1 else 0);
      assert y / 2 == And(a / 2, c / 2) && y % 2 == (if a % 2 == 1 && c % 2 == 1 then 1 else 0);
      assert z / 2 == And(b / 2, c / 2) && z % 2 == (if b % 2 == 1 && c % 2 == 1 then 1 else 0);
    }
  }

  /** A mask tests positive against `a | b` exactly when it tests positive against `a` or against `b`. */
  lemma HasAnyOr(a: nat, b: nat, c: nat)
    ensures HasAny(Or(a, b), c) <==> HasAny(a, c) || HasAny(b, c)
  {
    AndOrDistrib(a, b, c);
    OrIsZero(And(a, c), And(b, c));
  }

  /** A power of two shares no bit with any smaller number. */
  lemma {:induction false} AndBelowPow2(p: nat, b: nat)
    requires IsPow2(p) && b < p
    ensures And(p, b) == 0 && And(b, p) == 0
    decreases p
  {
    if p == 1 {
      assert b == 0;
      AndZero(1);
    } else {
      AndBelowPow2(p / 2, b / 2);
    }
    AndComm(p, b);
  }

  /** Multiplication by a natural number is monotone. */
  lemma MulMono(a: nat, b: nat, p: nat)
    requires a <= b
    ensures a * p <= b * p
  {
    assert b * p == a * p + (b - a) * p;
  }

  /** A quotient and remainder below the divisor determine the division. */
  lemma DivUnique(m: nat, p: nat, k: nat, t: nat)
    requires p > 0 && m == k * p + t && t < p
    ensures m / p == k
  {
    var d, r := m / p, m % p;
    assert m == d * p + r;
    if d > k {
      assert (k + 1) * p == k * p + p;
      MulMono(k + 1, d, p);
    } else if d < k {
      assert (d + 1) * p == d * p + p;
      MulMono(d + 1, k, p);
    }
  }

  /** Halving both operands keeps the quotient of an even divisor. */
  lemma DivHalves(m: nat, p: nat)
    requires p > 0 && p % 2 == 0
    ensures (m / 2) / (p / 2) == m / p
  {
    var q := p / 2;
    var k, s := (m / 2) / q, (m / 2) % q;
    assert m / 2 == k * q + s;
    assert k * p == 2 * (k * q);
    DivUnique(m, p, k, 2 * s + m % 2);
  }

  /** Masking with a single bit `p` leaves that bit exactly when it is set in
      `m`, that is, when the quotient `m / p` is odd, and nothing otherwise. */
  lemma {:induction false} AndPow2(m: nat, p: nat)
    requires IsPow2(p)
    ensures And(m, p) == if (m / p) % 2 == 1 then p else 0
    decreases p
  {
    if p == 1 {
      AndZero(m / 2);
    } else {
      AndPow2(m / 2, p / 2);
      DivHalves(m, p);
    }
  }

  /** Operands with no common bit: `a | b` is their sum. */
  lemma {:induction false} OrDisjointAdd(a: nat, b: nat)
    requires And(a, b) == 0
    ensures Or(a, b) == a + b
    decreases a + b
  {
    if a != 0 || b != 0 {
      OrDisjointAdd(a / 2, b / 2);
    }
  }

  /** Adding a single bit above all bits of `a` is an OR. */
  lemma OrBelowPow2(a: nat, p: nat)
    requires IsPow2(p) && a < p
    ensures Or(a, p) == a + p
  {
    AndBelowPow2(p, a);
    OrDisjointAdd(a, p);
  }

  /** An odd number greater than one is not a power of two. */
  lemma OddIsNotPow2(n: nat)
    requires n > 1 && n % 2 == 1
    ensures !IsPow2(n)
  {
  }
}
