/**
 * The power-of-two test of `circular_increment` in the earlier buffer
 * design: `(N & (N - 1)) == 0`, and the bit mask a compiler uses for
 * `% N` when that test holds. Bitwise AND is defined on non-negative
 * integers bit by bit, lowest bit first.
 */
module Bits {
  import Slots

  /** Bitwise AND of two non-negative integers; never larger than either operand. */
  function BitAnd(a: nat, b: nat): (r: nat)
    ensures r <= a && r <= b
  {
    if a == 0 || b == 0 then 0
    else 2 * BitAnd(a / 2, b / 2) + (a % 2) * (b % 2)
  }

  /** `n` is one of 1, 2, 4, 8, ... */
  predicate IsPowerOfTwo(n: nat)
  {
    n == 1 || (n >= 2 && n % 2 == 0 && IsPowerOfTwo(n / 2))
  }

  /** A number ANDed with itself is itself. */
  lemma {:induction false} BitAndSelf(a: nat)
    ensures BitAnd(a, a) == a
  {
    if a != 0 {
      BitAndSelf(a / 2);
      assert (a % 2) * (a % 2) == a % 2;
    }
  }

  /** The test `n & (n - 1) == 0` holds of a positive `n` exactly when `n` is a power of two. */
  lemma {:induction false} PowerOfTwoTest(n: nat)
    requires 0 < n
    ensures BitAnd(n, n - 1) == 0 <==> IsPowerOfTwo(n)
  {
    if n == 1 {
      assert BitAnd(1, 0) == 0;
    } else if n % 2 == 0 {
      var m := n / 2;
      assert (n - 1) / 2 == m - 1 && (n - 1) % 2 == 1;
      assert BitAnd(n, n - 1) == 2 * BitAnd(m, m - 1);
      PowerOfTwoTest(m);
    } else {
      var m := n / 2;
      assert (n - 1) / 2 == m && (n - 1) % 2 == 0;
      assert BitAnd(n, n - 1) == 2 * BitAnd(m, m);
      BitAndSelf(m);
    }
  }

  /** Halving both the number and the modulus: the remainder modulo `2 * m` from the remainder modulo `m`. */
  lemma HalvedRemainder(x: nat, m: nat)
    requires 0 < m
    ensures x % (2 * m) == 2 * ((x / 2) % m) + x % 2
  {
    var q, s := (x / 2) / m, (x / 2) % m;
    assert x / 2 == q * m + s;
    assert x == 2 * (x / 2) + x % 2;
    assert x == q * (2 * m) + (2 * s + x % 2);
    Slots.DivModUnique(q, 2 * s + x % 2, 2 * m);
  }

  /** For a power of two `n`, masking with `n - 1` computes `x % n`. */
  lemma {:induction false} MaskIsRemainder(x: nat, n: nat)
    requires IsPowerOfTwo(n)
    ensures BitAnd(x, n - 1) == x % n
  {
    if n >= 2 && x != 0 {
      var m := n / 2;
      assert n == 2 * m;
      assert n - 1 != 0 && (n - 1) / 2 == m - 1 && (n - 1) % 2 == 1;
      assert BitAnd(x, n - 1) == 2 * BitAnd(x / 2, m - 1) + x % 2;
      MaskIsRemainder(x / 2, m);
      HalvedRemainder(x, m);
    }
  }
}
