/**
 * Slot mapping shared by both buffer designs: a claim number `i` (the
 * unbounded count of claims made so far) lives in array slot `i % n`.
 * The lemmas say when two claim numbers share a slot.
 */
module Slots {

  /** The array slot that claim number `index` uses in a buffer of `n` slots. */
  function Slot(index: nat, n: nat): (s: nat)
    requires 0 < n
    ensures s < n
  {
    index % n
  }

  /** A non-zero multiple of `n` is at least `n` away from zero. */
  lemma MultipleAwayFromZero(k: int, n: int)
    requires 0 < n
    ensures k >= 1 ==> k * n >= n
    ensures k <= -1 ==> k * n <= -n
  {
  }

  /** Quotient and remainder are unique: `q * n + r` with `0 <= r < n` lands in slot `r`. */
  lemma DivModUnique(q: int, r: int, n: int)
    requires 0 < n && 0 <= r < n
    ensures (q * n + r) % n == r
    ensures (q * n + r) / n == q
  {
    var x := q * n + r;
    assert x == (x / n) * n + x % n;
    assert (x / n - q) * n == r - x % n;
    MultipleAwayFromZero(x / n - q, n);
  }

  /** Claim numbers fewer than `n` apart occupy different slots. */
  lemma DistinctSlots(i: nat, j: nat, n: nat)
    requires 0 < n && i < j < i + n
    ensures i % n != j % n
  {
    var q, r := i / n, i % n;
    assert i == q * n + r;
    if r + (j - i) < n {
      DivModUnique(q, r + (j - i), n);
    } else {
      assert j == (q + 1) * n + (r + (j - i) - n);
      DivModUnique(q + 1, r + (j - i) - n, n);
    }
  }

  /** Stepping past the last slot wraps around to the first one. */
  lemma NextSlot(g: nat, n: nat)
    requires 0 < n
    ensures (g % n + 1) % n == (g + 1) % n
  {
    var q, r := g / n, g % n;
    assert g == q * n + r;
    if r + 1 < n {
      DivModUnique(0, r + 1, n);
      DivModUnique(q, r + 1, n);
    } else {
      DivModUnique(1, 0, n);
      assert g + 1 == (q + 1) * n + 0;
      DivModUnique(q + 1, 0, n);
    }
  }

  /**
   * Within a window of at most `n` claims, two claim numbers share a slot
   * exactly when they are equal or a whole pass apart.
   */
  lemma SameSlotInWindow(a: nat, b: nat, n: nat)
    requires 0 < n && a <= b <= a + n
    ensures a % n == b % n <==> b == a || b == a + n
  {
    if a < b < a + n {
      DistinctSlots(a, b, n);
    } else if b == a + n {
      assert a == (a / n) * n + a % n;
      assert b == (a / n + 1) * n + a % n;
      DivModUnique(a / n + 1, a % n, n);
    }
  }
}
