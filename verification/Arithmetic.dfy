/** Products of natural numbers, as in offsets of rows of pixels. */
module Arithmetic {

  lemma {:induction false} Monotone(a: nat, b: nat, n: nat)
    requires a <= b
    ensures a * n <= b * n
    decreases b - a
  {
    if a < b {
      Monotone(a, b - 1, n);
      Distribute(b - 1, 1, n);
    }
  }

  lemma Distribute(a: int, b: int, n: int)
    ensures (a + b) * n == a * n + b * n
  {
  }

  /** Different rows are at least one row apart. */
  lemma RowsApart(width: nat, low: int, high: int)
    requires -1 <= low < high
    ensures high * width >= low * width + width
  {
    Distribute(low, 1, width);
    Monotone(low + 1, high, width);
  }
}
