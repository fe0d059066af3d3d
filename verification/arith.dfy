/** Quotient and remainder facts used to reason about seats around a table. */
module Arith {
  lemma MulAtLeast(d: int, n: int)
    requires d >= 1 && n > 0
    ensures d * n >= n
    decreases d
  {
    if d > 1 {
      MulAtLeast(d - 1, n);
      assert d * n == (d - 1) * n + n;
    }
  }

  lemma MulSub(q: int, q0: int, n: int)
    ensures q * n - q0 * n == (q - q0) * n
  {
  }

  /** Quotient and remainder are unique. */
  lemma ModUnique(x: int, n: int, q: int, r: int)
    requires n > 0 && 0 <= r < n && x == q * n + r
    ensures x % n == r && x / n == q
  {
    var q0 := x / n;
    MulSub(q, q0, n);
    var d := q - q0;
    if d > 0 {
      MulAtLeast(d, n);
      assert false;
    } else if d < 0 {
      MulAtLeast(-d, n);
      MulSub(q0, q, n);
      assert false;
    }
  }

  /** Reducing the first term before the sum does not change the remainder. */
  lemma ModPlus(a: nat, b: nat, n: nat)
    requires n > 0
    ensures (a % n + b) % n == (a + b) % n
  {
    var q := a / n;
    var r := a % n;
    var q2 := (r + b) / n;
    var r2 := (r + b) % n;
    assert a + b == (q + q2) * n + r2;
    ModUnique(a + b, n, q + q2, r2);
  }

  /** The remainder of a number below `2 * n`. */
  lemma ModSmall(x: int, n: int)
    requires n > 0 && 0 <= x < 2 * n
    ensures x % n == (if x < n then x else x - n)
  {
    if x < n {
      ModUnique(x, n, 0, x);
    } else {
      ModUnique(x, n, 1, x - n);
    }
  }
}
