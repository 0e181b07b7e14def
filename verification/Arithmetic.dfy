/** Products, quotients and remainders. */
module Arithmetic {

  lemma {:induction false} Distribute(a: int, b: int, c: int)
    ensures (a + b) * c == a * c + b * c
    ensures (a - b) * c == a * c - b * c
  {
  }

  lemma {:induction false} Associate(a: int, b: int, c: int)
    ensures (a * b) * c == a * (b * c)
  {
  }

  /** A multiple of `n` strictly between `-n` and `n` is zero. */
  lemma {:induction false} SmallMultiple(k: int, n: int, d: int)
    requires n > 0 && d == k * n && -n < d < n
    ensures d == 0 && k == 0
  {
    assert k >= 1 ==> k * n >= n;
    assert k <= -1 ==> k * n <= -n;
  }

  lemma {:induction false} DivMod(a: int, n: int) returns (k: int, r: int)
    requires n > 0
    ensures a == k * n + r && 0 <= r < n
  {
    k, r := a / n, a % n;
  }

  /** Quotient and remainder are unique. */
  lemma {:induction false} Quotient(a: int, n: int, k: int, r: int)
    requires 0 <= r < n && a == k * n + r
    ensures a / n == k && a % n == r
  {
    Distribute(a / n, k, n);
    assert a == (a / n) * n + a % n;
    SmallMultiple(a / n - k, n, r - a % n);
  }

  lemma {:induction false} ModStep(a: nat, n: nat)
    requires n > 0
    ensures (a % n + 1) % n == (a + 1) % n
  {
    var q, r := DivMod(a, n);
    Quotient(a, n, q, r);
    if r + 1 == n {
      Distribute(q, 1, n);
      Quotient(a + 1, n, q + 1, 0);
      Quotient(r + 1, n, 1, 0);
    } else {
      Quotient(a + 1, n, q, r + 1);
      Quotient(r + 1, n, 0, r + 1);
    }
  }

  lemma {:induction false} Ceiling(a: nat, n: nat)
    requires a > 0 && n > 0
    ensures a / n + (if a % n != 0 then 1 else 0) == (a + n - 1) / n >= 1
  {
    var q, r := DivMod(a, n);
    Quotient(a, n, q, r);
    if r == 0 {
      Quotient(a + n - 1, n, q, n - 1);
    } else {
      Distribute(q, 1, n);
      Quotient(a + n - 1, n, q + 1, r - 1);
    }
    assert q <= 0 ==> q * n <= 0;
  }

  lemma {:induction false} ModDouble(a: nat, n: nat)
    requires n > 0
    ensures a % (2 * n) == 2 * (a / 2 % n) + a % 2
  {
    var q, r := DivMod(a / 2, n);
    Quotient(a / 2, n, q, r);
    Associate(q, 2, n);
    Associate(2, q, n);
    Quotient(a, 2 * n, q, 2 * r + a % 2);
  }

  /** Halving first, then dividing. */
  lemma {:induction false} Halves(a: nat, n: nat)
    requires n > 0
    ensures a / (2 * n) == a / 2 / n
  {
    var q, r := DivMod(a / 2, n);
    Quotient(a / 2, n, q, r);
    Associate(q, 2, n);
    Associate(2, q, n);
    Quotient(a, 2 * n, q, 2 * r + a % 2);
  }

  function Pow2(n: nat): (r: nat)
    ensures r > 0
  {
    if n == 0 then 1 else 2 * Pow2(n - 1)
  }

  lemma {:induction false} Pow2Step(k: nat)
    ensures Pow2(k + 1) == 2 * Pow2(k)
  {
  }
}
