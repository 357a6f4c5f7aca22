/** Facts about division and remainder by a variable, each small enough for the solver alone. */
module Modular {
  /** A non-zero multiple of `n` is at least `n` away from zero. */
  lemma TimesFar(d: int, n: int)
    requires n >= 0
    ensures d >= 1 ==> d * n >= n
    ensures d <= -1 ==> d * n <= -n
  {
    if d >= 1 { assert (d - 1) * n >= 0; }
    if d <= -1 { assert (-d - 1) * n >= 0; }
  }

  lemma Quotient(y: int, n: int)
    requires n > 0
    ensures y == y / n * n + y % n && 0 <= y % n < n
  {
  }

  /** Quotient and remainder are unique. */
  lemma ModOfSum(d: int, r: int, n: int)
    requires 0 <= r < n
    ensures (d * n + r) % n == r && (d * n + r) / n == d
  {
    var y := d * n + r;
    var e := y / n;
    Quotient(y, n);
    assert (d - e) * n == d * n - e * n == y % n - r;
    TimesFar(d - e, n);
  }

  lemma ModAdd(x: int, q: int, n: int)
    requires n > 0
    ensures (x + q * n) % n == x % n
  {
    Quotient(x, n);
    assert x + q * n == (x / n + q) * n + x % n;
    ModOfSum(x / n + q, x % n, n);
  }

  lemma ModSub(a: int, k: int, n: int)
    requires n > 0
    ensures (a - k % n) % n == (a - k) % n
  {
    Quotient(k, n);
    ModAdd(a - k, k / n, n);
  }

  lemma ModPlus(a: int, b: int, n: int)
    requires n > 0
    ensures (a % n + b % n) % n == (a + b) % n
  {
    Quotient(a, n);
    Quotient(b, n);
    assert a + b == (a % n + b % n) + (a / n + b / n) * n;
    ModAdd(a % n + b % n, a / n + b / n, n);
  }

  lemma ModUnique(a: int, b: int, n: int)
    requires n > 0 && a % n == b % n && a - b < n && b - a < n
    ensures a == b
  {
    Quotient(a, n);
    Quotient(b, n);
    assert a - b == (a / n - b / n) * n;
    TimesFar(a / n - b / n, n);
  }

  lemma DivMonotone(a: int, b: int, n: int)
    requires a <= b && n > 0
    ensures a / n <= b / n
  {
    Quotient(a, n);
    Quotient(b, n);
    assert (a / n - b / n) * n == a / n * n - b / n * n;
    TimesFar(a / n - b / n, n);
  }

  lemma TimesAtLeast(d: int, n: int)
    requires n >= 1
    ensures d >= 0 ==> d * n >= d
  {
    if d >= 0 { assert d * (n - 1) >= 0; }
  }

  lemma DivAtMost(a: nat, n: int)
    requires n > 0
    ensures 0 <= a / n <= a
  {
    Quotient(a, n);
    TimesFar(a / n, n);
    TimesAtLeast(a / n, n);
  }
}
