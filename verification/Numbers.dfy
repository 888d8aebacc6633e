/** Small arithmetic shared by the modules of this project. */
module Numbers {
  function Max(x: nat, y: nat): nat {
    if x < y then y else x
  }

  function Min(x: nat, y: nat): nat {
    if x < y then x else y
  }

  /** The number that decimal digits stand for. */
  function Value(digits: string): int {
    if digits == "" then 0 else Value(digits[..|digits| - 1]) * 10 + (digits[|digits| - 1] as int - '0' as int)
  }

  /** A remainder is unique. */
  lemma RemainderIs(a: nat, n: nat, q: nat, r: nat)
    requires a == n * q + r && r < n
    ensures a % n == r
  {
    var k, m := a / n, a % n;
    assert a == n * k + m;
    if k < q {
      NextMultiple(n, k, q);
    } else if q < k {
      NextMultiple(n, q, k);
    }
  }

  lemma NextMultiple(n: nat, k: nat, q: nat)
    requires k < q
    ensures n * k + n <= n * q
  {
    assert n * q == n * (k + 1) + n * (q - k - 1);
  }

  /** Taking one round off changes no remainder. */
  lemma RemainderSteps(n: nat, d: nat)
    requires d > 0
    ensures n < d ==> n % d == n
    ensures n >= d ==> n % d == (n - d) % d
    ensures n % d <= n
  {
    if n >= d {
      assert n == d * ((n - d) / d + 1) + (n - d) % d;
      RemainderIs(n, d, (n - d) / d + 1, (n - d) % d);
    }
  }

  lemma {:induction false} RemaindersDiffer(a: nat, b: nat, n: nat)
    requires a < b < a + n
    ensures a % n != b % n
  {
    RemainderSteps(a, n);
    RemainderSteps(b, n);
    if a >= n {
      RemaindersDiffer(a - n, b - n, n);
    } else if b >= n {
      RemainderSteps(b - n, n);
    }
  }
}
