/** Facts about Euclidean division that the solver does not find alone. */
module Arithmetic {

  lemma MulMonotone(d: nat, a: int, b: int)
    requires a <= b
    ensures d * a <= d * b
  {
  }

  lemma WrapAdd(a: int, b: int)
    ensures (a % 256 + b) % 256 == (a + b) % 256
  {
  }

  /** Euclidean division is determined by its quotient and remainder. */
  lemma ModIsUnique(n: int, d: nat, q: int, r: nat)
    requires n == d * q + r && r < d
    ensures n % d == r && n / d == q
  {
    var q', r' := n / d, n % d;
    var e := q - q';
    assert d * e == r' - r by {
      assert n == d * q' + r';
      assert d * e == d * q - d * q';
    }
    if e > 0 {
      MulMonotone(d, 1, e);
    } else if e < 0 {
      MulMonotone(d, e, -1);
    }
  }

  lemma ModMinus(n: nat, d: nat)
    requires 0 < d <= n
    ensures n % d == (n - d) % d
  {
    assert n == d * (n / d) + n % d;
    assert (n - d) == d * (n / d - 1) + n % d;
    ModIsUnique(n - d, d, n / d - 1, n % d);
  }

  lemma ModOfMultiple(n: nat, d: nat, times: nat)
    requires 0 < d && 0 < times && 0 < times * d
    ensures (n % (times * d)) % d == n % d
  {
    var m := times * d;
    var q, r := n / m, n % m;
    var q', r' := r / d, r % d;
    assert n == m * q + r && r == d * q' + r';
    calc {
      n;
      times * d * q + (d * q' + r');
      { assert times * d * q == d * (times * q); }
      d * (times * q) + d * q' + r';
      d * (times * q + q') + r';
    }
    ModIsUnique(n, d, times * q + q', r');
  }
}
