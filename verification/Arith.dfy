/** Division facts that the solver does not find on its own. */
module Arith {

  lemma MulBounds(n: int, k: int)
    requires n >= 1
    ensures k >= 1 ==> n * k >= n
    ensures k <= -1 ==> n * k <= -n
  {
  }

  /** Quotient and remainder are unique. */
  lemma DivModUnique(n: int, q: int, r: int)
    requires 0 <= r < n
    ensures (n * q + r) / n == q && (n * q + r) % n == r
  {
    var m := n * q + r;
    assert m == n * (m / n) + m % n;
    assert n * (q - m / n) == m % n - r;
    MulBounds(n, q - m / n);
  }

  /** Within a window of n numbers the remainder by n tells them apart. */
  lemma ModUnique(a: int, b: int, n: int)
    requires n >= 1 && b <= a < b + n && a % n == b % n
    ensures a == b
  {
    var qa, qb := a / n, b / n;
    assert a == n * qa + a % n && b == n * qb + b % n;
    assert a - b == n * (qa - qb);
    MulBounds(n, qa - qb);
  }

  lemma MulMonotone(x: int, y: int, z: int)
    requires x <= y && 0 <= z
    ensures x * z <= y * z
  {
  }

  lemma MulDistributes(x: int, y: int, z: int)
    ensures (x + y) * z == x * z + y * z
  {
  }

  lemma MulAssociates(x: int, y: int, z: int)
    ensures (x * y) * z == x * (y * z)
  {
  }

  lemma DivShrinks(v: nat, b: nat)
    requires b >= 1
    ensures v / b <= v
    ensures v < b ==> v / b == 0
  {
    var q := v / b;
    assert v == b * q + v % b;
    MulMonotone(1, b, q);
    if v < b && q >= 1 {
      MulMonotone(1, q, b);
    }
  }
}
