/** Products and quotients: just enough arithmetic for sizes that are counted in units. */
module Arith {
  lemma {:induction false} MulStep(a: nat, b: nat, m: nat)
    requires a < b
    ensures a * m + m <= b * m
  {
    if b > a + 1 {
      MulStep(a, b - 1, m);
      assert b * m == (b - 1) * m + m;
    }
  }

  lemma MulAtMost(a: nat, b: nat, m: nat)
    requires a <= b
    ensures a * m <= b * m
  {
    if a < b {
      MulStep(a, b, m);
    }
  }

  // How many units of b cover n.
  function Cover(n: nat, b: nat): nat
    requires b > 0
  {
    (n + b - 1) / b
  }

  lemma CoverIs(n: nat, k: nat, b: nat)
    requires b > 0 && n <= k * b < n + b
    ensures Cover(n, b) == k
  {
    var x := n + b - 1;
    var q := x / b;
    var qb, kb, r := q * b, k * b, x % b;
    assert x == qb + r;
    if q < k {
      MulStep(q, k, b);
    } else if q > k {
      MulStep(k, q, b);
    }
  }

  lemma CoverHolds(n: nat, b: nat)
    requires b > 0
    ensures n <= Cover(n, b) * b < n + b
  {
    var x := n + b - 1;
    assert x == x / b * b + x % b;
  }

  lemma CoverExact(k: nat, b: nat)
    requires b > 0
    ensures Cover(k * b, b) == k
  {
    CoverIs(k * b, k, b);
  }

  // Fewer units do not cover it.
  lemma CoverLess(n: nat, k: nat, b: nat)
    requires b > 0 && k < Cover(n, b)
    ensures k * b < n
  {
    CoverHolds(n, b);
    MulStep(k, Cover(n, b), b);
  }

  lemma CoverMono(m: nat, n: nat, b: nat)
    requires b > 0 && m <= n
    ensures Cover(m, b) <= Cover(n, b)
  {
    if Cover(n, b) < Cover(m, b) {
      CoverLess(m, Cover(n, b), b);
      CoverHolds(n, b);
    }
  }

  lemma DivAdd(x: nat, y: nat, d: nat)
    requires d > 0 && x % d == 0
    ensures (x + y) / d == x / d + y / d
  {
    var q, a, b := (x + y) / d, x / d, y / d;
    assert x == a * d && y == b * d + y % d && x + y == q * d + (x + y) % d;
    assert (a + b) * d == a * d + b * d;
    if q > a + b {
      MulStep(a + b, q, d);
    } else if q < a + b {
      MulStep(q, a + b, d);
    }
  }

  lemma DivIs(x: nat, d: nat, q: nat, r: nat)
    requires r < d && x == q * d + r
    ensures x / d == q && x % d == r
  {
    var p, s := x / d, x % d;
    var pd, qd := p * d, q * d;
    assert x == pd + s;
    if p < q {
      MulStep(p, q, d);
    } else if q < p {
      MulStep(q, p, d);
    }
  }
}
