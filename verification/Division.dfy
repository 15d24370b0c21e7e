/** Facts about integer division. */
module Division {

  lemma AtLeast(n: nat, k: nat)
    requires k > 0
    ensures n * k >= n
  {
  }

  lemma DivUnique(x: nat, n: nat, q: nat, r: nat)
    requires x == n * q + r && r < n
    ensures x / n == q && x % n == r
  {
    var p, s := x / n, x % n;
    assert x == n * p + s;
    assert n * p - n * q == n * (p - q);
    if p > q {
      AtLeast(n, p - q);
      assert false;
    } else if p < q {
      assert n * (q - p) == n * q - n * p;
      AtLeast(n, q - p);
      assert false;
    }
  }

  lemma DivTwice(x: nat, a: nat, b: nat)
    requires a > 0 && b > 0
    ensures a * b > 0 && x / (a * b) == x / a / b
  {
    var q, r := x / a, x % a;
    AtLeast(a, b);
    assert x == a * q + r && q == b * (q / b) + q % b;
    assert a * q == a * b * (q / b) + a * (q % b);
    assert a * (q % b) + r < a * b by {
      Times(a, q % b + 1, b);
    }
    DivUnique(x, a * b, q / b, a * (q % b) + r);
  }

  lemma Times(a: nat, b: nat, c: nat)
    requires b <= c
    ensures a * b <= a * c
  {
  }

  lemma AddDivisor(y: nat, n: nat)
    requires n > 0
    ensures (y + n) / n == y / n + 1
  {
    DivUnique(y + n, n, y / n + 1, y % n);
  }

  lemma {:induction false} DivMonotone(a: nat, b: nat, c: nat)
    requires c > 0 && a <= b
    ensures a / c <= b / c
  {
    if a >= c {
      DivMonotone(a - c, b - c, c);
      AddDivisor(a - c, c);
      AddDivisor(b - c, c);
    }
  }
}
