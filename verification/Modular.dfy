/// Remainders and quotients by an arbitrary positive modulus.
module Modular {
  lemma MulBound(m: int, d: int)
    requires m > 0
    ensures d > 0 ==> m * d >= m
    ensures d < 0 ==> m * d <= -m
  {
    if d > 0 {
      assert m * d == m * (d - 1) + m;
      assert m * (d - 1) >= 0;
    } else if d < 0 {
      assert m * d == -(m * (-d - 1)) - m;
      assert m * (-d - 1) >= 0;
    }
  }

  lemma Distribute(m: int, a: int, b: int)
    ensures m * (a + b) == m * a + m * b
    ensures m * (a - b) == m * a - m * b
  {
  }

  /// Quotient and remainder are what multiplies back.
  lemma DivUnique(x: int, m: int, q: int, r: int)
    requires 0 <= r < m && x == m * q + r
    ensures x / m == q && x % m == r
  {
    var k, e := x / m, x % m;
    assert x == m * k + e && 0 <= e < m;
    Distribute(m, k, q);
    MulBound(m, k - q);
  }

  lemma Quotient(x: int, m: int)
    requires x >= 0 && m > 0
    ensures x / m >= 0 && m * (x / m) <= x < m * (x / m) + m && x % m == x - m * (x / m)
  {
    MulBound(m, x / m);
  }

  lemma Floor(x: nat, m: nat, n: int)
    requires m > 0
    ensures x / m == n <==> m * n <= x < m * n + m
  {
    Quotient(x, m);
    if m * n <= x < m * n + m {
      DivUnique(x, m, n, x - m * n);
    }
  }

  lemma Ceiling(x: nat, m: nat, n: int)
    requires m > 0
    ensures (x + m - 1) / m == n <==> m * n - m < x <= m * n
  {
    Floor(x + m - 1, m, n);
  }

  lemma ModEq(a: int, b: int, m: int, t: int)
    requires m > 0 && a == b + m * t
    ensures a % m == b % m
  {
    Distribute(m, b / m, t);
    DivUnique(a, m, b / m + t, b % m);
  }

  /// Reducing the minuend first changes nothing.
  lemma ModSub(a: int, b: int, m: int)
    requires m > 0
    ensures (a % m - b) % m == (a - b) % m
  {
    assert a - b == (a % m - b) + m * (a / m);
    ModEq(a - b, a % m - b, m, a / m);
  }

  /// A modulus sees only what a multiple of it keeps.
  lemma ModMod(a: int, m: int, c: int)
    requires m > 0 && c > 0
    ensures m * c > 0 && a % (m * c) % m == a % m
  {
    assert m * c > 0;
    var q := a / (m * c);
    assert a == a % (m * c) + m * (c * q) by {
      assert a == (m * c) * q + a % (m * c);
      assert (m * c) * q == m * (c * q);
    }
    ModEq(a, a % (m * c), m, c * q);
  }

  /// Subtracting and adding back is the identity on residues.
  lemma SubThenAdd(a: int, p: int, m: int)
    requires 0 <= a < m
    ensures ((a - p) % m + p) % m == a
    ensures ((a + p) % m - p) % m == a
  {
    ModSub(a - p, -p, m);
    ModSub(a + p, p, m);
    DivUnique(a, m, 0, a);
  }

  /// Scaling up, moving and scaling down moves by the position's whole units.
  lemma ScaledMove(a: int, p: int, c: int, d: int)
    requires c > 0 && d > 0
    ensures c * d > 0 && (c * a + p) % (c * d) / c == (a + p / c) % d
  {
    assert c * d > 0;
    var k, r := p / c, p % c;
    var q, x := (a + k) / d, (a + k) % d;
    assert a + k == d * q + x;
    assert c * a + p == (c * d) * q + (c * x + r) by {
      Distribute(c, a, k);
      Distribute(c, d * q, x);
      assert c * (d * q) == (c * d) * q;
    }
    assert 0 <= c * x + r < c * d by {
      MulBound(c, d - x);
      Distribute(c, d, x);
      assert c * x >= 0;
    }
    DivUnique(c * a + p, c * d, q, c * x + r);
    DivUnique(c * x + r, c, x, r);
  }

  lemma DivDiv(v: int, a: int, b: int)
    requires a > 0 && b > 0
    ensures a * b > 0 && v / (a * b) == v / a / b
  {
    assert a * b > 0;
    var q, r := v / a / b, v / a % b;
    assert v / a == b * q + r;
    assert v == a * (b * q + r) + v % a;
    Distribute(a, b * q, r);
    assert a * (b * q) == (a * b) * q;
    MulBound(a, b - r);
    Distribute(a, b, r);
    assert a * r >= 0;
    DivUnique(v, a * b, q, a * r + v % a);
  }

  /// Dividing a bound by a factor of it.
  lemma DivBound(v: int, c: int, n: int)
    requires c > 0
    ensures v < c * n <==> v / c < n
  {
    assert v == c * (v / c) + v % c;
    Distribute(c, n, v / c);
    MulBound(c, n - v / c);
  }
}
