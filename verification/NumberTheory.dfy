/** Division with remainder, the extended Euclidean algorithm and modular inverses. */
module NumberTheory {

  /** `m` divides `x`, the quotient being a witness. */
  ghost predicate Divides(m: int, x: int) { exists k: int :: x == m * k }

  lemma ModUnique(x: int, m: int, r: int, k: int)
    requires m > 0 && 0 <= r < m && x == m * k + r
    ensures x % m == r
  {
    var q, s := x / m, x % m;
    assert x == m * q + s;
    assert m * (q - k) == r - s;
    assert m * (k - q) == -(m * (q - k));
    if q > k { MulAtLeast(m, q - k); } else if q < k { MulAtLeast(m, k - q); }
  }

  lemma MulAtLeast(m: int, d: int)
    requires m > 0 && d >= 1
    ensures m * d >= m
  {
  }

  /** Extended Euclid: a greatest common divisor as an integer combination. */
  function Egcd(a: nat, b: nat): (r: (nat, int, int))
    ensures a > 0 || b > 0 ==> r.0 > 0
    decreases b
  {
    if b == 0 then (a, 1, 0)
    else
      var (g, x, y) := Egcd(b, a % b);
      (g, y, x - (a / b) * y)
  }

  lemma {:induction false} Bezout(a: nat, b: nat)
    ensures var (g, x, y) := Egcd(a, b); a * x + b * y == g
    decreases b
  {
    if b == 0 {
      assert a * 1 + b * 0 == a;
    } else {
      Bezout(b, a % b);
      var (g, x, y) := Egcd(b, a % b);
      BezoutStep(a, b, a / b, a % b, x, y);
      assert Egcd(a, b) == (g, y, x - (a / b) * y);
    }
  }

  lemma BezoutStep(a: int, b: int, q: int, r: int, x: int, y: int)
    requires a == b * q + r
    ensures a * y + b * (x - q * y) == b * x + r * y
  {
    assert a * y == b * q * y + r * y;
    assert b * (x - q * y) == b * x - b * (q * y);
    assert b * q * y == b * (q * y);
  }

  lemma {:induction false} EgcdDivides(a: nat, b: nat)
    requires a > 0 || b > 0
    ensures Divides(Egcd(a, b).0, a) && Divides(Egcd(a, b).0, b)
    decreases b
  {
    hide Divides;
    var g := Egcd(a, b).0;
    if b == 0 {
      DividesSelf(g);
    } else {
      EgcdDivides(b, a % b);
      DividesSum(g, a, b, a / b, a % b);
    }
  }

  lemma DividesSelf(g: int)
    ensures Divides(g, g) && Divides(g, 0)
  {
    assert g == g * 1 && 0 == g * 0;
  }

  lemma DividesSum(g: int, a: int, b: int, q: int, r: int)
    requires Divides(g, b) && Divides(g, r) && a == b * q + r
    ensures Divides(g, a)
  {
    var k :| b == g * k;
    var m :| r == g * m;
    assert b * q == g * (k * q);
    assert a == g * (k * q + m);
  }

  /** `pow(m, -1, span)` */
  function Inverse(m: nat, span: nat): (r: int)
    requires span > 0
    ensures 0 <= r < span
  {
    Egcd(m, span).1 % span
  }

  lemma InverseInverts(m: nat, span: nat)
    requires span > 1 && Egcd(m, span).0 == 1
    ensures exists t: int :: m * Inverse(m, span) == 1 + span * t
  {
    hide Egcd;
    Bezout(m, span);
    var (g, x, y) := Egcd(m, span);
    var q, r := x / span, x % span;
    assert x == span * q + r;
    ReduceFactor(m, span, x, y, q, r);
    assert m * Inverse(m, span) == 1 + span * (-y - m * q);
  }

  lemma ReduceFactor(m: int, span: int, x: int, y: int, q: int, r: int)
    requires m * x + span * y == 1 && x == span * q + r
    ensures m * r == 1 + span * (-y - m * q)
  {
    assert m * x == m * (span * q) + m * r;
    assert m * (span * q) == span * (m * q);
    assert span * (-y - m * q) == -(span * y) - span * (m * q);
  }

  /** Multiplying by `m` and then by its inverse is the identity on residues. */
  lemma UndoMultiply(n: int, m: int, inv: int, span: int, t: int)
    requires span > 0 && 0 <= n < span && m * inv == 1 + span * t
    ensures (n * m) % span * inv % span == n
  {
    var q, r := n * m / span, n * m % span;
    assert n * m == span * q + r;
    assert n * m * inv == n * (m * inv) == n * (1 + span * t) == n + n * (span * t);
    assert n * (span * t) == span * (n * t);
    assert n * m * inv == (span * q + r) * inv == span * q * inv + r * inv;
    assert span * q * inv == span * (q * inv);
    assert r * inv == span * (n * t - q * inv) + n by {
      assert span * (n * t - q * inv) == span * (n * t) - span * (q * inv);
    }
    ModUnique(r * inv, span, n, n * t - q * inv);
  }

  lemma DividesCombination(g: int, a: int, b: int, x: int, y: int)
    requires Divides(g, a) && Divides(g, b)
    ensures Divides(g, a * x - b * y)
  {
    var k :| a == g * k;
    var m :| b == g * m;
    assert a * x == g * (k * x) && b * y == g * (m * y);
    assert a * x - b * y == g * (k * x - m * y);
  }

  /** An inverse witnesses that two numbers are coprime. */
  lemma CoprimeByInverse(m: nat, span: nat, inv: int, t: int)
    requires span > 0 && m * inv == 1 + span * t
    ensures Egcd(m, span).0 == 1
  {
    var g := Egcd(m, span).0;
    EgcdDivides(m, span);
    DividesCombination(g, m, span, inv, t);
    var k :| 1 == g * k;
    if g > 1 && k >= 1 { MulAtLeast(k, g); }
    if g > 1 && k <= 0 { MulSign(g, k); }
  }

  lemma MulSign(g: int, k: int)
    requires g > 0 && k <= 0
    ensures g * k <= 0
  {
  }
}
