/** Powers of two and the few facts about divisibility that address arithmetic needs. */
module Powers {

  function Pow2(n: nat): (p: nat)
    ensures p > 0
  {
    if n == 0 then 1 else 2 * Pow2(n - 1)
  }

  lemma {:induction false} Pow2Add(m: nat, n: nat)
    ensures Pow2(m + n) == Pow2(m) * Pow2(n)
  {
    if m > 0 {
      Pow2Add(m - 1, n);
      DoubleProduct(Pow2(m - 1), Pow2(n));
    }
  }

  lemma DoubleProduct(a: nat, b: nat)
    ensures 2 * (a * b) == (2 * a) * b
  {
  }

  lemma {:induction false} Pow2Monotone(m: nat, n: nat)
    requires m < n
    ensures 2 * Pow2(m) <= Pow2(n)
    decreases n
  {
    if m < n - 1 {
      Pow2Monotone(m, n - 1);
    }
  }

  lemma Pow2Below(m: nat, n: nat)
    requires Pow2(m) <= Pow2(n)
    ensures m <= n
  {
    if n < m {
      Pow2Monotone(n, m);
    }
  }

  lemma MulMonotone(d: nat, a: int, b: int)
    requires a <= b
    ensures d * a <= d * b
  {
    assert d * b == d * a + d * (b - a);
  }

  lemma MulLess(d: nat, a: int, b: int)
    requires d > 0 && d * a < d * b
    ensures a < b
  {
    if b <= a {
      MulMonotone(d, b, a);
    }
  }

  /** Two different multiples of d are at least d apart. */
  lemma MultiplesApart(a: nat, b: nat, d: nat)
    requires d > 0 && a % d == 0 && b % d == 0 && a < b
    ensures a + d <= b
  {
    var qa, qb := a / d, b / d;
    assert a == d * qa && b == d * qb;
    QuotientsApart(d, qa, qb);
  }

  lemma QuotientsApart(d: nat, p: int, q: int)
    requires d * p < d * q
    ensures d * p + d <= d * q
  {
    MulLess(d, p, q);
    MulMonotone(d, p + 1, q);
  }

  /** Quotient and remainder are unique. */
  lemma DivModUnique(x: int, d: nat, q: int, r: nat)
    requires r < d && x == d * q + r
    ensures x / d == q && x % d == r
  {
    var p := x / d;
    if q < p {
      MulMonotone(d, q + 1, p);
    } else if p < q {
      MulMonotone(d, p + 1, q);
    }
  }

  lemma MultipleIff(x: int, d: nat, q: int)
    requires d > 0 && x == d * q
    ensures x % d == 0 && x / d == q
  {
    DivModUnique(x, d, q, 0);
  }

  lemma SumOfMultiples(a: nat, b: nat, d: nat)
    requires d > 0 && a % d == 0 && b % d == 0
    ensures (a + b) % d == 0
  {
    assert a + b == d * (a / d) + d * (b / d) == d * (a / d + b / d);
    MultipleIff(a + b, d, a / d + b / d);
  }

  lemma MultipleOfFactor(x: nat, a: nat, b: nat, c: nat)
    requires a > 0 && b > 0 && c == a * b && x % c == 0
    ensures x % a == 0
  {
    var q := x / c;
    assert x == c * q == a * (b * q);
    MultipleIff(x, a, b * q);
  }

  /** A multiple of a power of two is a multiple of every smaller one. */
  lemma CoarserMultiple(x: nat, j: nat, k: nat)
    requires j <= k && x % Pow2(k) == 0
    ensures x % Pow2(j) == 0
  {
    Pow2Add(j, k - j);
    MultipleOfFactor(x, Pow2(j), Pow2(k - j), Pow2(k));
  }

  lemma PowIsMultiple(j: nat, k: nat)
    requires j <= k
    ensures Pow2(k) % Pow2(j) == 0
  {
    Pow2Add(j, k - j);
    MultipleIff(Pow2(k), Pow2(j), Pow2(k - j));
  }

  /** Halving commutes with divisibility by powers of two. */
  lemma HalfMultiple(x: nat, k: nat)
    requires x % 2 == 0
    ensures x % Pow2(k + 1) == 0 <==> (x / 2) % Pow2(k) == 0
  {
    var h := x / 2;
    if h % Pow2(k) == 0 {
      var q := h / Pow2(k);
      assert x == 2 * (Pow2(k) * q) == Pow2(k + 1) * q;
      MultipleIff(x, Pow2(k + 1), q);
    }
    if x % Pow2(k + 1) == 0 {
      var q := x / Pow2(k + 1);
      assert x == (2 * Pow2(k)) * q == 2 * (Pow2(k) * q);
      MultipleIff(h, Pow2(k), q);
    }
  }

  lemma OddNotMultiple(x: nat, k: nat)
    requires x % 2 == 1 && k > 0
    ensures x % Pow2(k) != 0
  {
    assert Pow2(1) == 2;
    if x % Pow2(k) == 0 {
      CoarserMultiple(x, 1, k);
    }
  }

  /** v with its t low bits cleared. */
  function Floor(v: nat, t: nat): int {
    v - v % Pow2(t)
  }

  lemma RoundDown(v: nat, p: nat)
    requires p > 0
    ensures v - v % p >= 0 && (v - v % p) % p == 0
  {
    assert v == p * (v / p) + v % p;
    MultipleIff(v - v % p, p, v / p);
  }

  lemma FloorIsMultiple(v: nat, t: nat)
    ensures 0 <= Floor(v, t) <= v && Floor(v, t) % Pow2(t) == 0
  {
    RoundDown(v, Pow2(t));
  }

  lemma RoundInside(p: nat, x: nat, a: nat, b: nat)
    requires a * b == 256
    ensures a > 0 && (256 * p + x) % a == x % a
  {
    var q := x / a;
    assert 256 * p == (a * b) * p == a * (b * p);
    assert a * (b * p + q) == a * (b * p) + a * q;
    DivModUnique(256 * p + x, a, b * p + q, x % a);
  }

  lemma RoundAcross(p: nat, x: nat, d: nat, e: nat)
    requires x < 256 && d > 0 && e == 256 * d
    ensures (256 * p + x) % e == 256 * (p % d) + x
  {
    var q, m := p / d, p % d;
    assert p == d * q + m;
    assert e * q == 256 * (d * q);
    DivModUnique(256 * p + x, e, q, 256 * m + x);
  }

  /** Clearing low bits of a byte string: whole bytes first, then bits of one byte. */
  lemma FloorSplit(p: nat, x: nat, r: nat)
    requires x < 256
    ensures r <= 8 ==> Floor(256 * p + x, r) == 256 * p + Floor(x, r)
    ensures r >= 8 ==> Floor(256 * p + x, r) == 256 * Floor(p, r - 8)
  {
    assert Pow2(8) == 256;
    if r <= 8 {
      Pow2Add(r, 8 - r);
      RoundInside(p, x, Pow2(r), Pow2(8 - r));
    }
    if r >= 8 {
      Pow2Add(8, r - 8);
      RoundAcross(p, x, Pow2(r - 8), Pow2(r));
    }
  }
}
