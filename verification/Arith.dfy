/** Division and remainder facts used by the index and tiling proofs. */
module Arith {

  lemma MulPositive(a: int, b: int)
    requires a > 0 && b > 0
    ensures a * b > 0
  {}

  lemma MulMonotone(a: int, b: int, c: int)
    requires a <= b && c >= 0
    ensures a * c <= b * c
  {}

  lemma MulAssociates(a: int, b: int, c: int)
    ensures a * (b * c) == (a * b) * c
  {}

  /** Products of positive numbers are ordered strictly if a factor is. */
  lemma ScaledWithin(g: int, h: int, a: int, w: int)
    requires 1 <= g <= h && 1 <= a <= w
    ensures 1 <= a * g <= w * h && a * g >= g && a * g >= a
    ensures g < h || a < w ==> a * g < w * h
  {
    MulMonotone(a, w, g);
    MulMonotone(g, h, w);
    MulMonotone(1, a, g);
    MulMonotone(1, g, a);
    if g < h {
      MulMonotone(g + 1, h, w);
    } else if a < w {
      MulMonotone(a + 1, w, g);
    }
  }

  /** Quotient and remainder are determined by the decomposition. */
  lemma DivModUnique(n: int, q: int, d: int, r: int)
    requires d > 0 && 0 <= r < d && n == q * d + r
    ensures n / d == q && n % d == r
  {
    var q', r' := n / d, n % d;
    assert n == q' * d + r';
    assert (q - q') * d == r' - r && (q' - q) * d == r - r';
    if q > q' {
      MulMonotone(1, q - q', d);
    } else if q < q' {
      MulMonotone(1, q' - q, d);
    }
  }

  /** Splitting a digit of base h * o into a digit of base h and one of base o. */
  lemma DigitSplit(m: int, h: int, o: int)
    requires m >= 0 && h > 0 && o > 0
    ensures h * o > 0
    ensures m / (h * o) == (m / h) / o
    ensures m % (h * o) == m % h + h * ((m / h) % o)
  {
    MulPositive(h, o);
    var a, r := m / h, m % h;
    var b, s := a / o, a % o;
    assert m == (b * o + s) * h + r;
    assert m == b * (h * o) + (s * h + r) by {
      assert (b * o + s) * h == b * (h * o) + s * h;
    }
    assert 0 <= s * h;
    assert s * h + r < h * o by {
      MulMonotone(s, o - 1, h);
      assert (o - 1) * h == o * h - h;
    }
    DivModUnique(m, b, h * o, s * h + r);
  }

  lemma NestedQuotient(n: int, u: int, m: int)
    requires n >= 0 && u > 0 && m > 0
    ensures m * u > 0 && n / (m * u) == n / u / m
  {
    DigitSplit(n, u, m);
    assert m * u == u * m;
  }

  /** The quotient by d is below o when the dividend is below o * d. */
  lemma QuotientBound(n: int, d: int, o: int)
    requires 0 <= n < o * d && d > 0
    ensures 0 <= n / d < o
  {}

  /** Division that rounds toward zero. */
  function TruncDiv(n: int, d: int): (q: int)
    requires d > 0
  {
    if n >= 0 then n / d else -(-n / d)
  }

  /** (n + d - 1) / d is the least k with k * d >= n. */
  lemma CeilDiv(n: int, d: int)
    requires n >= 0 && d > 0
    ensures var k := (n + d - 1) / d; (k - 1) * d < n <= k * d && k >= 0
  {}

  lemma FloorAtLeast(n: nat, d: nat, k: nat)
    requires d > 0 && k * d <= n
    ensures n / d >= k
  {
    assert (n / d + 1) * d == n / d * d + d;
    if n / d < k {
      MulMonotone(n / d + 1, k, d);
    }
  }

  /** Any k with k * d >= n bounds the rounded-up quotient. */
  lemma CeilDivLeast(n: int, d: int, k: int)
    requires n >= 0 && d > 0 && n <= k * d
    ensures (n + d - 1) / d <= k
  {
    CeilDiv(n, d);
    var c := (n + d - 1) / d;
    if c > k {
      MulMonotone(k, c - 1, d);
    }
  }

  /** Adding a whole number of periods d * m leaves the digit above m unchanged. */
  lemma DigitPeriodic(n: int, j: int, d: int, m: int)
    requires n >= 0 && j >= 0 && d > 0 && m > 0
    ensures j * (d * m) == (j * d) * m && j * d >= 0
    ensures ((j * (d * m) + n) / m) % d == (n / m) % d
  {
    var jd := j * d;
    assert j * (d * m) == jd * m;
    DivModUnique(jd * m + n, jd + n / m, m, n % m) by {
      assert (jd + n / m) * m == jd * m + (n / m) * m;
    }
    DivModUnique(jd + n / m, j + (n / m) / d, d, (n / m) % d) by {
      assert (j + (n / m) / d) * d == jd + ((n / m) / d) * d;
    }
  }

  /** Two neighbouring digits weighed separately equal the merged digit. */
  lemma MergeDigits(n: int, m: int, w: int, h: int, b: int)
    requires n >= 0 && m > 0 && h > 0 && b > 0
    ensures h * m > 0 && h * b > 0
    ensures ((n / m) % (h * b)) * w == ((n / (h * m)) % b) * (h * w) + ((n / m) % h) * w
  {
    DigitSplit(n / m, h, b);
    DigitSplit(n, m, h);
    var lo, hi := (n / m) % h, ((n / m) / h) % b;
    assert m * h == h * m;
    assert (lo + h * hi) * w == lo * w + hi * (h * w);
  }

  function Pow2(n: nat): (p: nat)
    ensures p > 0
  {
    if n == 0 then 1 else 2 * Pow2(n - 1)
  }
}
