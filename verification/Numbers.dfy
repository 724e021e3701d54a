/** Small facts about numbers that several components share. */
module Numbers {

  function MinInt(a: int, b: int): int { if a < b then a else b }
  function MaxInt(a: int, b: int): int { if a < b then b else a }
  function MaxReal(a: real, b: real): real { if a < b then b else a }

  function Ceil(x: real): int { -(-x).Floor }

  /** A level follows the occupancy up at once and down at a limited rate. */
  function FollowLevel(level: real, occupancy: int, rate: real): real {
    if occupancy as real < level then MaxReal(occupancy as real, level - rate) else occupancy as real
  }

  // Products of integers, one fact at a time

  lemma {:induction false} NonNegativeProduct(a: int, b: int)
    requires a >= 0 && b >= 0
    ensures a * b >= 0
  {
  }

  lemma {:induction false} PositiveProduct(a: int, b: int)
    requires a > 0 && b > 0
    ensures a * b > 0
  {
  }

  lemma {:induction false} DifferenceProduct(a: int, b: int, c: int)
    ensures (a - b) * c == a * c - b * c
  {
  }

  /** Products grow with their first factor. */
  lemma {:induction false} ProductGrows(a: int, b: int, c: int)
    requires a <= b && c >= 0
    ensures a * c <= b * c
  {
    NonNegativeProduct(b - a, c);
    DifferenceProduct(b, a, c);
  }

  /** One more row of c. */
  lemma {:induction false} NextProduct(a: int, c: int)
    ensures (a + 1) * c == a * c + c
  {
  }

  /** At least one row. */
  lemma {:induction false} AtLeastOnce(k: int, n: int)
    requires k >= 1 && n > 0
    ensures k * n >= n
  {
  }

  /** Quotient and remainder are unique. */
  lemma {:induction false} ModUnique(a: int, k: int, s: int, n: int)
    requires 0 <= s < n && a == k * n + s
    ensures a % n == s && a / n == k
  {
    var q, r := a / n, a % n;
    assert a == q * n + r;
    assert (q - k) * n == s - r;
    if q > k {
      AtLeastOnce(q - k, n);
    } else if q < k {
      assert (k - q) * n == r - s;
      AtLeastOnce(k - q, n);
    }
  }

  /** A multiple divides exactly. */
  lemma {:induction false} DivideMultiple(k: int, n: int)
    requires n > 0
    ensures (k * n) / n == k && (k * n) % n == 0
  {
    ModUnique(k * n, k, 0, n);
  }

  lemma {:induction false} InRange(p: int, n: int)
    requires n > 0
    ensures 0 <= p % n < n
  {
  }

  lemma {:induction false} SmallRemainder(p: int, n: int)
    requires 0 <= p < n
    ensures p % n == p
  {
    ModUnique(p, 0, p, n);
  }
}
