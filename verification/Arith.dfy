/** Facts about products, quotients and remainders. */
module Arith {

  function Div(n: nat, m: nat): nat
    requires m > 0
  {
    n / m
  }

  function Mod(n: nat, m: nat): (r: nat)
    requires m > 0
    ensures r < m
  {
    n % m
  }

  lemma MulAtLeast(k: int, m: int)
    requires m >= 0
    ensures k >= 1 ==> k * m >= m
    ensures k <= -1 ==> k * m <= -m
  {
  }

  /** Quotient and remainder are unique. */
  lemma RemainderIs(a: nat, q: nat, r: nat, m: nat)
    requires r < m && a == q * m + r
    ensures a % m == r && a / m == q
  {
    var d := q - a / m;
    assert a == a / m * m + a % m;
    assert d * m == a % m - r;
    MulAtLeast(d, m);
  }

  lemma MultipleHasNoRemainder(k: nat, m: nat)
    requires m > 0
    ensures (k * m) % m == 0 && k * m / m == k
  {
    RemainderIs(k * m, k, 0, m);
  }

  /** Rounding down gives a multiple. */
  lemma RoundedDown(p: nat, m: nat)
    requires m > 0
    ensures p >= p % m && (p - p % m) % m == 0
  {
    assert p == p / m * m + p % m;
    MultipleHasNoRemainder(p / m, m);
  }

  /** Two multiples are at least one unit apart. */
  lemma MultipleAbove(p: nat, q: nat, m: nat)
    requires m > 0 && p % m == 0 && q % m == 0 && p < q
    ensures p + m <= q
  {
    var d := q / m - p / m;
    assert p == p / m * m && q == q / m * m;
    assert q - p == d * m;
    MulAtLeast(d, m);
  }

  lemma MultipleOfMultiple(n: nat, page: nat, width: nat)
    requires page > 0 && width > 0 && page % width == 0 && n % page == 0
    ensures n % width == 0
  {
    var k, j := n / page, page / width;
    assert n == k * page && page == j * width;
    assert n == (k * j) * width;
    MultipleHasNoRemainder(k * j, width);
  }

  lemma Quotient(n: nat, m: nat)
    requires m > 0
    ensures n == n / m * m + n % m && n % m < m && n / m * m <= n
  {
  }

  lemma QuotientLess(n: nat, m: nat)
    requires 0 < m <= n
    ensures n / m == (n - m) / m + 1
  {
    var q := (n - m) / m;
    assert (q + 1) * m == q * m + m;
    RemainderIs(n, q + 1, (n - m) % m, m);
  }

  lemma MulMonotone(a: nat, b: nat, c: nat, d: nat)
    requires a <= b && c <= d
    ensures a * c <= b * d
  {
    assert a * c <= b * c <= b * d;
  }

  lemma QuotientSmaller(n: nat, m: nat)
    requires m >= 2
    ensures n / m == 0 ==> n % m == n
    ensures n / m > 0 ==> n / m < n
  {
    var q := n / m;
    Quotient(n, m);
    if q == 0 {
      assert q * m == 0;
    } else {
      MulMonotone(q, q, 2, m);
    }
  }

  /** Wrapping may be done at every step. */
  lemma WrapStep(v: int, b: int, c: int, m: nat)
    requires m > 0
    ensures (v % m * b + c % m) % m == (v * b + c) % m
    ensures 0 <= c < m ==> (v % m * b + c) % m == (v * b + c) % m
  {
    var q, r := v / m, v % m;
    var k := q * b + c / m;
    assert v == q * m + r;
    assert v * b == q * m * b + r * b;
    assert q * m * b == q * b * m;
    assert v * b + c == r * b + c % m + k * m;
    SameRemainder(r * b + c % m, k, m);
    if 0 <= c < m {
      RemainderIs(c, 0, c, m);
    }
  }

  lemma SameRemainder(a: int, k: int, m: nat)
    requires m > 0
    ensures (a + k * m) % m == a % m
  {
    var b := a + k * m;
    var d := b / m - a / m - k;
    assert d * m == a % m - b % m;
    MulAtLeast(d, m);
  }

  lemma QuotientAtLeast(n: nat, m: nat, k: nat)
    requires m > 0
    ensures Div(n, m) >= k <==> n >= k * m
  {
    var d := n / m - k;
    Quotient(n, m);
    assert n == k * m + d * m + n % m;
    MulAtLeast(d, m);
  }
}
