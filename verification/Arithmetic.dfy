/** The few facts about multiplication and division that sector and sextet arithmetic rest on. */
module Arithmetic {

  lemma NoMultiple(x: int, k: int)
    requires k > 0 && -k < x * k < k
    ensures x == 0
  {
  }

  /** Quotient and remainder are unique. */
  lemma UniqueDivision(a: int, k: int, q: int, r: int)
    requires 0 <= r < k && a == q * k + r
    ensures a / k == q && a % k == r
  {
    var d, e := a / k, a % k;
    assert a == k * d + e;
    assert (d - q) * k == r - e;
    NoMultiple(d - q, k);
  }

  lemma UniqueRemainder(k: int, m: int, r: int)
    requires 0 <= r < k
    ensures (k * m + r) % k == r
  {
    UniqueDivision(k * m + r, k, m, r);
  }

  lemma NestedMod(a: int, k: int, c: int)
    requires k > 0 && c > 0
    ensures k * c > 0 && a % (k * c) % k == a % k
  {
    var n := k * c;
    assert n > 0;
    var q, r := a / n, a % n;
    var d, e := r / k, r % k;
    assert n * q == k * (c * q);
    assert a == k * (c * q + d) + e;
    UniqueRemainder(k, c * q + d, e);
  }

  lemma Product(a: int, b: int, k: int)
    requires k > 0
    ensures a < b ==> a * k + k <= b * k
    ensures a <= b ==> a * k <= b * k
    ensures (a + 1) * k == a * k + k
  {
    if a < b {
      assert (b - a - 1) * k >= 0;
    }
  }

  lemma AtLeast(a: nat, k: nat)
    requires k > 0
    ensures a <= a * k
  {
    assert a * k == a + a * (k - 1);
  }

  /** Dividing an exact multiple. */
  lemma ExactQuotient(a: int, k: int)
    requires k > 0 && a % k == 0
    ensures a / k * k == a
  {
  }

  lemma QuotientTimes(a: nat, k: nat)
    requires k > 0
    ensures 0 <= a / k * k <= a
  {
  }

  lemma ExactSum(a: int, b: int, k: int)
    requires k > 0 && a % k == 0 && b % k == 0
    ensures (a + b) % k == 0 && (a + b) / k == a / k + b / k
  {
    ExactQuotient(a, k);
    ExactQuotient(b, k);
    assert a + b == (a / k + b / k) * k;
    UniqueDivision(a + b, k, a / k + b / k, 0);
  }

  /** The quotient of a number between two multiples. */
  lemma QuotientBetween(a: int, lo: int, hi: int, k: int)
    requires k > 0 && lo * k <= a < hi * k
    ensures lo <= a / k < hi && a / k * k + a % k == a && 0 <= a % k < k
    ensures lo * k <= a / k * k && a / k * k + k <= hi * k
  {
    var q := a / k;
    Product(q, lo, k);
    Product(hi, q, k);
    Product(lo, q, k);
    Product(q, hi, k);
  }

  /** The sector of an address in a region of whole sectors. */
  lemma SectorOf(a: int, lo: int, hi: int, k: int)
    requires k > 0 && lo % k == 0 && hi % k == 0 && lo <= a < hi
    ensures lo <= a / k * k && a / k * k + k <= hi && a / k * k + a % k == a
  {
    ExactQuotient(lo, k);
    ExactQuotient(hi, k);
    QuotientBetween(a, lo / k, hi / k, k);
  }

  lemma ExactMultiple(q: int, k: int)
    requires k > 0
    ensures q * k % k == 0 && q * k / k == q
  {
    UniqueDivision(q * k, k, q, 0);
  }

  lemma AtMostOne(a: nat, b: nat)
    requires a * b == 1
    ensures a == 1
  {
  }

  lemma EightTimes(c: int, q: int, size: int)
    requires size == 8 * c
    ensures q * size == 8 * (c * q)
  {
  }

  function Pow2(n: nat): nat {
    if n == 0 then 1 else 2 * Pow2(n - 1)
  }

  lemma {:induction false} OddDivisor(c: nat, q: nat, n: nat)
    requires c % 2 == 1 && c * q == Pow2(n)
    ensures c == 1
  {
    if n == 0 {
      AtMostOne(c, q);
    } else {
      var d, r := q / 2, q % 2;
      assert c * q == 2 * (c * d) + c * r;
      assert r == 0;
      OddDivisor(c, d, n - 1);
    }
  }

  lemma {:induction false} Pow2Sum(a: nat, b: nat)
    ensures Pow2(a + b) == Pow2(a) * Pow2(b)
  {
    if a > 0 {
      Pow2Sum(a - 1, b);
    }
  }
}
