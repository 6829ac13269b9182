/** The non-negative integers of JavaScript's Number: IEEE 754 binary64, 53-bit significands,
    round to nearest with ties to even. Overflow to infinity is far above every value used. */
module Doubles {

  const TWO53: nat := 0x20_0000_0000_0000
  const MAX_SAFE: nat := 0x1F_FFFF_FFFF_FFFF

  function Pow2(k: nat): (r: nat)
    ensures r > 0
  {
    if k == 0 then 1 else 2 * Pow2(k - 1)
  }

  /** How many low bits of `n` a 53-bit significand cannot hold. */
  function LostBits(n: nat): (k: nat)
    ensures n < TWO53 * Pow2(k)
    ensures k > 0 ==> n >= TWO53 * Pow2(k - 1)
    decreases n
  {
    if n < TWO53 then 0 else 1 + LostBits(n / 2)
  }

  /** `q * u + r` to a multiple of `u`: the nearer one, the even one in a tie. */
  function NearestEven(q: nat, r: nat, u: nat): nat {
    if 2 * r < u || (2 * r == u && q % 2 == 0) then q * u else (q + 1) * u
  }

  /** The Number that `n` becomes. */
  function Round(n: nat): nat {
    var u := Pow2(LostBits(n));
    NearestEven(n / u, n % u, u)
  }

  predicate IsDouble(n: nat) {
    Round(n) == n
  }

  lemma SmallIsExact(n: nat)
    requires n < TWO53
    ensures Round(n) == n
  {
    assert Pow2(0) == 1;
    assert n / 1 == n && n % 1 == 0;
  }

  function Distance(a: int, b: int): nat { if a < b then b - a else a - b }

  /** No other multiple of the last kept place is nearer, and of two equally near ones the even
      one is taken. */
  lemma RoundIsNearest(n: nat, k: nat)
    ensures var u := Pow2(LostBits(n));
            && Distance(Round(n), n) <= Distance(k * u, n)
            && (Distance(Round(n), n) == Distance(k * u, n) && Round(n) != k * u ==> k % 2 == 1)
  {
    hide Pow2, LostBits, NearestEven, Distance;
    var u := Pow2(LostBits(n));
    DivMod(n, u);
    NearestEvenIsNearest(n / u, n % u, u, k);
  }

  lemma DivMod(n: nat, u: nat)
    requires u > 0
    ensures n == n / u * u + n % u && n % u < u
  {
  }

  lemma NearestEvenIsNearest(q: nat, r: nat, u: nat, k: nat)
    requires r < u
    ensures var n, x := q * u + r, NearestEven(q, r, u);
            Distance(x, n) <= Distance(k * u, n) && (Distance(x, n) == Distance(k * u, n) && x != k * u ==> k % 2 == 1)
  {
    var a, b, c := q * u, k * u, (q + 1) * u;
    assert c == a + u;
    if k < q { Apart(k, q, u); } else if k > q + 1 { Apart(q + 1, k, u); }
    NearOrOdd(q, r, u, k, a, b, c);
  }

  lemma Apart(k: nat, q: nat, u: nat)
    requires k < q
    ensures k * u + u <= q * u
  {
    MulMonotone(k + 1, q, u);
    assert (k + 1) * u == k * u + u;
  }

  lemma NearOrOdd(q: nat, r: nat, u: nat, k: nat, a: nat, b: nat, c: nat)
    requires r < u && c == a + u && (k < q ==> b + u <= a) && (k == q ==> b == a) && (k == q + 1 ==> b == c) &&
             (k > q + 1 ==> b >= c + u)
    ensures var n, x := a + r, if 2 * r < u || (2 * r == u && q % 2 == 0) then a else c;
            Distance(x, n) <= Distance(b, n) && (Distance(x, n) == Distance(b, n) && x != b ==> k % 2 == 1)
  {
  }

  /** Rounding never carries a value across 2^53. */
  lemma RoundKeepsLarge(n: nat)
    requires n >= TWO53
    ensures Round(n) >= TWO53
  {
    var k := LostBits(n);
    var h := Pow2(k - 1);
    assert Pow2(k) == 2 * h && n >= TWO53 * h;
    LargeQuotient(n, h);
    hide LostBits, Pow2;
  }

  lemma LargeQuotient(n: nat, h: nat)
    requires h > 0 && n >= TWO53 * h
    ensures NearestEven(n / (2 * h), n % (2 * h), 2 * h) >= TWO53
  {
    var u := 2 * h;
    var q := n / u;
    QuotientLarge(n, h, q);
    ProductAtLeast(q, u);
    assert (q + 1) * u == q * u + u;
  }

  lemma QuotientLarge(n: nat, h: nat, q: nat)
    requires h > 0 && n >= TWO53 * h && q == n / (2 * h)
    ensures q >= TWO53 / 2
  {
    if q < TWO53 / 2 {
      assert n < (q + 1) * (2 * h);
      assert q + 1 <= TWO53 / 2;
      MulMonotone(q + 1, TWO53 / 2, 2 * h);
      assert false;
    }
  }

  lemma MulMonotone(a: nat, b: nat, c: nat)
    requires a <= b
    ensures a * c <= b * c
  {
  }

  lemma ProductAtLeast(q: nat, u: nat)
    requires q >= TWO53 / 2 && u >= 2
    ensures q * u >= TWO53
  {
    MulMonotone(2, u, q);
  }

  /** `spent + amount > limit` in Number arithmetic decides the comparison of the exact
      integers, for every pair of summands and every safe limit. */
  lemma SumComparisonIsExact(spent: nat, amount: nat, limit: nat)
    requires limit <= MAX_SAFE
    ensures Round(spent + amount) > limit <==> spent + amount > limit
  {
    var n := spent + amount;
    if n < TWO53 { SmallIsExact(n); } else { RoundKeepsLarge(n); }
  }

  /** The limit has to be safe: above 2^53 the same test can miss an excess. */
  lemma SumComparisonNeedsSafeLimit()
    ensures TWO53 + 1 > TWO53 && !(Round(TWO53 + 1) > TWO53)
  {
    assert Pow2(0) == 1 && Pow2(1) == 2;
    assert LostBits(TWO53 + 1) == 1;
  }
}
