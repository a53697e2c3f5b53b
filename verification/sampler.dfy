/**
 * The snapshot sampler of `geoip_until_date`: the requested amount (a
 * positive integer from the command line, or "all") is clamped to the
 * catalog size N, and K = the clamped amount entries are picked at evenly
 * spaced indices `min(N - 1, i * N / (K - 1))`, with a single entry when
 * K = 1.
 */
module Sampler {
  import opened Wrappers

  /** The `--amount` option: a count, or "all" (the source's default, infinity). */
  datatype Amount = All | Count(n: int)

  /**
   * The command-line check on `--amount`: values below 1 are rejected with
   * the source's message; any other value is stored unchanged.
   */
  function CheckAmount(value: int): (r: Result<Amount, string>)
    ensures r.Success? <==> value >= 1
    ensures r.Success? ==> r.value == Count(value)
    ensures r.Failure? ==> r.error == "Amount should be greater than 0"
  {
    if value < 1 then Failure("Amount should be greater than 0") else Success(Count(value))
  }

  /** An amount the command line can produce. */
  predicate Valid(amount: Amount) {
    amount.Count? ==> amount.n >= 1
  }

  /** The amount after `if amount > N: amount = N`. */
  function Clamp(amount: Amount, n: nat): (k: int)
    ensures k <= n
    ensures amount.All? ==> k == n
    ensures amount.Count? ==> k == if amount.n > n then n else amount.n
  {
    match amount
    case All => n
    case Count(c) => if c > n then n else c
  }

  function Min(a: int, b: int): int {
    if a <= b then a else b
  }

  /** Python's `(i * n) // d` for non-negative operands. */
  function Spread(i: nat, n: nat, d: nat): nat
    requires d > 0
  {
    MulMono(i, 0, n);
    i * n / d
  }

  /** The catalog indices the sampler reads, in the order it reads them. */
  function SampleIndices(n: nat, amount: Amount): (r: seq<nat>)
    ensures forall i :: 0 <= i < |r| ==> r[i] < n
    ensures |r| == if Clamp(amount, n) >= 1 then Clamp(amount, n) else 0
  {
    var k := Clamp(amount, n);
    if k == 1 then [0]
    else if k <= 0 then []
    else seq(k, i requires 0 <= i < k => Min(n - 1, Spread(i, n, k - 1)))
  }

  /** The sampled catalog entries. */
  function Sample<T>(catalog: seq<T>, amount: Amount): (r: seq<T>)
    ensures |r| <= |catalog|
    ensures |r| == |SampleIndices(|catalog|, amount)|
    ensures forall j :: 0 <= j < |r| ==> r[j] == catalog[SampleIndices(|catalog|, amount)[j]]
  {
    var idx := SampleIndices(|catalog|, amount);
    seq(|idx|, j requires 0 <= j < |idx| => catalog[idx[j]])
  }

  // ---------------------------------------------------------------------
  // Integer division facts (Dafny's `/` on non-negative operands agrees
  // with Python's `//`).

  lemma DivUnique(a: int, d: int, q: int, r: int)
    requires d > 0 && 0 <= r < d && a == d * q + r
    ensures a / d == q
  {
    var q' := a / d;
    var r' := a % d;
    assert a == d * q' + r';
    if q' > q {
      assert d * q' >= d * (q + 1) by { MulMono(d, q + 1, q'); }
      assert false;
    } else if q' < q {
      assert d * q >= d * (q' + 1) by { MulMono(d, q' + 1, q); }
      assert false;
    }
  }

  lemma MulMono(d: int, x: int, y: int)
    requires d >= 0 && x <= y
    ensures d * x <= d * y
  {
    assert d * y - d * x == d * (y - x);
  }

  lemma DivMono(a: int, b: int, d: int)
    requires d > 0 && 0 <= a <= b
    ensures a / d <= b / d
  {
    if a / d > b / d {
      assert d * (a / d) >= d * (b / d + 1) by { MulMono(d, b / d + 1, a / d); }
      assert false;
    }
  }

  /** Adding at least one divisor raises the quotient by at least one. */
  lemma DivStep(a: int, b: int, d: int)
    requires d > 0 && a >= 0 && b >= d
    ensures (a + b) / d >= a / d + 1
  {
    DivUnique(a + d, d, a / d + 1, a % d);
    DivMono(a + d, a + b, d);
  }

  /** A quotient below a bound, from a product below the bound times the divisor. */
  lemma DivBelow(a: int, d: int, m: int)
    requires d > 0 && 0 <= a < d * m
    ensures a / d < m
  {
    if a / d >= m {
      assert d * (a / d) >= d * m by { MulMono(d, m, a / d); }
      assert false;
    }
  }

  /** Below K - 1 the quotient `i * N / (K - 1)` stays below N - 1, so the clamp is not needed. */
  lemma UnclampedIndex(i: int, n: int, k: int)
    requires 2 <= k <= n && 0 <= i < k - 1
    ensures i * n / (k - 1) < n - 1
  {
    assert i * n <= (k - 2) * n by { MulMono(n, i, k - 2); }
    assert (k - 1) * (n - 1) - (k - 2) * n == n - k + 1;
    DivBelow(i * n, k - 1, n - 1);
  }

  // ---------------------------------------------------------------------
  // Properties of the sampler.

  /**
   * For 2 <= K <= N the sampler reads K indices in [0, N-1], starting at 0,
   * ending at N-1, strictly increasing (so never the same snapshot twice),
   * and only the last index is clamped.
   */
  lemma {:induction false} SampleIndicesSpread(n: nat, amount: Amount)
    requires 2 <= Clamp(amount, n)
    ensures var k := Clamp(amount, n);
      var r := SampleIndices(n, amount);
      && |r| == k
      && r[0] == 0
      && r[k - 1] == n - 1
      && (forall i :: 0 <= i < k - 1 ==> r[i] == Spread(i, n, k - 1))
      && (forall i, j :: 0 <= i < j < k ==> r[i] < r[j])
  {
    var k := Clamp(amount, n);
    var r := SampleIndices(n, amount);
    assert r[0] == Min(n - 1, Spread(0, n, k - 1));
    assert r[k - 1] == n - 1 by {
      DivUnique((k - 1) * n, k - 1, n, 0);
    }
    forall i | 0 <= i < k - 1
      ensures r[i] == Spread(i, n, k - 1)
    {
      UnclampedIndex(i, n, k);
    }
    forall i | 0 <= i < k - 1
      ensures r[i] < r[i + 1]
    {
      if i + 1 < k - 1 {
        assert (i + 1) * n == i * n + n;
        DivStep(i * n, n, k - 1);
      } else {
        UnclampedIndex(i, n, k);
      }
    }
    IncreasingFromAdjacent(r);
  }

  /** A sequence whose neighbours increase is strictly increasing. */
  lemma {:induction false} IncreasingFromAdjacent(r: seq<nat>)
    requires forall i :: 0 <= i < |r| - 1 ==> r[i] < r[i + 1]
    ensures forall i, j :: 0 <= i < j < |r| ==> r[i] < r[j]
  {
    if |r| > 1 {
      IncreasingFromAdjacent(r[1..]);
      forall j | 0 < j < |r|
        ensures r[0] < r[j]
      {
        assert r[0] < r[1];
        if j > 1 {
          assert r[1..][0] < r[1..][j - 1];
        }
      }
      forall i, j | 0 <= i < j < |r|
        ensures r[i] < r[j]
      {
        if i > 0 {
          assert r[1..][i - 1] < r[1..][j - 1];
        }
      }
    }
  }

  /** When K = N the indices are the identity. */
  lemma {:induction false} SampleIndicesWhole(n: nat, amount: Amount)
    requires Clamp(amount, n) == n
    ensures SampleIndices(n, amount) == seq(n, i requires 0 <= i < n => i)
  {
    var r := SampleIndices(n, amount);
    if n >= 2 {
      SampleIndicesSpread(n, amount);
      forall i | 0 <= i < n
        ensures r[i] == i
      {
        if i < n - 1 {
          DivUnique(i * n, n - 1, i, i);
        }
      }
    }
  }

  /**
   * A requested amount of at least N (or "all") reads the whole catalog in
   * its original order.
   */
  lemma {:induction false} SampleAtLeastAll<T>(catalog: seq<T>, amount: Amount)
    requires amount.All? || amount.n >= |catalog|
    ensures Sample(catalog, amount) == catalog
  {
    SampleIndicesWhole(|catalog|, amount);
  }

  /** A clamped amount of one reads exactly the first catalog entry. */
  lemma SampleOne<T>(catalog: seq<T>, amount: Amount)
    requires Clamp(amount, |catalog|) == 1
    ensures Sample(catalog, amount) == [catalog[0]]
  {
  }

  /** An empty catalog gives an empty sample, whatever the amount; nothing fails. */
  lemma SampleEmpty<T>(catalog: seq<T>, amount: Amount)
    requires |catalog| == 0
    ensures Sample(catalog, amount) == []
  {
  }

  /**
   * A valid amount never yields fewer entries than requested unless the
   * catalog is shorter, and never more entries than the catalog holds.
   */
  lemma SampleLength<T>(catalog: seq<T>, amount: Amount)
    requires Valid(amount)
    ensures amount.All? ==> |Sample(catalog, amount)| == |catalog|
    ensures amount.Count? ==> |Sample(catalog, amount)| == Min(amount.n, |catalog|)
  {
  }

  /** Ten catalog entries sampled three times: indices 0, 5 and 9. */
  lemma SampleTenThree()
    ensures SampleIndices(10, Count(3)) == [0, 5, 9]
  {
    var r := SampleIndices(10, Count(3));
    assert r[1] == Min(9, Spread(1, 10, 2));
    assert r[2] == Min(9, Spread(2, 10, 2));
  }
}
