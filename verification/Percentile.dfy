/** Nearest-rank percentiles of the measured latencies. */
module Percentile {
  import opened Options

  // ---------------------------------------------------------------- sorting and counting

  ghost predicate Ascending(s: seq<int>) {
    forall i, j :: 0 <= i <= j < |s| ==> s[i] <= s[j]
  }

  function Insert(x: int, s: seq<int>): (r: seq<int>)
    ensures |r| == |s| + 1
  {
    if s == [] || x <= s[0] then [x] + s else [s[0]] + Insert(x, s[1..])
  }

  function Sorted(s: seq<int>): (r: seq<int>)
    ensures |r| == |s|
  {
    if s == [] then [] else Insert(s[0], Sorted(s[1..]))
  }

  /** How many samples are at most `x`. */
  function AtMost(s: seq<int>, x: int): (n: nat)
    ensures n <= |s|
  {
    if s == [] then 0 else (if s[0] <= x then 1 else 0) + AtMost(s[1..], x)
  }

  lemma {:induction false} AtMostConcat(a: seq<int>, b: seq<int>, x: int)
    ensures AtMost(a + b, x) == AtMost(a, x) + AtMost(b, x)
  {
    if a == [] {
      assert a + b == b;
    } else {
      AtMostConcat(a[1..], b, x);
      assert (a + b)[1..] == a[1..] + b;
    }
  }

  lemma Removed(b: seq<int>, i: nat, x: int)
    requires i < |b|
    ensures AtMost(b, x) == AtMost(b[..i] + b[i + 1..], x) + (if b[i] <= x then 1 else 0)
  {
    AtMostConcat(b[..i], [b[i]] + b[i + 1..], x);
    AtMostConcat([b[i]], b[i + 1..], x);
    AtMostConcat(b[..i], b[i + 1..], x);
    assert b == b[..i] + ([b[i]] + b[i + 1..]);
  }

  lemma RemovedMultiset(b: seq<int>, i: nat)
    requires i < |b|
    ensures multiset(b[..i] + b[i + 1..]) == multiset(b) - multiset{b[i]}
  {
    assert b == b[..i] + [b[i]] + b[i + 1..];
  }

  lemma {:induction false} AtMostPermuted(a: seq<int>, b: seq<int>, x: int)
    requires multiset(a) == multiset(b)
    ensures AtMost(a, x) == AtMost(b, x)
  {
    assert |a| == |multiset(a)| == |multiset(b)| == |b|;
    if a != [] {
      assert a[0] in multiset(b);
      var i :| 0 <= i < |b| && b[i] == a[0];
      RemovedMultiset(a, 0);
      RemovedMultiset(b, i);
      assert a[..0] + a[1..] == a[1..];
      AtMostPermuted(a[1..], b[..i] + b[i + 1..], x);
      Removed(b, i, x);
    }
  }

  lemma {:induction false} AllAtMost(s: seq<int>, x: int)
    requires forall i :: 0 <= i < |s| ==> s[i] <= x
    ensures AtMost(s, x) == |s|
  {
    if s != [] {
      AllAtMost(s[1..], x);
    }
  }

  lemma {:induction false} NoneAtMost(s: seq<int>, x: int)
    requires forall i :: 0 <= i < |s| ==> x < s[i]
    ensures AtMost(s, x) == 0
  {
    if s != [] {
      NoneAtMost(s[1..], x);
    }
  }

  lemma {:induction false} InsertCounts(x: int, s: seq<int>, y: int)
    ensures AtMost(Insert(x, s), y) == AtMost(s, y) + (if x <= y then 1 else 0)
    ensures y in Insert(x, s) <==> y == x || y in s
  {
    if s != [] && x > s[0] {
      InsertCounts(x, s[1..], y);
      assert Insert(x, s)[1..] == Insert(x, s[1..]);
      assert s == [s[0]] + s[1..];
    } else {
      assert ([x] + s)[1..] == s;
    }
  }

  lemma {:induction false} InsertAscends(x: int, s: seq<int>)
    requires Ascending(s)
    ensures Ascending(Insert(x, s))
  {
    if s != [] && x > s[0] {
      var rest := Insert(x, s[1..]);
      InsertAscends(x, s[1..]);
      forall i | 0 <= i < |rest| ensures s[0] <= rest[i] {
        InsertCounts(x, s[1..], rest[i]);
        if rest[i] in s[1..] {
          var j :| 0 <= j < |s[1..]| && s[1..][j] == rest[i];
          assert s[0] <= s[j + 1];
        }
      }
    }
  }

  /** `Sorted` ascends and is the same samples, with the same counts. */
  lemma {:induction false} SortedAscends(s: seq<int>)
    ensures Ascending(Sorted(s))
  {
    if s != [] {
      SortedAscends(s[1..]);
      InsertAscends(s[0], Sorted(s[1..]));
    }
  }

  lemma {:induction false} SortedCounts(s: seq<int>, y: int)
    ensures AtMost(Sorted(s), y) == AtMost(s, y)
    ensures y in Sorted(s) <==> y in s
  {
    if s != [] {
      SortedCounts(s[1..], y);
      InsertCounts(s[0], Sorted(s[1..]), y);
      assert s == [s[0]] + s[1..];
    }
  }

  /** In ascending order, position `k` is where the count passes `k`. */
  lemma AtMostSorted(s: seq<int>, k: nat, x: int)
    requires Ascending(s) && k < |s|
    ensures AtMost(s, x) > k <==> s[k] <= x
  {
    if s[k] <= x {
      Enough(s[..k + 1], s[k + 1..], x);
      assert s == s[..k + 1] + s[k + 1..];
    } else {
      TooFew(s[..k], s[k..], x);
      assert s == s[..k] + s[k..];
    }
  }

  lemma Enough(a: seq<int>, b: seq<int>, x: int)
    requires forall i :: 0 <= i < |a| ==> a[i] <= x
    ensures AtMost(a + b, x) >= |a|
  {
    AllAtMost(a, x);
    AtMostConcat(a, b, x);
  }

  lemma TooFew(a: seq<int>, b: seq<int>, x: int)
    requires forall i :: 0 <= i < |b| ==> x < b[i]
    ensures AtMost(a + b, x) <= |a|
  {
    NoneAtMost(b, x);
    AtMostConcat(a, b, x);
  }

  // ---------------------------------------------------------------- percentiles

  function Ceil(a: int, d: int): (c: int)
    requires d > 0
    ensures (c - 1) * d < a <= c * d
  {
    (a + d - 1) / d
  }

  /** The rank `ceil(n * q)`, kept between 1 and `n`. */
  function Rank(n: nat, numerator: int, denominator: int): (k: nat)
    requires n > 0 && denominator > 0
    ensures 1 <= k <= n
  {
    var index := Ceil(n * numerator, denominator);
    if index < 1 then 1 else if index > n then n else index
  }

  /** `percentile_us`; the source raises on an empty list. */
  function PercentileUs(samples: seq<int>, numerator: int, denominator: int): Option<int>
    requires denominator > 0
  {
    if samples == [] then None
    else Some(Sorted(samples)[Rank(|samples|, numerator, denominator) - 1])
  }

  /** The least sample with at least `k` samples at or below it. */
  ghost predicate NearestRank(samples: seq<int>, k: nat, x: int) {
    x in samples && AtMost(samples, x) >= k && forall y :: y in samples && AtMost(samples, y) >= k ==> x <= y
  }

  lemma PercentileMeaning(samples: seq<int>, numerator: int, denominator: int)
    requires samples != [] && denominator > 0
    ensures NearestRank(samples, Rank(|samples|, numerator, denominator),
                        PercentileUs(samples, numerator, denominator).value)
  {
    var sorted := Sorted(samples);
    SortedAscends(samples);
    var k := Rank(|samples|, numerator, denominator);
    var x := sorted[k - 1];
    assert x in sorted;
    SortedCounts(samples, x);
    AtMostSorted(sorted, k - 1, x);
    forall y | y in samples && AtMost(samples, y) >= k ensures x <= y {
      SortedCounts(samples, y);
      AtMostSorted(sorted, k - 1, y);
    }
  }

  /** For a proper fraction the rank is `ceil(n * q)` itself. */
  lemma RankExact(n: nat, numerator: int, denominator: int)
    requires n > 0 && 0 < numerator <= denominator
    ensures Rank(n, numerator, denominator) == Ceil(n * numerator, denominator)
  {
    var c := Ceil(n * numerator, denominator);
    assert n * numerator <= n * denominator;
    assert (c - 1) * denominator < n * denominator;
    assert c - 1 < n;
    assert 0 < n * numerator;
    assert 0 < c * denominator;
    assert 0 < c;
  }

  lemma PermutationInvariant(a: seq<int>, b: seq<int>, numerator: int, denominator: int)
    requires multiset(a) == multiset(b) && denominator > 0
    ensures PercentileUs(a, numerator, denominator) == PercentileUs(b, numerator, denominator)
  {
    assert |a| == |multiset(a)| == |multiset(b)| == |b|;
    if a != [] {
      PercentileMeaning(a, numerator, denominator);
      PercentileMeaning(b, numerator, denominator);
      NearestRankPermuted(a, b, Rank(|a|, numerator, denominator), PercentileUs(a, numerator, denominator).value);
    }
  }

  lemma NearestRankPermuted(a: seq<int>, b: seq<int>, k: nat, x: int)
    requires multiset(a) == multiset(b) && NearestRank(a, k, x)
    ensures NearestRank(b, k, x)
  {
    assert x in multiset(b);
    AtMostPermuted(a, b, x);
    forall y | y in b && AtMost(b, y) >= k ensures x <= y {
      assert y in multiset(a);
      AtMostPermuted(a, b, y);
    }
  }

  lemma Scale(x: int, y: int, z: int)
    requires x <= y && z >= 0
    ensures x * z <= y * z
  {
  }

  lemma CeilMonotone(a: int, d: int, a': int, d': int)
    requires d > 0 && d' > 0 && a * d' <= a' * d
    ensures Ceil(a, d) <= Ceil(a', d')
  {
    var c, c' := Ceil(a, d), Ceil(a', d');
    if c' <= c - 1 {
      Scale(c', c - 1, d);
      assert c' * d + 1 <= a;
      Scale(c' * d + 1, a, d');
      Scale(a', c' * d', d);
      Commute(c', d, d');
    }
  }

  lemma Commute(c: int, d: int, d': int)
    ensures c * d * d' == c * d' * d && (c * d + 1) * d' == c * d * d' + d'
  {
  }

  /** A higher quantile is at a higher rank. */
  lemma RankMonotone(n: nat, p: int, q: int, p': int, q': int)
    requires n > 0 && q > 0 && q' > 0 && p * q' <= p' * q
    ensures Rank(n, p, q) <= Rank(n, p', q')
  {
    Scale(p * q', p' * q, n);
    Associate(n, p, q');
    Associate(n, p', q);
    CeilMonotone(n * p, q, n * p', q');
  }

  lemma Associate(n: int, p: int, q: int)
    ensures n * p * q == p * q * n
  {
  }

  lemma PercentileMonotone(samples: seq<int>, p: int, q: int, p': int, q': int)
    requires samples != [] && q > 0 && q' > 0 && p * q' <= p' * q
    ensures PercentileUs(samples, p, q).value <= PercentileUs(samples, p', q').value
  {
    SortedAscends(samples);
    RankMonotone(|samples|, p, q, p', q');
  }

  // ---------------------------------------------------------------- the distribution

  method Least(samples: seq<int>) returns (x: int)
    requires samples != []
    ensures x in samples && forall y :: y in samples ==> x <= y
  {
    x := samples[0];
    for i := 1 to |samples|
      invariant x in samples && forall j :: 0 <= j < i ==> x <= samples[j]
    {
      x := if samples[i] < x then samples[i] else x;
    }
  }

  method Greatest(samples: seq<int>) returns (x: int)
    requires samples != []
    ensures x in samples && forall y :: y in samples ==> y <= x
  {
    x := samples[0];
    for i := 1 to |samples|
      invariant x in samples && forall j :: 0 <= j < i ==> samples[j] <= x
    {
      x := if x < samples[i] then samples[i] else x;
    }
  }

  datatype Summary = Summary(count: nat, min: int, p50: int, p95: int, p99: int, max: int)

  /** `distribution`: `None` for no samples. Its figures are samples, and in order. */
  method Distribution(samples: seq<int>) returns (r: Option<Summary>)
    ensures r == None <==> samples == []
    ensures r.Some? ==> var d := r.value;
              && d.count == |samples| && d.min <= d.p50 <= d.p95 <= d.p99 <= d.max
              && NearestRank(samples, Rank(|samples|, 1, 2), d.p50)
              && NearestRank(samples, Rank(|samples|, 95, 100), d.p95)
              && NearestRank(samples, Rank(|samples|, 99, 100), d.p99)
              && NearestRank(samples, 1, d.min) && NearestRank(samples, |samples|, d.max)
  {
    if samples == [] {
      return None;
    }
    var least := Least(samples);
    var greatest := Greatest(samples);
    r := Some(Summary(|samples|, least, PercentileUs(samples, 1, 2).value, PercentileUs(samples, 95, 100).value,
                      PercentileUs(samples, 99, 100).value, greatest));
    PercentileMeaning(samples, 1, 2);
    PercentileMeaning(samples, 95, 100);
    PercentileMeaning(samples, 99, 100);
    PercentileMonotone(samples, 1, 2, 95, 100);
    PercentileMonotone(samples, 95, 100, 99, 100);
    Extremes(samples, least, greatest);
  }

  lemma Extremes(samples: seq<int>, least: int, greatest: int)
    requires least in samples && forall y :: y in samples ==> least <= y
    requires greatest in samples && forall y :: y in samples ==> y <= greatest
    ensures NearestRank(samples, 1, least) && NearestRank(samples, |samples|, greatest)
  {
    assert forall i :: 0 <= i < |samples| ==> samples[i] in samples;
    AllAtMost(samples, greatest);
    SomeAtMost(samples, least);
    forall y | y in samples && AtMost(samples, y) >= |samples| ensures greatest <= y {
      FullCount(samples, y, greatest);
    }
  }

  lemma {:induction false} SomeAtMost(s: seq<int>, x: int)
    requires x in s
    ensures AtMost(s, x) >= 1
  {
    if s[0] != x {
      assert s == [s[0]] + s[1..];
      SomeAtMost(s[1..], x);
    }
  }

  lemma {:induction false} FullCount(s: seq<int>, x: int, y: int)
    requires AtMost(s, x) >= |s| && y in s
    ensures y <= x
  {
    if s[0] != y {
      assert s == [s[0]] + s[1..];
      FullCount(s[1..], x, y);
    }
  }
}
