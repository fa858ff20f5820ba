/** The statistics of the baseline build: the sum and mean of a pooled series,
    its ascending sort, Python's half-to-even `round`, and the nearest-rank
    percentile built on them. */
module Stats {

  function Sum(s: seq<real>): real {
    if |s| == 0 then 0.0 else s[0] + Sum(s[1..])
  }

  /** `statistics.fmean`, defined on non-empty series only (it raises on an empty one). */
  function Mean(s: seq<real>): real
    requires |s| > 0
  {
    Sum(s) / |s| as real
  }

  /** A sum of values at least `lo` is at least `|s|·lo`. */
  lemma {:induction false} SumAtLeast(s: seq<real>, lo: real)
    requires forall i :: 0 <= i < |s| ==> lo <= s[i]
    ensures |s| as real * lo <= Sum(s)
  {
    if |s| > 0 {
      var t := s[1..];
      forall i | 0 <= i < |t| ensures lo <= t[i] {
        assert t[i] == s[i + 1];
      }
      SumAtLeast(t, lo);
      assert |s| as real * lo == lo + |t| as real * lo;
    }
  }

  /** A sum of values at most `hi` is at most `|s|·hi`. */
  lemma {:induction false} SumAtMost(s: seq<real>, hi: real)
    requires forall i :: 0 <= i < |s| ==> s[i] <= hi
    ensures Sum(s) <= |s| as real * hi
  {
    if |s| > 0 {
      var t := s[1..];
      forall i | 0 <= i < |t| ensures t[i] <= hi {
        assert t[i] == s[i + 1];
      }
      SumAtMost(t, hi);
      assert |s| as real * hi == hi + |t| as real * hi;
    }
  }

  lemma MeanAtLeast(s: seq<real>, lo: real)
    requires |s| > 0
    requires forall i :: 0 <= i < |s| ==> lo <= s[i]
    ensures lo <= Mean(s)
  {
    SumAtLeast(s, lo);
    assert Mean(s) * |s| as real == Sum(s);
  }

  lemma MeanAtMost(s: seq<real>, hi: real)
    requires |s| > 0
    requires forall i :: 0 <= i < |s| ==> s[i] <= hi
    ensures Mean(s) <= hi
  {
    SumAtMost(s, hi);
    assert Mean(s) * |s| as real == Sum(s);
  }

  /** The mean of values in `[lo, hi]` lies in `[lo, hi]`. */
  lemma MeanBounds(s: seq<real>, lo: real, hi: real)
    requires |s| > 0
    requires forall i :: 0 <= i < |s| ==> lo <= s[i] <= hi
    ensures lo <= Mean(s) <= hi
  {
    MeanAtLeast(s, lo);
    MeanAtMost(s, hi);
  }

  /** The mean of a constant series is that constant. */
  lemma {:induction false} MeanConstant(s: seq<real>, c: real)
    requires |s| > 0
    requires forall i :: 0 <= i < |s| ==> s[i] == c
    ensures Mean(s) == c
  {
    MeanBounds(s, c, c);
  }

  // ---------------------------------------------------------------------------
  // Sorting

  ghost predicate Sorted(s: seq<real>) {
    forall i, j :: 0 <= i < j < |s| ==> s[i] <= s[j]
  }

  /** Inserts `x` before the first element not below it. */
  function InsertReal(x: real, s: seq<real>): (r: seq<real>)
    ensures multiset(r) == multiset(s) + multiset{x}
    ensures |r| == |s| + 1
  {
    if |s| == 0 || x <= s[0] then [x] + s
    else
      assert s == [s[0]] + s[1..];
      [s[0]] + InsertReal(x, s[1..])
  }

  lemma {:induction false} InsertRealSorted(x: real, s: seq<real>)
    requires Sorted(s)
    ensures Sorted(InsertReal(x, s))
  {
    if |s| == 0 || x <= s[0] {
      var r := [x] + s;
      forall i, j | 0 <= i < j < |r| ensures r[i] <= r[j] {
        if i > 0 {
          assert r[i] == s[i - 1] && r[j] == s[j - 1];
        } else {
          assert r[j] == s[j - 1];
        }
      }
    } else {
      var t := s[1..];
      assert Sorted(t) by {
        forall i, j | 0 <= i < j < |t| ensures t[i] <= t[j] {
          assert t[i] == s[i + 1] && t[j] == s[j + 1];
        }
      }
      InsertRealSorted(x, t);
      var it := InsertReal(x, t);
      var r := [s[0]] + it;
      forall i, j | 0 <= i < j < |r| ensures r[i] <= r[j] {
        if i > 0 {
          assert r[i] == it[i - 1] && r[j] == it[j - 1];
        } else {
          assert r[j] in multiset(it);
          assert r[j] == x || r[j] in multiset(t);
          if r[j] != x {
            var k :| 0 <= k < |t| && t[k] == r[j];
            assert t[k] == s[k + 1];
          }
        }
      }
    }
  }

  /** `sorted(values)`: an ascending permutation of the input. */
  function SortReals(s: seq<real>): (r: seq<real>)
    ensures multiset(r) == multiset(s)
    ensures |r| == |s|
  {
    if |s| == 0 then []
    else
      assert s == [s[0]] + s[1..];
      InsertReal(s[0], SortReals(s[1..]))
  }

  lemma {:induction false} SortRealsSorted(s: seq<real>)
    ensures Sorted(SortReals(s))
  {
    if |s| > 0 {
      SortRealsSorted(s[1..]);
      InsertRealSorted(s[0], SortReals(s[1..]));
    }
  }

  // ---------------------------------------------------------------------------
  // Rounding

  /** Python's `round(x)`: the nearest integer, a tie going to the even one. */
  function RoundHalfEven(x: real): (r: int)
    ensures x - 0.5 <= r as real <= x + 0.5
    ensures (r as real - x == 0.5 || x - r as real == 0.5) ==> r % 2 == 0
  {
    var f := x.Floor;
    var d := x - f as real;
    if d < 0.5 then f
    else if d > 0.5 then f + 1
    else if f % 2 == 0 then f
    else f + 1
  }

  /** The rounded value is the only integer within half a unit of `x`, ties aside. */
  lemma RoundNearest(x: real, n: int)
    requires x - 0.5 < n as real < x + 0.5
    ensures RoundHalfEven(x) == n
  {
  }

  lemma RoundInteger(n: int)
    ensures RoundHalfEven(n as real) == n
  {
    RoundNearest(n as real, n);
  }

  lemma RoundMonotone(x: real, y: real)
    requires x <= y
    ensures RoundHalfEven(x) <= RoundHalfEven(y)
  {
  }

  // ---------------------------------------------------------------------------
  // Percentile

  /** `max(0, min(n - 1, k))`. */
  function ClampIndex(k: int, n: nat): (i: int)
    requires n > 0
    ensures 0 <= i < n
    ensures 0 <= k < n ==> i == k
  {
    if k < 0 then 0 else if k > n - 1 then n - 1 else k
  }

  /** The index `max(0, min(n - 1, round((n - 1)·q)))` of the nearest rank. */
  function RankIndex(n: nat, q: real): (i: int)
    requires n > 0
    ensures 0 <= i < n
  {
    ClampIndex(RoundHalfEven(Scaled(n, q)), n)
  }

  /** The fractional rank `(n - 1)·q`. */
  function Scaled(n: nat, q: real): real {
    (n - 1) as real * q
  }

  /** `percentile`: 0.0 on an empty series, else the nearest-rank element of the sorted series. */
  function Percentile(values: seq<real>, q: real): real {
    if |values| == 0 then 0.0 else SortReals(values)[RankIndex(|values|, q)]
  }

  /** An empty series has percentile 0.0; a non-empty one has one of its own values. */
  lemma PercentileMember(values: seq<real>, q: real)
    ensures |values| == 0 ==> Percentile(values, q) == 0.0
    ensures |values| > 0 ==> Percentile(values, q) in values
  {
    if |values| > 0 {
      var s := SortReals(values);
      assert s[RankIndex(|values|, q)] in multiset(s);
    }
  }

  /** Every value of the series is at least its 0-percentile and at most its 1-percentile. */
  lemma PercentileExtremes(values: seq<real>)
    requires |values| > 0
    ensures forall v :: v in values ==> Percentile(values, 0.0) <= v <= Percentile(values, 1.0)
  {
    var s := SortReals(values);
    SortRealsSorted(values);
    RoundInteger(0);
    RoundInteger(|values| - 1);
    assert RankIndex(|values|, 0.0) == 0;
    assert RankIndex(|values|, 1.0) == |values| - 1;
    forall v | v in values ensures s[0] <= v <= s[|s| - 1] {
      assert v in multiset(s);
      var k :| 0 <= k < |s| && s[k] == v;
    }
  }

  lemma ScaleMonotone(m: real, q: real, q': real)
    requires m >= 0.0 && q <= q'
    ensures m * q <= m * q'
  {
  }

  lemma ClampIndexMonotone(k: int, k': int, n: nat)
    requires n > 0 && k <= k'
    ensures ClampIndex(k, n) <= ClampIndex(k', n)
  {
  }

  lemma RankIndexMonotone(n: nat, q: real, q': real)
    requires n > 0 && q <= q'
    ensures RankIndex(n, q) <= RankIndex(n, q')
  {
    ScaleMonotone((n - 1) as real, q, q');
    assert Scaled(n, q) <= Scaled(n, q');
    RoundMonotone(Scaled(n, q), Scaled(n, q'));
    ClampIndexMonotone(RoundHalfEven(Scaled(n, q)), RoundHalfEven(Scaled(n, q')), n);
  }

  /** The percentile grows with `q`. */
  lemma PercentileMonotone(values: seq<real>, q: real, q': real)
    requires q <= q'
    ensures Percentile(values, q) <= Percentile(values, q')
  {
    if |values| > 0 {
      SortRealsSorted(values);
      RankIndexMonotone(|values|, q, q');
    }
  }
}
