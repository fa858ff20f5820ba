/** Strictly sorted, duplicate-free sequences built by insertion.

    The scripts iterate `sorted(set(...))` and `sorted(dict.items())`; the model
    builds those sequences by inserting every candidate into a strictly sorted
    sequence, dropping duplicates, which yields the same ascending listing. */
module Sorting {

  /** `lt` is a strict total order: irreflexive, transitive and total. */
  ghost predicate StrictTotal<T(!new)>(lt: (T, T) -> bool) {
    && (forall a :: !lt(a, a))
    && (forall a, b, c :: lt(a, b) && lt(b, c) ==> lt(a, c))
    && (forall a, b :: a != b ==> lt(a, b) || lt(b, a))
  }

  /** Every element is strictly below every later element. */
  ghost predicate StrictlySorted<T>(s: seq<T>, lt: (T, T) -> bool) {
    forall i, j :: 0 <= i < j < |s| ==> lt(s[i], s[j])
  }

  /** No element occurs twice (a Python `set` listed in its iteration order). */
  ghost predicate Distinct<T>(s: seq<T>) {
    forall i, j :: 0 <= i < j < |s| ==> s[i] != s[j]
  }

  /** Inserts `x` at its place in `s`, leaving `s` alone when `x` is already there. */
  function Insert<T(==,!new)>(x: T, s: seq<T>, lt: (T, T) -> bool): (r: seq<T>)
    ensures forall y :: y in r <==> y == x || y in s
    ensures |r| <= |s| + 1
  {
    if |s| == 0 then [x]
    else if x == s[0] then s
    else if lt(x, s[0]) then [x] + s
    else [s[0]] + Insert(x, s[1..], lt)
  }

  /** Insertion keeps a sequence strictly sorted, and is a no-op on a present element. */
  lemma {:induction false} InsertSorted<T(!new)>(x: T, s: seq<T>, lt: (T, T) -> bool)
    requires StrictTotal(lt)
    requires StrictlySorted(s, lt)
    ensures StrictlySorted(Insert(x, s, lt), lt)
    ensures x in s ==> Insert(x, s, lt) == s
  {
    if |s| == 0 {
    } else if x == s[0] {
    } else if lt(x, s[0]) {
      var r := [x] + s;
      forall i, j | 0 <= i < j < |r|
        ensures lt(r[i], r[j])
      {
        if i > 0 {
          assert r[i] == s[i - 1] && r[j] == s[j - 1];
        } else if j > 1 {
          assert lt(s[0], s[j - 1]);
        }
      }
    } else {
      assert lt(s[0], x);
      var t := s[1..];
      assert StrictlySorted(t, lt) by {
        forall i, j | 0 <= i < j < |t|
          ensures lt(t[i], t[j])
        {
          assert t[i] == s[i + 1] && t[j] == s[j + 1];
        }
      }
      InsertSorted(x, t, lt);
      var it := Insert(x, t, lt);
      var r := [s[0]] + it;
      forall i, j | 0 <= i < j < |r|
        ensures lt(r[i], r[j])
      {
        if i > 0 {
          assert r[i] == it[i - 1] && r[j] == it[j - 1];
        } else {
          assert r[j] in it;
          if r[j] != x {
            assert r[j] in t;
            var k :| 0 <= k < |t| && t[k] == r[j];
            assert t[k] == s[k + 1];
          }
        }
      }
      if x in s {
        assert x in t;
        assert s == [s[0]] + t;
      }
    }
  }

  /** A strictly sorted sequence repeats no element. */
  lemma SortedDistinct<T(!new)>(s: seq<T>, lt: (T, T) -> bool)
    requires StrictTotal(lt)
    requires StrictlySorted(s, lt)
    ensures Distinct(s)
  {
    forall i, j | 0 <= i < j < |s| ensures s[i] != s[j] {
      assert lt(s[i], s[j]);
    }
  }
}
