/** The observation store shared by the enrichment stages: rows keyed by
    (country, year, indicator), the numeric index built from them, the
    per-(country, year) template rows, and nearest-year lookup. */
module Observations {
  import opened Wrappers
  import Sorting
  import Text

  /** The unique key of an observation. */
  datatype Key = Key(country: string, year: int, indicator: string)

  /** The template columns a derived row inherits from its (country, year) template. */
  datatype Meta = Meta(domain: string, unit: string, frequency: string, lagClass: string,
                       directionGood: string, updatedAt: string)

  /** One observation row. `value` is `None` when the text in the value column is
      not a number `float()` accepts. */
  datatype Row = Row(country: string, year: int, indicator: string, name: string,
                     sourceCode: string, value: Option<real>, source: string,
                     tier: string, flag: string, meta: Meta)
  {
    function KeyOf(): Key { Key(country, year, indicator) }
  }

  /** The columns `make_row` overwrites: what a derived row says about itself. */
  datatype Provenance = Provenance(id: string, name: string, sourceCode: string,
                                   source: string, tier: string, flag: string)

  /** `make_row`: the template row with the indicator columns, the value and the
      provenance replaced. */
  function MakeRow(tpl: Row, p: Provenance, v: real): Row {
    tpl.(indicator := p.id, name := p.name, sourceCode := p.sourceCode, value := Some(v),
         source := p.source, tier := p.tier, flag := p.flag)
  }

  // ---------------------------------------------------------------------------
  // Keys and uniqueness

  function KeySet(rows: seq<Row>): set<Key> {
    set i | 0 <= i < |rows| :: rows[i].KeyOf()
  }

  /** No two rows share a key: the store's central invariant. */
  ghost predicate UniqueKeys(rows: seq<Row>) {
    forall i, j :: 0 <= i < j < |rows| ==> rows[i].KeyOf() != rows[j].KeyOf()
  }

  /** Every value column holds a number. */
  ghost predicate AllNumeric(rows: seq<Row>) {
    forall i :: 0 <= i < |rows| ==> rows[i].value.Some?
  }

  /** The keys of a concatenation, and the key of every member. */
  lemma KeySetConcat(a: seq<Row>, b: seq<Row>)
    ensures KeySet(a + b) == KeySet(a) + KeySet(b)
    ensures forall r :: r in a + b ==> r.KeyOf() in KeySet(a + b)
  {
    var c := a + b;
    forall k | k in KeySet(a) ensures k in KeySet(c) {
      var i :| 0 <= i < |a| && a[i].KeyOf() == k;
      assert c[i] == a[i];
    }
    forall k | k in KeySet(b) ensures k in KeySet(c) {
      var i :| 0 <= i < |b| && b[i].KeyOf() == k;
      assert c[|a| + i] == b[i];
    }
    forall r | r in c ensures r.KeyOf() in KeySet(c) {
      var i :| 0 <= i < |c| && c[i] == r;
    }
  }

  /** Two duplicate-free sequences with disjoint key sets concatenate to a duplicate-free one. */
  lemma UniqueConcat(a: seq<Row>, b: seq<Row>)
    requires UniqueKeys(a) && UniqueKeys(b)
    requires KeySet(a) !! KeySet(b)
    ensures UniqueKeys(a + b)
    ensures KeySet(a + b) == KeySet(a) + KeySet(b)
  {
    var c := a + b;
    forall i, j | 0 <= i < j < |c| ensures c[i].KeyOf() != c[j].KeyOf() {
      if i < |a| && j >= |a| {
        assert c[i].KeyOf() in KeySet(a) && c[j] == b[j - |a|];
        assert c[j].KeyOf() in KeySet(b);
      } else if i >= |a| {
        assert c[i] == b[i - |a|] && c[j] == b[j - |a|];
      }
    }
    forall k | k in KeySet(a + b) ensures k in KeySet(a) + KeySet(b) {
      var i :| 0 <= i < |c| && c[i].KeyOf() == k;
      if i >= |a| {
        assert c[i] == b[i - |a|];
      }
    }
    forall k | k in KeySet(a) + KeySet(b) ensures k in KeySet(a + b) {
      if k in KeySet(a) {
        var i :| 0 <= i < |a| && a[i].KeyOf() == k;
        assert c[i] == a[i];
      } else {
        var i :| 0 <= i < |b| && b[i].KeyOf() == k;
        assert c[|a| + i] == b[i];
      }
    }
  }

  // ---------------------------------------------------------------------------
  // index_values

  /** Row `i` is the last row with its key whose value parses. */
  ghost predicate LastNumeric(rows: seq<Row>, i: int)
    requires 0 <= i < |rows|
  {
    rows[i].value.Some?
    && forall j :: i < j < |rows| && rows[j].KeyOf() == rows[i].KeyOf() ==> rows[j].value.None?
  }

  /** `index_values`: the numeric value of every key, later rows overwriting earlier
      ones and unparsable values skipped. */
  function IndexOf(rows: seq<Row>): map<Key, real> {
    if |rows| == 0 then map[]
    else
      var m := IndexOf(rows[..|rows| - 1]);
      var last := rows[|rows| - 1];
      if last.value.Some? then m[last.KeyOf() := last.value.value] else m
  }

  /** The index holds exactly the keys of the numeric rows. */
  lemma {:induction false} IndexDomain(rows: seq<Row>)
    ensures forall k :: k in IndexOf(rows) <==> exists i :: 0 <= i < |rows| && rows[i].KeyOf() == k && rows[i].value.Some?
  {
    if |rows| > 0 {
      var init := rows[..|rows| - 1];
      IndexDomain(init);
      assert forall i :: 0 <= i < |init| ==> init[i] == rows[i];
    }
  }

  /** Each key maps to the value of its last numeric row. */
  lemma {:induction false} IndexLastWins(rows: seq<Row>, i: int)
    requires 0 <= i < |rows| && LastNumeric(rows, i)
    ensures rows[i].KeyOf() in IndexOf(rows)
    ensures IndexOf(rows)[rows[i].KeyOf()] == rows[i].value.value
  {
    var init := rows[..|rows| - 1];
    var last := rows[|rows| - 1];
    if i < |rows| - 1 {
      assert init[i] == rows[i];
      assert LastNumeric(init, i) by {
        forall j | i < j < |init| && init[j].KeyOf() == init[i].KeyOf() ensures init[j].value.None? {
          assert init[j] == rows[j];
        }
      }
      IndexLastWins(init, i);
      if last.value.Some? {
        assert last.KeyOf() != rows[i].KeyOf();
      }
    }
  }

  /** Appending rows that avoid key `k` changes nothing the index says about `k`. */
  lemma {:induction false} IndexAppendOther(a: seq<Row>, b: seq<Row>, k: Key)
    requires forall j :: 0 <= j < |b| ==> b[j].KeyOf() != k
    ensures k in IndexOf(a + b) <==> k in IndexOf(a)
    ensures k in IndexOf(a) ==> IndexOf(a + b)[k] == IndexOf(a)[k]
    decreases |b|
  {
    if |b| > 0 {
      var b' := b[..|b| - 1];
      assert (a + b)[..|a + b| - 1] == a + b';
      IndexAppendOther(a, b', k);
    } else {
      assert a + b == a;
    }
  }

  /** With every value numeric, the index covers exactly the keys present. */
  lemma IndexKeysAllNumeric(rows: seq<Row>)
    requires AllNumeric(rows)
    ensures IndexOf(rows).Keys == KeySet(rows)
  {
    IndexDomain(rows);
  }

  /** With unique keys, the index returns each row's own value. */
  lemma IndexUnique(rows: seq<Row>, i: int)
    requires UniqueKeys(rows) && 0 <= i < |rows| && rows[i].value.Some?
    ensures rows[i].KeyOf() in IndexOf(rows)
    ensures IndexOf(rows)[rows[i].KeyOf()] == rows[i].value.value
  {
    assert LastNumeric(rows, i);
    IndexLastWins(rows, i);
  }

  // ---------------------------------------------------------------------------
  // Templates: the first row of every (peer, year)

  /** Row `i` is the first row of its (country, year) whose country is a peer. */
  ghost predicate FirstOfPair(rows: seq<Row>, peers: seq<string>, i: int)
    requires 0 <= i < |rows|
  {
    rows[i].country in peers
    && forall j :: 0 <= j < i ==> (rows[j].country, rows[j].year) != (rows[i].country, rows[i].year)
  }

  /** The `templates` dictionary: `setdefault((country, year), row)` over the peer rows. */
  function Templates(rows: seq<Row>, peers: seq<string>): map<(string, int), Row> {
    if |rows| == 0 then map[]
    else
      var m := Templates(rows[..|rows| - 1], peers);
      var last := rows[|rows| - 1];
      if last.country in peers && (last.country, last.year) !in m then m[(last.country, last.year) := last] else m
  }

  /** A template exists exactly for the (country, year) pairs of the peer rows. */
  lemma {:induction false} TemplatesDomain(rows: seq<Row>, peers: seq<string>)
    ensures forall p :: p in Templates(rows, peers) <==>
              exists i :: 0 <= i < |rows| && rows[i].country in peers && (rows[i].country, rows[i].year) == p
  {
    if |rows| > 0 {
      var init := rows[..|rows| - 1];
      TemplatesDomain(init, peers);
      assert forall i :: 0 <= i < |init| ==> init[i] == rows[i];
    }
  }

  /** Every template is a peer row filed under its own (country, year). */
  ghost predicate TemplatesKeyed(t: map<(string, int), Row>, peers: seq<string>) {
    forall p :: p in t ==> t[p].country == p.0 && t[p].year == p.1 && p.0 in peers
  }

  lemma {:induction false} TemplatesAreKeyed(rows: seq<Row>, peers: seq<string>)
    ensures TemplatesKeyed(Templates(rows, peers), peers)
  {
    if |rows| > 0 {
      TemplatesAreKeyed(rows[..|rows| - 1], peers);
    }
  }

  /** The template of a pair is its first peer row. */
  lemma {:induction false} TemplatesFirstWins(rows: seq<Row>, peers: seq<string>, i: int)
    requires 0 <= i < |rows| && FirstOfPair(rows, peers, i)
    ensures (rows[i].country, rows[i].year) in Templates(rows, peers)
    ensures Templates(rows, peers)[(rows[i].country, rows[i].year)] == rows[i]
  {
    var init := rows[..|rows| - 1];
    if i < |rows| - 1 {
      assert init[i] == rows[i];
      assert FirstOfPair(init, peers, i) by {
        forall j | 0 <= j < i ensures (init[j].country, init[j].year) != (init[i].country, init[i].year) {
          assert init[j] == rows[j];
        }
      }
      TemplatesFirstWins(init, peers, i);
    } else {
      TemplatesDomain(init, peers);
    }
  }

  /** Python's tuple order on (country, year). */
  predicate PairLt(a: (string, int), b: (string, int)) {
    Text.StrLt(a.0, b.0) || (a.0 == b.0 && a.1 < b.1)
  }

  function PairOrder(): ((string, int), (string, int)) -> bool {
    (a: (string, int), b: (string, int)) => PairLt(a, b)
  }

  function IntOrder(): (int, int) -> bool {
    (a: int, b: int) => a < b
  }

  lemma PairOrderStrictTotal()
    ensures Sorting.StrictTotal(PairOrder())
  {
    Text.StrOrderStrictTotal();
    assert Sorting.StrictTotal(Text.StrOrder());
    forall a: (string, int) ensures !PairOrder()(a, a) {
      assert !Text.StrOrder()(a.0, a.0);
    }
    forall a: (string, int), b: (string, int), c: (string, int) | PairOrder()(a, b) && PairOrder()(b, c)
      ensures PairOrder()(a, c)
    {
      if Text.StrLt(a.0, b.0) && Text.StrLt(b.0, c.0) {
        assert Text.StrOrder()(a.0, b.0) && Text.StrOrder()(b.0, c.0);
      }
    }
    forall a: (string, int), b: (string, int) | a != b ensures PairOrder()(a, b) || PairOrder()(b, a) {
      if a.0 != b.0 {
        assert Text.StrOrder()(a.0, b.0) || Text.StrOrder()(b.0, a.0);
      }
    }
  }

  lemma IntOrderStrictTotal()
    ensures Sorting.StrictTotal(IntOrder())
  {
  }

  /** The keys of `templates` in ascending order: the iteration order of
      `sorted(templates.items())`. */
  function TemplateKeys(rows: seq<Row>, peers: seq<string>): (ks: seq<(string, int)>)
    ensures forall p :: p in ks <==> p in Templates(rows, peers)
    ensures Sorting.StrictlySorted(ks, PairOrder())
  {
    if |rows| == 0 then []
    else
      var init := rows[..|rows| - 1];
      var last := rows[|rows| - 1];
      var ks := TemplateKeys(init, peers);
      TemplatesDomain(init, peers);
      TemplatesDomain(rows, peers);
      assert forall i :: 0 <= i < |init| ==> init[i] == rows[i];
      PairOrderStrictTotal();
      if last.country in peers then
        Sorting.InsertSorted((last.country, last.year), ks, PairOrder());
        Sorting.Insert((last.country, last.year), ks, PairOrder())
      else ks
  }

  /** Rows whose (country, year) already has a template change neither the
      templates nor their listing. */
  lemma {:induction false} TemplatesAppendCovered(rows: seq<Row>, extra: seq<Row>, peers: seq<string>)
    requires forall j :: 0 <= j < |extra| ==> (extra[j].country, extra[j].year) in Templates(rows, peers)
    ensures Templates(rows + extra, peers) == Templates(rows, peers)
    ensures TemplateKeys(rows + extra, peers) == TemplateKeys(rows, peers)
    decreases |extra|
  {
    if |extra| == 0 {
      assert rows + extra == rows;
    } else {
      var e' := extra[..|extra| - 1];
      var last := extra[|extra| - 1];
      assert (rows + extra)[..|rows + extra| - 1] == rows + e';
      assert (rows + extra)[|rows + extra| - 1] == last;
      TemplatesAppendCovered(rows, e', peers);
      var p := (last.country, last.year);
      assert p in TemplateKeys(rows, peers);
      PairOrderStrictTotal();
      Sorting.InsertSorted(p, TemplateKeys(rows, peers), PairOrder());
    }
  }

  /** The years of `country`'s numeric `indicator` values in ascending order:
      `sorted({y for (cc, y, ind) in idx if cc == country and ind == indicator})`. */
  function YearsOf(rows: seq<Row>, country: string, indicator: string): (ys: seq<int>)
    ensures forall y :: y in ys <==> Key(country, y, indicator) in IndexOf(rows)
    ensures Sorting.StrictlySorted(ys, IntOrder())
  {
    if |rows| == 0 then []
    else
      var init := rows[..|rows| - 1];
      var last := rows[|rows| - 1];
      var ys := YearsOf(init, country, indicator);
      IndexDomain(init);
      IndexDomain(rows);
      assert forall i :: 0 <= i < |init| ==> init[i] == rows[i];
      IntOrderStrictTotal();
      if last.country == country && last.indicator == indicator && last.value.Some? then
        Sorting.InsertSorted(last.year, ys, IntOrder());
        Sorting.Insert(last.year, ys, IntOrder())
      else ys
  }

  // ---------------------------------------------------------------------------
  // nearest_year_value

  /** The initial `best_gap`: a candidate must be nearer than this to be taken. */
  const NoGap: int := 1_000_000_000

  function Abs(x: int): nat { if x < 0 then -x else x }

  /** The point lookup `idx.get(key)`. */
  function Get(idx: map<Key, real>, country: string, year: int, indicator: string): (r: Option<real>)
    ensures r.Some? <==> Key(country, year, indicator) in idx
    ensures r.Some? ==> r.value == idx[Key(country, year, indicator)]
  {
    var k := Key(country, year, indicator);
    if k in idx then Some(idx[k]) else None
  }

  /** The ascending scan over years `y .. stop-1`, replacing the best candidate only on a
      strictly smaller gap. */
  function Scan(idx: map<Key, real>, country: string, year: int, indicator: string,
                y: int, stop: int, best: Option<real>, bestGap: int): Option<real>
    decreases stop - y
  {
    if y >= stop then best
    else
      var k := Key(country, y, indicator);
      if k in idx && Abs(y - year) < bestGap then
        Scan(idx, country, year, indicator, y + 1, stop, Some(idx[k]), Abs(y - year))
      else
        Scan(idx, country, year, indicator, y + 1, stop, best, bestGap)
  }

  /** `nearest_year_value(idx, country, year, indicator, max_gap)`. */
  function NearestYearValue(idx: map<Key, real>, country: string, year: int, indicator: string,
                            maxGap: int): Option<real>
  {
    var k := Key(country, year, indicator);
    if k in idx then Some(idx[k])
    else Scan(idx, country, year, indicator, year - maxGap, year + maxGap + 1, None, NoGap)
  }

  /** Year `y` is a candidate of the scan: in the window, present, and nearer than `NoGap`. */
  ghost predicate Candidate(idx: map<Key, real>, country: string, year: int, indicator: string,
                            maxGap: int, y: int)
  {
    year - maxGap <= y <= year + maxGap && Key(country, y, indicator) in idx && Abs(y - year) < NoGap
  }

  /** Year `yb` is the nearest candidate, the earlier one on a tie. */
  ghost predicate Nearest(idx: map<Key, real>, country: string, year: int, indicator: string,
                          maxGap: int, yb: int)
  {
    Candidate(idx, country, year, indicator, maxGap, yb)
    && forall y :: Candidate(idx, country, year, indicator, maxGap, y) ==>
         Abs(yb - year) < Abs(y - year) || (Abs(yb - year) == Abs(y - year) && yb <= y)
  }

  /** The state of the scan after years `lo .. y-1`: `best` holds the value of year
      `yb`, nearest so far and earliest among the nearest, `bestGap` its gap. */
  ghost predicate ScanState(idx: map<Key, real>, country: string, year: int, indicator: string,
                            lo: int, y: int, best: Option<real>, bestGap: int, yb: int)
  {
    && (best.None? ==>
          && bestGap == NoGap
          && forall y' :: lo <= y' < y && Key(country, y', indicator) in idx ==> Abs(y' - year) >= NoGap)
    && (best.Some? ==>
          && lo <= yb < y && Key(country, yb, indicator) in idx && best.value == idx[Key(country, yb, indicator)]
          && bestGap == Abs(yb - year) && bestGap < NoGap
          && forall y' :: lo <= y' < y && Key(country, y', indicator) in idx ==>
               bestGap < Abs(y' - year) || (bestGap == Abs(y' - year) && yb <= y'))
  }

  /** Scanning the remaining years `y .. stop-1` ends in the scan state of the whole range. */
  lemma {:induction false} ScanCorrect(idx: map<Key, real>, country: string, year: int, indicator: string,
                                       lo: int, y: int, stop: int, best: Option<real>, bestGap: int, yb: int)
    returns (yb': int, gap': int)
    requires lo <= y
    requires ScanState(idx, country, year, indicator, lo, y, best, bestGap, yb)
    ensures ScanState(idx, country, year, indicator, lo, if stop < y then y else stop,
                      Scan(idx, country, year, indicator, y, stop, best, bestGap), gap', yb')
    decreases stop - y
  {
    if y >= stop {
      yb', gap' := yb, bestGap;
    } else {
      var k := Key(country, y, indicator);
      if k in idx && Abs(y - year) < bestGap {
        yb', gap' := ScanCorrect(idx, country, year, indicator, lo, y + 1, stop, Some(idx[k]), Abs(y - year), y);
      } else {
        yb', gap' := ScanCorrect(idx, country, year, indicator, lo, y + 1, stop, best, bestGap, yb);
      }
    }
  }

  /** `nearest_year_value` returns the exact year's value when present; otherwise the
      value of the nearest year within `max_gap` (the earlier year on a tie), and
      `None` exactly when no year within `max_gap` has a value. */
  lemma NearestYearValueSpec(idx: map<Key, real>, country: string, year: int, indicator: string, maxGap: int)
    ensures var r := NearestYearValue(idx, country, year, indicator, maxGap);
            && (Key(country, year, indicator) in idx ==> r == Some(idx[Key(country, year, indicator)]))
            && (Key(country, year, indicator) !in idx ==>
                  && (r.None? <==> forall y :: !Candidate(idx, country, year, indicator, maxGap, y))
                  && (r.Some? ==> exists yb :: Nearest(idx, country, year, indicator, maxGap, yb)
                                               && r.value == idx[Key(country, yb, indicator)]))
  {
    var k := Key(country, year, indicator);
    if k !in idx {
      var lo := year - maxGap;
      var stop := year + maxGap + 1;
      var yb, gap := ScanCorrect(idx, country, year, indicator, lo, lo, stop, None, NoGap, 0);
      var r := Scan(idx, country, year, indicator, lo, stop, None, NoGap);
      if r.Some? {
        assert Nearest(idx, country, year, indicator, maxGap, yb);
      }
    }
  }

  // ---------------------------------------------------------------------------
  // What appending rows leaves unchanged in the index

  /** A numeric row's key is in the index. */
  lemma NumericRowIndexed(rows: seq<Row>, r: Row)
    requires r in rows && r.value.Some?
    ensures r.KeyOf() in IndexOf(rows)
  {
    IndexDomain(rows);
    var i :| 0 <= i < |rows| && rows[i] == r;
  }

  /** Appending rows never removes a key from the index. */
  lemma IndexGrows(a: seq<Row>, b: seq<Row>)
    ensures IndexOf(a).Keys <= IndexOf(a + b).Keys
  {
    IndexDomain(a);
    IndexDomain(a + b);
    forall k | k in IndexOf(a) ensures k in IndexOf(a + b) {
      var i :| 0 <= i < |a| && a[i].KeyOf() == k && a[i].value.Some?;
      assert (a + b)[i] == a[i];
    }
  }

  /** Two indexes hold the same values for every year of `country`'s `indicator`. */
  ghost predicate SameSeries(i1: map<Key, real>, i2: map<Key, real>, country: string, indicator: string) {
    forall y :: (Key(country, y, indicator) in i1 <==> Key(country, y, indicator) in i2)
                && (Key(country, y, indicator) in i1 ==> i1[Key(country, y, indicator)] == i2[Key(country, y, indicator)])
  }

  /** Appending rows of other indicators leaves every series of `indicator` as it was. */
  lemma SeriesAppendOther(a: seq<Row>, b: seq<Row>, country: string, indicator: string)
    requires forall j :: 0 <= j < |b| ==> b[j].indicator != indicator
    ensures SameSeries(IndexOf(a + b), IndexOf(a), country, indicator)
  {
    forall y ensures (Key(country, y, indicator) in IndexOf(a + b) <==> Key(country, y, indicator) in IndexOf(a))
                     && (Key(country, y, indicator) in IndexOf(a + b) ==>
                           IndexOf(a + b)[Key(country, y, indicator)] == IndexOf(a)[Key(country, y, indicator)])
    {
      IndexAppendOther(a, b, Key(country, y, indicator));
    }
  }

  lemma {:induction false} ScanSameSeries(i1: map<Key, real>, i2: map<Key, real>, country: string, year: int, indicator: string,
                                          y: int, stop: int, best: Option<real>, bestGap: int)
    requires SameSeries(i1, i2, country, indicator)
    ensures Scan(i1, country, year, indicator, y, stop, best, bestGap) == Scan(i2, country, year, indicator, y, stop, best, bestGap)
    decreases stop - y
  {
    if y < stop {
      var k := Key(country, y, indicator);
      if k in i1 && Abs(y - year) < bestGap {
        ScanSameSeries(i1, i2, country, year, indicator, y + 1, stop, Some(i1[k]), Abs(y - year));
      } else {
        ScanSameSeries(i1, i2, country, year, indicator, y + 1, stop, best, bestGap);
      }
    }
  }

  /** `nearest_year_value` reads nothing but the one series it is asked about. */
  lemma NearestSameSeries(i1: map<Key, real>, i2: map<Key, real>, country: string, year: int, indicator: string, maxGap: int)
    requires SameSeries(i1, i2, country, indicator)
    ensures NearestYearValue(i1, country, year, indicator, maxGap) == NearestYearValue(i2, country, year, indicator, maxGap)
  {
    ScanSameSeries(i1, i2, country, year, indicator, year - maxGap, year + maxGap + 1, None, NoGap);
  }
}
