/** The coverage report: catalog indicators per domain against the indicators
    present in the observations, and the World Bank / WGI indicators with no
    observation at all. */
module Coverage {
  import opened Wrappers
  import Sorting
  import Text

  /** The catalog columns the report reads. */
  datatype CatRow = CatRow(indicatorId: string, domain: string, source: string, sourceCode: string)

  // ---------------------------------------------------------------------------
  // The catalog dictionary

  /** `catalog[ind] = row` over the rows: the last row of an id wins. */
  function CatalogMap(rows: seq<CatRow>): map<string, CatRow> {
    if |rows| == 0 then map[]
    else CatalogMap(rows[..|rows| - 1])[rows[|rows| - 1].indicatorId := rows[|rows| - 1]]
  }

  /** The dictionary's key order: an id takes the place of its first row. */
  function CatalogOrder(rows: seq<CatRow>): (ids: seq<string>)
    ensures forall id :: id in ids <==> id in CatalogMap(rows)
    ensures Sorting.Distinct(ids)
  {
    if |rows| == 0 then []
    else
      var ids := CatalogOrder(rows[..|rows| - 1]);
      var id := rows[|rows| - 1].indicatorId;
      if id in ids then ids
      else
        assert forall j :: 0 <= j < |ids| ==> ids[j] != id;
        ids + [id]
  }

  /** Row `p` is the first catalog row with `id`. */
  ghost predicate FirstAt(rows: seq<CatRow>, id: string, p: int) {
    0 <= p < |rows| && rows[p].indicatorId == id
    && forall q :: 0 <= q < p ==> rows[q].indicatorId != id
  }

  /** Every id of the order has a row, and the first such row is in the rows. */
  lemma OrderedIdHasRow(rows: seq<CatRow>, id: string) returns (p: int)
    requires id in CatalogOrder(rows)
    ensures 0 <= p < |rows| && rows[p].indicatorId == id
  {
    CatalogCount(rows);
    assert id in CatalogMap(rows).Keys;
    p :| 0 <= p < |rows| && rows[p].indicatorId == id;
  }

  /** The first row of an id that already has a row before the last is not the last. */
  lemma FirstAtInit(rows: seq<CatRow>, id: string, p: int)
    requires |rows| > 0 && FirstAt(rows, id, p)
    requires id in CatalogOrder(rows[..|rows| - 1])
    ensures p < |rows| - 1 && FirstAt(rows[..|rows| - 1], id, p)
  {
    var init := rows[..|rows| - 1];
    var p0 := OrderedIdHasRow(init, id);
    assert rows[p0] == init[p0];
    assert forall q :: 0 <= q < |init| ==> init[q] == rows[q];
  }

  /** An id outside the order has no row. */
  lemma AbsentIdHasNoRow(rows: seq<CatRow>, id: string)
    requires id !in CatalogOrder(rows)
    ensures forall k :: 0 <= k < |rows| ==> rows[k].indicatorId != id
  {
    CatalogCount(rows);
    forall k | 0 <= k < |rows| ensures rows[k].indicatorId in CatalogMap(rows).Keys {
    }
  }

  /** The dictionary lists the ids in the order of their first rows. */
  lemma {:induction false} CatalogOrderFirstSeen(rows: seq<CatRow>, i: int, j: int, p: int, q: int)
    requires 0 <= i < j < |CatalogOrder(rows)|
    requires FirstAt(rows, CatalogOrder(rows)[i], p) && FirstAt(rows, CatalogOrder(rows)[j], q)
    ensures p < q
  {
    var ids := CatalogOrder(rows);
    var init := rows[..|rows| - 1];
    var ids0 := CatalogOrder(init);
    var id := rows[|rows| - 1].indicatorId;
    assert ids[i] in ids0;
    FirstAtInit(rows, ids[i], p);
    if j < |ids0| {
      assert ids[j] == ids0[j] && ids[i] == ids0[i];
      FirstAtInit(rows, ids[j], q);
      CatalogOrderFirstSeen(init, i, j, p, q);
    } else {
      assert ids[j] == id && id !in ids0;
      AbsentIdHasNoRow(init, id);
      assert forall k :: 0 <= k < |init| ==> init[k] == rows[k];
    }
  }

  /** The reference for last-wins: the last row with `id`, if any. */
  function LastWith(rows: seq<CatRow>, id: string): Option<CatRow> {
    if |rows| == 0 then None
    else if rows[|rows| - 1].indicatorId == id then Some(rows[|rows| - 1])
    else LastWith(rows[..|rows| - 1], id)
  }

  lemma {:induction false} CatalogLastWins(rows: seq<CatRow>, id: string)
    ensures id in CatalogMap(rows) <==> LastWith(rows, id).Some?
    ensures id in CatalogMap(rows) ==> CatalogMap(rows)[id] == LastWith(rows, id).value
  {
    if |rows| > 0 {
      CatalogLastWins(rows[..|rows| - 1], id);
    }
  }

  /** `catalog_indicator_count`: one per distinct indicator id. */
  lemma CatalogCount(rows: seq<CatRow>)
    ensures |CatalogMap(rows)| == |CatalogOrder(rows)|
    ensures CatalogMap(rows).Keys == set i | 0 <= i < |rows| :: rows[i].indicatorId
  {
    var ids := CatalogOrder(rows);
    DistinctCard(ids);
    assert CatalogMap(rows).Keys == set id | id in ids;
    forall id ensures id in CatalogMap(rows) <==> exists i :: 0 <= i < |rows| && rows[i].indicatorId == id {
      CatalogLastWins(rows, id);
      LastWithSome(rows, id);
    }
  }

  lemma {:induction false} LastWithSome(rows: seq<CatRow>, id: string)
    ensures LastWith(rows, id).Some? <==> exists i :: 0 <= i < |rows| && rows[i].indicatorId == id
  {
    if |rows| > 0 {
      var init := rows[..|rows| - 1];
      LastWithSome(init, id);
      assert forall i :: 0 <= i < |init| ==> init[i] == rows[i];
    }
  }

  /** A duplicate-free sequence has as many elements as its set. */
  lemma {:induction false} DistinctCard<T>(s: seq<T>)
    requires Sorting.Distinct(s)
    ensures |set x | x in s| == |s|
  {
    if |s| > 0 {
      var t := s[..|s| - 1];
      assert Sorting.Distinct(t) by {
        forall i, j | 0 <= i < j < |t| ensures t[i] != t[j] { assert t[i] == s[i] && t[j] == s[j]; }
      }
      DistinctCard(t);
      var last := s[|s| - 1];
      assert (set x | x in s) == (set x | x in t) + {last};
      assert last !in (set x | x in t) by {
        forall j | 0 <= j < |t| ensures t[j] != last { assert t[j] == s[j]; }
      }
    }
  }

  // ---------------------------------------------------------------------------
  // Counting per domain

  /** `by_domain_total[domain]`: catalog rows, duplicates included, of the domain. */
  function TotalFor(rows: seq<CatRow>, domain: string): nat {
    if |rows| == 0 then 0
    else TotalFor(rows[..|rows| - 1], domain) + (if rows[|rows| - 1].domain == domain then 1 else 0)
  }

  /** The ids the catalog files under `domain`. */
  function IdsIn(cat: map<string, CatRow>, domain: string): set<string> {
    set id | id in cat && cat[id].domain == domain
  }

  /** `found_indicators`: the distinct observed ids. */
  function FoundSet(observed: seq<string>): set<string> {
    set i | 0 <= i < |observed| :: observed[i]
  }

  /** `by_domain_found[domain]`: observed ids in the catalog, under their catalog domain. */
  function FoundFor(cat: map<string, CatRow>, found: set<string>, domain: string): nat {
    |found * IdsIn(cat, domain)|
  }

  /** A domain holds at most as many distinct ids as it has rows. */
  lemma {:induction false} IdsInBound(rows: seq<CatRow>, domain: string)
    ensures |IdsIn(CatalogMap(rows), domain)| <= TotalFor(rows, domain)
  {
    if |rows| > 0 {
      var init := rows[..|rows| - 1];
      var r := rows[|rows| - 1];
      IdsInBound(init, domain);
      var before, after := IdsIn(CatalogMap(init), domain), IdsIn(CatalogMap(rows), domain);
      if r.domain == domain {
        assert after == before + {r.indicatorId};
      } else {
        assert after == before - {r.indicatorId};
      }
    }
  }

  lemma SubsetCard<T>(a: set<T>, b: set<T>)
    requires a <= b
    ensures |a| <= |b|
  {
    assert b == a + (b - a);
  }

  /** The found count of a domain never exceeds its total. */
  lemma FoundWithinTotal(rows: seq<CatRow>, observed: seq<string>, domain: string)
    ensures FoundFor(CatalogMap(rows), FoundSet(observed), domain) <= TotalFor(rows, domain)
  {
    var ids := IdsIn(CatalogMap(rows), domain);
    SubsetCard(FoundSet(observed) * ids, ids);
    IdsInBound(rows, domain);
  }

  /** A domain of some row has a positive total. */
  lemma {:induction false} TotalPositive(rows: seq<CatRow>, i: int)
    requires 0 <= i < |rows|
    ensures TotalFor(rows, rows[i].domain) > 0
  {
    if i < |rows| - 1 {
      var init := rows[..|rows| - 1];
      assert init[i] == rows[i];
      TotalPositive(init, i);
    }
  }

  // ---------------------------------------------------------------------------
  // The report

  datatype DomainCoverage = DomainCoverage(domain: string, found: nat, total: nat, pct: real)

  datatype MissingEntry = MissingEntry(indicatorId: string, sourceCode: string, domain: string, source: string)

  datatype Report = Report(domainCoverage: seq<DomainCoverage>, missing: seq<MissingEntry>,
                           foundIndicatorCount: nat, catalogIndicatorCount: nat)

  /** `coverage_pct`, with the rounding left out. */
  function Pct(found: nat, total: nat): real {
    if total > 0 then (found as real / total as real) * 100.0 else 0.0
  }

  lemma PctInRange(found: nat, total: nat)
    requires found <= total
    ensures 0.0 <= Pct(found, total) <= 100.0
  {
    if total > 0 {
      assert (found as real / total as real) * total as real == found as real;
    }
  }

  /** The catalog's domains in ascending order, each once. */
  function Domains(rows: seq<CatRow>): (ds: seq<string>)
    ensures forall d :: d in ds <==> exists i :: 0 <= i < |rows| && rows[i].domain == d
    ensures Sorting.StrictlySorted(ds, Text.StrOrder())
  {
    if |rows| == 0 then []
    else
      var init := rows[..|rows| - 1];
      var ds := Domains(init);
      assert forall i :: 0 <= i < |init| ==> init[i] == rows[i];
      Text.StrOrderStrictTotal();
      Sorting.InsertSorted(rows[|rows| - 1].domain, ds, Text.StrOrder());
      Sorting.Insert(rows[|rows| - 1].domain, ds, Text.StrOrder())
  }

  function CoverageOf(cat: map<string, CatRow>, found: set<string>, rows: seq<CatRow>, d: string): DomainCoverage {
    var f := FoundFor(cat, found, d);
    var t := TotalFor(rows, d);
    DomainCoverage(d, f, t, Pct(f, t))
  }

  /** `missing_indicators`: in key order, the unobserved World Bank / WGI ids. */
  function MissingList(cat: map<string, CatRow>, ids: seq<string>, found: set<string>): seq<MissingEntry>
    requires forall id :: id in ids ==> id in cat
  {
    if |ids| == 0 then []
    else
      var id := ids[0];
      var row := cat[id];
      var here := if id !in found && row.source in {"World Bank", "WGI"}
                  then [MissingEntry(id, row.sourceCode, row.domain, row.source)] else [];
      here + MissingList(cat, ids[1..], found)
  }

  /** The report of `main`. */
  function CoverageReport(rows: seq<CatRow>, observed: seq<string>): Report {
    var cat := CatalogMap(rows);
    var found := FoundSet(observed);
    var cov := seq(|Domains(rows)|, i requires 0 <= i < |Domains(rows)| => CoverageOf(cat, found, rows, Domains(rows)[i]));
    Report(cov, MissingList(cat, CatalogOrder(rows), found), |found|, |cat|)
  }

  /** A domain some catalog row carries. */
  ghost predicate RowDomain(rows: seq<CatRow>, d: string) {
    exists i :: 0 <= i < |rows| && rows[i].domain == d
  }

  /** The coverage list is the catalog's domains, each once, ascending. */
  lemma DomainCoverageListing(rows: seq<CatRow>, observed: seq<string>)
    ensures var cov := CoverageReport(rows, observed).domainCoverage;
            && |cov| == |Domains(rows)|
            && (forall j :: 0 <= j < |cov| ==> cov[j].domain == Domains(rows)[j] && RowDomain(rows, cov[j].domain))
            && (forall j, k :: 0 <= j < k < |cov| ==> Text.StrLt(cov[j].domain, cov[k].domain))
  {
    var ds := Domains(rows);
    forall j | 0 <= j < |ds| ensures RowDomain(rows, ds[j]) {
      assert ds[j] in ds;
    }
  }

  /** Each entry counts the domain's rows, at least one, and no more found
      ids than rows, so its percentage lies in [0, 100]. */
  lemma DomainCoverageEntry(rows: seq<CatRow>, observed: seq<string>, j: int)
    requires 0 <= j < |CoverageReport(rows, observed).domainCoverage|
    ensures var e := CoverageReport(rows, observed).domainCoverage[j];
            && e.total == TotalFor(rows, e.domain) && e.total > 0
            && e.found == FoundFor(CatalogMap(rows), FoundSet(observed), e.domain)
            && e.found <= e.total
            && 0.0 <= e.pct <= 100.0
  {
    var ds := Domains(rows);
    var e := CoverageReport(rows, observed).domainCoverage[j];
    assert e == CoverageOf(CatalogMap(rows), FoundSet(observed), rows, ds[j]);
    assert ds[j] in ds;
    var i :| 0 <= i < |rows| && rows[i].domain == ds[j];
    TotalPositive(rows, i);
    FoundWithinTotal(rows, observed, ds[j]);
    PctInRange(e.found, e.total);
  }

  /** The missing list names exactly the unobserved catalog ids whose source is
      World Bank or WGI, each once, with the columns of its last catalog row. */
  lemma MissingListSpec(cat: map<string, CatRow>, ids: seq<string>, found: set<string>)
    requires forall id :: id in ids ==> id in cat
    requires Sorting.Distinct(ids)
    ensures forall m :: m in MissingList(cat, ids, found) <==>
              m.indicatorId in ids && m.indicatorId !in found && cat[m.indicatorId].source in {"World Bank", "WGI"} &&
              m == MissingEntry(m.indicatorId, cat[m.indicatorId].sourceCode, cat[m.indicatorId].domain, cat[m.indicatorId].source)
    ensures forall j, k :: 0 <= j < k < |MissingList(cat, ids, found)| ==>
              MissingList(cat, ids, found)[j].indicatorId != MissingList(cat, ids, found)[k].indicatorId
  {
    MissingListMembers(cat, ids, found);
    MissingListDistinct(cat, ids, found);
  }

  lemma {:induction false} MissingListMembers(cat: map<string, CatRow>, ids: seq<string>, found: set<string>)
    requires forall id :: id in ids ==> id in cat
    ensures forall m :: m in MissingList(cat, ids, found) <==>
              m.indicatorId in ids && m.indicatorId !in found && cat[m.indicatorId].source in {"World Bank", "WGI"} &&
              m == MissingEntry(m.indicatorId, cat[m.indicatorId].sourceCode, cat[m.indicatorId].domain, cat[m.indicatorId].source)
  {
    if |ids| > 0 {
      var rest := ids[1..];
      assert forall id :: id in ids <==> id == ids[0] || id in rest;
      MissingListMembers(cat, rest, found);
    }
  }

  lemma {:induction false} MissingListDistinct(cat: map<string, CatRow>, ids: seq<string>, found: set<string>)
    requires forall id :: id in ids ==> id in cat
    requires Sorting.Distinct(ids)
    ensures forall j, k :: 0 <= j < k < |MissingList(cat, ids, found)| ==>
              MissingList(cat, ids, found)[j].indicatorId != MissingList(cat, ids, found)[k].indicatorId
  {
    if |ids| > 0 {
      var rest := ids[1..];
      assert Sorting.Distinct(rest) by {
        forall i, j | 0 <= i < j < |rest| ensures rest[i] != rest[j] { assert rest[i] == ids[i + 1] && rest[j] == ids[j + 1]; }
      }
      assert forall id :: id in ids ==> id == ids[0] || id in rest;
      assert ids[0] !in rest by {
        forall j | 0 <= j < |rest| ensures rest[j] != ids[0] { assert rest[j] == ids[j + 1]; }
      }
      MissingListDistinct(cat, rest, found);
      MissingListMembers(cat, rest, found);
      var tail := MissingList(cat, rest, found);
      var whole := MissingList(cat, ids, found);
      forall j, k | 0 <= j < k < |whole| ensures whole[j].indicatorId != whole[k].indicatorId {
        if |whole| > |tail| && j == 0 {
          assert whole[k] == tail[k - 1];
          assert whole[k] in tail;
        } else if |whole| > |tail| {
          assert whole[j] == tail[j - 1] && whole[k] == tail[k - 1];
        } else {
          assert whole[j] == tail[j] && whole[k] == tail[k];
        }
      }
    }
  }

  /** The report's missing list, stated over the catalog rows and observations. */
  lemma MissingIndicators(rows: seq<CatRow>, observed: seq<string>, m: MissingEntry)
    ensures m in CoverageReport(rows, observed).missing <==>
              && m.indicatorId in CatalogMap(rows)
              && m.indicatorId !in FoundSet(observed)
              && CatalogMap(rows)[m.indicatorId].source in {"World Bank", "WGI"}
              && m == MissingEntry(m.indicatorId, CatalogMap(rows)[m.indicatorId].sourceCode,
                                   CatalogMap(rows)[m.indicatorId].domain, CatalogMap(rows)[m.indicatorId].source)
  {
    MissingListSpec(CatalogMap(rows), CatalogOrder(rows), FoundSet(observed));
  }

  /** The two counts: distinct observed ids and distinct catalog ids. */
  lemma ReportCounts(rows: seq<CatRow>, observed: seq<string>)
    ensures CoverageReport(rows, observed).foundIndicatorCount == |FoundSet(observed)| <= |observed|
    ensures CoverageReport(rows, observed).catalogIndicatorCount == |set i | 0 <= i < |rows| :: rows[i].indicatorId|
  {
    CatalogCount(rows);
    FoundBound(observed);
  }

  lemma {:induction false} FoundBound(observed: seq<string>)
    ensures |FoundSet(observed)| <= |observed|
  {
    if |observed| > 0 {
      var init := observed[..|observed| - 1];
      FoundBound(init);
      assert FoundSet(observed) == FoundSet(init) + {observed[|observed| - 1]} by {
        forall x | x in FoundSet(observed) ensures x in FoundSet(init) + {observed[|observed| - 1]} {
          var i :| 0 <= i < |observed| && observed[i] == x;
          if i < |init| { assert init[i] == x; }
        }
        forall x | x in FoundSet(init) ensures x in FoundSet(observed) {
          var i :| 0 <= i < |init| && init[i] == x;
          assert observed[i] == x;
        }
      }
    }
  }
}
