/** The enrichment run: the three append-only stages in their fixed order,
    first-wave proxies, then the OWID CO2 merge, then the structural proxies,
    with the row counts the run reports. */
module Enrichment {
  import opened Observations
  import Sorting
  import FirstWave
  import Co2Merge
  import Structural

  /** The counts of the run report. */
  datatype Counts = Counts(input: nat, derived: int, owid: int, structural: int, output: nat)

  function Enrich(rows: seq<Row>, peers: seq<string>, ext: seq<Co2Merge.ExtRow>): (seq<Row>, Counts) {
    var d := FirstWave.AppendDerived(rows, peers);
    var (o, owidAdded) := Co2Merge.AppendCo2(d, peers, ext);
    var s := Structural.AppendStructural(o, peers);
    (s, Counts(|rows|, |d| - |rows|, owidAdded, |s| - |o|, |s|))
  }

  /** Every stage only appends: the input survives as a prefix, every count is
      non-negative, and the counts add up to the output size. */
  lemma EnrichAppendOnly(rows: seq<Row>, peers: seq<string>, ext: seq<Co2Merge.ExtRow>)
    requires Sorting.Distinct(peers)
    ensures var (out, n) := Enrich(rows, peers, ext);
            && out[..|rows|] == rows
            && n.derived >= 0 && n.owid >= 0 && n.structural >= 0
            && n.output == n.input + n.derived + n.owid + n.structural
  {
    var d := FirstWave.AppendDerived(rows, peers);
    var o := Co2Merge.AppendCo2(d, peers, ext).0;
    FirstWave.AppendDerivedShape(rows, peers);
    Co2Merge.AppendCo2Shape(d, peers, ext);
    Structural.AppendStructuralShape(o, peers);
    var out := Enrich(rows, peers, ext).0;
    assert out[..|o|] == o;
    assert o[..|d|] == d;
    assert out[..|rows|] == o[..|d|][..|rows|];
  }

  /** Starting from a store with unique keys and numeric values, and external
      records unique per (country, year), the enriched store keeps every
      (country, year, indicator) key unique and every value numeric. */
  lemma EnrichUnique(rows: seq<Row>, peers: seq<string>, ext: seq<Co2Merge.ExtRow>)
    requires Sorting.Distinct(peers)
    requires UniqueKeys(rows) && AllNumeric(rows)
    requires Co2Merge.UniquePerIsoYear(ext)
    ensures UniqueKeys(Enrich(rows, peers, ext).0)
    ensures AllNumeric(Enrich(rows, peers, ext).0)
  {
    var d := FirstWave.AppendDerived(rows, peers);
    FirstWave.AppendDerivedUnique(rows, peers);
    var o := Co2Merge.AppendCo2(d, peers, ext).0;
    Co2Merge.AppendCo2Unique(d, peers, ext);
    Co2Merge.AppendCo2Shape(d, peers, ext);
    assert AllNumeric(o) by {
      forall j | 0 <= j < |o| ensures o[j].value.Some? {
        if j < |d| {
          assert o[j] == o[..|d|][j];
        } else {
          assert o[j] in o[|d|..];
        }
      }
    }
    Structural.AppendStructuralUnique(o, peers);
    Structural.AppendStructuralShape(o, peers);
    var out := Structural.AppendStructural(o, peers);
    forall j | 0 <= j < |out| ensures out[j].value.Some? {
      if j < |o| {
        assert out[j] == out[..|o|][j];
      } else {
        assert out[j] in out[|o|..];
      }
    }
  }

  /** No structural proxy writes an indicator the first wave reads. */
  lemma StructuralOutputsUnread(p: Structural.Proxy)
    ensures Structural.Id(p) !in FirstWave.Reads
  {
  }

  /** Every row sits on a template pair of `tpls`. */
  ghost predicate Covered(x: seq<Row>, tpls: map<(string, int), Row>) {
    forall j :: 0 <= j < |x| ==> (x[j].country, x[j].year) in tpls
  }

  /** No row writes an indicator the first wave reads. */
  ghost predicate Unread(x: seq<Row>) {
    forall j :: 0 <= j < |x| ==> x[j].indicator !in FirstWave.Reads
  }

  lemma CoveredConcat(a: seq<Row>, b: seq<Row>, tpls: map<(string, int), Row>)
    requires Covered(a, tpls) && Covered(b, tpls) && Unread(a) && Unread(b)
    ensures Covered(a + b, tpls) && Unread(a + b)
  {
    forall j | |a| <= j < |a + b| ensures (a + b)[j] == b[j - |a|] {
    }
  }

  /** The first wave appends covered, unread rows and leaves the templates alone. */
  lemma DerivedStage(rows: seq<Row>, peers: seq<string>)
    requires Sorting.Distinct(peers)
    ensures var dr := FirstWave.DerivedRows(rows, peers);
            && Covered(dr, Templates(rows, peers)) && Unread(dr)
            && Templates(rows + dr, peers) == Templates(rows, peers)
  {
    FirstWave.DerivedCovered(rows, peers);
    TemplatesAppendCovered(rows, FirstWave.DerivedRows(rows, peers), peers);
  }

  /** The CO2 merge appends covered, unread rows and leaves the templates alone. */
  lemma MergeStage(d: seq<Row>, peers: seq<string>, ext: seq<Co2Merge.ExtRow>)
    ensures var m := Co2Merge.MergeRows(ext, peers, KeySet(d), Templates(d, peers));
            && Co2Merge.AppendCo2(d, peers, ext).0 == d + m
            && Covered(m, Templates(d, peers)) && Unread(m)
            && Templates(d + m, peers) == Templates(d, peers)
  {
    var m := Co2Merge.MergeRows(ext, peers, KeySet(d), Templates(d, peers));
    forall j | 0 <= j < |m| ensures (m[j].country, m[j].year) in Templates(d, peers) && m[j].indicator !in FirstWave.Reads {
      assert m[j] in m;
      Co2Merge.MergedCovered(d, peers, ext, m[j]);
      FirstWave.Co2IsNotRead();
    }
    TemplatesAppendCovered(d, m, peers);
  }

  /** The structural pass appends covered, unread rows. */
  lemma StructuralStage(o: seq<Row>, peers: seq<string>)
    ensures var s := Structural.StructuralRows(o, peers);
            Covered(s, Templates(o, peers)) && Unread(s)
  {
    var s := Structural.StructuralRows(o, peers);
    Structural.AppendedCovered(o, peers);
    forall j | 0 <= j < |s| ensures s[j].indicator !in FirstWave.Reads {
      var p := Structural.AppendedProxy(o, peers, s[j]);
      StructuralOutputsUnread(p);
    }
  }

  /** Every member of `a` is a member of `a + b` and of `c + a + b`. */
  lemma MembersSurvive(c: seq<Row>, a: seq<Row>, b: seq<Row>)
    ensures forall r :: r in a ==> r in a + b && r in c + a + b
  {
    forall r | r in a ensures r in a + b && r in c + a + b {
      var i :| 0 <= i < |a| && a[i] == r;
      assert (a + b)[i] == r && (c + a + b)[|c| + i] == r;
    }
  }

  lemma ConcatAssoc(a: seq<Row>, b: seq<Row>, c: seq<Row>, e: seq<Row>)
    ensures a + b + c + e == a + (b + c + e) == (a + b) + (c + e)
    ensures b + c + e == b + (c + e)
  {
  }

  /** A store every stage leaves as it is is a fixed point of the run. */
  lemma EnrichFixed(out: seq<Row>, peers: seq<string>, ext: seq<Co2Merge.ExtRow>)
    requires FirstWave.AppendDerived(out, peers) == out
    requires Co2Merge.AppendCo2(out, peers, ext) == (out, 0)
    requires Structural.AppendStructural(out, peers) == out
    ensures Enrich(out, peers, ext) == (out, Counts(|out|, 0, 0, 0, |out|))
  {
  }

  /** Re-running enrichment on its own output changes nothing and reports no
      appended rows: a second run finds every derivable key already filled. */
  lemma EnrichIdempotent(rows: seq<Row>, peers: seq<string>, ext: seq<Co2Merge.ExtRow>)
    requires Sorting.Distinct(peers)
    ensures var out := Enrich(rows, peers, ext).0;
            Enrich(out, peers, ext) == (out, Counts(|out|, 0, 0, 0, |out|))
  {
    var dr := FirstWave.DerivedRows(rows, peers);
    var d := rows + dr;
    DerivedStage(rows, peers);
    var m := Co2Merge.MergeRows(ext, peers, KeySet(d), Templates(d, peers));
    var o := d + m;
    MergeStage(d, peers, ext);
    var s := Structural.StructuralRows(o, peers);
    var out := o + s;
    StructuralStage(o, peers);
    assert Enrich(rows, peers, ext).0 == out;
    ConcatAssoc(rows, dr, m, s);
    // The first wave of the second run adds nothing.
    CoveredConcat(dr, m, Templates(rows, peers));
    CoveredConcat(dr + m, s, Templates(rows, peers));
    var x := dr + m + s;
    MembersSurvive([], dr, m + s);
    var d2 := FirstWave.DerivedRows(rows + x, peers);
    assert |d2| > 0 ==> d2[0] in d2;
    forall r ensures r !in d2 {
      FirstWave.NoSecondDerivedRow(rows, peers, x, r);
    }
    assert FirstWave.AppendDerived(out, peers) == out;
    // Neither does the merge.
    var y := m + s;
    CoveredConcat(m, s, Templates(d, peers));
    MembersSurvive([], m, s);
    var m2 := Co2Merge.MergeRows(ext, peers, KeySet(d + y), Templates(d + y, peers));
    assert |m2| > 0 ==> m2[0] in m2;
    forall r ensures r !in m2 {
      Co2Merge.NoSecondMerge(d, peers, ext, y, r);
    }
    assert Co2Merge.AppendCo2(out, peers, ext) == (out, 0);
    // Nor the structural pass.
    Structural.AppendStructuralIdempotent(o, peers);
    EnrichFixed(out, peers, ext);
  }
}
