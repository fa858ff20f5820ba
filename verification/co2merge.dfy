/** The merge step of `append_owid_co2`: external CO2-per-capita records are
    appended as CO2_PC rows for peers and years 2000-2025, only where the key is
    absent from the input and a template row exists. The download itself is not
    part of this model; the merge takes the already-parsed records. */
module Co2Merge {
  import opened Wrappers
  import opened Observations
  import Text
  import Sorting

  /** One record of the external table, as the merge sees it.
      `isoCode`: the `iso_code` field, `None` when the column is missing.
      `year`: `int(row.get("year") or 0)`, so `Some(0)` for a missing or empty
      field and `None` when the text is not an integer.
      `co2`: the `co2_per_capita` value, `None` when missing, empty or not a number. */
  datatype ExtRow = ExtRow(isoCode: Option<string>, year: Option<int>, co2: Option<real>)

  const FirstYear: int := 2000
  const LastYear: int := 2025

  const Co2Provenance: Provenance :=
    Provenance("CO2_PC", "CO2 emissions (metric tons per capita)", "OWID.CO2_PER_CAPITA", "OWID", "Tier2", "fallback_external")

  /** The record's country code: trimmed and upper-cased. */
  function NormIso(e: ExtRow): string {
    Text.Upper(Text.Strip(e.isoCode.GetOr("")))
  }

  /** The merge accepts the record: a peer, a year in the window, a value, a key
      absent from the input and a template for (country, year). */
  ghost predicate Accepted(e: ExtRow, peers: seq<string>, existing: set<Key>, tpls: map<(string, int), Row>) {
    && NormIso(e) in peers
    && e.year.Some? && FirstYear <= e.year.value <= LastYear
    && e.co2.Some?
    && Key(NormIso(e), e.year.value, "CO2_PC") !in existing
    && (NormIso(e), e.year.value) in tpls
  }

  /** The rows (zero or one) the merge appends for one record. */
  function MergeOne(e: ExtRow, peers: seq<string>, existing: set<Key>, tpls: map<(string, int), Row>): seq<Row> {
    var iso := NormIso(e);
    if iso !in peers then []
    else
      match e.year
      case None => []
      case Some(y) =>
        if y < FirstYear || y > LastYear then []
        else
          match e.co2
          case None => []
          case Some(v) =>
            if Key(iso, y, "CO2_PC") in existing then []
            else if (iso, y) !in tpls then []
            else [MakeRow(tpls[(iso, y)], Co2Provenance, v)]
  }

  function MergeRows(ext: seq<ExtRow>, peers: seq<string>, existing: set<Key>, tpls: map<(string, int), Row>): seq<Row> {
    if |ext| == 0 then [] else MergeOne(ext[0], peers, existing, tpls) + MergeRows(ext[1..], peers, existing, tpls)
  }

  /** `append_owid_co2` after the download: the rows with the merged records
      appended, and how many were appended. The key set is taken once from the
      input and is not updated as records are appended. */
  function AppendCo2(rows: seq<Row>, peers: seq<string>, ext: seq<ExtRow>): (seq<Row>, int) {
    var added := MergeRows(ext, peers, KeySet(rows), Templates(rows, peers));
    (rows + added, |added|)
  }

  /** The row an accepted record becomes. */
  function MergedRow(e: ExtRow, tpls: map<(string, int), Row>): Row
    requires e.year.Some? && e.co2.Some? && (NormIso(e), e.year.value) in tpls
  {
    MakeRow(tpls[(NormIso(e), e.year.value)], Co2Provenance, e.co2.value)
  }

  /** One record contributes its row exactly when it is accepted. */
  lemma MergeOneSpec(e: ExtRow, peers: seq<string>, existing: set<Key>, tpls: map<(string, int), Row>)
    ensures MergeOne(e, peers, existing, tpls) ==
            if Accepted(e, peers, existing, tpls) then [MergedRow(e, tpls)] else []
  {
  }

  /** Record `i` is accepted and `r` is the row it becomes. */
  ghost predicate MergedFrom(r: Row, ext: seq<ExtRow>, i: int, peers: seq<string>, existing: set<Key>, tpls: map<(string, int), Row>) {
    0 <= i < |ext| && Accepted(ext[i], peers, existing, tpls) && r == MergedRow(ext[i], tpls)
  }

  lemma {:induction false} MergeRowsSound(ext: seq<ExtRow>, peers: seq<string>, existing: set<Key>, tpls: map<(string, int), Row>, r: Row)
    requires r in MergeRows(ext, peers, existing, tpls)
    ensures exists i :: MergedFrom(r, ext, i, peers, existing, tpls)
  {
    MergeOneSpec(ext[0], peers, existing, tpls);
    if r in MergeOne(ext[0], peers, existing, tpls) {
      assert MergedFrom(r, ext, 0, peers, existing, tpls);
    } else {
      MergeRowsSound(ext[1..], peers, existing, tpls, r);
      var i :| MergedFrom(r, ext[1..], i, peers, existing, tpls);
      assert ext[1..][i] == ext[i + 1];
      assert MergedFrom(r, ext, i + 1, peers, existing, tpls);
    }
  }

  lemma {:induction false} MergeRowsComplete(ext: seq<ExtRow>, peers: seq<string>, existing: set<Key>, tpls: map<(string, int), Row>, i: int)
    requires 0 <= i < |ext| && Accepted(ext[i], peers, existing, tpls)
    ensures MergedRow(ext[i], tpls) in MergeRows(ext, peers, existing, tpls)
    decreases i
  {
    var tail := MergeRows(ext[1..], peers, existing, tpls);
    assert MergeRows(ext, peers, existing, tpls) == MergeOne(ext[0], peers, existing, tpls) + tail;
    if i == 0 {
      MergeOneSpec(ext[0], peers, existing, tpls);
    } else {
      assert ext[1..][i - 1] == ext[i];
      MergeRowsComplete(ext[1..], peers, existing, tpls, i - 1);
      assert MergedRow(ext[i], tpls) in tail;
    }
  }

  /** The appended rows are exactly the accepted records. */
  lemma MergeRowsSpec(ext: seq<ExtRow>, peers: seq<string>, existing: set<Key>, tpls: map<(string, int), Row>)
    ensures forall r :: r in MergeRows(ext, peers, existing, tpls) <==>
              exists i :: MergedFrom(r, ext, i, peers, existing, tpls)
  {
    forall r ensures r in MergeRows(ext, peers, existing, tpls) <==> exists i :: MergedFrom(r, ext, i, peers, existing, tpls) {
      if r in MergeRows(ext, peers, existing, tpls) {
        MergeRowsSound(ext, peers, existing, tpls, r);
      }
      if exists i :: MergedFrom(r, ext, i, peers, existing, tpls) {
        var i :| MergedFrom(r, ext, i, peers, existing, tpls);
        MergeRowsComplete(ext, peers, existing, tpls, i);
      }
    }
  }

  /** The merge never alters an input row, and appends only Tier2
      `fallback_external` CO2_PC rows for a peer, a year in 2000-2025, and a key
      absent from the input; the count it reports is the number appended. */
  lemma AppendCo2Shape(rows: seq<Row>, peers: seq<string>, ext: seq<ExtRow>)
    ensures var (out, n) := AppendCo2(rows, peers, ext);
            && |out| == |rows| + n && out[..|rows|] == rows
            && forall r :: r in out[|rows|..] ==>
                 && r.indicator == "CO2_PC" && r.source == "OWID" && r.tier == "Tier2" && r.flag == "fallback_external"
                 && r.country in peers && FirstYear <= r.year <= LastYear
                 && r.KeyOf() !in KeySet(rows)
                 && r.value.Some?
                 && (r.country, r.year) in Templates(rows, peers)
                 && r.meta == Templates(rows, peers)[(r.country, r.year)].meta
  {
    var existing, tpls := KeySet(rows), Templates(rows, peers);
    MergeRowsSpec(ext, peers, existing, tpls);
    TemplatesAreKeyed(rows, peers);
    var (out, n) := AppendCo2(rows, peers, ext);
    assert out[|rows|..] == MergeRows(ext, peers, existing, tpls);
  }

  /** A record is merged exactly when it is accepted. */
  lemma AppendCo2Accepts(rows: seq<Row>, peers: seq<string>, ext: seq<ExtRow>, i: int)
    requires 0 <= i < |ext|
    ensures var (out, _) := AppendCo2(rows, peers, ext);
            Accepted(ext[i], peers, KeySet(rows), Templates(rows, peers)) ==> MergedRow(ext[i], Templates(rows, peers)) in out[|rows|..]
  {
    var existing, tpls := KeySet(rows), Templates(rows, peers);
    var (out, n) := AppendCo2(rows, peers, ext);
    assert out[|rows|..] == MergeRows(ext, peers, existing, tpls);
    if Accepted(ext[i], peers, existing, tpls) {
      MergeRowsComplete(ext, peers, existing, tpls, i);
    }
  }

  /** No two records share a (normalised country, year). */
  ghost predicate UniquePerIsoYear(ext: seq<ExtRow>) {
    forall i, j :: 0 <= i < j < |ext| && ext[i].year.Some? && ext[j].year.Some? ==>
      (NormIso(ext[i]), ext[i].year.value) != (NormIso(ext[j]), ext[j].year.value)
  }

  lemma {:induction false} MergeRowsUnique(ext: seq<ExtRow>, peers: seq<string>, existing: set<Key>, tpls: map<(string, int), Row>)
    requires UniquePerIsoYear(ext)
    requires TemplatesKeyed(tpls, peers)
    ensures UniqueKeys(MergeRows(ext, peers, existing, tpls))
    ensures forall r :: r in MergeRows(ext, peers, existing, tpls) ==> r.KeyOf() !in existing
  {
    if |ext| > 0 {
      var rest := ext[1..];
      assert UniquePerIsoYear(rest) by {
        forall i, j | 0 <= i < j < |rest| && rest[i].year.Some? && rest[j].year.Some?
          ensures (NormIso(rest[i]), rest[i].year.value) != (NormIso(rest[j]), rest[j].year.value)
        {
          assert rest[i] == ext[i + 1] && rest[j] == ext[j + 1];
        }
      }
      MergeRowsUnique(rest, peers, existing, tpls);
      MergeRowsSpec(rest, peers, existing, tpls);
      MergeOneSpec(ext[0], peers, existing, tpls);
      var head := MergeOne(ext[0], peers, existing, tpls);
      var tail := MergeRows(rest, peers, existing, tpls);
      forall r | r in tail ensures r.KeyOf() !in KeySet(head) {
        var i :| MergedFrom(r, rest, i, peers, existing, tpls);
        assert rest[i] == ext[i + 1];
      }
      assert KeySet(head) !! KeySet(tail);
      UniqueConcat(head, tail);
    }
  }

  /** When the external records are unique per (country, year), the merge keeps
      every key of the store unique. */
  lemma AppendCo2Unique(rows: seq<Row>, peers: seq<string>, ext: seq<ExtRow>)
    requires UniqueKeys(rows)
    requires UniquePerIsoYear(ext)
    ensures UniqueKeys(AppendCo2(rows, peers, ext).0)
  {
    var existing, tpls := KeySet(rows), Templates(rows, peers);
    TemplatesAreKeyed(rows, peers);
    MergeRowsUnique(ext, peers, existing, tpls);
    var added := MergeRows(ext, peers, existing, tpls);
    assert KeySet(rows) !! KeySet(added);
    UniqueConcat(rows, added);
  }

  /** Without that, the merge duplicates keys: an accepted record listed twice
      is appended twice, because appended keys are not added to the key set. */
  lemma {:induction false} AppendCo2DuplicatesRepeatedRecord(rows: seq<Row>, peers: seq<string>, e: ExtRow)
    requires Accepted(e, peers, KeySet(rows), Templates(rows, peers))
    ensures AppendCo2(rows, peers, [e, e]).1 == 2
    ensures var out := AppendCo2(rows, peers, [e, e]).0;
            |out| == |rows| + 2 && out[|rows|] == out[|rows| + 1] && !UniqueKeys(out)
  {
    var existing, tpls := KeySet(rows), Templates(rows, peers);
    MergeOneSpec(e, peers, existing, tpls);
    var one := MergeOne(e, peers, existing, tpls);
    assert MergeRows([e, e], peers, existing, tpls) == one + one by {
      assert [e, e][1..] == [e] && [e, e][0] == e;
      assert [e][1..] == [] && [e][0] == e;
      assert MergeRows([e], peers, existing, tpls) == one + MergeRows([], peers, existing, tpls);
    }
    var out := AppendCo2(rows, peers, [e, e]).0;
    assert out[|rows|] == one[0] && out[|rows| + 1] == one[0];
  }

  // ---------------------------------------------------------------------------
  // Idempotence

  /** Rows appended after the merge that sit on templated pairs and include every
      row it merged leave a second merge nothing to accept: a record accepted
      then has had its key taken by its own row. */
  lemma NoSecondMerge(rows: seq<Row>, peers: seq<string>, ext: seq<ExtRow>, x: seq<Row>, r: Row)
    requires forall j :: 0 <= j < |x| ==> (x[j].country, x[j].year) in Templates(rows, peers)
    requires forall a :: a in MergeRows(ext, peers, KeySet(rows), Templates(rows, peers)) ==> a in x
    ensures r !in MergeRows(ext, peers, KeySet(rows + x), Templates(rows + x, peers))
  {
    var out := rows + x;
    if r in MergeRows(ext, peers, KeySet(out), Templates(out, peers)) {
      TemplatesAppendCovered(rows, x, peers);
      TemplatesAreKeyed(rows, peers);
      KeySetConcat(rows, x);
      MergeRowsSound(ext, peers, KeySet(out), Templates(rows, peers), r);
      var i :| MergedFrom(r, ext, i, peers, KeySet(out), Templates(rows, peers));
      MergeRowsComplete(ext, peers, KeySet(rows), Templates(rows, peers), i);
    }
  }

  /** A merged row is a CO2_PC row on a template pair of the input. */
  lemma MergedCovered(rows: seq<Row>, peers: seq<string>, ext: seq<ExtRow>, r: Row)
    requires r in MergeRows(ext, peers, KeySet(rows), Templates(rows, peers))
    ensures (r.country, r.year) in Templates(rows, peers) && r.indicator == "CO2_PC"
  {
    TemplatesAreKeyed(rows, peers);
    MergeRowsSound(ext, peers, KeySet(rows), Templates(rows, peers), r);
  }

  /** Re-running the merge on its own output appends nothing and reports 0. */
  lemma AppendCo2Idempotent(rows: seq<Row>, peers: seq<string>, ext: seq<ExtRow>)
    ensures var out := AppendCo2(rows, peers, ext).0;
            AppendCo2(out, peers, ext) == (out, 0)
  {
    var x := MergeRows(ext, peers, KeySet(rows), Templates(rows, peers));
    AppendCo2Shape(rows, peers, ext);
    assert AppendCo2(rows, peers, ext).0[|rows|..] == x;
    forall j | 0 <= j < |x| ensures (x[j].country, x[j].year) in Templates(rows, peers) {
      assert x[j] in x;
    }
    var out := rows + x;
    var x2 := MergeRows(ext, peers, KeySet(out), Templates(out, peers));
    assert |x2| > 0 ==> x2[0] in x2;
    forall r ensures r !in x2 {
      NoSecondMerge(rows, peers, ext, x, r);
    }
    assert x2 == [];
    assert out + x2 == out;
  }

  lemma StripPadded()
    ensures Text.Strip(" usa ") == "usa"
  {
    var s := " usa ";
    assert Text.IsSpace(s[0]) && !Text.IsSpace(s[1]);
    assert Text.SkipSpace(s, 0) == 1;
    assert Text.IsSpace(s[4]) && !Text.IsSpace(s[3]);
    assert Text.SkipSpaceBack(s, 1, 5) == 4;
    assert s[1..4] == "usa";
  }

  lemma UpperUsa()
    ensures Text.Upper("usa") == "USA"
  {
    var s := "usa";
    assert Text.Upper(s)[0] == 'U' && Text.Upper(s)[1] == 'S' && Text.Upper(s)[2] == 'A';
  }

  /** The one-row store of the example below. */
  function ExampleRow(): Row {
    Row("USA", 2010, "GDP_GROWTH", "", "", Some(2.0), "World Bank", "Tier1", "ok", Meta("", "", "", "", "", ""))
  }

  lemma ExampleTemplate()
    ensures ("USA", 2010) in Templates([ExampleRow()], ["USA"])
  {
    var base := ExampleRow();
    assert [base][..0] == [];
    assert Templates([base][..0], ["USA"]) == map[];
    assert base.country in ["USA"] && [base][0] == base;
  }

  lemma ExampleKeyAbsent()
    ensures Key("USA", 2010, "CO2_PC") !in KeySet([ExampleRow()])
  {
    assert forall i :: 0 <= i < |[ExampleRow()]| ==> [ExampleRow()][i].KeyOf() != Key("USA", 2010, "CO2_PC");
  }

  /** A padded, lower-case code is accepted for its peer: the record
      " usa " / 2010 / 15.0 against one 2010 row for USA. */
  lemma PaddedCodeAccepted()
    ensures Accepted(ExtRow(Some(" usa "), Some(2010), Some(15.0)), ["USA"], KeySet([ExampleRow()]), Templates([ExampleRow()], ["USA"]))
  {
    StripPadded();
    UpperUsa();
    ExampleTemplate();
    ExampleKeyAbsent();
  }
}
