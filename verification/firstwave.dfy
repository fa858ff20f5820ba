/** `append_derived`: the first derivation wave, which fills DEFICIT_GDP,
    UHC_INDEX and LOWER_SEC_COMPLETION from the measured series, appending one
    row per (peer, year) that lacks the target, has the inputs, and has a
    template row. */
module FirstWave {
  import opened Wrappers
  import opened Observations
  import opened Numeric
  import Sorting

  /** The three first-wave targets. */
  datatype Target = Deficit | Uhc | LowerSec

  function TargetId(t: Target): string {
    match t
    case Deficit => "DEFICIT_GDP"
    case Uhc => "UHC_INDEX"
    case LowerSec => "LOWER_SEC_COMPLETION"
  }

  /** The indicator whose years the target is derived for. */
  function Driver(t: Target): string {
    match t
    case Deficit => "DEBT_GDP"
    case Uhc => "LIFE_EXPECTANCY"
    case LowerSec => "PRIMARY_COMPLETION"
  }

  function ProvenanceOf(t: Target): Provenance {
    match t
    case Deficit => Provenance("DEFICIT_GDP", "Fiscal balance proxy (% of GDP)", "DERIVED.DEFICIT.DYNAMICS", "Derived", "Tier3", "derived_proxy")
    case Uhc => Provenance("UHC_INDEX", "UHC service coverage proxy index", "DERIVED.UHC.PROXY", "Derived", "Tier3", "derived_proxy")
    case LowerSec => Provenance("LOWER_SEC_COMPLETION", "Lower secondary completion proxy", "DERIVED.EDU.LOWERSEC", "Derived", "Tier3", "derived_proxy")
  }

  /** The unclamped debt-dynamics fiscal balance. */
  function DeficitRaw(debt: real, debtPrev: real, growth: real): real {
    (debt - debtPrev) - 0.015 * debtPrev + 0.1 * (growth - 2.0)
  }

  /** The DEFICIT_GDP proxy: the debt-dynamics balance clamped to [-15, 15]. */
  function DeficitProxy(debt: real, debtPrev: real, growth: real): (r: real)
    ensures -15.0 <= r <= 15.0
    ensures -15.0 <= DeficitRaw(debt, debtPrev, growth) <= 15.0 ==> r == DeficitRaw(debt, debtPrev, growth)
  {
    Clamp(DeficitRaw(debt, debtPrev, growth), -15.0, 15.0)
  }

  /** The UHC_INDEX proxy from life expectancy and out-of-pocket share. */
  function UhcProxy(life: real, oop: real): (r: real)
    ensures 0.0 <= r <= 100.0
  {
    var lifeScore := Clamp(((life - 60.0) / 25.0) * 100.0, 0.0, 100.0);
    Clamp(lifeScore - 0.45 * oop + 12.0, 0.0, 100.0)
  }

  /** The LOWER_SEC_COMPLETION proxy from primary completion and human capital. */
  function LowerSecProxy(primary: real, hci: real): (r: real)
    ensures 0.0 <= r <= 100.0
  {
    Clamp(0.7 * primary + 0.3 * (hci * 100.0) - 4.0, 0.0, 100.0)
  }

  /** The target's value at (country, year), or `None` when an input is missing:
      DEBT_GDP at `year` and `year - 1` exactly (growth defaulting to 2.0);
      LIFE_EXPECTANCY at `year` and OOPEXP_SHARE within 3 years; PRIMARY_COMPLETION
      at `year` and HUMAN_CAPITAL within 4 years. */
  function Compute(t: Target, idx: map<Key, real>, c: string, y: int): Option<real> {
    match t
    case Deficit =>
      if Key(c, y, "DEBT_GDP") in idx && Key(c, y - 1, "DEBT_GDP") in idx then
        Some(DeficitProxy(idx[Key(c, y, "DEBT_GDP")], idx[Key(c, y - 1, "DEBT_GDP")],
                          Get(idx, c, y, "GDP_GROWTH").GetOr(2.0)))
      else None
    case Uhc =>
      var life := Get(idx, c, y, "LIFE_EXPECTANCY");
      var oop := NearestYearValue(idx, c, y, "OOPEXP_SHARE", 3);
      if life.Some? && oop.Some? then Some(UhcProxy(life.value, oop.value)) else None
    case LowerSec =>
      var primary := Get(idx, c, y, "PRIMARY_COMPLETION");
      var hci := NearestYearValue(idx, c, y, "HUMAN_CAPITAL", 4);
      if primary.Some? && hci.Some? then Some(LowerSecProxy(primary.value, hci.value)) else None
  }

  /** The row (if any) appended for target `t` at (c, y). */
  function CandidateRow(t: Target, idx: map<Key, real>, tpls: map<(string, int), Row>, c: string, y: int): seq<Row> {
    if Key(c, y, TargetId(t)) in idx then []
    else
      match Compute(t, idx, c, y)
      case None => []
      case Some(v) => if (c, y) in tpls then [MakeRow(tpls[(c, y)], ProvenanceOf(t), v)] else []
  }

  /** The rows appended for target `t` over the years `ys` of country `c`. */
  function OverYears(t: Target, idx: map<Key, real>, tpls: map<(string, int), Row>, c: string, ys: seq<int>): seq<Row> {
    if |ys| == 0 then []
    else CandidateRow(t, idx, tpls, c, ys[0]) + OverYears(t, idx, tpls, c, ys[1..])
  }

  /** The rows appended for target `t`: every peer, every year of its driver series. */
  function OverPeers(t: Target, rows: seq<Row>, idx: map<Key, real>, tpls: map<(string, int), Row>, ps: seq<string>): seq<Row> {
    if |ps| == 0 then []
    else OverYears(t, idx, tpls, ps[0], YearsOf(rows, ps[0], Driver(t))) + OverPeers(t, rows, idx, tpls, ps[1..])
  }

  /** All rows `append_derived` adds, in its order: deficits, then UHC, then lower-secondary. */
  function DerivedRows(rows: seq<Row>, peers: seq<string>): seq<Row> {
    var idx := IndexOf(rows);
    var tpls := Templates(rows, peers);
    OverPeers(Deficit, rows, idx, tpls, peers)
    + OverPeers(Uhc, rows, idx, tpls, peers)
    + OverPeers(LowerSec, rows, idx, tpls, peers)
  }

  /** `append_derived(rows, peers)`; `peers` lists the peer set in its iteration order. */
  function AppendDerived(rows: seq<Row>, peers: seq<string>): seq<Row> {
    rows + DerivedRows(rows, peers)
  }

  // ---------------------------------------------------------------------------
  // What a derived row is

  /** `r` is the row target `t` produces at its own (country, year): the driver is
      present there, the target is not, the inputs are, and so is a template. */
  ghost predicate Produced(t: Target, idx: map<Key, real>, tpls: map<(string, int), Row>, r: Row) {
    var c, y := r.country, r.year;
    && Key(c, y, Driver(t)) in idx
    && Key(c, y, TargetId(t)) !in idx
    && (c, y) in tpls
    && Compute(t, idx, c, y).Some?
    && r == MakeRow(tpls[(c, y)], ProvenanceOf(t), Compute(t, idx, c, y).value)
  }

  lemma OverYearsSpec(t: Target, idx: map<Key, real>, tpls: map<(string, int), Row>,
                      peers: seq<string>, c: string, ys: seq<int>)
    requires TemplatesKeyed(tpls, peers)
    requires Sorting.StrictlySorted(ys, IntOrder())
    ensures forall r :: r in OverYears(t, idx, tpls, c, ys) <==> r.country == c && r.year in ys && Produced(t, idx, tpls, r)
    ensures UniqueKeys(OverYears(t, idx, tpls, c, ys))
  {
    OverYearsMembers(t, idx, tpls, peers, c, ys);
    OverYearsUnique(t, idx, tpls, peers, c, ys);
  }

  lemma {:induction false} OverYearsMembers(t: Target, idx: map<Key, real>, tpls: map<(string, int), Row>,
                                            peers: seq<string>, c: string, ys: seq<int>)
    requires TemplatesKeyed(tpls, peers)
    ensures forall r :: r in OverYears(t, idx, tpls, c, ys) <==> r.country == c && r.year in ys && Produced(t, idx, tpls, r)
  {
    if |ys| > 0 {
      var rest := ys[1..];
      OverYearsMembers(t, idx, tpls, peers, c, rest);
      var head := CandidateRow(t, idx, tpls, c, ys[0]);
      var tail := OverYears(t, idx, tpls, c, rest);
      assert OverYears(t, idx, tpls, c, ys) == head + tail;
      assert ys == [ys[0]] + rest;
    }
  }

  lemma {:induction false} OverYearsUnique(t: Target, idx: map<Key, real>, tpls: map<(string, int), Row>,
                                           peers: seq<string>, c: string, ys: seq<int>)
    requires TemplatesKeyed(tpls, peers)
    requires Sorting.StrictlySorted(ys, IntOrder())
    ensures UniqueKeys(OverYears(t, idx, tpls, c, ys))
  {
    if |ys| > 0 {
      var rest := ys[1..];
      assert Sorting.StrictlySorted(rest, IntOrder()) by {
        forall i, j | 0 <= i < j < |rest| ensures IntOrder()(rest[i], rest[j]) {
          assert rest[i] == ys[i + 1] && rest[j] == ys[j + 1];
        }
      }
      OverYearsUnique(t, idx, tpls, peers, c, rest);
      OverYearsMembers(t, idx, tpls, peers, c, rest);
      var head := CandidateRow(t, idx, tpls, c, ys[0]);
      var tail := OverYears(t, idx, tpls, c, rest);
      assert OverYears(t, idx, tpls, c, ys) == head + tail;
      assert ys[0] !in rest by {
        forall i | 0 <= i < |rest| ensures rest[i] != ys[0] {
          assert IntOrder()(ys[0], ys[i + 1]);
        }
      }
      assert KeySet(head) !! KeySet(tail);
      UniqueConcat(head, tail);
    }
  }

  lemma {:induction false} OverPeersSpec(t: Target, rows: seq<Row>, tpls: map<(string, int), Row>,
                                         peers: seq<string>, ps: seq<string>)
    requires TemplatesKeyed(tpls, peers)
    requires Sorting.Distinct(ps)
    ensures forall r :: r in OverPeers(t, rows, IndexOf(rows), tpls, ps) <==> r.country in ps && Produced(t, IndexOf(rows), tpls, r)
    ensures UniqueKeys(OverPeers(t, rows, IndexOf(rows), tpls, ps))
  {
    if |ps| > 0 {
      var idx := IndexOf(rows);
      var rest := ps[1..];
      assert Sorting.Distinct(rest) by {
        forall i, j | 0 <= i < j < |rest| ensures rest[i] != rest[j] {
          assert rest[i] == ps[i + 1] && rest[j] == ps[j + 1];
        }
      }
      OverPeersSpec(t, rows, tpls, peers, rest);
      var ys := YearsOf(rows, ps[0], Driver(t));
      OverYearsSpec(t, idx, tpls, peers, ps[0], ys);
      var head := OverYears(t, idx, tpls, ps[0], ys);
      var tail := OverPeers(t, rows, idx, tpls, rest);
      assert ps[0] !in rest by {
        forall i | 0 <= i < |rest| ensures rest[i] != ps[0] {
          assert rest[i] == ps[i + 1];
        }
      }
      assert KeySet(head) !! KeySet(tail);
      UniqueConcat(head, tail);
      assert ps == [ps[0]] + rest;
    }
  }

  /** The rows `append_derived` adds are exactly the rows the three targets produce
      for the peers. */
  lemma DerivedRowsSpec(rows: seq<Row>, peers: seq<string>)
    requires Sorting.Distinct(peers)
    ensures var idx, tpls := IndexOf(rows), Templates(rows, peers);
            forall r :: r in DerivedRows(rows, peers) <==>
              r.country in peers && (Produced(Deficit, idx, tpls, r) || Produced(Uhc, idx, tpls, r) || Produced(LowerSec, idx, tpls, r))
  {
    var tpls := Templates(rows, peers);
    TemplatesAreKeyed(rows, peers);
    OverPeersSpec(Deficit, rows, tpls, peers, peers);
    OverPeersSpec(Uhc, rows, tpls, peers, peers);
    OverPeersSpec(LowerSec, rows, tpls, peers, peers);
  }

  /** No two added rows share a key: at most one row per (peer, year, target). */
  lemma DerivedRowsUnique(rows: seq<Row>, peers: seq<string>)
    requires Sorting.Distinct(peers)
    ensures UniqueKeys(DerivedRows(rows, peers))
  {
    var idx, tpls := IndexOf(rows), Templates(rows, peers);
    TemplatesAreKeyed(rows, peers);
    OverPeersSpec(Deficit, rows, tpls, peers, peers);
    OverPeersSpec(Uhc, rows, tpls, peers, peers);
    OverPeersSpec(LowerSec, rows, tpls, peers, peers);
    var a := OverPeers(Deficit, rows, idx, tpls, peers);
    var b := OverPeers(Uhc, rows, idx, tpls, peers);
    var c := OverPeers(LowerSec, rows, idx, tpls, peers);
    TargetKeysApart(a, b, "DEFICIT_GDP", "UHC_INDEX");
    UniqueConcat(a, b);
    TargetKeysApart(a, c, "DEFICIT_GDP", "LOWER_SEC_COMPLETION");
    TargetKeysApart(b, c, "UHC_INDEX", "LOWER_SEC_COMPLETION");
    assert KeySet(a + b) !! KeySet(c);
    UniqueConcat(a + b, c);
  }

  /** Rows of two different indicators never share a key. */
  lemma TargetKeysApart(a: seq<Row>, b: seq<Row>, ia: string, ib: string)
    requires ia != ib
    requires forall r :: r in a ==> r.indicator == ia
    requires forall r :: r in b ==> r.indicator == ib
    ensures KeySet(a) !! KeySet(b)
  {
    forall k | k in KeySet(a) ensures k !in KeySet(b) {
      var i :| 0 <= i < |a| && a[i].KeyOf() == k;
      assert a[i] in a;
      forall j | 0 <= j < |b| ensures b[j].KeyOf() != k {
        assert b[j] in b;
      }
    }
  }

  /** What a produced row looks like, whatever its target. */
  lemma ProducedShape(t: Target, idx: map<Key, real>, tpls: map<(string, int), Row>, peers: seq<string>, r: Row)
    requires TemplatesKeyed(tpls, peers)
    requires Produced(t, idx, tpls, r)
    ensures r.indicator == TargetId(t) && r.KeyOf() !in idx
    ensures r.tier == "Tier3" && r.flag == "derived_proxy" && r.source == "Derived" && r.value.Some?
    ensures (r.country, r.year) in tpls && r.meta == tpls[(r.country, r.year)].meta
  {
  }

  /** Each added row is produced by the target its indicator names. */
  lemma DerivedRowTarget(rows: seq<Row>, peers: seq<string>, r: Row) returns (t: Target)
    requires Sorting.Distinct(peers)
    requires r in DerivedRows(rows, peers)
    ensures r.country in peers && r.indicator == TargetId(t)
    ensures Produced(t, IndexOf(rows), Templates(rows, peers), r)
  {
    var idx, tpls := IndexOf(rows), Templates(rows, peers);
    DerivedRowsSpec(rows, peers);
    TemplatesAreKeyed(rows, peers);
    t := if Produced(Deficit, idx, tpls, r) then Deficit else if Produced(Uhc, idx, tpls, r) then Uhc else LowerSec;
    ProducedShape(t, idx, tpls, peers, r);
  }

  /** An added row is a Tier3 `derived_proxy` row of one of the three targets,
      for a peer, on a key absent from the index, copying the columns of its
      (country, year) template row. */
  lemma DerivedRowFacts(rows: seq<Row>, peers: seq<string>, r: Row)
    requires Sorting.Distinct(peers)
    requires r in DerivedRows(rows, peers)
    ensures && r.indicator in {"DEFICIT_GDP", "UHC_INDEX", "LOWER_SEC_COMPLETION"}
            && r.country in peers
            && r.KeyOf() !in IndexOf(rows)
            && r.tier == "Tier3" && r.flag == "derived_proxy" && r.source == "Derived"
            && r.value.Some?
            && (r.country, r.year) in Templates(rows, peers)
            && r.meta == Templates(rows, peers)[(r.country, r.year)].meta
  {
    var t := DerivedRowTarget(rows, peers, r);
    TemplatesAreKeyed(rows, peers);
    ProducedShape(t, IndexOf(rows), Templates(rows, peers), peers, r);
  }

  /** `append_derived` keeps its input as a prefix and appends only rows as
      `DerivedRowFacts` describes. */
  lemma AppendDerivedShape(rows: seq<Row>, peers: seq<string>)
    requires Sorting.Distinct(peers)
    ensures var out := AppendDerived(rows, peers);
            && |out| >= |rows| && out[..|rows|] == rows
            && forall r :: r in out[|rows|..] ==>
                 && r.indicator in {"DEFICIT_GDP", "UHC_INDEX", "LOWER_SEC_COMPLETION"}
                 && r.country in peers
                 && r.KeyOf() !in IndexOf(rows)
                 && r.tier == "Tier3" && r.flag == "derived_proxy" && r.source == "Derived"
                 && r.value.Some?
                 && (r.country, r.year) in Templates(rows, peers)
                 && r.meta == Templates(rows, peers)[(r.country, r.year)].meta
  {
    var out := AppendDerived(rows, peers);
    var d := DerivedRows(rows, peers);
    assert out[|rows|..] == d;
    forall r | r in d
      ensures && r.indicator in {"DEFICIT_GDP", "UHC_INDEX", "LOWER_SEC_COMPLETION"}
              && r.country in peers
              && r.KeyOf() !in IndexOf(rows)
              && r.tier == "Tier3" && r.flag == "derived_proxy" && r.source == "Derived"
              && r.value.Some?
              && (r.country, r.year) in Templates(rows, peers)
              && r.meta == Templates(rows, peers)[(r.country, r.year)].meta
    {
      DerivedRowFacts(rows, peers, r);
    }
  }

  /** With unique keys and numeric values in the input, `append_derived` keeps
      every key unique: the index it checks against then covers every key present. */
  lemma AppendDerivedUnique(rows: seq<Row>, peers: seq<string>)
    requires Sorting.Distinct(peers)
    requires UniqueKeys(rows) && AllNumeric(rows)
    ensures UniqueKeys(AppendDerived(rows, peers))
    ensures AllNumeric(AppendDerived(rows, peers))
  {
    DerivedRowsUnique(rows, peers);
    IndexKeysAllNumeric(rows);
    var d := DerivedRows(rows, peers);
    forall k | k in KeySet(d) ensures k !in KeySet(rows) {
      var i :| 0 <= i < |d| && d[i].KeyOf() == k;
      DerivedRowFacts(rows, peers, d[i]);
    }
    UniqueConcat(rows, d);
    var out := rows + d;
    forall i | 0 <= i < |out| ensures out[i].value.Some? {
      if i >= |rows| {
        assert out[i] == d[i - |rows|];
        DerivedRowFacts(rows, peers, d[i - |rows|]);
      }
    }
  }

  /** A target is appended at (peer, year) exactly when its driver is present
      there, the target is absent, its inputs are present and a template exists. */
  lemma AppendDerivedComplete(rows: seq<Row>, peers: seq<string>, t: Target, c: string, y: int)
    requires Sorting.Distinct(peers)
    requires c in peers
    ensures var idx, tpls := IndexOf(rows), Templates(rows, peers);
            (exists r :: r in DerivedRows(rows, peers) && r.KeyOf() == Key(c, y, TargetId(t))) <==>
              && Key(c, y, Driver(t)) in idx
              && Key(c, y, TargetId(t)) !in idx
              && Compute(t, idx, c, y).Some?
              && (c, y) in tpls
  {
    var idx, tpls := IndexOf(rows), Templates(rows, peers);
    if Key(c, y, Driver(t)) in idx && Key(c, y, TargetId(t)) !in idx && Compute(t, idx, c, y).Some? && (c, y) in tpls {
      var r := AppendedWhenReady(rows, peers, t, c, y);
    }
    forall r | r in DerivedRows(rows, peers) && r.KeyOf() == Key(c, y, TargetId(t))
      ensures Key(c, y, Driver(t)) in idx && Key(c, y, TargetId(t)) !in idx && Compute(t, idx, c, y).Some? && (c, y) in tpls
    {
      var t' := DerivedRowTarget(rows, peers, r);
      ProducedReady(t', t, idx, tpls, r, c, y);
    }
  }

  /** A row produced under the key of target `t` is `t`'s, and `t` was ready there. */
  lemma ProducedReady(t': Target, t: Target, idx: map<Key, real>, tpls: map<(string, int), Row>, r: Row, c: string, y: int)
    requires r.indicator == TargetId(t') && Produced(t', idx, tpls, r)
    requires r.KeyOf() == Key(c, y, TargetId(t))
    ensures Key(c, y, Driver(t)) in idx && Key(c, y, TargetId(t)) !in idx && Compute(t, idx, c, y).Some? && (c, y) in tpls
  {
    assert TargetId(t') == TargetId(t);
  }

  /** The row a ready (peer, year, target) gets. */
  lemma AppendedWhenReady(rows: seq<Row>, peers: seq<string>, t: Target, c: string, y: int) returns (r: Row)
    requires Sorting.Distinct(peers)
    requires c in peers
    requires var idx, tpls := IndexOf(rows), Templates(rows, peers);
             Key(c, y, Driver(t)) in idx && Key(c, y, TargetId(t)) !in idx && Compute(t, idx, c, y).Some? && (c, y) in tpls
    ensures r in DerivedRows(rows, peers) && r.KeyOf() == Key(c, y, TargetId(t))
  {
    var idx, tpls := IndexOf(rows), Templates(rows, peers);
    TemplatesAreKeyed(rows, peers);
    DerivedRowsSpec(rows, peers);
    r := MakeRow(tpls[(c, y)], ProvenanceOf(t), Compute(t, idx, c, y).value);
    assert Produced(t, idx, tpls, r);
  }

  /** Every appended DEFICIT_GDP row holds the clamped debt-dynamics balance of its
      year and the year before, with growth defaulting to 2.0. */
  lemma DeficitRowValue(rows: seq<Row>, peers: seq<string>, r: Row)
    requires Sorting.Distinct(peers)
    requires r in DerivedRows(rows, peers) && r.indicator == "DEFICIT_GDP"
    ensures var idx := IndexOf(rows);
            && Key(r.country, r.year, "DEBT_GDP") in idx && Key(r.country, r.year - 1, "DEBT_GDP") in idx
            && r.value == Some(Clamp(DeficitRaw(idx[Key(r.country, r.year, "DEBT_GDP")],
                                                idx[Key(r.country, r.year - 1, "DEBT_GDP")],
                                                Get(idx, r.country, r.year, "GDP_GROWTH").GetOr(2.0)), -15.0, 15.0))
            && -15.0 <= r.value.value <= 15.0
  {
    var t := DerivedRowTarget(rows, peers, r);
    assert t == Deficit;
    ProducedDeficit(IndexOf(rows), Templates(rows, peers), r);
  }

  /** A produced DEFICIT_GDP row holds the clamped balance of its inputs. */
  lemma ProducedDeficit(idx: map<Key, real>, tpls: map<(string, int), Row>, r: Row)
    requires Produced(Deficit, idx, tpls, r)
    ensures && Key(r.country, r.year, "DEBT_GDP") in idx && Key(r.country, r.year - 1, "DEBT_GDP") in idx
            && r.value == Some(Clamp(DeficitRaw(idx[Key(r.country, r.year, "DEBT_GDP")],
                                                idx[Key(r.country, r.year - 1, "DEBT_GDP")],
                                                Get(idx, r.country, r.year, "GDP_GROWTH").GetOr(2.0)), -15.0, 15.0))
            && -15.0 <= r.value.value <= 15.0
  {
  }

  /** Every appended UHC_INDEX or LOWER_SEC_COMPLETION row lies in [0, 100]. */
  lemma ScoreRowsInRange(rows: seq<Row>, peers: seq<string>, r: Row)
    requires Sorting.Distinct(peers)
    requires r in DerivedRows(rows, peers) && r.indicator in {"UHC_INDEX", "LOWER_SEC_COMPLETION"}
    ensures r.value.Some? && 0.0 <= r.value.value <= 100.0
  {
    var t := DerivedRowTarget(rows, peers, r);
    assert t != Deficit;
  }

  /** Debt 90 then 85 with growth 3 gives a balance of 3.825, inside the clamp. */
  lemma DeficitExample()
    ensures DeficitProxy(90.0, 85.0, 3.0) == 3.825
  {
    assert DeficitRaw(90.0, 85.0, 3.0) == 3.825;
  }

  // ---------------------------------------------------------------------------
  // Idempotence

  /** Every indicator the wave reads: the drivers and the other inputs. */
  const Reads: set<string> :=
    {"DEBT_GDP", "GDP_GROWTH", "LIFE_EXPECTANCY", "OOPEXP_SHARE", "PRIMARY_COMPLETION", "HUMAN_CAPITAL"}

  /** No target is an indicator the wave reads. */
  lemma TargetsAreNotReads(t: Target)
    ensures TargetId(t) !in Reads && Driver(t) in Reads
  {
  }

  /** The wave does not read CO2_PC. */
  lemma Co2IsNotRead()
    ensures "CO2_PC" !in Reads
  {
  }

  /** A target's value survives appending rows whose indicators the wave does not read. */
  lemma ComputeAppendOther(t: Target, a: seq<Row>, b: seq<Row>, c: string, y: int)
    requires forall j :: 0 <= j < |b| ==> b[j].indicator !in Reads
    ensures Compute(t, IndexOf(a + b), c, y) == Compute(t, IndexOf(a), c, y)
  {
    var i1, i2 := IndexOf(a + b), IndexOf(a);
    match t
    case Deficit =>
      SeriesAppendOther(a, b, c, "DEBT_GDP");
      SeriesAppendOther(a, b, c, "GDP_GROWTH");
      assert Get(i1, c, y, "GDP_GROWTH") == Get(i2, c, y, "GDP_GROWTH");
    case Uhc =>
      SeriesAppendOther(a, b, c, "LIFE_EXPECTANCY");
      SeriesAppendOther(a, b, c, "OOPEXP_SHARE");
      assert Get(i1, c, y, "LIFE_EXPECTANCY") == Get(i2, c, y, "LIFE_EXPECTANCY");
      NearestSameSeries(i1, i2, c, y, "OOPEXP_SHARE", 3);
    case LowerSec =>
      SeriesAppendOther(a, b, c, "PRIMARY_COMPLETION");
      SeriesAppendOther(a, b, c, "HUMAN_CAPITAL");
      assert Get(i1, c, y, "PRIMARY_COMPLETION") == Get(i2, c, y, "PRIMARY_COMPLETION");
      NearestSameSeries(i1, i2, c, y, "HUMAN_CAPITAL", 4);
  }

  /** Rows appended after the wave that sit on templated pairs, write no indicator
      the wave reads, and include every row the wave added leave a second wave
      nothing to add: whatever it could produce, the first wave already did. */
  lemma NoSecondDerivedRow(rows: seq<Row>, peers: seq<string>, x: seq<Row>, r: Row)
    requires Sorting.Distinct(peers)
    requires forall j :: 0 <= j < |x| ==> (x[j].country, x[j].year) in Templates(rows, peers) && x[j].indicator !in Reads
    requires forall d :: d in DerivedRows(rows, peers) ==> d in x
    ensures r !in DerivedRows(rows + x, peers)
  {
    var out := rows + x;
    if r in DerivedRows(out, peers) {
      TemplatesAppendCovered(rows, x, peers);
      var t := DerivedRowTarget(out, peers, r);
      var c, y := r.country, r.year;
      ProducedReady(t, t, IndexOf(out), Templates(out, peers), r, c, y);
      TargetsAreNotReads(t);
      ComputeAppendOther(t, rows, x, c, y);
      IndexAppendOther(rows, x, Key(c, y, Driver(t)));
      IndexGrows(rows, x);
      var d := AppendedWhenReady(rows, peers, t, c, y);
      DerivedRowFacts(rows, peers, d);
      NumericRowIndexed(out, d);
    }
  }

  /** Every added row sits on a templated pair and writes no indicator the wave reads. */
  lemma DerivedCovered(rows: seq<Row>, peers: seq<string>)
    requires Sorting.Distinct(peers)
    ensures var x := DerivedRows(rows, peers);
            forall j :: 0 <= j < |x| ==> (x[j].country, x[j].year) in Templates(rows, peers) && x[j].indicator !in Reads
  {
    var x := DerivedRows(rows, peers);
    forall j | 0 <= j < |x| ensures (x[j].country, x[j].year) in Templates(rows, peers) && x[j].indicator !in Reads {
      var t := DerivedRowTarget(rows, peers, x[j]);
      TemplatesAreKeyed(rows, peers);
      ProducedShape(t, IndexOf(rows), Templates(rows, peers), peers, x[j]);
      TargetsAreNotReads(t);
    }
  }

  /** Re-running `append_derived` on its own output appends nothing. */
  lemma AppendDerivedIdempotent(rows: seq<Row>, peers: seq<string>)
    requires Sorting.Distinct(peers)
    ensures AppendDerived(AppendDerived(rows, peers), peers) == AppendDerived(rows, peers)
  {
    var x := DerivedRows(rows, peers);
    DerivedCovered(rows, peers);
    var x2 := DerivedRows(rows + x, peers);
    assert |x2| > 0 ==> x2[0] in x2;
    forall r ensures r !in x2 {
      NoSecondDerivedRow(rows, peers, x, r);
    }
  }
}
