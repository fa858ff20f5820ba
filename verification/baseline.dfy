/** The baseline build: observations inside the inclusive 2015-2024 window are
    pooled per indicator; each game state variable takes the first indicator of
    its preference chain that has data, scores its mean through the indicator's
    transform and records diagnostics; then the climate blend, two raw
    passthroughs and the state stability index are added. */
module Baseline {
  import opened Wrappers
  import opened Numeric
  import opened Stats
  import opened Transform

  // ---------------------------------------------------------------------------
  // Pooling observations

  /** One parsed observation row. */
  datatype ObsRow = ObsRow(indicator: string, year: int, value: real)

  const WindowStart: int := 2015
  const WindowEnd: int := 2024

  predicate InWindow(year: int) {
    WindowStart <= year <= WindowEnd
  }

  type Pooled = map<string, seq<(int, real)>>

  /** `by_indicator.get(indicator, [])`. */
  function Lookup(pooled: Pooled, indicator: string): seq<(int, real)> {
    if indicator in pooled then pooled[indicator] else []
  }

  /** `load_observations` over parsed rows: in-window (year, value) pairs appended
      per indicator, in row order. */
  function LoadObservations(obs: seq<ObsRow>): Pooled {
    if |obs| == 0 then map[]
    else
      var acc := LoadObservations(obs[..|obs| - 1]);
      var o := obs[|obs| - 1];
      if InWindow(o.year) then acc[o.indicator := Lookup(acc, o.indicator) + [(o.year, o.value)]] else acc
  }

  /** The reference: the in-window pairs of one indicator, in row order. */
  function Series(obs: seq<ObsRow>, indicator: string): seq<(int, real)> {
    if |obs| == 0 then []
    else
      var o := obs[|obs| - 1];
      Series(obs[..|obs| - 1], indicator) + (if o.indicator == indicator && InWindow(o.year) then [(o.year, o.value)] else [])
  }

  /** Pooling groups exactly the in-window rows of each indicator, in order, and
      lists an indicator only when it has one. */
  lemma {:induction false} LoadObservationsSpec(obs: seq<ObsRow>, indicator: string)
    ensures Lookup(LoadObservations(obs), indicator) == Series(obs, indicator)
    ensures indicator in LoadObservations(obs) <==> |Series(obs, indicator)| > 0
  {
    if |obs| > 0 {
      LoadObservationsSpec(obs[..|obs| - 1], indicator);
    }
  }

  /** Every pooled year lies in the window. */
  lemma {:induction false} SeriesInWindow(obs: seq<ObsRow>, indicator: string)
    ensures forall j :: 0 <= j < |Series(obs, indicator)| ==> InWindow(Series(obs, indicator)[j].0)
  {
    if |obs| > 0 {
      SeriesInWindow(obs[..|obs| - 1], indicator);
    }
  }

  /** A CSV cell as `int()` or `float()` sees it: the parsed number, or the text
      it rejects (a blank cell included). */
  datatype Cell<T> = Parsed(v: T) | Rejected(text: string)

  /** One observation row as read: `indicator_id`, `year` and `value`. */
  datatype RawObsRow = RawObsRow(indicator: string, year: Cell<int>, value: Cell<real>)

  /** The `ValueError` messages of `int()` and `float()`. */
  function IntError(text: string): string {
    "invalid literal for int() with base 10: '" + text + "'"
  }

  function FloatError(text: string): string {
    "could not convert string to float: '" + text + "'"
  }

  /** `int(row["year"])` then `float(row["value"])`: the year is parsed first. */
  function ParseRow(r: RawObsRow): (p: Result<ObsRow>)
    ensures p.Success? <==> r.year.Parsed? && r.value.Parsed?
    ensures r.year.Rejected? ==> p == Failure(IntError(r.year.text))
    ensures r.year.Parsed? && r.value.Rejected? ==> p == Failure(FloatError(r.value.text))
    ensures p.Success? ==> p.value == ObsRow(r.indicator, r.year.v, r.value.v)
  {
    match r.year
    case Rejected(t) => Failure(IntError(t))
    case Parsed(y) =>
      match r.value
      case Rejected(t) => Failure(FloatError(t))
      case Parsed(v) => Success(ObsRow(r.indicator, y, v))
  }

  /** Parsing every row in file order; the first row that does not parse raises,
      whether or not its year is in the window. */
  function ParseObservations(raw: seq<RawObsRow>): (r: Result<seq<ObsRow>>)
    ensures r.Failure? <==> exists i :: 0 <= i < |raw| && ParseRow(raw[i]).Failure?
    ensures r.Success? ==> |r.value| == |raw| && forall i :: 0 <= i < |raw| ==> ParseRow(raw[i]) == Success(r.value[i])
  {
    if |raw| == 0 then Success([])
    else
      assert forall i :: 1 <= i < |raw| ==> raw[i] == raw[1..][i - 1];
      match ParseRow(raw[0])
      case Failure(e) => Failure(e)
      case Success(o) =>
        match ParseObservations(raw[1..])
        case Failure(e) => Failure(e)
        case Success(rest) => Success([o] + rest)
  }

  /** A failure carries the error of the first row that does not parse. */
  lemma {:induction false} ParseObservationsError(raw: seq<RawObsRow>) returns (i: int)
    requires ParseObservations(raw).Failure?
    ensures 0 <= i < |raw| && ParseRow(raw[i]).Failure?
    ensures forall k :: 0 <= k < i ==> ParseRow(raw[k]).Success?
    ensures ParseObservations(raw).error == ParseRow(raw[i]).error
  {
    if ParseRow(raw[0]).Failure? {
      i := 0;
    } else {
      var i' := ParseObservationsError(raw[1..]);
      i := i' + 1;
      assert forall k :: 1 <= k < |raw| ==> raw[k] == raw[1..][k - 1];
    }
  }

  /** `load_observations`: parse every row, then pool the in-window ones. */
  function Load(raw: seq<RawObsRow>): Result<Pooled> {
    match ParseObservations(raw)
    case Failure(e) => Failure(e)
    case Success(obs) => Success(LoadObservations(obs))
  }

  /** Loading fails exactly when some row does not parse; otherwise each
      indicator pools exactly its in-window pairs, in file order. */
  lemma LoadSpec(raw: seq<RawObsRow>, indicator: string)
    ensures Load(raw).Failure? <==> exists i :: 0 <= i < |raw| && ParseRow(raw[i]).Failure?
    ensures Load(raw).Success? ==>
              && Lookup(Load(raw).value, indicator) == Series(ParseObservations(raw).value, indicator)
              && (indicator in Load(raw).value <==> |Series(ParseObservations(raw).value, indicator)| > 0)
  {
    if ParseObservations(raw).Success? {
      LoadObservationsSpec(ParseObservations(raw).value, indicator);
    }
  }

  /** A blank value fails the load even on a row outside the window. */
  lemma BlankValueOutsideWindowFails(ok: seq<RawObsRow>, indicator: string)
    ensures Load(ok + [RawObsRow(indicator, Parsed(1990), Rejected(""))]).Failure?
  {
    var raw := ok + [RawObsRow(indicator, Parsed(1990), Rejected(""))];
    assert ParseRow(raw[|ok|]).Failure?;
  }

  /** `[v for _, v in series]`. */
  function Values(s: seq<(int, real)>): (r: seq<real>)
    ensures |r| == |s|
    ensures forall j :: 0 <= j < |s| ==> r[j] == s[j].1
  {
    if |s| == 0 then [] else [s[0].1] + Values(s[1..])
  }

  // ---------------------------------------------------------------------------
  // Choosing an indicator

  predicate HasData(pooled: Pooled, indicator: string) {
    |Lookup(pooled, indicator)| > 0
  }

  /** `pick_indicator`: the first chain entry with pooled data. */
  function PickIndicator(pooled: Pooled, choices: seq<string>): (r: Option<string>)
    ensures r.None? <==> forall j :: 0 <= j < |choices| ==> !HasData(pooled, choices[j])
    ensures r.Some? ==> exists i :: 0 <= i < |choices| && choices[i] == r.value && HasData(pooled, r.value) &&
                          forall j :: 0 <= j < i ==> !HasData(pooled, choices[j])
  {
    if |choices| == 0 then None
    else if HasData(pooled, choices[0]) then
      assert choices[0] == choices[0];
      Some(choices[0])
    else
      var r := PickIndicator(pooled, choices[1..]);
      assert forall j :: 1 <= j < |choices| ==> choices[j] == choices[1..][j - 1];
      if r.Some? then
        var i :| 0 <= i < |choices[1..]| && choices[1..][i] == r.value && HasData(pooled, r.value) &&
                  forall j :: 0 <= j < i ==> !HasData(pooled, choices[1..][j]);
        assert choices[i + 1] == r.value;
        assert forall j :: 0 <= j < i + 1 ==> !HasData(pooled, choices[j]) by {
          forall j | 0 <= j < i + 1 ensures !HasData(pooled, choices[j]) {
            if j > 0 { assert choices[j] == choices[1..][j - 1]; }
          }
        }
        r
      else
        r
  }

  // ---------------------------------------------------------------------------
  // Scoring one state variable

  /** A diagnostics record: a missing variable, a scored one, or the climate blend. */
  datatype Diag =
    | Missing(indicator: string)
    | Scored(indicator: string, fallbackUsed: bool, preferred: string, rawMean: real,
             rawP10: real, rawP90: real, score: real, sampleCount: nat)
    | Blend(pmMean: Option<real>, renewableMean: Option<real>, score: real, sampleCount: nat)

  const Neutral: real := 50.0

  /** The score and diagnostics of one state variable with a non-empty chain;
      a failure when the chosen indicator has no transform. */
  function ScoreVar(pooled: Pooled, choices: seq<string>, ln: real -> real): Result<(real, Diag)>
    requires |choices| > 0
  {
    match PickIndicator(pooled, choices)
    case None => Success((Neutral, Missing(choices[0])))
    case Some(ind) =>
      var vals := Values(Lookup(pooled, ind));
      var avg := Mean(vals);
      match TransformIndicator(ind, avg, ln)
      case Failure(e) => Failure(e)
      case Success(t) =>
        Success((t, Scored(ind, ind != choices[0], choices[0], avg, Percentile(vals, 0.1), Percentile(vals, 0.9), t, |vals|)))
  }

  /** With no data for any chain entry the variable scores 50 and is reported
      missing under the chain head; otherwise the record names the chosen
      indicator, flags a fallback exactly when it is not the head, counts the
      pooled values and carries the score. */
  lemma ScoreVarSpec(pooled: Pooled, choices: seq<string>, ln: real -> real)
    requires |choices| > 0
    requires Increasing(ln)
    ensures var res := ScoreVar(pooled, choices, ln);
            && (PickIndicator(pooled, choices).None? ==> res == Success((50.0, Missing(choices[0]))))
            && (PickIndicator(pooled, choices).Some? ==>
                  var ind := PickIndicator(pooled, choices).value;
                  && (res.Success? <==> TransformFor(ind).Some?)
                  && (res.Success? ==>
                        && res.value.1.Scored?
                        && res.value.1.indicator == ind
                        && res.value.1.fallbackUsed == (ind != choices[0])
                        && res.value.1.preferred == choices[0]
                        && res.value.1.sampleCount == |Lookup(pooled, ind)|
                        && res.value.1.score == res.value.0
                        && 0.0 <= res.value.0 <= 100.0))
  {
    if PickIndicator(pooled, choices).Some? {
      var ind := PickIndicator(pooled, choices).value;
      TransformIndicatorInRange(ind, Mean(Values(Lookup(pooled, ind))), ln);
    }
  }

  /** The sampled percentiles are values of the pooled series, ordered p10 <= p90. */
  lemma ScoredPercentiles(pooled: Pooled, choices: seq<string>, ln: real -> real)
    requires |choices| > 0
    requires ScoreVar(pooled, choices, ln).Success? && ScoreVar(pooled, choices, ln).value.1.Scored?
    ensures var d := ScoreVar(pooled, choices, ln).value.1;
            var vals := Values(Lookup(pooled, d.indicator));
            d.rawP10 in vals && d.rawP90 in vals && d.rawP10 <= d.rawP90
  {
    var ind := PickIndicator(pooled, choices).value;
    var vals := Values(Lookup(pooled, ind));
    PercentileMember(vals, 0.1);
    PercentileMember(vals, 0.9);
    PercentileMonotone(vals, 0.1, 0.9);
  }

  // ---------------------------------------------------------------------------
  // All state variables

  /** `STATE_MAP`, in its order. */
  const StateMap: seq<(string, seq<string>)> := [
    ("debt_to_gdp", ["DEBT_GDP"]),
    ("deficit_to_gdp", ["DEFICIT_GDP", "CURRENT_ACCOUNT"]),
    ("health_outcome", ["UHC_INDEX", "LIFE_EXPECTANCY"]),
    ("education_outcome", ["HUMAN_CAPITAL", "LOWER_SEC_COMPLETION", "PRIMARY_COMPLETION"]),
    ("public_safety", ["HOMICIDE_RATE"]),
    ("institutional_integrity", ["CONTROL_CORRUPTION", "RULELAW_PROXY"]),
    ("economic_output", ["GDP_PC_PPP"]),
    ("employment", ["UNEMPLOYMENT"]),
    ("external_stability", ["CURRENT_ACCOUNT", "FX_RESERVES_MONTHS"])
  ]

  /** No variable name occurs twice. */
  ghost predicate NamesDistinct(entries: seq<(string, seq<string>)>) {
    forall i, j :: 0 <= i < j < |entries| ==> entries[i].0 != entries[j].0
  }

  ghost predicate ChainsNonEmpty(entries: seq<(string, seq<string>)>) {
    forall i :: 0 <= i < |entries| ==> |entries[i].1| > 0
  }

  /** The state and diagnostics of the chained variables, in order; the first
      failure aborts the run. */
  function ScoreVars(pooled: Pooled, entries: seq<(string, seq<string>)>, ln: real -> real): Result<(map<string, real>, map<string, Diag>)>
    requires ChainsNonEmpty(entries)
  {
    if |entries| == 0 then Success((map[], map[]))
    else
      var (name, choices) := entries[|entries| - 1];
      match ScoreVars(pooled, entries[..|entries| - 1], ln)
      case Failure(e) => Failure(e)
      case Success((st, dg)) =>
        match ScoreVar(pooled, choices, ln)
        case Failure(e) => Failure(e)
        case Success((v, d)) => Success((st[name := v], dg[name := d]))
  }

  /** With distinct names, the run succeeds exactly when every variable scores,
      and then each name maps to its variable's score and record. */
  lemma {:induction false} ScoreVarsSpec(pooled: Pooled, entries: seq<(string, seq<string>)>, ln: real -> real)
    requires ChainsNonEmpty(entries)
    requires NamesDistinct(entries)
    ensures ScoreVars(pooled, entries, ln).Success? <==> forall i :: 0 <= i < |entries| ==> ScoreVar(pooled, entries[i].1, ln).Success?
    ensures ScoreVars(pooled, entries, ln).Success? ==>
              var (st, dg) := ScoreVars(pooled, entries, ln).value;
              forall i :: 0 <= i < |entries| ==>
                && entries[i].0 in st && entries[i].0 in dg
                && st[entries[i].0] == ScoreVar(pooled, entries[i].1, ln).value.0
                && dg[entries[i].0] == ScoreVar(pooled, entries[i].1, ln).value.1
  {
    if |entries| > 0 {
      var front := entries[..|entries| - 1];
      assert ChainsNonEmpty(front) by {
        forall i | 0 <= i < |front| ensures |front[i].1| > 0 { assert front[i] == entries[i]; }
      }
      assert NamesDistinct(front) by {
        forall i, j | 0 <= i < j < |front| ensures front[i].0 != front[j].0 { assert front[i] == entries[i] && front[j] == entries[j]; }
      }
      ScoreVarsSpec(pooled, front, ln);
      forall i | 0 <= i < |front| ensures front[i] == entries[i] {}
      if ScoreVars(pooled, entries, ln).Success? {
        var (st, dg) := ScoreVars(pooled, entries, ln).value;
        var (st0, dg0) := ScoreVars(pooled, front, ln).value;
        var last := entries[|entries| - 1];
        forall i | 0 <= i < |entries|
          ensures && entries[i].0 in st && entries[i].0 in dg
                  && st[entries[i].0] == ScoreVar(pooled, entries[i].1, ln).value.0
                  && dg[entries[i].0] == ScoreVar(pooled, entries[i].1, ln).value.1
        {
          if i < |front| {
            assert entries[i].0 != last.0;
          }
        }
      }
    }
  }

  // ---------------------------------------------------------------------------
  // The composites

  /** `fmean` of the available climate components, `None` when there is none. */
  function ClimateBlend(pm: seq<real>, ren: seq<real>, ln: real -> real): Result<Option<real>> {
    var renPart := if |ren| > 0 then [Min(100.0, Mean(ren) * 1.8)] else [];
    if |pm| > 0 then
      match TransformIndicator("PM25", Mean(pm), ln)
      case Failure(e) => Failure(e)
      case Success(t) => Success(Some(Mean([t] + renPart)))
    else if |ren| > 0 then Success(Some(Mean(renPart)))
    else Success(None)
  }

  /** The blend exists exactly when some component does; it never exceeds 100,
      and it is non-negative when the renewable shares are. */
  lemma ClimateBlendSpec(pm: seq<real>, ren: seq<real>, ln: real -> real)
    requires Increasing(ln)
    ensures ClimateBlend(pm, ren, ln).Success?
    ensures ClimateBlend(pm, ren, ln).value.None? <==> |pm| == 0 && |ren| == 0
    ensures ClimateBlend(pm, ren, ln).value.Some? ==> ClimateBlend(pm, ren, ln).value.value <= 100.0
    ensures (forall j :: 0 <= j < |ren| ==> ren[j] >= 0.0) && ClimateBlend(pm, ren, ln).value.Some? ==>
              ClimateBlend(pm, ren, ln).value.value >= 0.0
  {
    var nonneg := forall j :: 0 <= j < |ren| ==> ren[j] >= 0.0;
    if |ren| > 0 && nonneg {
      MeanAtLeast(ren, 0.0);
    }
    var renPart := if |ren| > 0 then [Min(100.0, Mean(ren) * 1.8)] else [];
    if |pm| > 0 {
      TransformIndicatorInRange("PM25", Mean(pm), ln);
      var comps := [TransformIndicator("PM25", Mean(pm), ln).value] + renPart;
      MeanAtMost(comps, 100.0);
      if nonneg {
        MeanAtLeast(comps, 0.0);
      }
    } else if |ren| > 0 {
      MeanConstant(renPart, renPart[0]);
    }
  }

  /** The state stability index: fixed weights over the five pillars. */
  function Ssi(economy: real, social: real, integrity: real, fiscal: real, external: real): real {
    0.20 * economy + 0.25 * social + 0.20 * integrity + 0.20 * fiscal + 0.15 * external
  }

  /** The weights sum to one: pillars in `[lo, hi]` give an index in `[lo, hi]`,
      and equal pillars give that common value. */
  lemma SsiBounds(economy: real, social: real, integrity: real, fiscal: real, external: real, lo: real, hi: real)
    requires lo <= economy <= hi && lo <= social <= hi && lo <= integrity <= hi
    requires lo <= fiscal <= hi && lo <= external <= hi
    ensures lo <= Ssi(economy, social, integrity, fiscal, external) <= hi
    ensures economy == social == integrity == fiscal == external ==> Ssi(economy, social, integrity, fiscal, external) == economy
  {
  }

  // ---------------------------------------------------------------------------
  // The whole aggregate

  /** The index over the state's pillars: the economy, social and fiscal means,
      integrity and external stability. */
  function SsiOf(st: map<string, real>): real {
    var economy := Mean([At(st, "economic_output"), At(st, "employment")]);
    var social := Mean([At(st, "health_outcome"), At(st, "education_outcome"), At(st, "public_safety")]);
    var fiscal := Mean([At(st, "debt_to_gdp"), At(st, "deficit_to_gdp")]);
    Ssi(economy, social, At(st, "institutional_integrity"), fiscal, At(st, "external_stability"))
  }

  /** Every chained score read by the index lies in `[0, 100]`. */
  ghost predicate PillarsInRange(st: map<string, real>) {
    && 0.0 <= At(st, "debt_to_gdp") <= 100.0
    && 0.0 <= At(st, "deficit_to_gdp") <= 100.0
    && 0.0 <= At(st, "health_outcome") <= 100.0
    && 0.0 <= At(st, "education_outcome") <= 100.0
    && 0.0 <= At(st, "public_safety") <= 100.0
    && 0.0 <= At(st, "institutional_integrity") <= 100.0
    && 0.0 <= At(st, "economic_output") <= 100.0
    && 0.0 <= At(st, "employment") <= 100.0
    && 0.0 <= At(st, "external_stability") <= 100.0
  }

  lemma SsiOfBounds(st: map<string, real>)
    requires PillarsInRange(st)
    ensures 0.0 <= SsiOf(st) <= 100.0
  {
    var economy := [At(st, "economic_output"), At(st, "employment")];
    var social := [At(st, "health_outcome"), At(st, "education_outcome"), At(st, "public_safety")];
    var fiscal := [At(st, "debt_to_gdp"), At(st, "deficit_to_gdp")];
    MeanBounds(economy, 0.0, 100.0);
    MeanBounds(social, 0.0, 100.0);
    MeanBounds(fiscal, 0.0, 100.0);
    SsiBounds(Mean(economy), Mean(social), At(st, "institutional_integrity"), Mean(fiscal), At(st, "external_stability"), 0.0, 100.0);
  }

  datatype Aggregated = Aggregated(state: map<string, real>, diagnostics: map<string, Diag>)

  /** A state entry known to be present; 0.0 is never used (see `AggregateSsi`). */
  function At(st: map<string, real>, k: string): real {
    if k in st then st[k] else 0.0
  }

  function Passthrough(vals: seq<real>, default: real): real {
    if |vals| > 0 then Mean(vals) else default
  }

  /** `aggregate`, with the output rounding left out. */
  function Aggregate(pooled: Pooled, ln: real -> real): Result<Aggregated> {
    assert ChainsNonEmpty(StateMap);
    match ScoreVars(pooled, StateMap, ln)
    case Failure(e) => Failure(e)
    case Success((st0, dg0)) =>
      var pm := Values(Lookup(pooled, "PM25"));
      var ren := Values(Lookup(pooled, "RENEWABLE_ENERGY"));
      match ClimateBlend(pm, ren, ln)
      case Failure(e) => Failure(e)
      case Success(blend) =>
        var climate := blend.GetOr(Neutral);
        var climateDiag := if blend.Some? then Blend(if |pm| > 0 then Some(Mean(pm)) else None,
                                                     if |ren| > 0 then Some(Mean(ren)) else None,
                                                     climate, |pm| + |ren|)
                           else Missing("PM25+RENEWABLE_ENERGY_BLEND");
        var st1 := st0["climate_resilience" := climate];
        var st2 := st1["debt_to_gdp_pct" := Passthrough(Values(Lookup(pooled, "DEBT_GDP")), 60.0)];
        var st3 := st2["deficit_to_gdp_pct" := Passthrough(Values(Lookup(pooled, "DEFICIT_GDP")), -2.0)];
        Success(Aggregated(st3["state_stability_index" := SsiOf(st3)], dg0["climate_resilience" := climateDiag]))
  }

  // ---------------------------------------------------------------------------
  // Properties of the aggregate

  lemma StateMapWellFormed()
    ensures ChainsNonEmpty(StateMap) && NamesDistinct(StateMap)
  {
  }

  /** Every chain entry has a transform except `RULELAW_PROXY`, which only the
      institutional-integrity chain lists. */
  lemma ChainEntryTabled(i: int, j: int)
    requires 0 <= i < |StateMap| && 0 <= j < |StateMap[i].1|
    ensures StateMap[i].1[j] == "RULELAW_PROXY" || TransformFor(StateMap[i].1[j]).Some?
    ensures StateMap[i].1[j] == "RULELAW_PROXY" ==> StateMap[i].0 == "institutional_integrity"
  {
  }

  /** The chosen indicator of a chain is one of its entries. */
  lemma PickedFromChain(pooled: Pooled, choices: seq<string>) returns (j: int)
    requires PickIndicator(pooled, choices).Some?
    ensures 0 <= j < |choices| && choices[j] == PickIndicator(pooled, choices).value
  {
    j :| 0 <= j < |choices| && choices[j] == PickIndicator(pooled, choices).value && HasData(pooled, choices[j]) &&
         forall k :: 0 <= k < j ==> !HasData(pooled, choices[k]);
  }

  /** A chained variable fails to score exactly when its chain picks `RULELAW_PROXY`. */
  lemma ScoreVarFails(pooled: Pooled, i: int, ln: real -> real)
    requires 0 <= i < |StateMap|
    requires Increasing(ln)
    ensures ScoreVar(pooled, StateMap[i].1, ln).Failure? <==> PickIndicator(pooled, StateMap[i].1) == Some("RULELAW_PROXY")
    ensures PickIndicator(pooled, StateMap[i].1) == Some("RULELAW_PROXY") ==> StateMap[i].0 == "institutional_integrity"
  {
    var choices := StateMap[i].1;
    ScoreVarSpec(pooled, choices, ln);
    RuleLawUntabled();
    if PickIndicator(pooled, choices).Some? {
      var j := PickedFromChain(pooled, choices);
      ChainEntryTabled(i, j);
    }
  }

  /** The run fails exactly when institutional integrity has no
      CONTROL_CORRUPTION data but has RULELAW_PROXY data: the chosen fallback
      has no transform. */
  lemma AggregateFails(pooled: Pooled, ln: real -> real)
    requires Increasing(ln)
    ensures Aggregate(pooled, ln).Failure? <==> !HasData(pooled, "CONTROL_CORRUPTION") && HasData(pooled, "RULELAW_PROXY")
  {
    StateMapWellFormed();
    ScoreVarsSpec(pooled, StateMap, ln);
    ClimateBlendSpec(Values(Lookup(pooled, "PM25")), Values(Lookup(pooled, "RENEWABLE_ENERGY")), ln);
    forall i | 0 <= i < |StateMap|
      ensures ScoreVar(pooled, StateMap[i].1, ln).Failure? <==> PickIndicator(pooled, StateMap[i].1) == Some("RULELAW_PROXY")
      ensures PickIndicator(pooled, StateMap[i].1) == Some("RULELAW_PROXY") ==> StateMap[i].0 == "institutional_integrity"
    {
      ScoreVarFails(pooled, i, ln);
    }
    var chain := StateMap[5].1;
    assert chain == ["CONTROL_CORRUPTION", "RULELAW_PROXY"];
    assert PickIndicator(pooled, chain) == Some("RULELAW_PROXY") <==> !HasData(pooled, "CONTROL_CORRUPTION") && HasData(pooled, "RULELAW_PROXY");
    assert StateMap[5].0 == "institutional_integrity";
  }

  /** The names the aggregate writes after the chained variables. */
  const CompositeNames: set<string> := {"climate_resilience", "debt_to_gdp_pct", "deficit_to_gdp_pct", "state_stability_index"}

  lemma CompositeNamesFresh(i: int)
    requires 0 <= i < |StateMap|
    ensures StateMap[i].0 !in CompositeNames
  {
  }

  /** On success every chained variable carries its own score and record: 50
      and a missing record without data, otherwise a score in `[0, 100]` from
      the chosen indicator, with the fallback flag and the sample count. */
  lemma AggregateScores(pooled: Pooled, ln: real -> real, i: int)
    requires Increasing(ln)
    requires Aggregate(pooled, ln).Success?
    requires 0 <= i < |StateMap|
    ensures var out := Aggregate(pooled, ln).value;
            var (name, choices) := StateMap[i];
            && name in out.state && name in out.diagnostics
            && (ScoreVar(pooled, choices, ln).Success? && out.state[name] == ScoreVar(pooled, choices, ln).value.0)
            && out.diagnostics[name] == ScoreVar(pooled, choices, ln).value.1
            && 0.0 <= out.state[name] <= 100.0
            && (PickIndicator(pooled, choices).None? ==> out.state[name] == 50.0 && out.diagnostics[name] == Missing(choices[0]))
  {
    StateMapWellFormed();
    ScoreVarsSpec(pooled, StateMap, ln);
    ScoreVarSpec(pooled, StateMap[i].1, ln);
    CompositeNamesFresh(i);
  }

  /** The chained scores before the composites are written. */
  lemma ChainedScore(pooled: Pooled, ln: real -> real, i: int)
    requires Increasing(ln)
    requires Aggregate(pooled, ln).Success?
    requires 0 <= i < |StateMap|
    ensures ChainsNonEmpty(StateMap)
    ensures var st0 := ScoreVars(pooled, StateMap, ln).value.0;
            StateMap[i].0 in st0 && 0.0 <= At(st0, StateMap[i].0) <= 100.0
  {
    StateMapWellFormed();
    ScoreVarsSpec(pooled, StateMap, ln);
    ScoreVarSpec(pooled, StateMap[i].1, ln);
  }

  lemma ChainedInRange(pooled: Pooled, ln: real -> real)
    requires Increasing(ln)
    requires Aggregate(pooled, ln).Success?
    ensures ChainsNonEmpty(StateMap)
    ensures PillarsInRange(ScoreVars(pooled, StateMap, ln).value.0)
  {
    ChainedScore(pooled, ln, 0);
    ChainedScore(pooled, ln, 1);
    ChainedScore(pooled, ln, 2);
    ChainedScore(pooled, ln, 3);
    ChainedScore(pooled, ln, 4);
    ChainedScore(pooled, ln, 5);
    ChainedScore(pooled, ln, 6);
    ChainedScore(pooled, ln, 7);
    ChainedScore(pooled, ln, 8);
  }

  /** On success the state stability index lies in `[0, 100]`. */
  lemma AggregateSsi(pooled: Pooled, ln: real -> real)
    requires Increasing(ln)
    requires Aggregate(pooled, ln).Success?
    ensures var out := Aggregate(pooled, ln).value;
            "state_stability_index" in out.state && 0.0 <= out.state["state_stability_index"] <= 100.0
  {
    ChainedInRange(pooled, ln);
    var st0 := ScoreVars(pooled, StateMap, ln).value.0;
    var pm := Values(Lookup(pooled, "PM25"));
    var ren := Values(Lookup(pooled, "RENEWABLE_ENERGY"));
    var climate := ClimateBlend(pm, ren, ln).value.GetOr(Neutral);
    var debt := Passthrough(Values(Lookup(pooled, "DEBT_GDP")), 60.0);
    var deficit := Passthrough(Values(Lookup(pooled, "DEFICIT_GDP")), -2.0);
    CompositesKeepPillars(st0, climate, debt, deficit);
    SsiOfBounds(st0["climate_resilience" := climate]["debt_to_gdp_pct" := debt]["deficit_to_gdp_pct" := deficit]);
  }

  /** Writing the composites leaves the chained scores alone. */
  lemma CompositesKeepPillars(st0: map<string, real>, climate: real, debt: real, deficit: real)
    requires PillarsInRange(st0)
    ensures PillarsInRange(st0["climate_resilience" := climate]["debt_to_gdp_pct" := debt]["deficit_to_gdp_pct" := deficit])
  {
  }

  /** On success the climate blend is 50 without PM25 and renewable data and
      never above 100, and the raw debt and deficit passthroughs are the pooled
      means, defaulting to 60 and -2. */
  lemma AggregateComposites(pooled: Pooled, ln: real -> real)
    requires Increasing(ln)
    requires Aggregate(pooled, ln).Success?
    ensures var out := Aggregate(pooled, ln).value;
            && "climate_resilience" in out.state && "climate_resilience" in out.diagnostics
            && (!HasData(pooled, "PM25") && !HasData(pooled, "RENEWABLE_ENERGY") ==>
                  out.state["climate_resilience"] == 50.0 && out.diagnostics["climate_resilience"] == Missing("PM25+RENEWABLE_ENERGY_BLEND"))
            && ((HasData(pooled, "PM25") || HasData(pooled, "RENEWABLE_ENERGY")) ==>
                  out.diagnostics["climate_resilience"].Blend?)
            && out.state["climate_resilience"] <= 100.0
            && "debt_to_gdp_pct" in out.state && "deficit_to_gdp_pct" in out.state
            && out.state["debt_to_gdp_pct"] == (if HasData(pooled, "DEBT_GDP") then Mean(Values(Lookup(pooled, "DEBT_GDP"))) else 60.0)
            && out.state["deficit_to_gdp_pct"] == (if HasData(pooled, "DEFICIT_GDP") then Mean(Values(Lookup(pooled, "DEFICIT_GDP"))) else -2.0)
  {
    ClimateBlendSpec(Values(Lookup(pooled, "PM25")), Values(Lookup(pooled, "RENEWABLE_ENERGY")), ln);
  }

  /** With no DEFICIT_GDP data but CURRENT_ACCOUNT data, the deficit variable
      falls back to CURRENT_ACCOUNT and says so. */
  lemma DeficitFallbackExample(pooled: Pooled, ln: real -> real)
    requires Increasing(ln)
    requires Aggregate(pooled, ln).Success?
    requires !HasData(pooled, "DEFICIT_GDP") && HasData(pooled, "CURRENT_ACCOUNT")
    ensures "deficit_to_gdp" in Aggregate(pooled, ln).value.diagnostics
    ensures var d := Aggregate(pooled, ln).value.diagnostics["deficit_to_gdp"];
            d.Scored? && d.indicator == "CURRENT_ACCOUNT" && d.fallbackUsed && d.preferred == "DEFICIT_GDP"
  {
    DeficitEntry();
    AggregateScores(pooled, ln, 1);
    FallbackScore(pooled, ln);
  }

  /** The deficit variable's entry of the chain table. It is a lemma of its own
      only so that the proofs using it need not unfold the whole table. */
  lemma DeficitEntry()
    ensures StateMap[1] == ("deficit_to_gdp", ["DEFICIT_GDP", "CURRENT_ACCOUNT"])
  {
  }

  lemma FallbackScore(pooled: Pooled, ln: real -> real)
    requires Increasing(ln)
    requires !HasData(pooled, "DEFICIT_GDP") && HasData(pooled, "CURRENT_ACCOUNT")
    ensures var res := ScoreVar(pooled, ["DEFICIT_GDP", "CURRENT_ACCOUNT"], ln);
            res.Success? && res.value.1.Scored? && res.value.1.indicator == "CURRENT_ACCOUNT" &&
            res.value.1.fallbackUsed && res.value.1.preferred == "DEFICIT_GDP"
  {
    var chain := ["DEFICIT_GDP", "CURRENT_ACCOUNT"];
    assert PickIndicator(pooled, chain) == Some("CURRENT_ACCOUNT");
    ScoreVarSpec(pooled, chain, ln);
  }
}
