# Country manager: the data pipeline behind the game's starting state

This project is a Dafny model of the deterministic core of the country
manager repository.

That core turns World Bank indicator observations into the calibrated
baseline a new game starts from. It has five parts:

- **The enrichment run.** This is `scripts/enrich_observations.py`. It
  holds observations keyed by (country, year, indicator) and runs three
  append-only stages in a fixed order:
  - the first-wave proxies DEFICIT_GDP, UHC_INDEX and
    LOWER_SEC_COMPLETION;
  - the merge of the external OWID CO2 per-capita series;
  - the structural proxies: governance, political finance, budget
    structure, SIPRI and the four seed indices.
- **The baseline build.** This is `scripts/build_baseline.py`. It has
  five steps:
  - the 2015–2024 window filter;
  - the nearest-rank percentile;
  - the seven direction transforms to a 0–100 score;
  - the indicator preference chains;
  - the composites and the state stability index.
- **The World Bank fetch.** This is `scripts/fetch_world_bank.py`, without
  the network. It covers:
  - the peer list;
  - the catalog filter;
  - row normalisation;
  - the error map and exit code of a run.
- **The coverage report.** This is `scripts/data_coverage_report.py`, as
  set arithmetic over catalog rows and observed ids.
- **The web client rules.** These come from `web/app.js`:
  - district quadrants and tile sprites;
  - the action-point and streak economy;
  - the capped ticker and event rail;
  - building-state thresholds and tier promotion;
  - the `#rrggbb` colour conversions.

Everything is an immutable value: `seq`s of row records, `map`s for the
Python dictionaries, `real` for every measurement, and `Option`/`Result`
for the places where the scripts skip a row or raise an error.

Some parts of the source are made into parameters:

- The natural logarithm is a parameter `ln: real -> real`. The only thing
  assumed of it is that it is strictly increasing on the positive reals.
- The iteration order of a Python set of peers is an input sequence,
  required to be duplicate-free.
- The outcome of each network fetch is a function from the indicator's
  position in the run to `Result`. A code listed twice makes two requests,
  which may end differently.

Modules:

| Module | Models |
|---|---|
| `Wrappers` | `Option` and `Result` |
| `Sorting` | `sorted()` as a strictly-sorted insertion |
| `Text` | `str.strip()` and `str.upper()` |
| `Numeric` | `max(lo, min(hi, x))` |
| `Observations` | rows, keys, `index_values`, templates and `nearest_year_value` |
| `FirstWave` | `append_derived` |
| `Co2Merge` | the merge loop of `append_owid_co2` |
| `Structural` | `wgi_to_100` and `append_structural_proxies` |
| `Enrichment` | the run of the three stages |
| `Stats` | mean, sort, round-half-even and percentile |
| `Transform` | `transform` and the `TRANSFORMS` table |
| `Baseline` | `load_observations`, `pick_indicator` and `aggregate` |
| `WorldBank` | the pure parts of the fetch script |
| `Coverage` | the coverage report |
| `Game` and `Color` | the web client rules |

## Model

| member | source | states |
|---|---|---|
| Observations.IndexDomain | scripts/enrich_observations.py:49-57 | a key is in the index exactly when some row with that key has a numeric value |
| Observations.IndexLastWins | scripts/enrich_observations.py:49-57 | a key maps to the value of its last numeric row, as later dictionary writes overwrite earlier ones |
| Observations.IndexAppendOther | scripts/enrich_observations.py:49-57 | appending rows whose keys differ from `k` changes neither whether `k` is indexed nor its value |
| Observations.IndexKeysAllNumeric | scripts/enrich_observations.py:49-57 | when every value parses, the index covers exactly the keys present |
| Observations.IndexUnique | scripts/enrich_observations.py:49-57 | with unique keys, each numeric row's own value is the one indexed |
| Observations.TemplatesDomain | scripts/enrich_observations.py:92-98 | a template exists exactly for the (country, year) pairs that some peer row carries |
| Observations.TemplatesFirstWins | scripts/enrich_observations.py:98 | `setdefault` keeps the first peer row of each pair as its template |
| Observations.TemplateKeys | scripts/enrich_observations.py:265 | `sorted(templates.items())` visits each templated pair, strictly ascending |
| Observations.TemplatesAppendCovered | scripts/enrich_observations.py:258-263 | rows on pairs that already have a template change neither the templates nor their order |
| Observations.YearsOf | scripts/enrich_observations.py:102 | the listed years are exactly those with a numeric value of the indicator for the country, ascending, each once |
| Observations.Get | scripts/enrich_observations.py:108-110 | the point lookup yields a value exactly when the key is indexed, and then that value |
| Observations.ScanCorrect | scripts/enrich_observations.py:76-83 | the ascending scan with a strict `g < best_gap` keeps the nearest year seen so far, the earliest among equally near ones |
| Observations.NearestYearValueSpec | scripts/enrich_observations.py:72-84 | an exact-year value comes first; otherwise the result is `None` exactly when no year within `max_gap` has a value, and else the value of the nearest such year, the earlier one on a tie |
| Observations.NumericRowIndexed | scripts/enrich_observations.py:49-57 | a row with a numeric value has its key in the index |
| Observations.IndexGrows | scripts/enrich_observations.py:49-57 | appending rows never removes a key from the index |
| Observations.SeriesAppendOther | scripts/enrich_observations.py:49-57 | appending rows of other indicators leaves every (country, indicator) series as it was, keys and values |
| Observations.ScanSameSeries | scripts/enrich_observations.py:76-83 | the year scan gives the same answer on two indexes that agree on the scanned series |
| Observations.NearestSameSeries | scripts/enrich_observations.py:72-84 | `nearest_year_value` reads only the series it is asked about |
| FirstWave.DeficitProxy | scripts/enrich_observations.py:114-115 | the debt-dynamics balance always lies in [-15, 15] and is left unchanged when already inside |
| FirstWave.UhcProxy | scripts/enrich_observations.py:142-143 | the UHC proxy lies in [0, 100] |
| FirstWave.LowerSecProxy | scripts/enrich_observations.py:170 | the lower-secondary proxy lies in [0, 100] |
| FirstWave.OverYearsSpec | scripts/enrich_observations.py:103-130 | a target's loop over a peer's years appends exactly the rows it produces for those years, without duplicate keys |
| FirstWave.OverPeersSpec | scripts/enrich_observations.py:101-103 | over distinct peers, a target appends exactly its produced rows for those peers, without duplicate keys |
| FirstWave.DerivedRowsSpec | scripts/enrich_observations.py:87-187 | the appended rows are exactly the DEFICIT_GDP, UHC_INDEX and LOWER_SEC_COMPLETION rows the three targets produce for the peers |
| FirstWave.DerivedRowsUnique | scripts/enrich_observations.py:101-185 | at most one row is appended per (peer, year, target) |
| FirstWave.TargetKeysApart | scripts/enrich_observations.py:101-185 | rows of two different target indicators never share a key |
| FirstWave.ProducedShape | scripts/enrich_observations.py:104-129 | a produced row has an unindexed key, a template, the template's metadata, a numeric value and the Tier3/`derived_proxy`/Derived tags |
| FirstWave.DerivedRowTarget | scripts/enrich_observations.py:87-187 | every appended row was produced by the target its indicator names, for a peer |
| FirstWave.DerivedRowFacts | scripts/enrich_observations.py:104-129 | every appended row names one of the three targets and a peer, was absent from the index, has a template whose metadata it copies, and is tagged Tier3/`derived_proxy` |
| FirstWave.AppendDerivedShape | scripts/enrich_observations.py:87-187 | the output keeps the input as a prefix and appends only rows as `DerivedRowFacts` describes |
| FirstWave.AppendDerivedUnique | scripts/enrich_observations.py:87-187 | keys that are unique and numeric on input stay unique and numeric on output |
| FirstWave.AppendDerivedComplete | scripts/enrich_observations.py:101-185 | a target row is appended at (peer, year) exactly when its driver is indexed, the target is not, its inputs are available and a template exists |
| FirstWave.ProducedReady | scripts/enrich_observations.py:104-118 | a produced row's target was ready at its (country, year): driver present, target absent, inputs computable, template present |
| FirstWave.AppendedWhenReady | scripts/enrich_observations.py:104-130 | a ready (peer, year, target) does receive a row under that key |
| FirstWave.DeficitRowValue | scripts/enrich_observations.py:100-130 | every DEFICIT_GDP row needs DEBT_GDP at its year and the year before, and holds the clamped balance with growth defaulting to 2.0 |
| FirstWave.ProducedDeficit | scripts/enrich_observations.py:106-115 | the same value statement for any produced DEFICIT_GDP row |
| FirstWave.ScoreRowsInRange | scripts/enrich_observations.py:142-170 | every UHC_INDEX and LOWER_SEC_COMPLETION row lies in [0, 100] |
| FirstWave.DeficitExample | scripts/enrich_observations.py:114-115 | debt 90 after 85 with growth 3 gives 3.825 |
| FirstWave.TargetsAreNotReads | scripts/enrich_observations.py:100-170 | no target writes an indicator the wave reads, and each target's driver is one it reads |
| FirstWave.ComputeAppendOther | scripts/enrich_observations.py:100-170 | a target's inputs and value are unchanged by appending rows of indicators the wave does not read |
| FirstWave.DerivedCovered | scripts/enrich_observations.py:104-129 | every added row sits on a templated pair and writes no indicator the wave reads |
| FirstWave.NoSecondDerivedRow | scripts/enrich_observations.py:87-187 | once rows on templated pairs that include every added row and read nothing the wave reads are appended, a second wave produces no row |
| FirstWave.AppendDerivedIdempotent | scripts/enrich_observations.py:87-187 | `append_derived` on its own output returns it unchanged |
| Co2Merge.MergeOneSpec | scripts/enrich_observations.py:209-244 | a record contributes one CO2_PC row exactly when it passes every guard: a peer's upper-cased code, a year in [2000, 2025], a numeric value, an absent key and a template |
| Co2Merge.MergeRowsSound | scripts/enrich_observations.py:209-244 | every merged row comes from some accepted record |
| Co2Merge.MergeRowsComplete | scripts/enrich_observations.py:209-244 | every accepted record's row is merged |
| Co2Merge.MergeRowsSpec | scripts/enrich_observations.py:209-244 | the merged rows are exactly the rows of the accepted records |
| Co2Merge.AppendCo2Shape | scripts/enrich_observations.py:197-246 | the input stays a prefix; appended rows are CO2_PC/OWID/Tier2/`fallback_external` rows for a peer, year in [2000, 2025], with a key absent from the input and the template's metadata; the returned count is the number appended |
| Co2Merge.AppendCo2Accepts | scripts/enrich_observations.py:209-244 | each accepted record appears among the appended rows |
| Co2Merge.MergeRowsUnique | scripts/enrich_observations.py:204-244 | with records unique per (code, year), merged keys are distinct and none was already present |
| Co2Merge.AppendCo2Unique | scripts/enrich_observations.py:204-244 | with records unique per (code, year), a store of unique keys stays unique |
| Co2Merge.AppendCo2DuplicatesRepeatedRecord | scripts/enrich_observations.py:204-244 | because `existing` is never updated, an accepted record listed twice is appended twice and the keys are no longer unique |
| Co2Merge.PaddedCodeAccepted | scripts/enrich_observations.py:210 | a padded lower-case code such as " usa " is accepted for peer USA |
| Co2Merge.MergedCovered | scripts/enrich_observations.py:209-244 | a merged row is a CO2_PC row on a templated pair of the input |
| Co2Merge.NoSecondMerge | scripts/enrich_observations.py:204-244 | once rows on templated pairs that include every merged row are appended, a second merge accepts no record, since each accepted key is now taken |
| Co2Merge.AppendCo2Idempotent | scripts/enrich_observations.py:190-246 | the merge on its own output appends nothing and reports 0 added rows |
| Structural.WgiTo100 | scripts/enrich_observations.py:249-250 | the rescaled governance score lies in [0, 100], is linear on [-2.5, 2.5] and saturates outside it |
| Structural.WgiTo100Monotone | scripts/enrich_observations.py:249-250 | the rescaling is non-decreasing |
| Structural.ProxyNeeds | scripts/enrich_observations.py:280-429 | which inputs each proxy needs: the four seeds always have a value, the others exactly when their guarded inputs are present, COFOG shares only with positive GGEXP_GDP |
| Structural.ProxyRange | scripts/enrich_observations.py:281-427 | every proxy value lies in its proxy's range |
| Structural.SeedIdsSpec | scripts/enrich_observations.py:414-429 | the seed indicator ids are exactly the four seeds' |
| Structural.IdInjective | scripts/enrich_observations.py:285-428 | distinct proxies write distinct indicators |
| Structural.IdNames | scripts/enrich_observations.py:285-428 | two proxies write the same indicator exactly when they are the same proxy |
| Structural.EmitOneSpec | scripts/enrich_observations.py:280-294 | one proxy at one pair appends at most one row, exactly when its key is absent and its value exists |
| Structural.EmitListSpec | scripts/enrich_observations.py:279-429 | the proxies at one pair append exactly their emitted rows, on that pair, with distinct keys |
| Structural.EmitListMembers | scripts/enrich_observations.py:279-429 | the membership half of `EmitListSpec`, for any proxy list |
| Structural.EmitListFrom | scripts/enrich_observations.py:279-429 | each row of a pair comes from a listed proxy |
| Structural.EmitListHas | scripts/enrich_observations.py:279-429 | each listed proxy's emitted row is among the pair's rows |
| Structural.EmitListUnique | scripts/enrich_observations.py:280-429 | at one pair no key is appended twice |
| Structural.OverKeysSpec | scripts/enrich_observations.py:265-429 | the loop over distinct templated pairs appends exactly the rows emitted at those pairs, with distinct keys |
| Structural.TemplateKeysDistinct | scripts/enrich_observations.py:265 | the sorted template items visit each pair once |
| Structural.StructuralRowsSpec | scripts/enrich_observations.py:253-431 | the appended rows are exactly those some proxy emits at a templated peer pair, with no key twice |
| Structural.AppendedShape | scripts/enrich_observations.py:280-429 | an appended row has an absent key, a peer country, the proxy's value, the template's metadata, the TierG/`derived_seed` tags for a seed and Tier3/`derived_proxy` otherwise |
| Structural.StructuralRowShape | scripts/enrich_observations.py:280-429 | the same shape, stated by indicator id |
| Structural.AppendStructuralShape | scripts/enrich_observations.py:253-431 | the input stays a prefix; every appended row is new, for a peer, numeric, on a templated pair |
| Structural.AppendStructuralUnique | scripts/enrich_observations.py:256-294 | unique keys on input stay unique, since the guard checks every key present, numeric or not |
| Structural.AppendStructuralComplete | scripts/enrich_observations.py:265-429 | a proxy is appended at a templated pair exactly when its key is absent and its inputs are present |
| Structural.AppendedWhenReady | scripts/enrich_observations.py:280-429 | a ready proxy at a templated pair does receive its row |
| Structural.AppendedRowReady | scripts/enrich_observations.py:280-429 | an appended row of a proxy had an absent key and present inputs |
| Structural.AppendedProxy | scripts/enrich_observations.py:280-429 | every appended row carries the value of the proxy its indicator names |
| Structural.IdRange | scripts/enrich_observations.py:299-405 | the proxy ranges, by indicator id |
| Structural.StructuralRowBounds | scripts/enrich_observations.py:299-405 | PUBLIC_FINANCING_SHARE lies in [10, 80], DISASTER_AFFECTED in [20, 1200], the COFOG health, education, defence and social shares in [0, 40], [0, 30], [0, 20] and [20, 50], SIPRI_MILEX at least 1 |
| Structural.SocialShareNeedsSpending | scripts/enrich_observations.py:336-382 | COFOG_SOCIAL_SHARE is appended only where GGEXP_GDP is indexed and positive, though its own formula needs no input |
| Structural.SocialNeeds | scripts/enrich_observations.py:336-382 | the social share has a value only under the spending guard |
| Structural.InputsAppendOther | scripts/enrich_observations.py:266-277 | appending rows of non-input indicators leaves every pair's inputs unchanged |
| Structural.OutputsAreNotInputs | scripts/enrich_observations.py:266-428 | no proxy writes an indicator the pass reads |
| Structural.AppendedCovered | scripts/enrich_observations.py:258-265 | every appended row sits on a templated pair and writes no input indicator |
| Structural.NoSecondRow | scripts/enrich_observations.py:256-429 | a second pass over the output finds no row to append |
| Structural.AppendStructuralIdempotent | scripts/enrich_observations.py:253-431 | running the pass on its own output changes nothing |
| Enrichment.EnrichAppendOnly | scripts/enrich_observations.py:452-460 | every stage only appends: the input survives as a prefix, every reported count is non-negative and the counts add up to the output size |
| Enrichment.EnrichUnique | scripts/enrich_observations.py:454-459 | with unique numeric input keys and OWID records unique per (code, year), the enriched rows have unique keys and numeric values |
| Enrichment.StructuralOutputsUnread | scripts/enrich_observations.py:280-429 | no structural proxy writes an indicator the first wave reads |
| Enrichment.DerivedStage | scripts/enrich_observations.py:454 | the first wave appends rows on templated pairs that it does not read, and leaves the templates alone |
| Enrichment.MergeStage | scripts/enrich_observations.py:457 | the CO2 merge appends rows on templated pairs that the first wave does not read, and leaves the templates alone |
| Enrichment.StructuralStage | scripts/enrich_observations.py:459 | the structural pass appends rows on templated pairs that the first wave does not read |
| Enrichment.EnrichIdempotent | scripts/enrich_observations.py:452-460 | a second run over the enriched rows changes nothing and reports zero rows for every stage |
| Stats.MeanBounds | scripts/build_baseline.py:144 | the mean of values in [lo, hi] lies in [lo, hi] |
| Stats.MeanAtLeast | scripts/build_baseline.py:144 | the mean is at least any lower bound of the values |
| Stats.MeanAtMost | scripts/build_baseline.py:144 | the mean is at most any upper bound of the values |
| Stats.MeanConstant | scripts/build_baseline.py:144 | the mean of a constant series is that constant |
| Stats.InsertReal | scripts/build_baseline.py:92 | insertion adds exactly one copy of the value |
| Stats.InsertRealSorted | scripts/build_baseline.py:92 | insertion keeps a series sorted |
| Stats.SortReals | scripts/build_baseline.py:92 | `sorted` returns a permutation of its input |
| Stats.SortRealsSorted | scripts/build_baseline.py:92 | `sorted` returns an ascending series |
| Stats.RoundHalfEven | scripts/build_baseline.py:93 | Python's `round` gives an integer within half a unit, an exact tie going to the even one |
| Stats.RoundNearest | scripts/build_baseline.py:93 | the rounded value is the only integer strictly within half a unit |
| Stats.RoundInteger | scripts/build_baseline.py:93 | integers round to themselves |
| Stats.RoundMonotone | scripts/build_baseline.py:93 | rounding is non-decreasing |
| Stats.ClampIndex | scripts/build_baseline.py:93 | the clamped index is a valid position, unchanged when already valid |
| Stats.RankIndex | scripts/build_baseline.py:93 | the nearest-rank index is a valid position |
| Stats.PercentileMember | scripts/build_baseline.py:89-94 | the percentile of an empty series is 0.0; of a non-empty one it is one of its values |
| Stats.PercentileExtremes | scripts/build_baseline.py:89-94 | the 0-percentile is the minimum and the 1-percentile the maximum |
| Stats.PercentileMonotone | scripts/build_baseline.py:89-94 | the percentile is non-decreasing in `q` |
| Transform.ApplyInRange | scripts/build_baseline.py:97-122 | with lo < hi, and lo > 0 for `log_cap`, every mode succeeds with a score in [0, 100]; an unknown mode scores exactly 50 |
| Transform.TargetBandSpec | scripts/build_baseline.py:108-113 | `target_band` scores 100 in the band, edges included, and outside it 100 minus ten per unit of distance to the nearer edge, not below 0 |
| Transform.LinearCapMonotone | scripts/build_baseline.py:114-116 | `linear_cap` is non-decreasing |
| Transform.InverseCapAntitone | scripts/build_baseline.py:105-107 | `inverse_cap` is non-increasing |
| Transform.ScaleWgiMonotone | scripts/build_baseline.py:103-104 | `scale_wgi` is non-decreasing |
| Transform.LogCapMonotone | scripts/build_baseline.py:117-121 | `log_cap` is non-decreasing for any increasing logarithm |
| Transform.TableWellFormed | scripts/build_baseline.py:44-59 | every table entry has lo < hi, and lo > 0 for its `log_cap` entry |
| Transform.TransformIndicatorInRange | scripts/build_baseline.py:97-122 | an indicator transforms exactly when it is tabled, and then to a score in [0, 100] |
| Transform.RuleLawUntabled | scripts/build_baseline.py:37-59 | RULELAW_PROXY has no entry, so transforming it is a lookup error |
| Transform.DebtExample | scripts/build_baseline.py:45 | debt at 90% of GDP scores 50 |
| Transform.DeficitExample | scripts/build_baseline.py:46 | a deficit of -2% scores 100 |
| Baseline.LoadObservationsSpec | scripts/build_baseline.py:80-86 | over parsed rows, each indicator pools exactly its in-window (year, value) pairs in file order, and is listed only when it has one |
| Baseline.ParseRow | scripts/build_baseline.py:81-83 | a row parses exactly when its year and its value do; a bad year raises `int()`'s error, checked first, and a bad value `float()`'s; a parsed row keeps its indicator, year and value |
| Baseline.ParseObservations | scripts/build_baseline.py:80-83 | parsing fails exactly when some row does not parse, whatever its year; otherwise it gives one row per input row, position by position |
| Baseline.ParseObservationsError | scripts/build_baseline.py:80-83 | a failure carries the error of the first row that does not parse |
| Baseline.LoadSpec | scripts/build_baseline.py:75-86 | loading fails exactly when some row does not parse; otherwise each indicator pools exactly its in-window pairs in file order, and is listed only when it has one |
| Baseline.BlankValueOutsideWindowFails | scripts/build_baseline.py:82-84 | a blank value raises even on a row outside the window, because parsing comes before the window test |
| Baseline.SeriesInWindow | scripts/build_baseline.py:84 | every pooled year lies in 2015–2024, both ends included |
| Baseline.Values | scripts/build_baseline.py:142 | the value list keeps each pair's value, position by position |
| Baseline.PickIndicator | scripts/build_baseline.py:125-129 | the choice is the first chain entry with pooled data, or `None` exactly when no entry has any |
| Baseline.ScoreVarSpec | scripts/build_baseline.py:136-159 | a chain with no data scores 50 with a missing record; otherwise it scores exactly when the chosen indicator is tabled, and the record names it, flags a fallback exactly when it is not the chain head, names the head and counts the pooled values |
| Baseline.ScoredPercentiles | scripts/build_baseline.py:145-146 | p10 and p90 are values of the pooled series, and p10 ≤ p90 |
| Baseline.ScoreVarsSpec | scripts/build_baseline.py:136-159 | the chained pass succeeds exactly when every variable scores, and then records each variable's score and diagnostics under its name |
| Baseline.ClimateBlendSpec | scripts/build_baseline.py:161-182 | the blend exists exactly when PM25 or renewables data does, never exceeds 100, and is non-negative when the renewable shares are |
| Baseline.SsiBounds | scripts/build_baseline.py:196 | the weights sum to one: pillars in [lo, hi] give an index in [lo, hi], and equal pillars give their common value |
| Baseline.SsiOfBounds | scripts/build_baseline.py:190-197 | pillar scores in [0, 100] give a stability index in [0, 100] |
| Baseline.StateMapWellFormed | scripts/build_baseline.py:31-41 | every chain is non-empty and the state variables are distinct |
| Baseline.ChainEntryTabled | scripts/build_baseline.py:31-59 | every chain entry has a transform except RULELAW_PROXY, which only the institutional-integrity chain lists |
| Baseline.PickedFromChain | scripts/build_baseline.py:125-129 | the chosen indicator is an entry of its chain |
| Baseline.ScoreVarFails | scripts/build_baseline.py:136-147 | a chained variable fails to score exactly when its chain picks RULELAW_PROXY |
| Baseline.AggregateFails | scripts/build_baseline.py:136-147 | the build fails exactly when CONTROL_CORRUPTION has no data and RULELAW_PROXY has some |
| Baseline.CompositeNamesFresh | scripts/build_baseline.py:161-197 | no chained variable is overwritten by a composite |
| Baseline.AggregateScores | scripts/build_baseline.py:136-159 | on success each chained variable holds its score in [0, 100] and its diagnostics, and a chain without data gives 50 and a missing record |
| Baseline.ChainedScore | scripts/build_baseline.py:136-159 | each chained score lies in [0, 100] |
| Baseline.ChainedInRange | scripts/build_baseline.py:136-195 | every pillar the index reads lies in [0, 100] |
| Baseline.CompositesKeepPillars | scripts/build_baseline.py:170-188 | writing the composites leaves the pillar scores in range |
| Baseline.AggregateSsi | scripts/build_baseline.py:190-197 | on success the state stability index lies in [0, 100] |
| Baseline.AggregateComposites | scripts/build_baseline.py:161-188 | climate resilience is 50 with a missing record without PM25 or renewables, a blend otherwise, never above 100; the debt and deficit passthroughs are pooled means defaulting to 60 and -2 |
| Baseline.DeficitEntry | scripts/build_baseline.py:33 | the deficit chain is DEFICIT_GDP then CURRENT_ACCOUNT (a table lookup kept apart for the fallback proofs) |
| Baseline.FallbackScore | scripts/build_baseline.py:136-159 | without DEFICIT_GDP but with CURRENT_ACCOUNT, the deficit chain scores CURRENT_ACCOUNT as a fallback |
| Baseline.DeficitFallbackExample | scripts/build_baseline.py:136-159 | the deficit diagnostics of such a build report CURRENT_ACCOUNT with `fallback_used` and the preferred DEFICIT_GDP |
| WorldBank.NonBlank | scripts/fetch_world_bank.py:54-55 | exactly the non-blank codes are kept |
| WorldBank.NonBlankConcat | scripts/fetch_world_bank.py:52-55 | the non-blank codes of a concatenation are those of each part, in turn |
| WorldBank.ReadPeers | scripts/fetch_world_bank.py:48-58 | reading fails exactly when every row's trimmed upper-case code is blank; otherwise a code is a peer exactly when it is non-blank and some row has it, and every peer is upper-case |
| WorldBank.ReadPeersAppendRow | scripts/fetch_world_bank.py:52-55 | one more row appends its code at the end unless it is blank, so peers keep file order and duplicates |
| WorldBank.ReadIndicators | scripts/fetch_world_bank.py:61-86 | the indicators are exactly the catalog rows from World Bank or WGI with a non-blank trimmed code; `ReadIndicatorsConcat` gives their order |
| WorldBank.ReadIndicatorsConcat | scripts/fetch_world_bank.py:61-86 | reading a concatenation reads each part in turn, so indicators keep catalog order and a row listed twice gives its indicator twice |
| WorldBank.ReadIndicatorsAppendRow | scripts/fetch_world_bank.py:65-85 | one more catalog row appends its indicator at the end exactly when its source is World Bank or WGI and its trimmed code is non-empty |
| WorldBank.ReadIndicatorsFetched | scripts/fetch_world_bank.py:66-70 | every indicator read has a World Bank or WGI source and a trimmed non-empty code |
| WorldBank.NormalizeRows | scripts/fetch_world_bank.py:126-153 | normalising fails exactly when a kept row has a date `int()` rejects; otherwise the output is exactly the kept rows, normalised, with rows lacking a value, a country or a non-empty date dropped |
| WorldBank.NormalizeRowsError | scripts/fetch_world_bank.py:128-137 | a failure carries `int()`'s message for the first kept row whose date does not parse |
| WorldBank.EmptyDateSkipped | scripts/fetch_world_bank.py:130-133 | a row whose date is the empty text is falsy and skipped, not an `int()` error |
| WorldBank.NormalizeRowsOrder | scripts/fetch_world_bank.py:128-134 | one observation per kept row |
| WorldBank.NormalizeRowsConcat | scripts/fetch_world_bank.py:128-152 | normalising a concatenation normalises each part in turn: input order is kept and the first part's error comes first |
| WorldBank.NormalizedMetadata | scripts/fetch_world_bank.py:131-151 | each observation comes from one kept row and holds its upper-case country, its year and its value; every other column is the indicator's, with the validation status as quality flag and the fetch time as update time |
| WorldBank.FetchAllSpec | scripts/fetch_world_bank.py:200-209 | the error map holds exactly the codes with a failing step, each with the message of its last failing step; the rows are exactly those of the successful steps |
| WorldBank.FetchAllErrors | scripts/fetch_world_bank.py:200-209 | the error-map half of `FetchAllSpec`: membership and last message |
| WorldBank.ErrorFromLastFailure | scripts/fetch_world_bank.py:207-208 | a recorded code's message is that of its last failing step |
| WorldBank.FailureRecorded | scripts/fetch_world_bank.py:207-208 | the code of every failing step is recorded |
| WorldBank.FetchAllRows | scripts/fetch_world_bank.py:202-205 | the rows half of `FetchAllSpec` |
| WorldBank.FetchedRowFrom | scripts/fetch_world_bank.py:203-205 | each collected row comes from one successful fetch |
| WorldBank.FetchedRowKept | scripts/fetch_world_bank.py:203-205 | each successful fetch's rows are collected |
| WorldBank.RepeatedCodeBothOutcomes | scripts/fetch_world_bank.py:200-209 | a code listed twice whose first request fails and second succeeds is both recorded as an error and contributes its rows |
| WorldBank.MalformedDateFailsStep | scripts/fetch_world_bank.py:202-208 | a kept row with a bad date fails its indicator's step: `int()`'s message is recorded and none of the indicator's rows, even earlier ones, are collected |
| WorldBank.MainExitCode | scripts/fetch_world_bank.py:189-230 | the run fails exactly when reading peers fails; otherwise the exit code is 1 exactly when no indicator is read, 0 exactly when rows were normalised, else 2 |
| Coverage.CatalogOrder | scripts/data_coverage_report.py:24-28 | the catalog's ids, each once |
| Coverage.CatalogOrderFirstSeen | scripts/data_coverage_report.py:24-28 | the ids come in the order of their first rows, as a dictionary keeps insertion order when a key is overwritten |
| Coverage.CatalogLastWins | scripts/data_coverage_report.py:28 | an id is catalogued exactly when some row has it, and then maps to its last row |
| Coverage.LastWithSome | scripts/data_coverage_report.py:28 | an id has a last row exactly when some row has that id |
| Coverage.CatalogCount | scripts/data_coverage_report.py:24-46 | the catalog holds one entry per distinct indicator id |
| Coverage.IdsInBound | scripts/data_coverage_report.py:29-40 | a domain has no more distinct catalogued ids than rows |
| Coverage.FoundWithinTotal | scripts/data_coverage_report.py:29-50 | a domain's found count never exceeds its row total |
| Coverage.TotalPositive | scripts/data_coverage_report.py:29 | the domain of any catalog row has a positive total |
| Coverage.PctInRange | scripts/data_coverage_report.py:54 | a found count within its total gives a percentage in [0, 100] |
| Coverage.Domains | scripts/data_coverage_report.py:49 | the catalog's domains, each once, ascending |
| Coverage.DomainCoverageListing | scripts/data_coverage_report.py:49-55 | one coverage entry per catalog domain, in ascending domain order |
| Coverage.DomainCoverageEntry | scripts/data_coverage_report.py:49-55 | each entry's total counts the domain's rows and is positive; its found count counts observed ids catalogued under the domain and is within the total; its percentage lies in [0, 100] |
| Coverage.MissingListSpec | scripts/data_coverage_report.py:57-66 | over distinct catalogued ids, the missing list is exactly the unobserved World Bank or WGI ids with their catalog columns, each once |
| Coverage.MissingListMembers | scripts/data_coverage_report.py:57-66 | the membership half of `MissingListSpec` |
| Coverage.MissingListDistinct | scripts/data_coverage_report.py:57-66 | the no-repeat half of `MissingListSpec` |
| Coverage.MissingIndicators | scripts/data_coverage_report.py:57-66 | the report's missing list, stated over catalog rows and observations |
| Coverage.ReportCounts | scripts/data_coverage_report.py:35-46 | the found count is the number of distinct observed ids, at most the number of observations; the catalog count is the number of distinct catalog ids |
| Coverage.FoundBound | scripts/data_coverage_report.py:35-45 | there are no more distinct observed ids than observations |
| Game.DistrictForTile | web/app.js:299-305 | each tile is in exactly one quadrant, split at half the map's width and height |
| Game.DistrictsCoverMap | web/app.js:299-305 | every quadrant contains a tile of the 24×24 map |
| Game.TileSpriteRoads | web/app.js:1012-1017 | (10, 10) alone is the plaza; the roads are the other tiles of column 10 and row 10, turning exactly where `x + y` is a multiple of 7 |
| Game.TileSpriteDiagonal | web/app.js:1018-1021 | off the roads the sprite depends only on `x + y`, water taking precedence |
| Game.Take | web/app.js:376-384 | `slice(0, n)` keeps the first `n` entries, or all when fewer |
| Game.AddTicker | web/app.js:376-379 | the dated line goes first, the older lines shift down one, the list is capped at 14 and nothing else changes |
| Game.AddRailEvent | web/app.js:381-384 | the new event goes first, the older events shift down one, the list is capped at 18 and nothing else changes |
| Game.TickerShift | web/app.js:376-379 | after one line, each later position holds the previous line one place up |
| Game.TickerKeepsRecent | web/app.js:376-379 | after a run of lines on one day, position `k` holds the `k`-th newest, as far as the cap keeps |
| Game.AddTickers | web/app.js:376-379 | successive lines keep the day and respect the cap |
| Game.ClampInt | web/app.js:201 | on a non-empty interval the result lies in it, unchanged when already inside |
| Game.SpendActionPoints | web/app.js:215-223 | spending fails exactly when the points do not cover the cost, and then only a ticker line is added; otherwise the cost is paid and one action counted |
| Game.SpendKeepsPointsInRange | web/app.js:215-223 | points within [0, max] stay there when a non-negative cost is spent |
| Game.AwardStreak | web/app.js:225-233 | the streak grows by one and the best streak becomes the larger of itself and the new streak; on every multiple of 3 one action point (capped at the max) and 4 treasury are paid with a ticker line and nothing else changes; otherwise only the two streak fields change |
| Game.BreakStreak | web/app.js:235-238 | the streak resets to 0, with a ticker line exactly when it was at least 2 |
| Game.AwardStreaksPayout | web/app.js:225-233 | over `n` awards the treasury gains 4 for each multiple of 3 the streak passes |
| Game.AwardStreaksKeepPoints | web/app.js:225-233 | a run of awards keeps the points within [0, max] and the max unchanged |
| Game.Classify | web/app.js:404-407 | below 58 is overloaded, below 68 strained, above 78 thriving, stable otherwise |
| Game.ClassifyMonotone | web/app.js:404-407 | a higher signal never gives a worse state |
| Game.SignalMonotone | web/app.js:403-407 | a higher level or budget never lowers the signal or worsens the state |
| Game.RecalcBuildingStates | web/app.js:401-409 | only each building's state changes |
| Game.RecalcIdempotent | web/app.js:401-409 | a second recalculation changes nothing |
| Game.RecalcClassifies | web/app.js:401-409 | each building's new state is the classification of its own signal: overloaded below 58, strained below 68, thriving above 78, stable otherwise |
| Game.CountPassed | web/app.js:392 | the passed count is at most the number of checks |
| Game.CountPassedAll | web/app.js:392-393 | the passed count equals the number of checks exactly when every check passes |
| Game.MaybePromoteTier | web/app.js:390-399 | the tier index stays valid and advances by at most one |
| Game.MaybePromoteTierSpec | web/app.js:390-399 | promotion happens exactly when every check of the tier passes and a further tier exists, adding 20 treasury and announcing the new tier on ticker and rail; otherwise nothing changes |
| Game.CityPromotes | web/app.js:9-16 | health and safety above 68 with integrity above 64 promote City to State |
| Game.NationIsFinal | web/app.js:393 | the last tier is never left |
| Color.Channel | web/app.js:841 | a channel is an integer in [0, 255], an in-range integer unchanged |
| Color.RoundHalfUp | web/app.js:841 | `Math.round` gives the integer within half a unit, a tie going up |
| Color.ByteHex | web/app.js:841-842 | a channel is written as two hex digits of its value |
| Color.Hex6 | web/app.js:840-843 | three channels are written as six hex digits of value r·65536 + g·256 + b |
| Color.RgbToHex | web/app.js:839-844 | the colour is `#` followed by six hex digits |
| Color.ReplaceFirstHash | web/app.js:834 | with a `#` one character goes, without one the string is unchanged |
| Color.ReplaceFirstHashRemovesFirst | web/app.js:834 | the character removed is the first `#`, and everything before and after it is kept |
| Color.SkipSpace | web/app.js:835 | `parseInt` skips leading whitespace |
| Color.HexPrefix | web/app.js:835 | `parseInt` reads the longest prefix of hex digits |
| Color.ToInt32 | web/app.js:836 | the shift operand is a signed 32-bit value congruent to the number modulo 2^32, and `NaN` gives 0 |
| Color.ByteAt | web/app.js:836 | `(n >> k) & 255` is a byte |
| Color.Masks | web/app.js:836 | each masked channel is a byte |
| Color.HexToRgb | web/app.js:833-837 | every parsed channel is a byte |
| Color.RoundTrip | web/app.js:833-844 | reading back a written colour gives the clamped, rounded channels |
| Color.RoundTripInteger | web/app.js:833-844 | integer channels in [0, 255] survive the round trip unchanged |
| Color.HexOfChannels | web/app.js:833-844 | `#` and the six digits of in-range channels read back as those channels |
| Color.ReadBack | web/app.js:833-837 | any six digits of value r·65536 + g·256 + b after `#` read back as (r, g, b) |
| Color.NotHexIsBlack | web/app.js:833-837 | a colour with no hex digit reads as black, since `NaN` masks to 0 |
| Text.Strip | scripts/fetch_world_bank.py:53 | `strip()` is a slice with only whitespace before and after it and none at its ends, empty exactly when all is whitespace; whitespace is what `str.isspace()` accepts |
| Text.StripIdempotent | scripts/fetch_world_bank.py:53 | stripping twice strips nothing more |
| Text.Upper | scripts/enrich_observations.py:210 | `upper()` capitalises each ASCII lower-case letter and leaves every other character as it is |
| Text.UpperIdempotent | scripts/fetch_world_bank.py:53 | upper-casing twice is upper-casing once |
| Numeric.Clamp | scripts/enrich_observations.py:115 | `max(lo, min(hi, x))` lies in [lo, hi], unchanged inside, the nearer bound outside |
| Numeric.ClampMonotone | scripts/enrich_observations.py:115 | clamping is non-decreasing |

## Left out

- Network retrieval is not part of this model: `fetch_indicator_series`, the OWID download, and `loadBaseline`/`loadAssetPack` in the client. Each fetch outcome is a parameter (`fetch: nat -> Result<seq<ApiRow>>`, by position), and the OWID records are input rows whose fields are already parsed (a field that does not parse is `None`).
- CSV and JSON reading and writing are not part of this model: `load_rows`, `load_peers`, `write_rows`, `write_csv`, the report dumps, the command-line years and the `main` plumbing. So is the sort `write_rows` applies before writing. The model's inputs are the rows the CSV reader yields, with each numeric cell given either as its number or as the text the parser rejects.
- A row whose value text `float()` rejects is a row with value `None`. `index_values` skips such rows, but the `existing` key sets still count them. In the enrichment script a non-integer year, which makes `int()` raise there, is not modelled. The baseline build and the World Bank normalisation do model it: `int()` or `float()` rejecting a cell is an error `Result`.
- Output formatting is abstracted:
  - `round(…, 2)` and `round(…, 4)` in `aggregate`;
  - `f"{value:.6f}"` in `make_row`;
  - `round(…, 1)` of `coverage_pct`.

  All values are exact reals.
- Baseline.AggregateScores: states the unrounded transformed score. The script stores it rounded to two decimals.
- Coverage.DomainCoverageEntry: states the unrounded percentage. The script rounds it to one decimal.
- Floating point is not modelled: `statistics.fmean` is the exact mean, and JavaScript numbers are exact reals or integers.
- WorldBank.NormalizeRows: the API's `value` is a JSON number or null, so it is an `Option<real>`; a string value that `float()` would reject is not modelled.
- Text.Upper: covers the ASCII letters only. Python's `str.upper()` also capitalises other scripts and expands some letters (`ß` becomes `SS`). Every string it is applied to here is meant to be an ISO3 country code, which is ASCII.
- Color.RgbToHex: the channels are finite reals, so `NaN` and infinite channels are not covered.
- Color.HexToRgb: `parseInt` is exact on integers, so the loss of precision above 2^53 is not modelled.
- `math.log` is any strictly increasing function on the positive reals. The model does not fix its values, only its order.
- Python set iteration order (the peers in `append_derived`) is an input sequence of distinct codes. Every property is stated for any such order.
- `append_structural_proxies` updates `existing` after each append. The model instead checks each key against the input's key set. This is equivalent, because the pass visits each (country, year, proxy) once and no proxy reads another's output; `AppendStructuralUnique` and `OutputsAreNotInputs` carry that argument.
- Co2Merge.AppendCo2Unique: needs the OWID records to be unique per (code, year), because the merge never adds appended keys to `existing`. `AppendCo2DuplicatesRepeatedRecord` shows what happens without that.
- The random and real-time parts of the web client are not modelled:
  - event, incident, rapid-decision and goal rolls;
  - agent motion;
  - drawing, DOM rendering and input binding;
  - timers;
  - the `applySimTick` economy.

  They depend on `Math.random`, frame times or the DOM.
- Game.AddTicker: the ticker text is a `Message` value holding the template's arguments, not the interpolated string. The initial welcome line is a constant entry.
- The `ELASTICITIES` table is not modelled: it is static data that nothing reads in the modelled code. `scripts/generate_cozy_asset_pack.mjs` (SVG templating and file writes) is not part of this model either.
