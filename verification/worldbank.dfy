/** The deterministic parts of the World Bank fetch: reading the peer list and
    the catalog, normalising the API rows of one indicator, and the error map
    and exit code of a run. The HTTP requests are not part of this model: a run
    takes the outcome of fetching each indicator code as a parameter. */
module WorldBank {
  import opened Wrappers
  import Text

  // ---------------------------------------------------------------------------
  // Peers

  /** The `iso3` cell of a peer row, trimmed and upper-cased; "" when missing. */
  function PeerCode(iso3: Option<string>): string {
    Text.Upper(Text.Strip(iso3.GetOr("")))
  }

  /** The non-blank codes, in order. */
  function NonBlank(codes: seq<string>): (r: seq<string>)
    ensures |r| <= |codes|
    ensures forall c :: c in r <==> c in codes && c != ""
  {
    if |codes| == 0 then []
    else if codes[0] != "" then [codes[0]] + NonBlank(codes[1..])
    else NonBlank(codes[1..])
  }

  /** The non-blank codes of a concatenation are those of each part in turn. */
  lemma {:induction false} NonBlankConcat(a: seq<string>, b: seq<string>)
    ensures NonBlank(a + b) == NonBlank(a) + NonBlank(b)
  {
    if |a| > 0 {
      assert (a + b)[1..] == a[1..] + b;
      NonBlankConcat(a[1..], b);
    } else {
      assert a + b == b;
    }
  }

  /** The normalised code of every row, in file order. */
  function Codes(rows: seq<Option<string>>): (cs: seq<string>)
    ensures |cs| == |rows| && forall i :: 0 <= i < |rows| ==> cs[i] == PeerCode(rows[i])
  {
    seq(|rows|, i requires 0 <= i < |rows| => PeerCode(rows[i]))
  }

  /** `read_peers`: the non-blank normalised codes in file order, or an error when none remains. */
  function ReadPeers(rows: seq<Option<string>>): (r: Result<seq<string>>)
    ensures r.Failure? <==> forall i :: 0 <= i < |rows| ==> PeerCode(rows[i]) == ""
    ensures r.Success? ==> |r.value| > 0 && forall c :: c in r.value ==> c != "" && Text.Upper(c) == c
    ensures r.Success? ==> forall c :: c in r.value <==> c != "" && exists i :: 0 <= i < |rows| && PeerCode(rows[i]) == c
  {
    var codes := Codes(rows);
    var peers := NonBlank(codes);
    if |peers| == 0 then
      assert forall i :: 0 <= i < |rows| ==> PeerCode(rows[i]) == "" by {
        forall i | 0 <= i < |rows| ensures PeerCode(rows[i]) == "" {
          assert codes[i] in codes;
        }
      }
      Failure("No peer countries found in data/peer_countries_v1.csv")
    else
      assert forall c :: c in peers ==> Text.Upper(c) == c by {
        forall c | c in peers ensures Text.Upper(c) == c {
          var i :| 0 <= i < |codes| && codes[i] == c;
          Text.UpperIdempotent(Text.Strip(rows[i].GetOr("")));
        }
      }
      assert forall i :: 0 <= i < |rows| ==> codes[i] in codes;
      assert peers[0] in peers;
      Success(peers)
  }

  /** One more row appends its code to the peers read so far, unless the code is
      blank: the peers come back in file order, duplicates kept. */
  lemma ReadPeersAppendRow(rows: seq<Option<string>>, x: Option<string>)
    ensures PeerCode(x) == "" ==> ReadPeers(rows + [x]) == ReadPeers(rows)
    ensures PeerCode(x) != "" ==>
              ReadPeers(rows + [x]) == Success((if ReadPeers(rows).Success? then ReadPeers(rows).value else []) + [PeerCode(x)])
  {
    var c := PeerCode(x);
    var before, after := NonBlank(Codes(rows)), NonBlank(Codes(rows + [x]));
    NonBlankAppend(rows, x);
    ReadPeersNonBlank(rows);
    ReadPeersNonBlank(rows + [x]);
    if c == "" {
      assert after == before;
    } else {
      assert after == before + [c];
    }
  }

  /** One more row appends its code to the non-blank codes, unless it is blank. */
  lemma NonBlankAppend(rows: seq<Option<string>>, x: Option<string>)
    ensures NonBlank(Codes(rows + [x])) == NonBlank(Codes(rows)) + (if PeerCode(x) == "" then [] else [PeerCode(x)])
  {
    var c := PeerCode(x);
    assert Codes(rows + [x]) == Codes(rows) + [c];
    NonBlankConcat(Codes(rows), [c]);
    assert [c][1..] == [];
  }

  lemma ReadPeersNonBlank(rows: seq<Option<string>>)
    ensures ReadPeers(rows).Success? <==> |NonBlank(Codes(rows))| > 0
    ensures ReadPeers(rows).Success? ==> ReadPeers(rows).value == NonBlank(Codes(rows))
    ensures ReadPeers(rows).Failure? ==> ReadPeers(rows) == Failure("No peer countries found in data/peer_countries_v1.csv")
  {
  }

  // ---------------------------------------------------------------------------
  // The catalog

  /** A catalog row as read; `source` and `source_code` may be missing. */
  datatype CatalogRow = CatalogRow(domain: string, indicatorId: string, indicatorName: string,
                                   source: Option<string>, sourceCode: Option<string>, unit: string,
                                   frequency: string, lagClass: string, directionGood: string,
                                   qualityTier: string, validationStatus: string)

  datatype Indicator = Indicator(domain: string, indicatorId: string, indicatorName: string,
                                 source: string, sourceCode: string, unit: string,
                                 frequency: string, lagClass: string, directionGood: string,
                                 qualityTier: string, validationStatus: string)

  predicate FetchedSource(source: Option<string>) {
    source == Some("World Bank") || source == Some("WGI")
  }

  /** The row is fetched: its source is World Bank or WGI and its trimmed code is non-empty. */
  predicate Fetched(row: CatalogRow) {
    FetchedSource(row.source) && Text.Strip(row.sourceCode.GetOr("")) != ""
  }

  function ToIndicator(row: CatalogRow): Indicator
    requires FetchedSource(row.source)
  {
    Indicator(row.domain, row.indicatorId, row.indicatorName, row.source.value, Text.Strip(row.sourceCode.GetOr("")),
              row.unit, row.frequency, row.lagClass, row.directionGood, row.qualityTier, row.validationStatus)
  }

  /** `read_world_bank_indicators`: the fetched rows, in catalog order. */
  function ReadIndicators(rows: seq<CatalogRow>): (r: seq<Indicator>)
    ensures |r| <= |rows|
    ensures forall x :: x in r <==> exists i :: 0 <= i < |rows| && Fetched(rows[i]) && x == ToIndicator(rows[i])
  {
    if |rows| == 0 then []
    else
      var rest := ReadIndicators(rows[1..]);
      assert forall i :: 1 <= i < |rows| ==> rows[i] == rows[1..][i - 1];
      if Fetched(rows[0]) then [ToIndicator(rows[0])] + rest else rest
  }

  /** Reading a concatenation reads each part in turn: catalog order is kept,
      and a row listed twice gives its indicator twice. */
  lemma {:induction false} ReadIndicatorsConcat(a: seq<CatalogRow>, b: seq<CatalogRow>)
    ensures ReadIndicators(a + b) == ReadIndicators(a) + ReadIndicators(b)
  {
    if |a| > 0 {
      assert (a + b)[0] == a[0];
      assert (a + b)[1..] == a[1..] + b;
      ReadIndicatorsConcat(a[1..], b);
    } else {
      assert a + b == b;
    }
  }

  /** One more catalog row appends its indicator at the end exactly when it is fetched. */
  lemma ReadIndicatorsAppendRow(rows: seq<CatalogRow>, x: CatalogRow)
    ensures ReadIndicators(rows + [x]) == ReadIndicators(rows) + (if Fetched(x) then [ToIndicator(x)] else [])
  {
    ReadIndicatorsConcat(rows, [x]);
    assert [x][1..] == [];
  }

  /** Every indicator read comes from World Bank or WGI with a trimmed, non-empty code. */
  lemma ReadIndicatorsFetched(rows: seq<CatalogRow>, x: Indicator)
    requires x in ReadIndicators(rows)
    ensures x.source in {"World Bank", "WGI"}
    ensures x.sourceCode != "" && Text.Strip(x.sourceCode) == x.sourceCode
  {
    var i :| 0 <= i < |rows| && Fetched(rows[i]) && x == ToIndicator(rows[i]);
    Text.StripIdempotent(rows[i].sourceCode.GetOr(""));
  }


  // ---------------------------------------------------------------------------
  // Normalising API rows

  /** The `date` field of an API row: missing; the text of an integer, parsed; or
      other text, which `int()` rejects. An empty text is falsy and skipped like a
      missing date. */
  datatype Date = NoDate | Year(year: int) | BadDate(text: string)

  /** The date is truthy: present and not the empty text. */
  predicate HasDate(d: Date) {
    d.Year? || (d.BadDate? && d.text != "")
  }

  /** One API row: `value` (`None` for JSON null), `date` and `countryiso3code`. */
  datatype ApiRow = ApiRow(value: Option<real>, date: Date, countryIso3: Option<string>)

  datatype Observation = Observation(country: string, year: int, indicatorId: string, indicatorName: string,
                                     sourceCode: string, domain: string, value: real, unit: string,
                                     frequency: string, lagClass: string, directionGood: string,
                                     source: string, qualityTier: string, qualityFlag: string, updatedAt: string)

  function CountryOf(row: ApiRow): string {
    Text.Upper(row.countryIso3.GetOr(""))
  }

  /** The row passes the filter: it has a value, a country and a non-empty date. */
  predicate Kept(row: ApiRow) {
    row.value.Some? && CountryOf(row) != "" && HasDate(row.date)
  }

  /** A kept row whose date `int()` rejects: normalising raises on it. */
  predicate Malformed(row: ApiRow) {
    Kept(row) && row.date.BadDate?
  }

  /** The message of the `ValueError` that `int()` raises. */
  function IntError(text: string): string {
    "invalid literal for int() with base 10: '" + text + "'"
  }

  function Normalize(ind: Indicator, row: ApiRow, fetchedAt: string): Observation
    requires Kept(row) && row.date.Year?
  {
    Observation(CountryOf(row), row.date.year, ind.indicatorId, ind.indicatorName, ind.sourceCode, ind.domain,
                row.value.value, ind.unit, ind.frequency, ind.lagClass, ind.directionGood, ind.source,
                ind.qualityTier, ind.validationStatus, fetchedAt)
  }

  /** `normalize_rows`: the kept rows normalised, or the error of the first kept
      row whose date does not parse. */
  function NormalizeRows(ind: Indicator, rows: seq<ApiRow>, fetchedAt: string): (r: Result<seq<Observation>>)
    ensures r.Failure? <==> exists i :: 0 <= i < |rows| && Malformed(rows[i])
    ensures r.Success? ==> |r.value| <= |rows|
    ensures r.Success? ==> forall o :: o in r.value <==>
              exists i :: 0 <= i < |rows| && Kept(rows[i]) && rows[i].date.Year? && o == Normalize(ind, rows[i], fetchedAt)
  {
    if |rows| == 0 then Success([])
    else if Malformed(rows[0]) then Failure(IntError(rows[0].date.text))
    else
      var rest := NormalizeRows(ind, rows[1..], fetchedAt);
      assert forall i :: 1 <= i < |rows| ==> rows[i] == rows[1..][i - 1];
      match rest
      case Failure(e) => Failure(e)
      case Success(tail) => Success(if Kept(rows[0]) then [Normalize(ind, rows[0], fetchedAt)] + tail else tail)
  }

  /** A row whose date is the empty text is skipped, not an `int()` error. */
  lemma EmptyDateSkipped(ind: Indicator, row: ApiRow, fetchedAt: string)
    requires row.date == BadDate("")
    ensures !Kept(row) && !Malformed(row)
    ensures NormalizeRows(ind, [row], fetchedAt) == Success([])
  {
    assert [row][1..] == [];
  }

  /** Row `i` is the first kept row whose date does not parse. */
  ghost predicate FirstMalformed(rows: seq<ApiRow>, i: int) {
    0 <= i < |rows| && Malformed(rows[i]) && forall k :: 0 <= k < i ==> !Malformed(rows[k])
  }

  /** A failure carries the error of the first kept row whose date does not parse. */
  lemma {:induction false} NormalizeRowsError(ind: Indicator, rows: seq<ApiRow>, fetchedAt: string) returns (i: int)
    requires NormalizeRows(ind, rows, fetchedAt).Failure?
    ensures FirstMalformed(rows, i)
    ensures NormalizeRows(ind, rows, fetchedAt).error == IntError(rows[i].date.text)
  {
    if Malformed(rows[0]) {
      i := 0;
    } else {
      var i' := NormalizeRowsError(ind, rows[1..], fetchedAt);
      i := i' + 1;
      assert forall k :: 1 <= k < |rows| ==> rows[k] == rows[1..][k - 1];
    }
  }

  /** The number of kept rows. */
  function KeptCount(rows: seq<ApiRow>): nat {
    if |rows| == 0 then 0 else (if Kept(rows[0]) then 1 else 0) + KeptCount(rows[1..])
  }

  /** Exactly one observation per kept row. */
  lemma {:induction false} NormalizeRowsOrder(ind: Indicator, rows: seq<ApiRow>, fetchedAt: string)
    ensures NormalizeRows(ind, rows, fetchedAt).Success? ==> |NormalizeRows(ind, rows, fetchedAt).value| == KeptCount(rows)
  {
    if |rows| > 0 && !Malformed(rows[0]) {
      NormalizeRowsOrder(ind, rows[1..], fetchedAt);
    }
  }

  /** Normalising a concatenation normalises each part in turn: the order of
      the input is kept, and the first part's error comes first. */
  lemma {:induction false} NormalizeRowsConcat(ind: Indicator, a: seq<ApiRow>, b: seq<ApiRow>, fetchedAt: string)
    ensures var ra, rb := NormalizeRows(ind, a, fetchedAt), NormalizeRows(ind, b, fetchedAt);
            && (ra.Failure? ==> NormalizeRows(ind, a + b, fetchedAt) == ra)
            && (ra.Success? && rb.Failure? ==> NormalizeRows(ind, a + b, fetchedAt) == rb)
            && (ra.Success? && rb.Success? ==> NormalizeRows(ind, a + b, fetchedAt) == Success(ra.value + rb.value))
  {
    if |a| > 0 {
      assert (a + b)[1..] == a[1..] + b;
      assert (a + b)[0] == a[0];
      if !Malformed(a[0]) {
        NormalizeRowsConcat(ind, a[1..], b, fetchedAt);
        var ra', rb := NormalizeRows(ind, a[1..], fetchedAt), NormalizeRows(ind, b, fetchedAt);
        if ra'.Success? && rb.Success? && Kept(a[0]) {
          var n := Normalize(ind, a[0], fetchedAt);
          assert [n] + (ra'.value + rb.value) == ([n] + ra'.value) + rb.value;
        }
      }
    } else {
      assert a + b == b;
      if NormalizeRows(ind, b, fetchedAt).Success? {
        assert [] + NormalizeRows(ind, b, fetchedAt).value == NormalizeRows(ind, b, fetchedAt).value;
      }
    }
  }

  /** Every observation comes from one kept row: its country, year and value are
      that row's, and every other column is the indicator's metadata, with the
      validation status as quality flag and the fetch time as update time. */
  lemma NormalizedMetadata(ind: Indicator, rows: seq<ApiRow>, fetchedAt: string, o: Observation) returns (i: int)
    requires NormalizeRows(ind, rows, fetchedAt).Success? && o in NormalizeRows(ind, rows, fetchedAt).value
    ensures 0 <= i < |rows| && Kept(rows[i])
    ensures rows[i].date == Year(o.year) && rows[i].value == Some(o.value) && o.country == CountryOf(rows[i])
    ensures o.indicatorId == ind.indicatorId && o.indicatorName == ind.indicatorName && o.sourceCode == ind.sourceCode
    ensures o.domain == ind.domain && o.unit == ind.unit && o.frequency == ind.frequency
    ensures o.lagClass == ind.lagClass && o.directionGood == ind.directionGood && o.source == ind.source
    ensures o.qualityTier == ind.qualityTier && o.qualityFlag == ind.validationStatus && o.updatedAt == fetchedAt
    ensures o.country != "" && Text.Upper(o.country) == o.country
  {
    i :| 0 <= i < |rows| && Kept(rows[i]) && rows[i].date.Year? && o == Normalize(ind, rows[i], fetchedAt);
    Text.UpperIdempotent(rows[i].countryIso3.GetOr(""));
  }

  // ---------------------------------------------------------------------------
  // A run

  datatype Run = Run(exitCode: int, errors: map<string, string>, normalized: seq<Observation>)

  /** One step of the loop over indicators: the error of the fetch, the error
      normalising raises, or the normalised rows. */
  function Outcome(ind: Indicator, fetched: Result<seq<ApiRow>>, fetchedAt: string): Result<seq<Observation>> {
    match fetched
    case Failure(msg) => Failure(msg)
    case Success(series) => NormalizeRows(ind, series, fetchedAt)
  }

  /** The step for the `i`-th indicator; `fetch(i)` is the outcome of its request. */
  function OutcomeAt(inds: seq<Indicator>, fetch: nat -> Result<seq<ApiRow>>, fetchedAt: string, i: nat): Result<seq<Observation>>
    requires i < |inds|
  {
    Outcome(inds[i], fetch(i), fetchedAt)
  }

  /** The loop over indicators: a failed step records its message under the
      indicator's code and the loop goes on; a successful one contributes its
      normalised rows. Each indicator makes its own request, so `fetch` is
      indexed by position, and a code listed twice may fail once and succeed once. */
  function FetchAll(inds: seq<Indicator>, fetch: nat -> Result<seq<ApiRow>>, fetchedAt: string): (map<string, string>, seq<Observation>) {
    if |inds| == 0 then (map[], [])
    else
      var last := |inds| - 1;
      var (errs, obs) := FetchAll(inds[..last], fetch, fetchedAt);
      match OutcomeAt(inds, fetch, fetchedAt, last)
      case Failure(msg) => (errs[inds[last].sourceCode := msg], obs)
      case Success(rows) => (errs, obs + rows)
  }

  /** `main` after argument parsing: a failure when no peer is listed, exit 1
      without indicators, else 0 when some row was normalised and 2 otherwise. */
  function Main(peerRows: seq<Option<string>>, catalog: seq<CatalogRow>, fetch: nat -> Result<seq<ApiRow>>, fetchedAt: string): Result<Run> {
    match ReadPeers(peerRows)
    case Failure(e) => Failure(e)
    case Success(_) =>
      var inds := ReadIndicators(catalog);
      if |inds| == 0 then Success(Run(1, map[], []))
      else
        var (errs, obs) := FetchAll(inds, fetch, fetchedAt);
        Success(Run(if |obs| > 0 then 0 else 2, errs, obs))
  }

  /** Step `j` is the last failing step of `code`. */
  ghost predicate LastFailure(inds: seq<Indicator>, fetch: nat -> Result<seq<ApiRow>>, fetchedAt: string, code: string, j: int) {
    && 0 <= j < |inds| && inds[j].sourceCode == code && OutcomeAt(inds, fetch, fetchedAt, j).Failure?
    && forall k :: j < k < |inds| && inds[k].sourceCode == code ==> OutcomeAt(inds, fetch, fetchedAt, k).Success?
  }

  /** The error map holds exactly the codes with a failing step, each with the
      message of its last failing step; the rows are those of the successful steps. */
  lemma FetchAllSpec(inds: seq<Indicator>, fetch: nat -> Result<seq<ApiRow>>, fetchedAt: string)
    ensures var (errs, obs) := FetchAll(inds, fetch, fetchedAt);
            && (forall code :: code in errs <==>
                  exists i :: 0 <= i < |inds| && inds[i].sourceCode == code && OutcomeAt(inds, fetch, fetchedAt, i).Failure?)
            && (forall code :: code in errs ==>
                  exists j :: LastFailure(inds, fetch, fetchedAt, code, j) && errs[code] == OutcomeAt(inds, fetch, fetchedAt, j).error)
            && (forall o :: o in obs <==>
                  exists i :: 0 <= i < |inds| && OutcomeAt(inds, fetch, fetchedAt, i).Success? && o in OutcomeAt(inds, fetch, fetchedAt, i).value)
  {
    FetchAllErrors(inds, fetch, fetchedAt);
    FetchAllRows(inds, fetch, fetchedAt);
  }

  /** The error-map half of `FetchAllSpec`. */
  lemma FetchAllErrors(inds: seq<Indicator>, fetch: nat -> Result<seq<ApiRow>>, fetchedAt: string)
    ensures var errs := FetchAll(inds, fetch, fetchedAt).0;
            && (forall code :: code in errs <==>
                  exists i :: 0 <= i < |inds| && inds[i].sourceCode == code && OutcomeAt(inds, fetch, fetchedAt, i).Failure?)
            && (forall code :: code in errs ==>
                  exists j :: LastFailure(inds, fetch, fetchedAt, code, j) && errs[code] == OutcomeAt(inds, fetch, fetchedAt, j).error)
  {
    var errs := FetchAll(inds, fetch, fetchedAt).0;
    forall code | code in errs
      ensures exists j :: LastFailure(inds, fetch, fetchedAt, code, j) && errs[code] == OutcomeAt(inds, fetch, fetchedAt, j).error
    {
      var j := ErrorFromLastFailure(inds, fetch, fetchedAt, code);
    }
    forall code, i | 0 <= i < |inds| && inds[i].sourceCode == code && OutcomeAt(inds, fetch, fetchedAt, i).Failure?
      ensures code in errs
    {
      FailureRecorded(inds, fetch, fetchedAt, i);
    }
  }

  /** A recorded code has a last failing step, whose message is recorded. */
  lemma {:induction false} ErrorFromLastFailure(inds: seq<Indicator>, fetch: nat -> Result<seq<ApiRow>>, fetchedAt: string, code: string)
      returns (j: int)
    requires code in FetchAll(inds, fetch, fetchedAt).0
    ensures LastFailure(inds, fetch, fetchedAt, code, j)
    ensures FetchAll(inds, fetch, fetchedAt).0[code] == OutcomeAt(inds, fetch, fetchedAt, j).error
  {
    var last := |inds| - 1;
    var front := inds[..last];
    if OutcomeAt(inds, fetch, fetchedAt, last).Failure? && inds[last].sourceCode == code {
      j := last;
    } else {
      j := ErrorFromLastFailure(front, fetch, fetchedAt, code);
      assert front[j] == inds[j];
      assert OutcomeAt(front, fetch, fetchedAt, j) == OutcomeAt(inds, fetch, fetchedAt, j);
      forall k | j < k < |inds| && inds[k].sourceCode == code
        ensures OutcomeAt(inds, fetch, fetchedAt, k).Success?
      {
        if k < last {
          assert front[k] == inds[k];
          assert OutcomeAt(front, fetch, fetchedAt, k) == OutcomeAt(inds, fetch, fetchedAt, k);
        }
      }
    }
  }

  /** The code of every failing step is recorded. */
  lemma {:induction false} FailureRecorded(inds: seq<Indicator>, fetch: nat -> Result<seq<ApiRow>>, fetchedAt: string, i: nat)
    requires i < |inds| && OutcomeAt(inds, fetch, fetchedAt, i).Failure?
    ensures inds[i].sourceCode in FetchAll(inds, fetch, fetchedAt).0
  {
    var last := |inds| - 1;
    var front := inds[..last];
    if i < last {
      assert front[i] == inds[i];
      assert OutcomeAt(front, fetch, fetchedAt, i) == OutcomeAt(inds, fetch, fetchedAt, i);
      FailureRecorded(front, fetch, fetchedAt, i);
    }
  }

  /** The rows half of `FetchAllSpec`. */
  lemma FetchAllRows(inds: seq<Indicator>, fetch: nat -> Result<seq<ApiRow>>, fetchedAt: string)
    ensures var obs := FetchAll(inds, fetch, fetchedAt).1;
            forall o :: o in obs <==>
              exists i :: 0 <= i < |inds| && OutcomeAt(inds, fetch, fetchedAt, i).Success? && o in OutcomeAt(inds, fetch, fetchedAt, i).value
  {
    forall o | o in FetchAll(inds, fetch, fetchedAt).1
      ensures exists i :: 0 <= i < |inds| && OutcomeAt(inds, fetch, fetchedAt, i).Success? && o in OutcomeAt(inds, fetch, fetchedAt, i).value
    {
      var i := FetchedRowFrom(inds, fetch, fetchedAt, o);
    }
    forall o, i | 0 <= i < |inds| && OutcomeAt(inds, fetch, fetchedAt, i).Success? && o in OutcomeAt(inds, fetch, fetchedAt, i).value
      ensures o in FetchAll(inds, fetch, fetchedAt).1
    {
      FetchedRowKept(inds, fetch, fetchedAt, i, o);
    }
  }

  /** Every collected row comes from one successful step, by position. */
  lemma {:induction false} FetchedRowFrom(inds: seq<Indicator>, fetch: nat -> Result<seq<ApiRow>>, fetchedAt: string, o: Observation)
      returns (i: nat)
    requires o in FetchAll(inds, fetch, fetchedAt).1
    ensures i < |inds| && OutcomeAt(inds, fetch, fetchedAt, i).Success?
    ensures o in OutcomeAt(inds, fetch, fetchedAt, i).value
  {
    var last := |inds| - 1;
    var front := inds[..last];
    var prev := FetchAll(front, fetch, fetchedAt).1;
    var step := OutcomeAt(inds, fetch, fetchedAt, last);
    if step.Success? && o in step.value {
      i := last;
    } else {
      assert o in prev;
      i := FetchedRowFrom(front, fetch, fetchedAt, o);
      assert front[i] == inds[i];
      assert OutcomeAt(front, fetch, fetchedAt, i) == OutcomeAt(inds, fetch, fetchedAt, i);
    }
  }

  /** The rows of each successful step are collected. */
  lemma {:induction false} FetchedRowKept(inds: seq<Indicator>, fetch: nat -> Result<seq<ApiRow>>, fetchedAt: string, i: nat, o: Observation)
    requires i < |inds| && OutcomeAt(inds, fetch, fetchedAt, i).Success?
    requires o in OutcomeAt(inds, fetch, fetchedAt, i).value
    ensures o in FetchAll(inds, fetch, fetchedAt).1
  {
    var last := |inds| - 1;
    var front := inds[..last];
    if i < last {
      assert front[i] == inds[i];
      assert OutcomeAt(front, fetch, fetchedAt, i) == OutcomeAt(inds, fetch, fetchedAt, i);
      FetchedRowKept(front, fetch, fetchedAt, i, o);
    }
  }

  /** A code listed twice whose first request fails and whose second succeeds
      is both recorded as an error and contributes rows. */
  lemma RepeatedCodeBothOutcomes(ind: Indicator, row: ApiRow, fetch: nat -> Result<seq<ApiRow>>, fetchedAt: string)
    requires Kept(row) && row.date.Year?
    requires fetch(0) == Failure("timed out") && fetch(1) == Success([row])
    ensures var (errs, obs) := FetchAll([ind, ind], fetch, fetchedAt);
            errs == map[ind.sourceCode := "timed out"] && obs == [Normalize(ind, row, fetchedAt)]
  {
    assert [ind, ind][..1] == [ind];
    assert [ind][..0] == [];
    assert FetchAll([ind], fetch, fetchedAt) == (map[ind.sourceCode := "timed out"], []);
    assert [row][1..] == [] && [row][0] == row;
    assert NormalizeRows(ind, [], fetchedAt) == Success([]);
    assert [Normalize(ind, row, fetchedAt)] + [] == [Normalize(ind, row, fetchedAt)];
    assert NormalizeRows(ind, [row], fetchedAt) == Success([Normalize(ind, row, fetchedAt)]);
  }

  /** A kept row whose date `int()` rejects fails its indicator's step: the
      error is recorded under the code and none of its rows are collected. */
  lemma MalformedDateFailsStep(ind: Indicator, good: ApiRow, bad: ApiRow, fetch: nat -> Result<seq<ApiRow>>, fetchedAt: string)
    requires Kept(good) && good.date.Year? && Malformed(bad)
    requires fetch(0) == Success([good, bad])
    ensures var (errs, obs) := FetchAll([ind], fetch, fetchedAt);
            errs == map[ind.sourceCode := IntError(bad.date.text)] && obs == []
  {
    assert [ind][..0] == [];
    assert [good, bad][1..] == [bad];
    assert NormalizeRows(ind, [bad], fetchedAt) == Failure(IntError(bad.date.text));
    assert NormalizeRows(ind, [good, bad], fetchedAt) == Failure(IntError(bad.date.text));
  }

  /** The exit code: 1 without indicators, 0 with normalised rows, 2 otherwise. */
  lemma MainExitCode(peerRows: seq<Option<string>>, catalog: seq<CatalogRow>, fetch: nat -> Result<seq<ApiRow>>, fetchedAt: string)
    ensures Main(peerRows, catalog, fetch, fetchedAt).Failure? <==> ReadPeers(peerRows).Failure?
    ensures var r := Main(peerRows, catalog, fetch, fetchedAt);
            r.Success? ==>
              && (r.value.exitCode == 1 <==> (forall i :: 0 <= i < |catalog| ==> !Fetched(catalog[i])))
              && (r.value.exitCode == 0 <==> |r.value.normalized| > 0)
              && r.value.exitCode in {0, 1, 2}
  {
    var inds := ReadIndicators(catalog);
    if |inds| == 0 {
      forall i | 0 <= i < |catalog| && Fetched(catalog[i]) ensures ToIndicator(catalog[i]) in inds {}
    } else {
      var x := inds[0];
      assert x in inds;
    }
  }
}
