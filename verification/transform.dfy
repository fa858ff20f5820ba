/** The direction transforms of the baseline build: each indicator's pooled
    mean is mapped to a 0-100 score where higher is better. */
module Transform {
  import opened Wrappers
  import opened Numeric

  /** The seven transform modes, and any other mode name (scored 50). */
  datatype Mode = Identity | Scale01 | ScaleWgi | InverseCap | TargetBand | LinearCap | LogCap | Other

  datatype Spec = Spec(mode: Mode, lo: real, hi: real)

  /** `math.log`, abstracted: any function strictly increasing on the positive reals. */
  ghost predicate Increasing(ln: real -> real) {
    forall a, b :: 0.0 < a < b ==> ln(a) < ln(b)
  }

  /** `transform` on a known spec. Divisions by zero and logarithms of
      non-positive numbers fail as Python's arithmetic does. */
  function Apply(m: Mode, lo: real, hi: real, x: real, ln: real -> real): Result<real> {
    var c := Clamp(x, lo, hi);
    match m
    case Identity => Success(Clamp(x, 0.0, 100.0))
    case Scale01 => Success(Clamp(x * 100.0, 0.0, 100.0))
    case ScaleWgi =>
      if hi - lo == 0.0 then Failure("float division by zero")
      else Success(Clamp(((x - lo) / (hi - lo)) * 100.0, 0.0, 100.0))
    case InverseCap =>
      if hi - lo == 0.0 then Failure("float division by zero")
      else Success(Clamp(100.0 * (1.0 - (c - lo) / (hi - lo)), 0.0, 100.0))
    case TargetBand =>
      if lo <= x <= hi then Success(100.0)
      else Success(Max(0.0, 100.0 - Min(AbsR(x - lo), AbsR(x - hi)) * 10.0))
    case LinearCap =>
      if hi - lo == 0.0 then Failure("float division by zero")
      else Success(((c - lo) / (hi - lo)) * 100.0)
    case LogCap =>
      if c <= 0.0 || lo <= 0.0 || hi <= 0.0 then Failure("math domain error")
      else if ln(hi) - ln(lo) == 0.0 then Failure("float division by zero")
      else Success(((ln(c) - ln(lo)) / (ln(hi) - ln(lo))) * 100.0)
    case Other => Success(50.0)
  }

  /** The spec a mode is used with: a proper interval, positive for `log_cap`. */
  ghost predicate WellFormed(s: Spec) {
    s.lo < s.hi && (s.mode == LogCap ==> s.lo > 0.0)
  }

  // ---------------------------------------------------------------------------
  // Arithmetic helpers

  lemma DivUnit(a: real, b: real)
    requires 0.0 <= a <= b && b > 0.0
    ensures 0.0 <= a / b <= 1.0
  {
    assert (a / b) * b == a;
  }

  lemma DivMonotone(a: real, a': real, b: real)
    requires a <= a' && b > 0.0
    ensures a / b <= a' / b
  {
    assert (a / b) * b == a && (a' / b) * b == a';
  }

  /** The normalised position `(c - lo) / (hi - lo)` of a clamped value lies in `[0, 1]`. */
  lemma UnitPosition(x: real, lo: real, hi: real)
    requires lo < hi
    ensures 0.0 <= (Clamp(x, lo, hi) - lo) / (hi - lo) <= 1.0
  {
    DivUnit(Clamp(x, lo, hi) - lo, hi - lo);
  }

  /** The logarithmic position of a clamped value lies in `[0, 1]`. */
  lemma LogPosition(x: real, lo: real, hi: real, ln: real -> real)
    requires 0.0 < lo < hi && Increasing(ln)
    ensures ln(hi) - ln(lo) > 0.0
    ensures 0.0 <= (ln(Clamp(x, lo, hi)) - ln(lo)) / (ln(hi) - ln(lo)) <= 1.0
  {
    var c := Clamp(x, lo, hi);
    assert ln(lo) <= ln(c) <= ln(hi) by {
      if lo < c { assert ln(lo) < ln(c); }
      if c < hi { assert ln(c) < ln(hi); }
    }
    DivUnit(ln(c) - ln(lo), ln(hi) - ln(lo));
  }

  // ---------------------------------------------------------------------------
  // Range

  /** On a well-formed spec every mode succeeds with a score in `[0, 100]`;
      an unknown mode scores exactly 50. */
  lemma ApplyInRange(s: Spec, x: real, ln: real -> real)
    requires WellFormed(s)
    requires s.mode == LogCap ==> Increasing(ln)
    ensures Apply(s.mode, s.lo, s.hi, x, ln).Success?
    ensures 0.0 <= Apply(s.mode, s.lo, s.hi, x, ln).value <= 100.0
    ensures s.mode == Other ==> Apply(s.mode, s.lo, s.hi, x, ln).value == 50.0
  {
    match s.mode
    case LinearCap => UnitPosition(x, s.lo, s.hi);
    case LogCap => LogPosition(x, s.lo, s.hi, ln);
    case _ =>
  }

  /** `target_band` scores 100 inside the band, edges included, and loses ten
      points per unit of distance to the nearer edge outside it, down to 0. */
  lemma TargetBandSpec(lo: real, hi: real, x: real, ln: real -> real)
    requires lo <= hi
    ensures lo <= x <= hi ==> Apply(TargetBand, lo, hi, x, ln) == Success(100.0)
    ensures x < lo ==> Apply(TargetBand, lo, hi, x, ln) == Success(Max(0.0, 100.0 - 10.0 * (lo - x)))
    ensures x > hi ==> Apply(TargetBand, lo, hi, x, ln) == Success(Max(0.0, 100.0 - 10.0 * (x - hi)))
  {
  }

  // ---------------------------------------------------------------------------
  // Monotonicity

  lemma LinearCapMonotone(lo: real, hi: real, x: real, x': real, ln: real -> real)
    requires lo < hi && x <= x'
    ensures Apply(LinearCap, lo, hi, x, ln).value <= Apply(LinearCap, lo, hi, x', ln).value
  {
    ClampMonotone(x, x', lo, hi);
    DivMonotone(Clamp(x, lo, hi) - lo, Clamp(x', lo, hi) - lo, hi - lo);
  }

  lemma InverseCapAntitone(lo: real, hi: real, x: real, x': real, ln: real -> real)
    requires lo < hi && x <= x'
    ensures Apply(InverseCap, lo, hi, x, ln).value >= Apply(InverseCap, lo, hi, x', ln).value
  {
    ClampMonotone(x, x', lo, hi);
    var u, u' := (Clamp(x, lo, hi) - lo) / (hi - lo), (Clamp(x', lo, hi) - lo) / (hi - lo);
    DivMonotone(Clamp(x, lo, hi) - lo, Clamp(x', lo, hi) - lo, hi - lo);
    ClampMonotone(100.0 * (1.0 - u'), 100.0 * (1.0 - u), 0.0, 100.0);
  }

  lemma ScaleWgiMonotone(lo: real, hi: real, x: real, x': real, ln: real -> real)
    requires lo < hi && x <= x'
    ensures Apply(ScaleWgi, lo, hi, x, ln).value <= Apply(ScaleWgi, lo, hi, x', ln).value
  {
    DivMonotone(x - lo, x' - lo, hi - lo);
    ClampMonotone(((x - lo) / (hi - lo)) * 100.0, ((x' - lo) / (hi - lo)) * 100.0, 0.0, 100.0);
  }

  lemma LogCapMonotone(lo: real, hi: real, x: real, x': real, ln: real -> real)
    requires 0.0 < lo < hi && x <= x' && Increasing(ln)
    ensures Apply(LogCap, lo, hi, x, ln).value <= Apply(LogCap, lo, hi, x', ln).value
  {
    LogPosition(x, lo, hi, ln);
    var c, c' := Clamp(x, lo, hi), Clamp(x', lo, hi);
    ClampMonotone(x, x', lo, hi);
    assert ln(c) <= ln(c') by {
      if c < c' { assert ln(c) < ln(c'); }
    }
    DivMonotone(ln(c) - ln(lo), ln(c') - ln(lo), ln(hi) - ln(lo));
  }

  // ---------------------------------------------------------------------------
  // The indicator table

  /** `TRANSFORMS`: `None` for an indicator without an entry, where the lookup raises. */
  function TransformFor(indicator: string): Option<Spec> {
    match indicator
    case "DEBT_GDP" => Some(Spec(InverseCap, 0.0, 180.0))
    case "DEFICIT_GDP" => Some(Spec(TargetBand, -3.0, 1.0))
    case "UHC_INDEX" => Some(Spec(Identity, 0.0, 100.0))
    case "HUMAN_CAPITAL" => Some(Spec(Scale01, 0.0, 1.0))
    case "HOMICIDE_RATE" => Some(Spec(InverseCap, 0.0, 12.0))
    case "PM25" => Some(Spec(InverseCap, 0.0, 35.0))
    case "CONTROL_CORRUPTION" => Some(Spec(ScaleWgi, -2.5, 2.5))
    case "GDP_PC_PPP" => Some(Spec(LogCap, 2000.0, 80000.0))
    case "UNEMPLOYMENT" => Some(Spec(InverseCap, 0.0, 20.0))
    case "CURRENT_ACCOUNT" => Some(Spec(TargetBand, -4.0, 4.0))
    case "LIFE_EXPECTANCY" => Some(Spec(LinearCap, 60.0, 85.0))
    case "PRIMARY_COMPLETION" => Some(Spec(Identity, 0.0, 100.0))
    case "LOWER_SEC_COMPLETION" => Some(Spec(Identity, 0.0, 100.0))
    case "FX_RESERVES_MONTHS" => Some(Spec(TargetBand, 3.0, 12.0))
    case _ => None
  }

  /** `transform(indicator, x)`: a lookup error for an indicator without an entry. */
  function TransformIndicator(indicator: string, x: real, ln: real -> real): Result<real> {
    match TransformFor(indicator)
    case None => Failure("KeyError: " + indicator)
    case Some(s) => Apply(s.mode, s.lo, s.hi, x, ln)
  }

  /** Every entry of the table is well formed. */
  lemma TableWellFormed(indicator: string)
    ensures TransformFor(indicator).Some? ==> WellFormed(TransformFor(indicator).value)
  {
  }

  /** A tabled indicator always transforms to a score in `[0, 100]`, and only a
      tabled one transforms at all. */
  lemma TransformIndicatorInRange(indicator: string, x: real, ln: real -> real)
    requires Increasing(ln)
    ensures TransformIndicator(indicator, x, ln).Success? <==> TransformFor(indicator).Some?
    ensures TransformIndicator(indicator, x, ln).Success? ==> 0.0 <= TransformIndicator(indicator, x, ln).value <= 100.0
  {
    TableWellFormed(indicator);
    if TransformFor(indicator).Some? {
      ApplyInRange(TransformFor(indicator).value, x, ln);
    }
  }

  /** `RULELAW_PROXY` has no entry. */
  lemma RuleLawUntabled()
    ensures TransformFor("RULELAW_PROXY") == None
  {
  }

  /** Debt at 90% of GDP scores 50 on the (0, 180) inverse cap. */
  lemma DebtExample(ln: real -> real)
    ensures TransformIndicator("DEBT_GDP", 90.0, ln) == Success(50.0)
  {
  }

  /** A deficit of -2% lies inside the (-3, 1) band and scores 100. */
  lemma DeficitExample(ln: real -> real)
    ensures TransformIndicator("DEFICIT_GDP", -2.0, ln) == Success(100.0)
  {
  }
}
