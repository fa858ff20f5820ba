/** The deterministic rules of the game client: the map quadrants and tile
    sprites, the action-point and streak economy, the capped ticker and event
    rail, building states and tier promotion. */
module Game {

  const MapW: int := 24
  const MapH: int := 24
  const TickerCap: nat := 14
  const RailCap: nat := 18

  // ---------------------------------------------------------------------------
  // The map

  datatype District = NW | NE | SW | SE

  /** `districtForTile`: the quadrant of a tile, split at half the map's width and height. */
  function DistrictForTile(x: int, y: int): (d: District)
    ensures d == NW <==> x < MapW / 2 && y < MapH / 2
    ensures d == NE <==> x >= MapW / 2 && y < MapH / 2
    ensures d == SW <==> x < MapW / 2 && y >= MapH / 2
    ensures d == SE <==> x >= MapW / 2 && y >= MapH / 2
  {
    if x < MapW / 2 && y < MapH / 2 then NW
    else if x >= MapW / 2 && y < MapH / 2 then NE
    else if x < MapW / 2 && y >= MapH / 2 then SW
    else SE
  }

  /** Every district holds a tile of the map. */
  lemma DistrictsCoverMap(d: District) returns (x: int, y: int)
    ensures 0 <= x < MapW && 0 <= y < MapH && DistrictForTile(x, y) == d
  {
    x := if d == NW || d == SW then 0 else MapW - 1;
    y := if d == NW || d == NE then 0 else MapH - 1;
  }

  datatype Sprite = Plaza | RoadTurn | RoadStraight | Water | Park | Sidewalk | Grass

  function SpriteName(s: Sprite): string {
    match s
    case Plaza => "plaza"
    case RoadTurn => "road_turn"
    case RoadStraight => "road_straight"
    case Water => "water"
    case Park => "park"
    case Sidewalk => "sidewalk"
    case Grass => "grass"
  }

  predicate IsRoad(s: Sprite) { s == RoadTurn || s == RoadStraight }

  /** `tileSpriteFor`. A zero remainder means divisibility under both truncating
      and Euclidean `%`, so the tests agree with the client's on every tile. */
  function TileSpriteFor(x: int, y: int): Sprite {
    if x == 10 && y == 10 then Plaza
    else if x == 10 || y == 10 then
      if (x + y) % 7 == 0 then RoadTurn else RoadStraight
    else if (x + y) % 13 == 0 then Water
    else if (x + y) % 9 == 0 then Park
    else if (x + y) % 5 == 0 then Sidewalk
    else Grass
  }

  /** The plaza sits at (10, 10) alone; the roads are exactly the other tiles of
      column 10 and row 10, turning where `x + y` is a multiple of 7. */
  lemma TileSpriteRoads(x: int, y: int)
    ensures TileSpriteFor(x, y) == Plaza <==> x == 10 && y == 10
    ensures IsRoad(TileSpriteFor(x, y)) <==> (x == 10 || y == 10) && !(x == 10 && y == 10)
    ensures TileSpriteFor(x, y) == RoadTurn <==> IsRoad(TileSpriteFor(x, y)) && (x + y) % 7 == 0
  {
  }

  /** Off the roads the sprite depends on `x + y` alone, water taking precedence. */
  lemma TileSpriteDiagonal(x: int, y: int, x': int, y': int)
    requires x != 10 && y != 10 && x' != 10 && y' != 10 && x + y == x' + y'
    ensures TileSpriteFor(x, y) == TileSpriteFor(x', y')
    ensures (x + y) % 13 == 0 ==> TileSpriteFor(x, y) == Water
  {
  }

  // ---------------------------------------------------------------------------
  // State

  /** The ticker messages the modelled rules write; `Text` is any other caller's. */
  datatype Message =
    | NeedPoints(cost: int, reason: string)
    | StreakPayout(streak: nat, source: string)
    | StreakBroken(reason: string)
    | PromotionUnlocked(tierName: string)
    | Text(text: string)

  /** A ticker line: `Day <day>: <message>`, or the opening welcome line. */
  datatype TickerItem = Welcome | Dated(day: int, message: Message)

  datatype RailEvent = RailEvent(day: int, title: string, meta: string, hot: bool)

  datatype Resources = Resources(actionPoints: int, maxActionPoints: int, streak: nat, bestStreak: int)

  datatype Kpi = Kpi(health: real, safety: real, integrity: real, economy: real,
                     climate: real, stability: real, education: real)

  datatype KpiName = Health | Safety | Integrity | Economy | Climate | Stability | Education

  function KpiValue(k: Kpi, n: KpiName): real {
    match n
    case Health => k.health
    case Safety => k.safety
    case Integrity => k.integrity
    case Economy => k.economy
    case Climate => k.climate
    case Stability => k.stability
    case Education => k.education
  }

  datatype BuildingState = Overloaded | Strained | Stable | Thriving

  datatype Building = Building(id: string, kpi: KpiName, level: int, budget: real, state: BuildingState)

  datatype State = State(
    day: int,
    tierIndex: nat,
    kpi: Kpi,
    treasury: real,
    debt: real,
    resources: Resources,
    actions: nat,
    ticker: seq<TickerItem>,
    rail: seq<RailEvent>,
    buildings: seq<Building>)

  // ---------------------------------------------------------------------------
  // The ticker and the event rail

  function Take<T>(s: seq<T>, n: nat): (r: seq<T>)
    ensures |r| == if |s| < n then |s| else n
    ensures forall i :: 0 <= i < |r| ==> r[i] == s[i]
  {
    if |s| <= n then s else s[..n]
  }

  /** `addTicker`: the newest line first, the list cut to its cap. */
  function AddTicker(st: State, m: Message): (r: State)
    ensures |r.ticker| == if |st.ticker| + 1 < TickerCap then |st.ticker| + 1 else TickerCap
    ensures r.ticker[0] == Dated(st.day, m)
    ensures forall i :: 0 <= i < |r.ticker| - 1 ==> r.ticker[i + 1] == st.ticker[i]
    ensures r == st.(ticker := r.ticker)
  {
    st.(ticker := Take([Dated(st.day, m)] + st.ticker, TickerCap))
  }

  /** `addRailEvent`: the newest event first, the list cut to its cap. */
  function AddRailEvent(st: State, title: string, meta: string, hot: bool): (r: State)
    ensures |r.rail| == if |st.rail| + 1 < RailCap then |st.rail| + 1 else RailCap
    ensures r.rail[0] == RailEvent(st.day, title, meta, hot)
    ensures forall i :: 0 <= i < |r.rail| - 1 ==> r.rail[i + 1] == st.rail[i]
    ensures r == st.(rail := r.rail)
  {
    st.(rail := Take([RailEvent(st.day, title, meta, hot)] + st.rail, RailCap))
  }

  /** After a run of lines on one day, position `k` of the ticker holds the
      `k`-th newest line, for as many positions as the cap keeps. */
  lemma {:induction false} TickerKeepsRecent(st: State, ms: seq<Message>, k: nat)
    requires k < |AddTickers(st, ms).ticker| && k < |ms|
    ensures AddTickers(st, ms).ticker[k] == Dated(st.day, ms[|ms| - 1 - k])
  {
    var init := ms[..|ms| - 1];
    var prev := AddTickers(st, init);
    assert AddTickers(st, ms) == AddTicker(prev, ms[|ms| - 1]);
    if k > 0 {
      TickerShift(prev, ms[|ms| - 1], k);
      TickerKeepsRecent(st, init, k - 1);
      assert init[|init| - 1 - (k - 1)] == ms[|ms| - 1 - k];
    }
  }

  lemma TickerShift(prev: State, m: Message, k: nat)
    requires 0 < k < |AddTicker(prev, m).ticker|
    ensures k - 1 < |prev.ticker| && AddTicker(prev, m).ticker[k] == prev.ticker[k - 1]
  {
  }

  /** Writes the lines in order, as successive `addTicker` calls on one day do. */
  function AddTickers(st: State, ms: seq<Message>): (r: State)
    ensures r.day == st.day
    ensures |r.ticker| <= TickerCap || r.ticker == st.ticker
  {
    if |ms| == 0 then st else AddTicker(AddTickers(st, ms[..|ms| - 1]), ms[|ms| - 1])
  }

  // ---------------------------------------------------------------------------
  // Action points and streaks

  /** `clamp(v, min, max)` on integers: `min` when the interval is empty. */
  function ClampInt(v: int, lo: int, hi: int): (r: int)
    ensures lo <= hi ==> lo <= r <= hi
    ensures lo <= v <= hi ==> r == v
  {
    if v > hi then (if lo > hi then lo else hi) else if v < lo then lo else v
  }

  /** `spendActionPoints`: refuses, with a ticker line and nothing else changed,
      when the points do not cover the cost; otherwise pays and counts an action. */
  function SpendActionPoints(st: State, cost: int, reason: string): (r: (State, bool))
    ensures !r.1 <==> st.resources.actionPoints < cost
    ensures !r.1 ==> r.0 == AddTicker(st, NeedPoints(cost, reason))
    ensures r.1 ==> r.0 == st.(resources := st.resources.(actionPoints := st.resources.actionPoints - cost),
                               actions := st.actions + 1)
  {
    if st.resources.actionPoints < cost then (AddTicker(st, NeedPoints(cost, reason)), false)
    else (st.(resources := st.resources.(actionPoints := st.resources.actionPoints - cost),
              actions := st.actions + 1), true)
  }

  /** Points within `[0, max]` stay there when a non-negative cost is spent. */
  lemma SpendKeepsPointsInRange(st: State, cost: int, reason: string)
    requires 0 <= st.resources.actionPoints <= st.resources.maxActionPoints && cost >= 0
    ensures var r := SpendActionPoints(st, cost, reason).0;
            0 <= r.resources.actionPoints <= r.resources.maxActionPoints
  {
  }

  /** `awardStreak`. */
  function AwardStreak(st: State, source: string): (r: State)
    ensures r.resources.streak == st.resources.streak + 1
    ensures r.resources.bestStreak >= r.resources.streak
    ensures r.resources.bestStreak >= st.resources.bestStreak
    ensures r.resources.bestStreak == st.resources.bestStreak || r.resources.bestStreak == r.resources.streak
    ensures r.resources.streak % 3 == 0 ==>
              && r.treasury == st.treasury + 4.0
              && r.resources.actionPoints == ClampInt(st.resources.actionPoints + 1, 0, st.resources.maxActionPoints)
              && r.ticker == AddTicker(st, StreakPayout(r.resources.streak, source)).ticker
              && r == st.(resources := st.resources.(streak := r.resources.streak, bestStreak := r.resources.bestStreak,
                                                     actionPoints := r.resources.actionPoints),
                          treasury := r.treasury, ticker := r.ticker)
    ensures r.resources.streak % 3 != 0 ==>
              r == st.(resources := st.resources.(streak := r.resources.streak, bestStreak := r.resources.bestStreak))
    ensures r.resources.maxActionPoints == st.resources.maxActionPoints
  {
    var n := st.resources.streak + 1;
    var best := if st.resources.bestStreak >= n then st.resources.bestStreak else n;
    var s1 := st.(resources := st.resources.(streak := n, bestStreak := best));
    if n % 3 == 0 then
      var s2 := s1.(resources := s1.resources.(actionPoints := ClampInt(s1.resources.actionPoints + 1, 0, s1.resources.maxActionPoints)),
                    treasury := s1.treasury + 4.0);
      AddTicker(s2, StreakPayout(n, source))
    else s1
  }

  /** `breakStreak`: a ticker line only for a streak of two or more. */
  function BreakStreak(st: State, reason: string): (r: State)
    ensures r.resources == st.resources.(streak := 0)
    ensures st.resources.streak >= 2 ==> r.ticker == AddTicker(st, StreakBroken(reason)).ticker
    ensures st.resources.streak < 2 ==> r.ticker == st.ticker
    ensures r == st.(resources := r.resources, ticker := r.ticker)
  {
    var s1 := if st.resources.streak >= 2 then AddTicker(st, StreakBroken(reason)) else st;
    s1.(resources := s1.resources.(streak := 0))
  }

  /** `n` successive awards from one source. */
  function AwardStreaks(st: State, source: string, n: nat): State {
    if n == 0 then st else AwardStreak(AwardStreaks(st, source, n - 1), source)
  }

  /** Over `n` awards the treasury gains 4 for each multiple of 3 the streak
      passes, so a run from a broken streak pays `4·(n/3)`. */
  lemma {:induction false} AwardStreaksPayout(st: State, source: string, n: nat)
    ensures AwardStreaks(st, source, n).resources.streak == st.resources.streak + n
    ensures AwardStreaks(st, source, n).treasury
            == st.treasury + 4.0 * ((st.resources.streak + n) / 3 - st.resources.streak / 3) as real
  {
    if n > 0 {
      AwardStreaksPayout(st, source, n - 1);
      var s := st.resources.streak + n;
      if s % 3 == 0 {
        assert s / 3 == (s - 1) / 3 + 1;
      } else {
        assert s / 3 == (s - 1) / 3;
      }
    }
  }

  /** A run from a broken streak keeps the points within `[0, max]`. */
  lemma {:induction false} AwardStreaksKeepPoints(st: State, source: string, n: nat)
    requires 0 <= st.resources.actionPoints <= st.resources.maxActionPoints
    ensures var r := AwardStreaks(st, source, n).resources;
            0 <= r.actionPoints <= r.maxActionPoints && r.maxActionPoints == st.resources.maxActionPoints
  {
    if n > 0 {
      AwardStreaksKeepPoints(st, source, n - 1);
    }
  }

  // ---------------------------------------------------------------------------
  // Buildings

  /** A building's signal: its KPI, 1.8 per level above the first, and 0.12
      per budget point above 60. */
  function Signal(k: Kpi, b: Building): real {
    KpiValue(k, b.kpi) + (b.level - 1) as real * 1.8 + (b.budget - 60.0) * 0.12
  }

  function Classify(signal: real): (s: BuildingState)
    ensures s == Overloaded <==> signal < 58.0
    ensures s == Strained <==> 58.0 <= signal < 68.0
    ensures s == Stable <==> 68.0 <= signal <= 78.0
    ensures s == Thriving <==> signal > 78.0
  {
    if signal < 58.0 then Overloaded
    else if signal < 68.0 then Strained
    else if signal > 78.0 then Thriving
    else Stable
  }

  function Rank(s: BuildingState): nat {
    match s
    case Overloaded => 0
    case Strained => 1
    case Stable => 2
    case Thriving => 3
  }

  /** A higher signal never gives a worse state. */
  lemma ClassifyMonotone(a: real, b: real)
    requires a <= b
    ensures Rank(Classify(a)) <= Rank(Classify(b))
  {
  }

  /** More budget, or a higher level, never gives a worse state. */
  lemma SignalMonotone(k: Kpi, b: Building, level: int, budget: real)
    requires b.level <= level && b.budget <= budget
    ensures Signal(k, b) <= Signal(k, b.(level := level, budget := budget))
    ensures Rank(Classify(Signal(k, b))) <= Rank(Classify(Signal(k, b.(level := level, budget := budget))))
  {
    ClassifyMonotone(Signal(k, b), Signal(k, b.(level := level, budget := budget)));
  }

  /** `recalcBuildingStates`: only each building's state changes. */
  function RecalcBuildingStates(st: State): (r: State)
    ensures |r.buildings| == |st.buildings|
    ensures forall i :: 0 <= i < |r.buildings| ==>
              r.buildings[i].(state := st.buildings[i].state) == st.buildings[i]
    ensures r == st.(buildings := r.buildings)
  {
    st.(buildings := seq(|st.buildings|, i requires 0 <= i < |st.buildings| =>
                           st.buildings[i].(state := Classify(Signal(st.kpi, st.buildings[i])))))
  }

  /** A state depends on nothing but the building and the KPIs, so a second
      recalculation changes nothing. */
  lemma RecalcIdempotent(st: State)
    ensures RecalcBuildingStates(RecalcBuildingStates(st)) == RecalcBuildingStates(st)
  {
    var r := RecalcBuildingStates(st);
    var r2 := RecalcBuildingStates(r);
    forall i | 0 <= i < |r.buildings| ensures r2.buildings[i] == r.buildings[i] {
      assert Signal(r.kpi, r.buildings[i]) == Signal(st.kpi, st.buildings[i]);
    }
  }

  /** Every recalculated building is classified by its own signal. */
  lemma RecalcClassifies(st: State, i: int)
    requires 0 <= i < |st.buildings|
    ensures var b := RecalcBuildingStates(st).buildings[i];
            && b.state == Classify(Signal(st.kpi, st.buildings[i]))
            && (b.state == Overloaded <==> Signal(st.kpi, b) < 58.0)
            && (b.state == Strained <==> 58.0 <= Signal(st.kpi, b) < 68.0)
            && (b.state == Stable <==> 68.0 <= Signal(st.kpi, b) <= 78.0)
            && (b.state == Thriving <==> Signal(st.kpi, b) > 78.0)
  {
    var b := RecalcBuildingStates(st).buildings[i];
    assert Signal(st.kpi, b) == Signal(st.kpi, st.buildings[i]);
  }

  // ---------------------------------------------------------------------------
  // Tiers

  const TierNames: seq<string> := ["City", "State", "Nation"]

  /** The pass results of a tier's checks, in `TIER_CONFIG` order. */
  function TierChecks(tier: nat, st: State): seq<bool>
    requires tier < |TierNames|
  {
    if tier == 0 then
      [st.kpi.health > 68.0 && st.kpi.safety > 68.0, st.kpi.integrity > 64.0]
    else if tier == 1 then
      [st.kpi.economy > 66.0 && st.kpi.climate > 66.0, st.debt < 105.0]
    else
      [st.kpi.stability > 74.0, st.kpi.integrity > 72.0 && st.debt < 95.0]
  }

  /** `checks.filter(pass).length`. */
  function CountPassed(cs: seq<bool>): (n: nat)
    ensures n <= |cs|
  {
    if |cs| == 0 then 0 else (if cs[0] then 1 else 0) + CountPassed(cs[1..])
  }

  /** Every check passes exactly when the passed count is the number of checks. */
  lemma {:induction false} CountPassedAll(cs: seq<bool>)
    ensures CountPassed(cs) == |cs| <==> forall i :: 0 <= i < |cs| ==> cs[i]
  {
    if |cs| > 0 {
      CountPassedAll(cs[1..]);
      assert forall i :: 1 <= i < |cs| ==> cs[i] == cs[1..][i - 1];
    }
  }

  ghost predicate ValidTier(st: State) { st.tierIndex < |TierNames| }

  /** `maybePromoteTier`; the client only holds indices into its tier table. */
  function MaybePromoteTier(st: State): (r: State)
    requires ValidTier(st)
    ensures ValidTier(r)
    ensures r.tierIndex == st.tierIndex || r.tierIndex == st.tierIndex + 1
  {
    var cs := TierChecks(st.tierIndex, st);
    if CountPassed(cs) == |cs| && st.tierIndex < |TierNames| - 1 then
      var s1 := st.(tierIndex := st.tierIndex + 1, treasury := st.treasury + 20.0);
      var s2 := AddTicker(s1, PromotionUnlocked(TierNames[s1.tierIndex]));
      AddRailEvent(s2, "Tier Promotion", "You advanced to " + TierNames[s1.tierIndex] + ".", true)
    else st
  }

  /** Promotion happens exactly when every check of the current tier passes and
      a further tier exists; it adds 20 to the treasury and announces the new
      tier on the ticker and the rail. Otherwise nothing changes. */
  lemma MaybePromoteTierSpec(st: State)
    requires ValidTier(st)
    ensures var r := MaybePromoteTier(st);
            var promoted := (forall i :: 0 <= i < |TierChecks(st.tierIndex, st)| ==> TierChecks(st.tierIndex, st)[i])
                            && st.tierIndex < |TierNames| - 1;
            && (r.tierIndex == st.tierIndex + 1 <==> promoted)
            && (!promoted ==> r == st)
            && (promoted ==> && r.treasury == st.treasury + 20.0
                             && r.ticker[0] == Dated(st.day, PromotionUnlocked(TierNames[r.tierIndex]))
                             && r.rail[0] == RailEvent(st.day, "Tier Promotion", "You advanced to " + TierNames[r.tierIndex] + ".", true)
                             && r.resources == st.resources && r.kpi == st.kpi)
  {
    CountPassedAll(TierChecks(st.tierIndex, st));
  }

  /** With health and safety above 68 and integrity above 64, City promotes to State. */
  lemma CityPromotes(st: State)
    requires st.tierIndex == 0
    requires st.kpi.health > 68.0 && st.kpi.safety > 68.0 && st.kpi.integrity > 64.0
    ensures MaybePromoteTier(st).tierIndex == 1
  {
    MaybePromoteTierSpec(st);
  }

  /** The last tier is never left. */
  lemma NationIsFinal(st: State)
    requires st.tierIndex == |TierNames| - 1
    ensures MaybePromoteTier(st) == st
  {
  }
}
