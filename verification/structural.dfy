/** `append_structural_proxies`: the last enrichment wave. For every template
    (peer, year) in ascending order it appends governance, political-finance and
    budget-structure proxies and four seed indices, each only where its key is
    absent and its inputs are present. */
module Structural {
  import opened Wrappers
  import opened Observations
  import opened Numeric
  import Sorting

  /** `wgi_to_100`: a governance score on [-2.5, 2.5] rescaled to [0, 100] and clamped. */
  function WgiTo100(x: real): (r: real)
    ensures 0.0 <= r <= 100.0
    ensures -2.5 <= x <= 2.5 ==> r == (x + 2.5) * 20.0
    ensures x <= -2.5 ==> r == 0.0
    ensures x >= 2.5 ==> r == 100.0
  {
    Clamp(((x + 2.5) / 5.0) * 100.0, 0.0, 100.0)
  }

  /** The rescaling never reverses the order of two scores. */
  lemma WgiTo100Monotone(x: real, x': real)
    requires x <= x'
    ensures WgiTo100(x) <= WgiTo100(x')
  {
    ClampMonotone(((x + 2.5) / 5.0) * 100.0, ((x' + 2.5) / 5.0) * 100.0, 0.0, 100.0);
  }

  /** The indicators the pass can append. */
  datatype Proxy =
    | Obs | Disaster | Disclosure | Limits | PublicFinancing
    | CofogHealth | CofogEdu | CofogDef | CofogSocial | Sipri
    | AiSeed | SurvSeed | CyberSeed | TradeSeed

  /** The order in which the pass considers them for each (country, year). */
  const Proxies: seq<Proxy> :=
    [Obs, Disaster, Disclosure, Limits, PublicFinancing, CofogHealth, CofogEdu, CofogDef,
     CofogSocial, Sipri, AiSeed, SurvSeed, CyberSeed, TradeSeed]

  /** The four internal indices seeded from governance and external context. */
  predicate IsSeed(p: Proxy) {
    p == AiSeed || p == SurvSeed || p == CyberSeed || p == TradeSeed
  }

  /** The indicator id each proxy appends. */
  function Id(p: Proxy): string {
    match p
    case Obs => "OBS_SCORE"
    case Disaster => "DISASTER_AFFECTED"
    case Disclosure => "DONATION_DISCLOSURE"
    case Limits => "DONATION_LIMITS"
    case PublicFinancing => "PUBLIC_FINANCING_SHARE"
    case CofogHealth => "COFOG_HEALTH_SHARE"
    case CofogEdu => "COFOG_EDU_SHARE"
    case CofogDef => "COFOG_DEF_SHARE"
    case CofogSocial => "COFOG_SOCIAL_SHARE"
    case Sipri => "SIPRI_MILEX"
    case AiSeed => "AI_GOVERNANCE_INDEX"
    case SurvSeed => "SURVEILLANCE_STRICTNESS"
    case CyberSeed => "CYBER_PRESSURE_INDEX"
    case TradeSeed => "TRADE_PRESSURE_INDEX"
  }

  /** The ids of the four seeds. */
  const SeedIds: set<string> := {"AI_GOVERNANCE_INDEX", "SURVEILLANCE_STRICTNESS", "CYBER_PRESSURE_INDEX", "TRADE_PRESSURE_INDEX"}

  /** The indicator name and source code of each proxy. */
  function Label(p: Proxy): (string, string) {
    match p
    case Obs => ("Open Budget Survey score proxy", "DERIVED.OBS.PROXY")
    case Disaster => ("People affected by disasters proxy (per 100k)", "DERIVED.DISASTER.PROXY")
    case Disclosure => ("Donation disclosure strictness proxy", "DERIVED.PF.DISC")
    case Limits => ("Donation limits strictness proxy", "DERIVED.PF.LIMITS")
    case PublicFinancing => ("Public party financing share proxy", "DERIVED.PF.PUBLIC")
    case CofogHealth => ("Health share of government spending proxy", "DERIVED.COFOG.HEALTH")
    case CofogEdu => ("Education share of government spending proxy", "DERIVED.COFOG.EDU")
    case CofogDef => ("Defense share of government spending proxy", "DERIVED.COFOG.DEF")
    case CofogSocial => ("Social protection share proxy", "DERIVED.COFOG.SOCIAL")
    case Sipri => ("Military expenditure proxy (USD bn index)", "DERIVED.SIPRI.PROXY")
    case AiSeed => ("AI governance index seed", "DERIVED.AI.SEED")
    case SurvSeed => ("Surveillance strictness seed", "DERIVED.SURV.SEED")
    case CyberSeed => ("Cyber pressure index seed", "DERIVED.CYBER.SEED")
    case TradeSeed => ("Trade pressure index seed", "DERIVED.TRADE.SEED")
  }

  /** Seeds are tagged TierG/`derived_seed`, every other proxy Tier3/`derived_proxy`. */
  function ProvenanceOf(p: Proxy): Provenance {
    if IsSeed(p) then Provenance(Id(p), Label(p).0, Label(p).1, "Derived", "TierG", "derived_seed")
    else Provenance(Id(p), Label(p).0, Label(p).1, "Derived", "Tier3", "derived_proxy")
  }

  /** The indicators the pass reads, at one (country, year). */
  datatype Inputs = Inputs(
    cc: Option<real>, ge: Option<real>, rl: Option<real>, va: Option<real>,
    pm25: Option<real>, co2: Option<real>, mil: Option<real>,
    hExp: Option<real>, eExp: Option<real>, gExp: Option<real>,
    gini: Option<real>, ext: Option<real>, rq: Option<real>)

  /** The indicator ids behind the fields of `Inputs`. */
  const InputIds: set<string> :=
    {"CONTROL_CORRUPTION", "GOV_EFFECTIVENESS", "RULE_OF_LAW", "VOICE_ACCOUNTABILITY", "PM25", "CO2_PC",
     "MIL_EXP_GDP", "HEALTH_EXP_GDP", "EDU_EXP_GDP", "GGEXP_GDP", "GINI", "CURRENT_ACCOUNT", "REG_QUALITY"}

  function InputsAt(idx: map<Key, real>, c: string, y: int): Inputs {
    Inputs(Get(idx, c, y, "CONTROL_CORRUPTION"), Get(idx, c, y, "GOV_EFFECTIVENESS"),
           Get(idx, c, y, "RULE_OF_LAW"), Get(idx, c, y, "VOICE_ACCOUNTABILITY"),
           Get(idx, c, y, "PM25"), Get(idx, c, y, "CO2_PC"), Get(idx, c, y, "MIL_EXP_GDP"),
           Get(idx, c, y, "HEALTH_EXP_GDP"), Get(idx, c, y, "EDU_EXP_GDP"), Get(idx, c, y, "GGEXP_GDP"),
           Get(idx, c, y, "GINI"), Get(idx, c, y, "CURRENT_ACCOUNT"), Get(idx, c, y, "REG_QUALITY"))
  }

  /** Government spending is reported and positive: the guard of the budget-share block. */
  predicate SpendingKnown(i: Inputs) {
    i.gExp.Some? && i.gExp.value > 0.0
  }

  /** The value of proxy `p`, or `None` when an input it needs is missing. */
  function ProxyValue(p: Proxy, i: Inputs): Option<real> {
    match p
    case Obs =>
      if i.cc.Some? && i.ge.Some? && i.rl.Some? then
        Some(0.4 * WgiTo100(i.ge.value) + 0.35 * WgiTo100(i.cc.value) + 0.25 * WgiTo100(i.rl.value))
      else None
    case Disaster =>
      if i.pm25.Some? then Some(Clamp(12.0 * i.pm25.value + 18.0 * Max(0.5, i.co2.GetOr(6.0)), 20.0, 1200.0))
      else None
    case Disclosure =>
      if i.cc.Some? && i.va.Some? then Some(0.55 * WgiTo100(i.va.value) + 0.45 * WgiTo100(i.cc.value)) else None
    case Limits =>
      if i.cc.Some? && i.va.Some? then Some(0.5 * WgiTo100(i.cc.value) + 0.5 * WgiTo100(i.va.value)) else None
    case PublicFinancing =>
      if i.cc.Some? && i.va.Some? then
        Some(Clamp(0.6 * WgiTo100(i.va.value) - 0.2 * (WgiTo100(i.cc.value) - 50.0), 10.0, 80.0))
      else None
    case CofogHealth =>
      if SpendingKnown(i) && i.hExp.Some? then Some(Clamp(100.0 * i.hExp.value / i.gExp.value, 0.0, 40.0)) else None
    case CofogEdu =>
      if SpendingKnown(i) && i.eExp.Some? then Some(Clamp(100.0 * i.eExp.value / i.gExp.value, 0.0, 30.0)) else None
    case CofogDef =>
      if SpendingKnown(i) && i.mil.Some? then Some(Clamp(100.0 * i.mil.value / i.gExp.value, 0.0, 20.0)) else None
    case CofogSocial =>
      if SpendingKnown(i) then Some(Clamp(44.0 - 0.35 * (i.gini.GetOr(32.0) - 30.0), 20.0, 50.0)) else None
    case Sipri =>
      if i.mil.Some? then Some(Max(1.0, i.mil.value * 35.0)) else None
    case AiSeed =>
      Some(if i.rq.Some? then WgiTo100(i.rq.value) else 50.0)
    case SurvSeed =>
      Some(if i.va.Some? then 52.0 - (WgiTo100(i.va.value) - 50.0) * 0.25 else 50.0)
    case CyberSeed =>
      Some(42.0 + (if i.ext.Some? then AbsR(i.ext.value) * 1.5 else 8.0))
    case TradeSeed =>
      Some(40.0 + (if i.ext.Some? then AbsR(i.ext.value) * 1.8 else 10.0))
  }

  /** What each proxy needs: the four seeds always have a value, the others
      exactly when their inputs are present. */
  lemma ProxyNeeds(p: Proxy, i: Inputs)
    ensures IsSeed(p) ==> ProxyValue(p, i).Some?
    ensures p == Obs ==> (ProxyValue(p, i).Some? <==> i.cc.Some? && i.ge.Some? && i.rl.Some?)
    ensures p == Disaster ==> (ProxyValue(p, i).Some? <==> i.pm25.Some?)
    ensures p == Disclosure || p == Limits || p == PublicFinancing ==> (ProxyValue(p, i).Some? <==> i.cc.Some? && i.va.Some?)
    ensures p == CofogHealth ==> (ProxyValue(p, i).Some? <==> SpendingKnown(i) && i.hExp.Some?)
    ensures p == CofogEdu ==> (ProxyValue(p, i).Some? <==> SpendingKnown(i) && i.eExp.Some?)
    ensures p == CofogDef ==> (ProxyValue(p, i).Some? <==> SpendingKnown(i) && i.mil.Some?)
    ensures p == CofogSocial ==> (ProxyValue(p, i).Some? <==> SpendingKnown(i))
    ensures p == Sipri ==> (ProxyValue(p, i).Some? <==> i.mil.Some?)
  {
  }

  /** The range each proxy's value lands in. */
  ghost predicate InRange(p: Proxy, v: real) {
    match p
    case Obs => 0.0 <= v <= 100.0
    case Disaster => 20.0 <= v <= 1200.0
    case Disclosure => 0.0 <= v <= 100.0
    case Limits => 0.0 <= v <= 100.0
    case PublicFinancing => 10.0 <= v <= 80.0
    case CofogHealth => 0.0 <= v <= 40.0
    case CofogEdu => 0.0 <= v <= 30.0
    case CofogDef => 0.0 <= v <= 20.0
    case CofogSocial => 20.0 <= v <= 50.0
    case Sipri => v >= 1.0
    case AiSeed => 0.0 <= v <= 100.0
    case SurvSeed => 39.5 <= v <= 64.5
    case CyberSeed => v >= 42.0
    case TradeSeed => v >= 40.0
  }

  lemma ProxyRange(p: Proxy, i: Inputs)
    ensures ProxyValue(p, i).Some? ==> InRange(p, ProxyValue(p, i).value)
  {
  }

  /** The seed ids are the ids of the seeds. */
  lemma SeedIdsSpec(p: Proxy)
    ensures Id(p) in SeedIds <==> IsSeed(p)
  {
    match p
    case Obs => {}
    case Disaster => {}
    case Disclosure => {}
    case Limits => {}
    case PublicFinancing => {}
    case CofogHealth => {}
    case CofogEdu => {}
    case CofogDef => {}
    case CofogSocial => {}
    case Sipri => {}
    case AiSeed => {}
    case SurvSeed => {}
    case CyberSeed => {}
    case TradeSeed => {}
  }

  /** Distinct proxies append distinct indicators. */
  lemma IdInjective(p: Proxy, q: Proxy)
    requires p != q
    ensures Id(p) != Id(q)
  {
    match p
    case Obs => {}
    case Disaster => {}
    case Disclosure => {}
    case Limits => {}
    case PublicFinancing => {}
    case CofogHealth => {}
    case CofogEdu => {}
    case CofogDef => {}
    case CofogSocial => {}
    case Sipri => {}
    case AiSeed => {}
    case SurvSeed => {}
    case CyberSeed => {}
    case TradeSeed => {}
  }

  /** A proxy is the one its id names. */
  lemma IdNames(p: Proxy, q: Proxy)
    ensures Id(p) == Id(q) <==> p == q
  {
    if p != q {
      IdInjective(p, q);
    }
  }

  // ---------------------------------------------------------------------------
  // The pass, over a table of rules

  /** The rule table of the pass: each proxy's value at a (country, year) of the
      index (`None` when an input is missing) and the provenance it is tagged with. */
  datatype Rules = Rules(value: (Proxy, map<Key, real>, string, int) -> Option<real>, prov: Proxy -> Provenance)

  /** The rules of `append_structural_proxies`. */
  function TheRules(): Rules {
    Rules((p: Proxy, idx: map<Key, real>, c: string, y: int) => ProxyValue(p, InputsAt(idx, c, y)), ProvenanceOf)
  }

  /** Each rule's provenance carries that rule's indicator id. */
  ghost predicate Keyed(t: Rules) {
    forall p :: t.prov(p).id == Id(p)
  }

  lemma TheRulesKeyed()
    ensures Keyed(TheRules())
  {
  }

  /** The row (if any) proxy `p` appends at (c, y) on its template `tpl`. */
  function EmitOne(t: Rules, p: Proxy, idx: map<Key, real>, existing: set<Key>, c: string, y: int, tpl: Row): seq<Row> {
    if Key(c, y, Id(p)) in existing then []
    else
      match t.value(p, idx, c, y)
      case None => []
      case Some(v) => [MakeRow(tpl, t.prov(p), v)]
  }

  function EmitList(t: Rules, ps: seq<Proxy>, idx: map<Key, real>, existing: set<Key>, c: string, y: int, tpl: Row): seq<Row> {
    if |ps| == 0 then [] else EmitOne(t, ps[0], idx, existing, c, y, tpl) + EmitList(t, ps[1..], idx, existing, c, y, tpl)
  }

  /** The rows appended over the template keys `ks`, in their order. */
  function OverKeys(t: Rules, ks: seq<(string, int)>, idx: map<Key, real>, existing: set<Key>, tpls: map<(string, int), Row>): seq<Row> {
    if |ks| == 0 then []
    else
      var k := ks[0];
      var here := if k in tpls then EmitList(t, Proxies, idx, existing, k.0, k.1, tpls[k]) else [];
      here + OverKeys(t, ks[1..], idx, existing, tpls)
  }

  /** All rows `append_structural_proxies` adds. The key set is the input's: the
      keys the source adds to it as it goes are never looked up again, since each
      (country, year, indicator) is visited once. */
  function StructuralRows(rows: seq<Row>, peers: seq<string>): seq<Row> {
    OverKeys(TheRules(), TemplateKeys(rows, peers), IndexOf(rows), KeySet(rows), Templates(rows, peers))
  }

  /** `append_structural_proxies(rows, peers)`. */
  function AppendStructural(rows: seq<Row>, peers: seq<string>): seq<Row> {
    rows + StructuralRows(rows, peers)
  }

  // ---------------------------------------------------------------------------
  // What an appended row is

  /** `r` is the row proxy `p` appends at (c, y) on template `tpl`. */
  ghost predicate EmittedOn(t: Rules, p: Proxy, idx: map<Key, real>, existing: set<Key>, c: string, y: int, tpl: Row, r: Row) {
    && Key(c, y, Id(p)) !in existing
    && t.value(p, idx, c, y).Some?
    && r == MakeRow(tpl, t.prov(p), t.value(p, idx, c, y).value)
  }

  /** `r` is the row proxy `p` appends at its own (country, year). */
  ghost predicate Emitted(t: Rules, p: Proxy, idx: map<Key, real>, existing: set<Key>, tpls: map<(string, int), Row>, r: Row) {
    && (r.country, r.year) in tpls
    && EmittedOn(t, p, idx, existing, r.country, r.year, tpls[(r.country, r.year)], r)
  }

  lemma EmitOneSpec(t: Rules, p: Proxy, idx: map<Key, real>, existing: set<Key>, c: string, y: int, tpl: Row)
    requires Keyed(t)
    ensures forall r :: r in EmitOne(t, p, idx, existing, c, y, tpl) <==> EmittedOn(t, p, idx, existing, c, y, tpl, r)
    ensures |EmitOne(t, p, idx, existing, c, y, tpl)| <= 1
    ensures forall r :: r in EmitOne(t, p, idx, existing, c, y, tpl) ==>
              r.country == tpl.country && r.year == tpl.year && r.indicator == Id(p)
  {
  }

  lemma EmitListSpec(t: Rules, ps: seq<Proxy>, idx: map<Key, real>, existing: set<Key>, c: string, y: int, tpl: Row)
    requires Keyed(t)
    requires Sorting.Distinct(ps)
    ensures forall r :: r in EmitList(t, ps, idx, existing, c, y, tpl) <==>
              exists p :: p in ps && EmittedOn(t, p, idx, existing, c, y, tpl, r)
    ensures forall r :: r in EmitList(t, ps, idx, existing, c, y, tpl) ==> r.country == tpl.country && r.year == tpl.year
    ensures UniqueKeys(EmitList(t, ps, idx, existing, c, y, tpl))
  {
    EmitListMembers(t, ps, idx, existing, c, y, tpl);
    EmitListUnique(t, ps, idx, existing, c, y, tpl);
  }

  lemma EmitListMembers(t: Rules, ps: seq<Proxy>, idx: map<Key, real>, existing: set<Key>, c: string, y: int, tpl: Row)
    requires Keyed(t)
    ensures forall r :: r in EmitList(t, ps, idx, existing, c, y, tpl) <==>
              exists p :: p in ps && EmittedOn(t, p, idx, existing, c, y, tpl, r)
    ensures forall r :: r in EmitList(t, ps, idx, existing, c, y, tpl) ==> r.country == tpl.country && r.year == tpl.year
  {
    forall r | r in EmitList(t, ps, idx, existing, c, y, tpl)
      ensures exists p :: p in ps && EmittedOn(t, p, idx, existing, c, y, tpl, r)
    {
      var k := EmitListFrom(t, ps, idx, existing, c, y, tpl, r);
      assert ps[k] in ps;
    }
    forall r, p | p in ps && EmittedOn(t, p, idx, existing, c, y, tpl, r)
      ensures r in EmitList(t, ps, idx, existing, c, y, tpl)
    {
      var k :| 0 <= k < |ps| && ps[k] == p;
      EmitListHas(t, ps, idx, existing, c, y, tpl, k, r);
    }
  }

  /** Every row of the list comes from one proxy of `ps`, by position. */
  lemma {:induction false} EmitListFrom(t: Rules, ps: seq<Proxy>, idx: map<Key, real>, existing: set<Key>, c: string, y: int, tpl: Row, r: Row)
      returns (k: nat)
    requires Keyed(t)
    requires r in EmitList(t, ps, idx, existing, c, y, tpl)
    ensures k < |ps| && EmittedOn(t, ps[k], idx, existing, c, y, tpl, r)
  {
    EmitOneSpec(t, ps[0], idx, existing, c, y, tpl);
    var head := EmitOne(t, ps[0], idx, existing, c, y, tpl);
    var tail := EmitList(t, ps[1..], idx, existing, c, y, tpl);
    assert EmitList(t, ps, idx, existing, c, y, tpl) == head + tail;
    if r in head {
      k := 0;
    } else {
      var k' := EmitListFrom(t, ps[1..], idx, existing, c, y, tpl, r);
      k := k' + 1;
    }
  }

  /** Each proxy of `ps` that emits `r` puts it in the list. */
  lemma {:induction false} EmitListHas(t: Rules, ps: seq<Proxy>, idx: map<Key, real>, existing: set<Key>, c: string, y: int, tpl: Row, k: nat, r: Row)
    requires Keyed(t)
    requires k < |ps| && EmittedOn(t, ps[k], idx, existing, c, y, tpl, r)
    ensures r in EmitList(t, ps, idx, existing, c, y, tpl)
  {
    EmitOneSpec(t, ps[0], idx, existing, c, y, tpl);
    var head := EmitOne(t, ps[0], idx, existing, c, y, tpl);
    var tail := EmitList(t, ps[1..], idx, existing, c, y, tpl);
    assert EmitList(t, ps, idx, existing, c, y, tpl) == head + tail;
    if k > 0 {
      assert ps[1..][k - 1] == ps[k];
      EmitListHas(t, ps[1..], idx, existing, c, y, tpl, k - 1, r);
    }
  }

  lemma {:induction false} EmitListUnique(t: Rules, ps: seq<Proxy>, idx: map<Key, real>, existing: set<Key>, c: string, y: int, tpl: Row)
    requires Keyed(t)
    requires Sorting.Distinct(ps)
    ensures UniqueKeys(EmitList(t, ps, idx, existing, c, y, tpl))
  {
    if |ps| > 0 {
      var rest := ps[1..];
      assert Sorting.Distinct(rest) by {
        forall a, b | 0 <= a < b < |rest| ensures rest[a] != rest[b] {
          assert rest[a] == ps[a + 1] && rest[b] == ps[b + 1];
        }
      }
      EmitListUnique(t, rest, idx, existing, c, y, tpl);
      EmitOneSpec(t, ps[0], idx, existing, c, y, tpl);
      var head := EmitOne(t, ps[0], idx, existing, c, y, tpl);
      var tail := EmitList(t, rest, idx, existing, c, y, tpl);
      assert EmitList(t, ps, idx, existing, c, y, tpl) == head + tail;
      assert UniqueKeys(head);
      forall r | r in tail ensures r.KeyOf() !in KeySet(head) {
        var k := EmitListFrom(t, rest, idx, existing, c, y, tpl, r);
        assert ps[k + 1] == rest[k];
        IdInjective(ps[0], rest[k]);
      }
      assert KeySet(head) !! KeySet(tail);
      UniqueConcat(head, tail);
    }
  }


  /** Every proxy is considered. */
  lemma AllProxiesListed(p: Proxy)
    ensures p in Proxies
  {
  }

  lemma ProxiesDistinct()
    ensures Sorting.Distinct(Proxies)
  {
  }

  lemma {:induction false} OverKeysSpec(t: Rules, ks: seq<(string, int)>, idx: map<Key, real>, existing: set<Key>,
                                        tpls: map<(string, int), Row>, peers: seq<string>)
    requires Keyed(t)
    requires TemplatesKeyed(tpls, peers)
    requires Sorting.Distinct(ks)
    ensures forall r :: r in OverKeys(t, ks, idx, existing, tpls) <==>
              (r.country, r.year) in ks && exists p :: Emitted(t, p, idx, existing, tpls, r)
    ensures UniqueKeys(OverKeys(t, ks, idx, existing, tpls))
  {
    if |ks| > 0 {
      var rest := ks[1..];
      assert Sorting.Distinct(rest) by {
        forall a, b | 0 <= a < b < |rest| ensures rest[a] != rest[b] {
          assert rest[a] == ks[a + 1] && rest[b] == ks[b + 1];
        }
      }
      OverKeysSpec(t, rest, idx, existing, tpls, peers);
      var k := ks[0];
      var here := if k in tpls then EmitList(t, Proxies, idx, existing, k.0, k.1, tpls[k]) else [];
      var tail := OverKeys(t, rest, idx, existing, tpls);
      assert OverKeys(t, ks, idx, existing, tpls) == here + tail;
      assert k !in rest by {
        forall a | 0 <= a < |rest| ensures rest[a] != k {
          assert rest[a] == ks[a + 1];
        }
      }
      if k in tpls {
        ProxiesDistinct();
        EmitListSpec(t, Proxies, idx, existing, k.0, k.1, tpls[k]);
        assert tpls[k].country == k.0 && tpls[k].year == k.1;
        forall r ensures r in here <==> (r.country, r.year) == k && exists p :: Emitted(t, p, idx, existing, tpls, r) {
          if r in here {
            var p :| p in Proxies && EmittedOn(t, p, idx, existing, k.0, k.1, tpls[k], r);
            assert Emitted(t, p, idx, existing, tpls, r);
          }
          if (r.country, r.year) == k && exists p :: Emitted(t, p, idx, existing, tpls, r) {
            var p :| Emitted(t, p, idx, existing, tpls, r);
            AllProxiesListed(p);
          }
        }
      }
      forall r ensures r in here + tail <==> (r.country, r.year) in ks && exists p :: Emitted(t, p, idx, existing, tpls, r) {
        assert (r.country, r.year) in ks <==> (r.country, r.year) == k || (r.country, r.year) in rest;
      }
      assert KeySet(here) !! KeySet(tail);
      UniqueConcat(here, tail);
    }
  }

  /** `sorted(templates.items())` visits each (peer, year) once. */
  lemma TemplateKeysDistinct(rows: seq<Row>, peers: seq<string>)
    ensures Sorting.Distinct(TemplateKeys(rows, peers))
  {
    PairOrderStrictTotal();
    Sorting.SortedDistinct(TemplateKeys(rows, peers), PairOrder());
  }

  /** `r` is the row `append_structural_proxies` appends for proxy `p`. */
  ghost predicate Appended(p: Proxy, rows: seq<Row>, peers: seq<string>, r: Row) {
    Emitted(TheRules(), p, IndexOf(rows), KeySet(rows), Templates(rows, peers), r)
  }

  /** The rows the pass appends are exactly the rows some proxy emits at a
      template (peer, year), and no two of them share a key. */
  lemma StructuralRowsSpec(rows: seq<Row>, peers: seq<string>)
    ensures forall r :: r in StructuralRows(rows, peers) <==> exists p :: Appended(p, rows, peers, r)
    ensures UniqueKeys(StructuralRows(rows, peers))
  {
    var ks := TemplateKeys(rows, peers);
    TemplatesAreKeyed(rows, peers);
    TemplateKeysDistinct(rows, peers);
    TheRulesKeyed();
    OverKeysSpec(TheRules(), ks, IndexOf(rows), KeySet(rows), Templates(rows, peers), peers);
    assert StructuralRows(rows, peers) == OverKeys(TheRules(), ks, IndexOf(rows), KeySet(rows), Templates(rows, peers));
    forall r ensures r in StructuralRows(rows, peers) <==> exists p :: Appended(p, rows, peers, r) {
      if exists p :: Emitted(TheRules(), p, IndexOf(rows), KeySet(rows), Templates(rows, peers), r) {
        var p :| Emitted(TheRules(), p, IndexOf(rows), KeySet(rows), Templates(rows, peers), r);
        assert Appended(p, rows, peers, r);
      }
    }
  }

  /** What an appended row looks like, whatever its proxy. */
  lemma AppendedShape(p: Proxy, rows: seq<Row>, peers: seq<string>, r: Row)
    requires Appended(p, rows, peers, r)
    ensures r.indicator == Id(p) && r.KeyOf() !in KeySet(rows) && r.country in peers
    ensures r.value == ProxyValue(p, InputsAt(IndexOf(rows), r.country, r.year))
    ensures r.source == "Derived" && r.value.Some?
    ensures IsSeed(p) ==> r.tier == "TierG" && r.flag == "derived_seed"
    ensures !IsSeed(p) ==> r.tier == "Tier3" && r.flag == "derived_proxy"
    ensures (r.country, r.year) in Templates(rows, peers) && r.meta == Templates(rows, peers)[(r.country, r.year)].meta
  {
    TemplatesAreKeyed(rows, peers);
  }

  /** One appended row: on a key absent from the input, for a template (peer,
      year), copying the template's columns, tagged TierG/`derived_seed` when it
      is one of the four seeds and Tier3/`derived_proxy` otherwise. */
  lemma StructuralRowShape(rows: seq<Row>, peers: seq<string>, r: Row)
    requires r in StructuralRows(rows, peers)
    ensures r.KeyOf() !in KeySet(rows)
    ensures r.country in peers && r.source == "Derived" && r.value.Some?
    ensures r.indicator in SeedIds ==> r.tier == "TierG" && r.flag == "derived_seed"
    ensures r.indicator !in SeedIds ==> r.tier == "Tier3" && r.flag == "derived_proxy"
    ensures (r.country, r.year) in Templates(rows, peers)
    ensures r.meta == Templates(rows, peers)[(r.country, r.year)].meta
  {
    StructuralRowsSpec(rows, peers);
    var p :| Appended(p, rows, peers, r);
    AppendedShape(p, rows, peers, r);
    SeedIdsSpec(p);
  }

  /** The pass keeps its input as a prefix and appends only rows of that shape. */
  lemma AppendStructuralShape(rows: seq<Row>, peers: seq<string>)
    ensures var out := AppendStructural(rows, peers);
            && |out| >= |rows| && out[..|rows|] == rows
            && forall r :: r in out[|rows|..] ==>
                 && r.KeyOf() !in KeySet(rows)
                 && r.country in peers && r.value.Some?
                 && (r.country, r.year) in Templates(rows, peers)
  {
    var out := AppendStructural(rows, peers);
    var s := StructuralRows(rows, peers);
    assert out[|rows|..] == s;
    forall r | r in s
      ensures r.KeyOf() !in KeySet(rows) && r.country in peers && r.value.Some? && (r.country, r.year) in Templates(rows, peers)
    {
      StructuralRowShape(rows, peers, r);
    }
  }

  /** With unique keys in the input, the pass keeps every key unique: it checks
      against every key present, numeric or not. */
  lemma AppendStructuralUnique(rows: seq<Row>, peers: seq<string>)
    requires UniqueKeys(rows)
    ensures UniqueKeys(AppendStructural(rows, peers))
  {
    StructuralRowsSpec(rows, peers);
    var s := StructuralRows(rows, peers);
    forall r | r in s ensures r.KeyOf() !in KeySet(rows) {
      var p :| Appended(p, rows, peers, r);
      AppendedShape(p, rows, peers, r);
    }
    UniqueConcat(rows, s);
  }

  /** Proxy `p` is appended at a template (peer, year) exactly when its key is
      absent from the input and its inputs there are present. */
  lemma AppendStructuralComplete(rows: seq<Row>, peers: seq<string>, p: Proxy, c: string, y: int)
    requires (c, y) in Templates(rows, peers)
    ensures (exists r :: r in StructuralRows(rows, peers) && r.KeyOf() == Key(c, y, Id(p))) <==>
            Key(c, y, Id(p)) !in KeySet(rows) && ProxyValue(p, InputsAt(IndexOf(rows), c, y)).Some?
  {
    if Key(c, y, Id(p)) !in KeySet(rows) && ProxyValue(p, InputsAt(IndexOf(rows), c, y)).Some? {
      var r := AppendedWhenReady(rows, peers, p, c, y);
    }
    forall r | r in StructuralRows(rows, peers) && r.KeyOf() == Key(c, y, Id(p))
      ensures Key(c, y, Id(p)) !in KeySet(rows) && ProxyValue(p, InputsAt(IndexOf(rows), c, y)).Some?
    {
      AppendedRowReady(rows, peers, p, r);
    }
  }

  /** The row a ready (country, year, proxy) gets. */
  lemma AppendedWhenReady(rows: seq<Row>, peers: seq<string>, p: Proxy, c: string, y: int) returns (r: Row)
    requires (c, y) in Templates(rows, peers)
    requires Key(c, y, Id(p)) !in KeySet(rows) && ProxyValue(p, InputsAt(IndexOf(rows), c, y)).Some?
    ensures r in StructuralRows(rows, peers) && r.KeyOf() == Key(c, y, Id(p))
  {
    var tpls := Templates(rows, peers);
    StructuralRowsSpec(rows, peers);
    TemplatesAreKeyed(rows, peers);
    r := MakeRow(tpls[(c, y)], ProvenanceOf(p), ProxyValue(p, InputsAt(IndexOf(rows), c, y)).value);
    assert Appended(p, rows, peers, r);
  }

  /** An appended row of proxy `p` was absent and had its inputs. */
  lemma AppendedRowReady(rows: seq<Row>, peers: seq<string>, p: Proxy, r: Row)
    requires r in StructuralRows(rows, peers) && r.indicator == Id(p)
    ensures r.KeyOf() !in KeySet(rows) && ProxyValue(p, InputsAt(IndexOf(rows), r.country, r.year)).Some?
  {
    StructuralRowsSpec(rows, peers);
    var q :| Appended(q, rows, peers, r);
    AppendedShape(q, rows, peers, r);
    if q != p {
      IdInjective(p, q);
    }
  }

  /** The proxy behind an appended row, and the value it carries. */
  lemma AppendedProxy(rows: seq<Row>, peers: seq<string>, r: Row) returns (p: Proxy)
    requires r in StructuralRows(rows, peers)
    ensures r.indicator == Id(p)
    ensures r.value == ProxyValue(p, InputsAt(IndexOf(rows), r.country, r.year))
    ensures r.value.Some?
  {
    StructuralRowsSpec(rows, peers);
    p :| Appended(p, rows, peers, r);
    AppendedShape(p, rows, peers, r);
  }

  /** The ranges of `InRange`, stated by indicator id. */
  lemma IdRange(p: Proxy, v: real)
    requires InRange(p, v)
    ensures && (Id(p) == "PUBLIC_FINANCING_SHARE" ==> 10.0 <= v <= 80.0)
            && (Id(p) == "DISASTER_AFFECTED" ==> 20.0 <= v <= 1200.0)
            && (Id(p) == "COFOG_HEALTH_SHARE" ==> 0.0 <= v <= 40.0)
            && (Id(p) == "COFOG_EDU_SHARE" ==> 0.0 <= v <= 30.0)
            && (Id(p) == "COFOG_DEF_SHARE" ==> 0.0 <= v <= 20.0)
            && (Id(p) == "COFOG_SOCIAL_SHARE" ==> 20.0 <= v <= 50.0)
            && (Id(p) == "SIPRI_MILEX" ==> v >= 1.0)
  {
  }

  /** The clamps of the pass: each appended row lies in its indicator's range. */
  lemma StructuralRowBounds(rows: seq<Row>, peers: seq<string>, r: Row)
    requires r in StructuralRows(rows, peers)
    ensures r.value.Some?
    ensures var v := r.value.value;
            && (r.indicator == "PUBLIC_FINANCING_SHARE" ==> 10.0 <= v <= 80.0)
            && (r.indicator == "DISASTER_AFFECTED" ==> 20.0 <= v <= 1200.0)
            && (r.indicator == "COFOG_HEALTH_SHARE" ==> 0.0 <= v <= 40.0)
            && (r.indicator == "COFOG_EDU_SHARE" ==> 0.0 <= v <= 30.0)
            && (r.indicator == "COFOG_DEF_SHARE" ==> 0.0 <= v <= 20.0)
            && (r.indicator == "COFOG_SOCIAL_SHARE" ==> 20.0 <= v <= 50.0)
            && (r.indicator == "SIPRI_MILEX" ==> v >= 1.0)
  {
    var p := AppendedProxy(rows, peers, r);
    ProxyRange(p, InputsAt(IndexOf(rows), r.country, r.year));
    IdRange(p, r.value.value);
  }

  /** COFOG_SOCIAL_SHARE is appended only where government spending is reported
      and positive, though it needs no other input. */
  lemma SocialShareNeedsSpending(rows: seq<Row>, peers: seq<string>, r: Row)
    requires r in StructuralRows(rows, peers) && r.indicator == "COFOG_SOCIAL_SHARE"
    ensures Key(r.country, r.year, "GGEXP_GDP") in IndexOf(rows)
    ensures IndexOf(rows)[Key(r.country, r.year, "GGEXP_GDP")] > 0.0
  {
    var p := AppendedProxy(rows, peers, r);
    IdNames(p, CofogSocial);
    SocialNeeds(IndexOf(rows), r.country, r.year);
  }

  lemma SocialNeeds(idx: map<Key, real>, c: string, y: int)
    requires ProxyValue(CofogSocial, InputsAt(idx, c, y)).Some?
    ensures Key(c, y, "GGEXP_GDP") in idx && idx[Key(c, y, "GGEXP_GDP")] > 0.0
  {
  }

  // ---------------------------------------------------------------------------
  // Idempotence

  /** The inputs at (c, y) survive appending rows whose indicators are not inputs. */
  lemma InputsAppendOther(a: seq<Row>, b: seq<Row>, c: string, y: int)
    requires forall j :: 0 <= j < |b| ==> b[j].indicator !in InputIds
    ensures InputsAt(IndexOf(a + b), c, y) == InputsAt(IndexOf(a), c, y)
  {
    forall ind | ind in InputIds
      ensures Get(IndexOf(a + b), c, y, ind) == Get(IndexOf(a), c, y, ind)
    {
      IndexAppendOther(a, b, Key(c, y, ind));
    }
  }

  /** No proxy writes an indicator the pass reads. */
  lemma OutputsAreNotInputs(p: Proxy)
    ensures Id(p) !in InputIds
  {
  }

  /** Every appended row sits on a templated pair and writes no input indicator. */
  lemma AppendedCovered(rows: seq<Row>, peers: seq<string>)
    ensures var s := StructuralRows(rows, peers);
            forall j :: 0 <= j < |s| ==> (s[j].country, s[j].year) in Templates(rows, peers) && s[j].indicator !in InputIds
  {
    var s := StructuralRows(rows, peers);
    forall j | 0 <= j < |s|
      ensures (s[j].country, s[j].year) in Templates(rows, peers) && s[j].indicator !in InputIds
    {
      StructuralRowShape(rows, peers, s[j]);
      var p := AppendedProxy(rows, peers, s[j]);
      OutputsAreNotInputs(p);
    }
  }

  /** A second pass finds no row to append. */
  lemma NoSecondRow(rows: seq<Row>, peers: seq<string>, r: Row)
    ensures r !in StructuralRows(rows + StructuralRows(rows, peers), peers)
  {
    var s := StructuralRows(rows, peers);
    var out := rows + s;
    if r in StructuralRows(out, peers) {
      AppendedCovered(rows, peers);
      TemplatesAppendCovered(rows, s, peers);
      StructuralRowShape(out, peers, r);
      var p := AppendedProxy(out, peers, r);
      var c, y := r.country, r.year;
      InputsAppendOther(rows, s, c, y);
      KeySetConcat(rows, s);
      AppendStructuralComplete(rows, peers, p, c, y);
    }
  }

  /** Re-running the pass on its own output appends nothing. */
  lemma AppendStructuralIdempotent(rows: seq<Row>, peers: seq<string>)
    ensures AppendStructural(AppendStructural(rows, peers), peers) == AppendStructural(rows, peers)
  {
    var s2 := StructuralRows(AppendStructural(rows, peers), peers);
    assert |s2| > 0 ==> s2[0] in s2;
    forall r ensures r !in s2 {
      NoSecondRow(rows, peers, r);
    }
  }
}
