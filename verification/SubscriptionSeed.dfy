/**
 * Seeding of features, plans and plan features: rows with ids on one side, and on the other the view by keys that
 * the rows stand for.
 */
module SubscriptionSeed {
  import opened Common

  datatype FeatureKey =
    | Attendance | Payroll | LeaveManagement | AdvancedReports | TelegramBot | SmsNotifications | AiReports | Storage
    | EmployeeLimit
    | OtherFeature(name: string)

  datatype PlanKey = Starter | Business | Enterprise | OtherPlan(name: string)

  datatype FeatureRow = FeatureRow(id: nat, key: FeatureKey)

  /** What every run writes into a plan, and what only its insertion writes. */
  datatype Terms = Terms(basePrice: int, includedSeats: int, extraSeatPrice: int, sortOrder: int)

  datatype PlanRow = PlanRow(id: nat, key: PlanKey, terms: Terms, priceMonthly: int, userLimit: Option<int>)

  datatype Grant = Grant(isEnabled: bool, limitValue: Option<int>, monthly: bool)

  datatype GrantRow = GrantRow(planId: nat, featureId: nat, grant: Grant)

  datatype Rows = Rows(features: seq<FeatureRow>, plans: seq<PlanRow>, grants: seq<GrantRow>, nextId: nat)

  const FEATURES := [Attendance, Payroll, LeaveManagement, AdvancedReports, TelegramBot, SmsNotifications, AiReports,
                     Storage, EmployeeLimit]

  predicate Offered(f: FeatureKey) {
    f in FEATURES
  }

  const PLANS := [Starter, Business, Enterprise]

  function TermsOf(p: PlanKey): Terms {
    match p
    case Starter => Terms(1000, 10, 70, 1)
    case Business => Terms(3000, 50, 50, 2)
    case _ => Terms(8000, 200, 30, 3)
  }

  predicate Enabled(p: PlanKey, f: FeatureKey) {
    match p
    case Starter => f in {Attendance, LeaveManagement, SmsNotifications, EmployeeLimit}
    case Business => f in {Attendance, LeaveManagement, Payroll, AdvancedReports, TelegramBot, SmsNotifications,
                           AiReports, EmployeeLimit}
    case _ => f in FEATURES
  }

  /** The row a plan gets for a feature it has none for. */
  function Rule(p: PlanKey, f: FeatureKey): Grant {
    var metered := f == AiReports && p == Business;
    Grant(Enabled(p, f),
          if f == EmployeeLimit then Some(TermsOf(p).includedSeats) else if metered then Some(100) else None,
          metered)
  }

  // ---------------------------------------------------------------- rows

  function FeatureId(features: seq<FeatureRow>, key: FeatureKey): Option<nat> {
    if features == [] then None
    else if features[|features| - 1].key == key then Some(features[|features| - 1].id)
    else FeatureId(features[..|features| - 1], key)
  }

  function PlanAt(plans: seq<PlanRow>, key: PlanKey): (i: Option<nat>)
    ensures i.Some? ==> i.value < |plans| && plans[i.value].key == key
  {
    if plans == [] then None
    else if plans[|plans| - 1].key == key then Some(|plans| - 1)
    else PlanAt(plans[..|plans| - 1], key)
  }

  function GrantAt(grants: seq<GrantRow>, planId: nat, featureId: nat): (i: Option<nat>)
    ensures i.Some? ==> i.value < |grants| && grants[i.value].planId == planId && grants[i.value].featureId == featureId
  {
    if grants == [] then None
    else if grants[|grants| - 1].planId == planId && grants[|grants| - 1].featureId == featureId then Some(|grants| - 1)
    else GrantAt(grants[..|grants| - 1], planId, featureId)
  }

  /** Keys and pairs are unique, ids are in use only once, and grants refer to ids in use. */
  ghost predicate Valid(r: Rows) {
    && (forall i, j :: 0 <= i < j < |r.features| ==>
          r.features[i].key != r.features[j].key && r.features[i].id != r.features[j].id)
    && (forall i, j :: 0 <= i < j < |r.plans| ==> r.plans[i].key != r.plans[j].key && r.plans[i].id != r.plans[j].id)
    && (forall i, j :: 0 <= i < j < |r.grants| ==>
          r.grants[i].planId != r.grants[j].planId || r.grants[i].featureId != r.grants[j].featureId)
    && (forall i :: 0 <= i < |r.features| ==> r.features[i].id < r.nextId)
    && (forall i :: 0 <= i < |r.plans| ==> r.plans[i].id < r.nextId)
    && (forall i :: 0 <= i < |r.grants| ==> r.grants[i].planId < r.nextId && r.grants[i].featureId < r.nextId)
  }

  // ---------------------------------------------------------------- the view by keys

  datatype PlanTerms = PlanTerms(terms: Terms, priceMonthly: int, userLimit: Option<int>)

  function GrantIn(grants: seq<GrantRow>, planId: nat, featureId: nat): Option<Grant> {
    var at := GrantAt(grants, planId, featureId);
    if at.Some? then Some(grants[at.value].grant) else None
  }

  ghost function GrantOf(r: Rows, p: PlanKey, f: FeatureKey): Option<Grant> {
    if PlanAt(r.plans, p).None? || FeatureId(r.features, f).None? then None
    else GrantIn(r.grants, r.plans[PlanAt(r.plans, p).value].id, FeatureId(r.features, f).value)
  }

  ghost function PlanOf(r: Rows, p: PlanKey): Option<PlanTerms> {
    if PlanAt(r.plans, p).None? then None
    else
      var row := r.plans[PlanAt(r.plans, p).value];
      Some(PlanTerms(row.terms, row.priceMonthly, row.userLimit))
  }

  /** Which features there are, what the plans' terms are, and what each plan grants for each feature. */
  datatype View = View(features: iset<FeatureKey>, plans: imap<PlanKey, PlanTerms>,
                       grants: imap<(PlanKey, FeatureKey), Grant>)

  ghost function ViewOf(r: Rows): View {
    View(iset f | FeatureId(r.features, f).Some?,
         imap p | PlanOf(r, p).Some? :: PlanOf(r, p).value,
         imap k: (PlanKey, FeatureKey) | GrantOf(r, k.0, k.1).Some? :: GrantOf(r, k.0, k.1).value)
  }

  // ---------------------------------------------------------------- the statements, on rows

  function AddFeature(r: Rows, key: FeatureKey): Rows {
    if FeatureId(r.features, key).Some? then r
    else r.(features := r.features + [FeatureRow(r.nextId, key)], nextId := r.nextId + 1)
  }

  /** One insertion of the features that are missing; `n` of them are looked at. */
  function AddFeatures(r: Rows, n: nat): Rows
    requires n <= |FEATURES|
  {
    if n == 0 then r else AddFeature(AddFeatures(r, n - 1), FEATURES[n - 1])
  }

  function UpsertPlan(r: Rows, p: PlanKey): Rows {
    var at := PlanAt(r.plans, p);
    if at.None? then
      var terms := TermsOf(p);
      r.(plans := r.plans + [PlanRow(r.nextId, p, terms, terms.basePrice, Some(terms.includedSeats))],
         nextId := r.nextId + 1)
    else r.(plans := r.plans[at.value := r.plans[at.value].(terms := TermsOf(p))])
  }

  function AddGrant(r: Rows, p: PlanKey, planId: nat, f: FeatureRow): Rows {
    if !Offered(f.key) || GrantAt(r.grants, planId, f.id).Some? then r
    else r.(grants := r.grants + [GrantRow(planId, f.id, Rule(p, f.key))])
  }

  /** One insertion of the plan features that are missing; `n` feature rows are looked at. */
  function AddGrants(r: Rows, p: PlanKey, planId: nat, n: nat): Rows
    requires n <= |r.features|
  {
    if n == 0 then r else AddGrant(AddGrants(r, p, planId, n - 1), p, planId, r.features[n - 1])
  }

  // ---------------------------------------------------------------- the statements, on the view

  /** The first `n` of the nine features. */
  ghost function FirstFeatures(n: nat): iset<FeatureKey>
    requires n <= |FEATURES|
  {
    iset f | f in FEATURES[..n]
  }

  ghost function WithFeatures(v: View): View {
    v.(features := v.features + FirstFeatures(|FEATURES|))
  }

  ghost function WithPlan(v: View, p: PlanKey): View {
    var terms := TermsOf(p);
    var row := if p in v.plans then v.plans[p].(terms := terms)
               else PlanTerms(terms, terms.basePrice, Some(terms.includedSeats));
    v.(plans := v.plans[p := row])
  }

  ghost function WithGrants(v: View, p: PlanKey): View {
    v.(grants := imap k: (PlanKey, FeatureKey) |
         k in v.grants || (k.0 == p && Offered(k.1) && k.1 in v.features) ::
         if k in v.grants then v.grants[k] else Rule(p, k.1))
  }

  // ---------------------------------------------------------------- lookups

  lemma {:induction false} FeatureIdIs(features: seq<FeatureRow>, key: FeatureKey)
    ensures FeatureId(features, key).None? <==> forall i :: 0 <= i < |features| ==> features[i].key != key
    ensures FeatureId(features, key).Some? ==>
              exists i :: 0 <= i < |features| && features[i] == FeatureRow(FeatureId(features, key).value, key)
  {
    if features == [] {
    } else {
      var n := |features| - 1;
      FeatureIdIs(features[..n], key);
      assert forall i :: 0 <= i < n ==> features[..n][i] == features[i];
    }
  }

  lemma {:induction false} PlanAtIs(plans: seq<PlanRow>, key: PlanKey)
    ensures PlanAt(plans, key).None? <==> forall i :: 0 <= i < |plans| ==> plans[i].key != key
  {
    if plans == [] {
    } else {
      var n := |plans| - 1;
      PlanAtIs(plans[..n], key);
      assert forall i :: 0 <= i < n ==> plans[..n][i] == plans[i];
    }
  }

  lemma {:induction false} GrantAtIs(grants: seq<GrantRow>, planId: nat, featureId: nat)
    ensures GrantAt(grants, planId, featureId).None? <==>
              forall i :: 0 <= i < |grants| ==> grants[i].planId != planId || grants[i].featureId != featureId
  {
    if grants == [] {
    } else {
      var n := |grants| - 1;
      GrantAtIs(grants[..n], planId, featureId);
      assert forall i :: 0 <= i < n ==> grants[..n][i] == grants[i];
    }
  }

  lemma Appended(r: Rows)
    ensures forall row: FeatureRow :: (r.features + [row])[..|r.features|] == r.features
    ensures forall row: PlanRow :: (r.plans + [row])[..|r.plans|] == r.plans
    ensures forall row: GrantRow :: (r.grants + [row])[..|r.grants|] == r.grants
  {
  }

  // ---------------------------------------------------------------- rows follow the view

  /** The view tells exactly what lookups tell. */
  ghost predicate Shows(r: Rows, v: View) {
    && (forall f :: f in v.features <==> FeatureId(r.features, f).Some?)
    && (forall p :: p in v.plans <==> PlanOf(r, p).Some?)
    && (forall p :: p in v.plans ==> PlanOf(r, p) == Some(v.plans[p]))
    && (forall p, f :: (p, f) in v.grants <==> GrantOf(r, p, f).Some?)
    && (forall p, f :: (p, f) in v.grants ==> GrantOf(r, p, f) == Some(v.grants[(p, f)]))
  }

  lemma ViewShows(r: Rows)
    ensures Shows(r, ViewOf(r))
  {
    hide PlanOf, GrantOf, FeatureId;
  }

  lemma SameView(r: Rows, v: View)
    requires Shows(r, v)
    ensures ViewOf(r) == v
  {
    hide PlanOf, GrantOf, FeatureId;
    assert ViewOf(r).features == v.features;
    assert ViewOf(r).plans == v.plans;
    forall k: (PlanKey, FeatureKey)
      ensures k in ViewOf(r).grants <==> k in v.grants
      ensures k in v.grants ==> ViewOf(r).grants[k] == v.grants[k]
    {
      assert k == (k.0, k.1);
    }
    assert ViewOf(r).grants == v.grants;
  }

  lemma AddFeatureLookup(r: Rows, key: FeatureKey)
    requires FeatureId(r.features, key).None?
    ensures forall f :: FeatureId(AddFeature(r, key).features, f) ==
                          if f == key then Some(r.nextId) else FeatureId(r.features, f)
  {
    Appended(r);
  }

  /** No grant refers to an id that is not in use. */
  lemma NothingGranted(r: Rows, planId: nat, featureId: nat)
    requires Valid(r) && (planId == r.nextId || featureId == r.nextId)
    ensures GrantAt(r.grants, planId, featureId).None?
  {
    GrantAtIs(r.grants, planId, featureId);
  }

  lemma AddFeatureStaysValid(r: Rows, key: FeatureKey)
    requires Valid(r)
    ensures Valid(AddFeature(r, key))
  {
    FeatureIdIs(r.features, key);
  }

  lemma AddFeatureGrants(r: Rows, key: FeatureKey, p: PlanKey, f: FeatureKey)
    requires Valid(r) && FeatureId(r.features, key).None?
    ensures GrantOf(AddFeature(r, key), p, f) == GrantOf(r, p, f)
  {
    AddFeatureLookup(r, key);
    if f == key && PlanAt(r.plans, p).Some? { NothingGranted(r, r.plans[PlanAt(r.plans, p).value].id, r.nextId); }
  }

  lemma AddFeatureShows(r: Rows, key: FeatureKey, v: View)
    requires Valid(r) && FeatureId(r.features, key).None? && Shows(r, v)
    ensures Shows(AddFeature(r, key), v.(features := v.features + iset{key}))
  {
    var s := AddFeature(r, key);
    AddFeatureLookup(r, key);
    forall p, f
      ensures GrantOf(s, p, f) == GrantOf(r, p, f)
    {
      AddFeatureGrants(r, key, p, f);
    }
    assert s.plans == r.plans;
    assert forall p {:trigger PlanOf(s, p)} :: PlanOf(s, p) == PlanOf(r, p);
    hide AddFeature, Valid, GrantOf, FeatureId, PlanOf;
  }

  lemma AddFeatureView(r: Rows, key: FeatureKey)
    requires Valid(r)
    ensures Valid(AddFeature(r, key))
    ensures ViewOf(AddFeature(r, key)) == ViewOf(r).(features := ViewOf(r).features + iset{key})
  {
    hide GrantOf, PlanOf, Valid, ViewOf, FeatureId;
    var v := ViewOf(r);
    ViewShows(r);
    AddFeatureStaysValid(r, key);
    if FeatureId(r.features, key).None? {
      hide Shows, AddFeature;
      AddFeatureShows(r, key, v);
      SameView(AddFeature(r, key), v.(features := v.features + iset{key}));
    } else {
      assert v.features + iset{key} == v.features;
    }
  }

  lemma {:induction false} AddFeaturesView(r: Rows, n: nat)
    requires Valid(r) && n <= |FEATURES|
    ensures Valid(AddFeatures(r, n))
    ensures ViewOf(AddFeatures(r, n)) == ViewOf(r).(features := ViewOf(r).features + FirstFeatures(n))
  {
    hide AddFeature, Valid, ViewOf;
    if n == 0 {
      assert ViewOf(r).features + FirstFeatures(0) == ViewOf(r).features;
    } else {
      AddFeaturesView(r, n - 1);
      AddFeatureView(AddFeatures(r, n - 1), FEATURES[n - 1]);
      assert FirstFeatures(n) == FirstFeatures(n - 1) + iset{FEATURES[n - 1]} by {
        assert FEATURES[..n] == FEATURES[..n - 1] + [FEATURES[n - 1]];
      }
    }
  }

  lemma UpsertPlanStaysValid(r: Rows, p: PlanKey)
    requires Valid(r)
    ensures Valid(UpsertPlan(r, p))
  {
    hide TermsOf;
    PlanAtIs(r.plans, p);
    var at, plans := PlanAt(r.plans, p), UpsertPlan(r, p).plans;
    assert at.Some? ==> forall i :: 0 <= i < |r.plans| ==>
        plans[i].key == r.plans[i].key && plans[i].id == r.plans[i].id;
  }

  lemma {:induction false} PlanAtSameKeys(a: seq<PlanRow>, b: seq<PlanRow>, p: PlanKey)
    requires |a| == |b| && forall i :: 0 <= i < |a| ==> a[i].key == b[i].key
    ensures PlanAt(a, p) == PlanAt(b, p)
  {
    if a == [] {
    } else {
      PlanAtSameKeys(a[..|a| - 1], b[..|b| - 1], p);
    }
  }

  lemma UpsertPlanLookup(r: Rows, p: PlanKey, q: PlanKey)
    ensures PlanAt(UpsertPlan(r, p).plans, q) ==
              if PlanAt(r.plans, p).None? && q == p then Some(|r.plans|) else PlanAt(r.plans, q)
  {
    Appended(r);
    if PlanAt(r.plans, p).Some? { PlanAtSameKeys(r.plans, UpsertPlan(r, p).plans, q); }
  }

  lemma UpsertPlanGrants(r: Rows, p: PlanKey, q: PlanKey, f: FeatureKey)
    requires Valid(r)
    ensures GrantOf(UpsertPlan(r, p), q, f) == GrantOf(r, q, f)
  {
    UpsertPlanLookup(r, p, q);
    if q == p && PlanAt(r.plans, p).None? && FeatureId(r.features, f).Some? {
      NothingGranted(r, r.nextId, FeatureId(r.features, f).value);
    }
  }

  lemma UpsertPlanPlans(r: Rows, p: PlanKey, q: PlanKey)
    ensures PlanOf(UpsertPlan(r, p), q) ==
              if q != p then PlanOf(r, q)
              else if PlanOf(r, p).Some? then Some(PlanOf(r, p).value.(terms := TermsOf(p)))
              else Some(PlanTerms(TermsOf(p), TermsOf(p).basePrice, Some(TermsOf(p).includedSeats)))
  {
    UpsertPlanLookup(r, p, q);
  }

  lemma UpsertPlanShows(r: Rows, p: PlanKey, v: View)
    requires Valid(r) && Shows(r, v)
    ensures Shows(UpsertPlan(r, p), WithPlan(v, p))
  {
    hide Valid, GrantOf, FeatureId, PlanOf, TermsOf;
    var s := UpsertPlan(r, p);
    forall q
      ensures PlanOf(s, q) ==
                if q != p then PlanOf(r, q)
                else if PlanOf(r, p).Some? then Some(PlanOf(r, p).value.(terms := TermsOf(p)))
                else Some(PlanTerms(TermsOf(p), TermsOf(p).basePrice, Some(TermsOf(p).includedSeats)))
    {
      UpsertPlanPlans(r, p, q);
    }
    forall q, f
      ensures GrantOf(s, q, f) == GrantOf(r, q, f)
    {
      UpsertPlanGrants(r, p, q, f);
    }
    assert s.features == r.features;
    hide UpsertPlan;
    forall q
      ensures q in WithPlan(v, p).plans <==> PlanOf(s, q).Some?
      ensures q in WithPlan(v, p).plans ==> PlanOf(s, q) == Some(WithPlan(v, p).plans[q])
    {
    }
  }

  lemma UpsertPlanView(r: Rows, p: PlanKey)
    requires Valid(r)
    ensures Valid(UpsertPlan(r, p))
    ensures ViewOf(UpsertPlan(r, p)) == WithPlan(ViewOf(r), p)
  {
    hide GrantOf, PlanOf, Valid, FeatureId, UpsertPlan, ViewOf, Shows, WithPlan;
    ViewShows(r);
    UpsertPlanStaysValid(r, p);
    UpsertPlanShows(r, p, ViewOf(r));
    SameView(UpsertPlan(r, p), WithPlan(ViewOf(r), p));
  }

  lemma AddGrantStaysValid(r: Rows, p: PlanKey, planId: nat, f: FeatureRow)
    requires Valid(r) && planId < r.nextId && f.id < r.nextId
    ensures Valid(AddGrant(r, p, planId, f))
  {
    GrantAtIs(r.grants, planId, f.id);
  }

  /** The first `n` feature rows. */
  function KeysOf(features: seq<FeatureRow>, n: nat): set<FeatureKey>
    requires n <= |features|
  {
    set i | 0 <= i < n :: features[i].key
  }

  /** What a plan's missing rows add, for some of the features. */
  ghost function WithGrantsFor(v: View, p: PlanKey, keys: set<FeatureKey>): View {
    v.(grants := imap k: (PlanKey, FeatureKey) |
         k in v.grants || (k.0 == p && Offered(k.1) && k.1 in keys) ::
         if k in v.grants then v.grants[k] else Rule(p, k.1))
  }

  /** In valid rows ids are as good as keys. */
  lemma FeatureById(r: Rows, f: FeatureRow, g: FeatureKey)
    requires Valid(r) && f in r.features
    ensures FeatureId(r.features, g) == Some(f.id) <==> g == f.key
  {
    FeatureIdIs(r.features, g);
    var i :| 0 <= i < |r.features| && r.features[i] == f;
    if FeatureId(r.features, g).Some? {
      var j :| 0 <= j < |r.features| && r.features[j] == FeatureRow(FeatureId(r.features, g).value, g);
    }
  }

  lemma PlanById(r: Rows, p: PlanKey, q: PlanKey)
    requires Valid(r) && PlanAt(r.plans, p).Some? && PlanAt(r.plans, q).Some?
    ensures r.plans[PlanAt(r.plans, q).value].id == r.plans[PlanAt(r.plans, p).value].id <==> q == p
  {
  }

  lemma AddGrantLookup(r: Rows, p: PlanKey, planId: nat, f: FeatureRow, qId: nat, gId: nat)
    ensures var s, before := AddGrant(r, p, planId, f), GrantIn(r.grants, qId, gId);
            && s.plans == r.plans && s.features == r.features
            && GrantIn(s.grants, qId, gId) ==
                 if Offered(f.key) && before.None? && qId == planId && gId == f.id then Some(Rule(p, f.key)) else before
  {
    Appended(r);
    hide Rule, Offered;
  }

  lemma AddGrantGrants(r: Rows, p: PlanKey, f: FeatureRow, q: PlanKey, g: FeatureKey)
    requires Valid(r) && PlanAt(r.plans, p).Some? && f in r.features
    ensures var planId := r.plans[PlanAt(r.plans, p).value].id;
            GrantOf(AddGrant(r, p, planId, f), q, g) ==
              if q == p && g == f.key && Offered(f.key) && GrantOf(r, p, g).None? then Some(Rule(p, g))
              else GrantOf(r, q, g)
  {
    hide Valid, PlanAt, FeatureId, GrantIn, Rule, Offered, AddGrant;
    var planId := r.plans[PlanAt(r.plans, p).value].id;
    FeatureById(r, f, g);
    AddGrantLookup(r, p, planId, f, planId, f.id);
    if PlanAt(r.plans, q).Some? && FeatureId(r.features, g).Some? {
      PlanById(r, p, q);
      AddGrantLookup(r, p, planId, f, r.plans[PlanAt(r.plans, q).value].id, FeatureId(r.features, g).value);
    }
  }

  lemma AddGrantShowsGrants(r: Rows, p: PlanKey, f: FeatureRow, v: View, q: PlanKey, g: FeatureKey)
    requires Valid(r) && PlanAt(r.plans, p).Some? && f in r.features && Shows(r, v)
    ensures var s, w := AddGrant(r, p, r.plans[PlanAt(r.plans, p).value].id, f), WithGrantsFor(v, p, {f.key});
            && ((q, g) in w.grants <==> GrantOf(s, q, g).Some?)
            && ((q, g) in w.grants ==> GrantOf(s, q, g) == Some(w.grants[(q, g)]))
  {
    AddGrantGrants(r, p, f, q, g);
    assert (q, g) in v.grants <==> GrantOf(r, q, g).Some?;
    hide AddGrant, Valid, GrantOf, FeatureId, PlanOf, Rule, PlanAt, Offered;
  }

  lemma AddGrantKeepsRest(r: Rows, p: PlanKey, planId: nat, f: FeatureRow, v: View)
    ensures var s, w := AddGrant(r, p, planId, f), WithGrantsFor(v, p, {f.key});
            && s.features == r.features && s.plans == r.plans && w.features == v.features && w.plans == v.plans
            && forall q :: PlanOf(s, q) == PlanOf(r, q)
  {
    hide Offered, Rule;
  }

  lemma AddGrantShows(r: Rows, p: PlanKey, f: FeatureRow, v: View)
    requires Valid(r) && PlanAt(r.plans, p).Some? && f in r.features && Shows(r, v)
    ensures Shows(AddGrant(r, p, r.plans[PlanAt(r.plans, p).value].id, f), WithGrantsFor(v, p, {f.key}))
  {
    hide AddGrant, Valid, GrantOf, FeatureId, PlanOf, WithGrantsFor, PlanAt;
    var s, w := AddGrant(r, p, r.plans[PlanAt(r.plans, p).value].id, f), WithGrantsFor(v, p, {f.key});
    AddGrantKeepsRest(r, p, r.plans[PlanAt(r.plans, p).value].id, f, v);
    forall q, g
      ensures (q, g) in w.grants <==> GrantOf(s, q, g).Some?
      ensures (q, g) in w.grants ==> GrantOf(s, q, g) == Some(w.grants[(q, g)])
    {
      AddGrantShowsGrants(r, p, f, v, q, g);
    }
  }

  lemma AddGrantView(r: Rows, p: PlanKey, f: FeatureRow)
    requires Valid(r) && PlanAt(r.plans, p).Some? && f in r.features
    ensures var s := AddGrant(r, p, r.plans[PlanAt(r.plans, p).value].id, f);
            Valid(s) && ViewOf(s) == WithGrantsFor(ViewOf(r), p, {f.key})
  {
    var planId := r.plans[PlanAt(r.plans, p).value].id;
    var i :| 0 <= i < |r.features| && r.features[i] == f;
    AddGrantStaysValid(r, p, planId, f);
    ViewShows(r);
    AddGrantShows(r, p, f, ViewOf(r));
    hide Valid, Shows, ViewOf, WithGrantsFor, AddGrant;
    SameView(AddGrant(r, p, planId, f), WithGrantsFor(ViewOf(r), p, {f.key}));
  }

  lemma GrantsForInTurn(v: View, p: PlanKey, a: set<FeatureKey>, b: set<FeatureKey>)
    ensures WithGrantsFor(WithGrantsFor(v, p, a), p, b) == WithGrantsFor(v, p, a + b)
    ensures WithGrantsFor(v, p, {}) == v
  {
    var twice, once, none := WithGrantsFor(WithGrantsFor(v, p, a), p, b), WithGrantsFor(v, p, a + b),
        WithGrantsFor(v, p, {});
    assert twice.features == once.features && twice.plans == once.plans;
    assert none.features == v.features && none.plans == v.plans;
    hide WithGrantsFor;
    forall k: (PlanKey, FeatureKey)
      ensures k in twice.grants <==> k in once.grants
      ensures k in once.grants ==> twice.grants[k] == once.grants[k]
      ensures k in none.grants <==> k in v.grants
      ensures k in v.grants ==> none.grants[k] == v.grants[k]
    {
      GrantForInTurn(v, p, a, b, k);
    }
    assert twice.grants == once.grants && none.grants == v.grants;
  }

  lemma GrantForInTurn(v: View, p: PlanKey, a: set<FeatureKey>, b: set<FeatureKey>, k: (PlanKey, FeatureKey))
    ensures var twice, once := WithGrantsFor(WithGrantsFor(v, p, a), p, b).grants, WithGrantsFor(v, p, a + b).grants;
            (k in twice <==> k in once) && (k in once ==> twice[k] == once[k])
    ensures var none := WithGrantsFor(v, p, {}).grants;
            (k in none <==> k in v.grants) && (k in v.grants ==> none[k] == v.grants[k])
  {
    hide Rule, Offered;
  }

  lemma {:induction false} AddGrantsView(r: Rows, p: PlanKey, n: nat)
    requires Valid(r) && PlanAt(r.plans, p).Some? && n <= |r.features|
    ensures var s := AddGrants(r, p, r.plans[PlanAt(r.plans, p).value].id, n);
            && Valid(s) && s.plans == r.plans && s.features == r.features
            && ViewOf(s) == WithGrantsFor(ViewOf(r), p, KeysOf(r.features, n))
  {
    hide Valid, ViewOf, WithGrantsFor, PlanAt;
    if n == 0 {
      GrantsForInTurn(ViewOf(r), p, {}, {});
      assert KeysOf(r.features, 0) == {};
    } else {
      var planId := r.plans[PlanAt(r.plans, p).value].id;
      AddGrantsView(r, p, n - 1);
      AddGrantView(AddGrants(r, p, planId, n - 1), p, r.features[n - 1]);
      GrantsForInTurn(ViewOf(r), p, KeysOf(r.features, n - 1), {r.features[n - 1].key});
      assert KeysOf(r.features, n) == KeysOf(r.features, n - 1) + {r.features[n - 1].key};
    }
  }

  lemma AllKeys(r: Rows, f: FeatureKey)
    ensures f in KeysOf(r.features, |r.features|) <==> f in ViewOf(r).features
  {
    FeatureIdIs(r.features, f);
  }

  lemma GrantsForAll(v: View, p: PlanKey, keys: set<FeatureKey>)
    requires forall f :: f in keys <==> f in v.features
    ensures WithGrants(v, p) == WithGrantsFor(v, p, keys)
  {
    hide Rule, Offered;
    assert WithGrants(v, p).grants == WithGrantsFor(v, p, keys).grants;
  }

  /** All missing rows of a plan at once. */
  lemma AddAllGrantsView(r: Rows, p: PlanKey)
    requires Valid(r) && PlanAt(r.plans, p).Some?
    ensures var s := AddGrants(r, p, r.plans[PlanAt(r.plans, p).value].id, |r.features|);
            Valid(s) && ViewOf(s) == WithGrants(ViewOf(r), p)
  {
    AddGrantsView(r, p, |r.features|);
    hide Valid, AddGrants, Rule, ViewOf, KeysOf, PlanAt, WithGrants, WithGrantsFor;
    forall f
      ensures f in KeysOf(r.features, |r.features|) <==> f in ViewOf(r).features
    {
      AllKeys(r, f);
    }
    GrantsForAll(ViewOf(r), p, KeysOf(r.features, |r.features|));
  }
}
