/** The subscription migration: guarded schema steps, then the seed, without a transaction. */
module SubscriptionMigration {
  import opened Common
  import opened Schemas
  import opened SubscriptionSeed
  import Restart

  // ---------------------------------------------------------------- the schema part

  function Add(t: TableName, column: string, shape: string): Step {
    AddColumn(t, OtherColumn(column), Plain(shape))
  }

  function SchemaSteps(): seq<Step> {
    [Add(Plans, "description", "TEXT"), Add(Plans, "basePrice", "DECIMAL(14,2)"),
     Add(Plans, "billingCycle", "STRING(20)"), Add(Plans, "includedSeats", "INTEGER"),
     Add(Plans, "extraSeatPrice", "DECIMAL(14,2)"), Add(Plans, "currency", "STRING(3)"),
     Add(Plans, "isActive", "BOOLEAN"), Add(Plans, "sortOrder", "INTEGER"),
     CreateTable(Features, map[Id := Plain("UUID"), Key := Plain("STRING(100) UNIQUE"), Name := Plain("STRING(150)")]),
     CreateTable(PlanFeatures, map[Id := Plain("UUID"), PlanId := To(Plans), FeatureId := To(Features)]),
     AddIndex(PlanFeatureUnique, Index(PlanFeatures, [PlanId, FeatureId], true)),
     CreateTable(UsageRecords,
                 map[Id := Plain("UUID"), BusinessId := To(Businesses), SubscriptionId := To(Subscriptions),
                     FeatureId := To(Features)]),
     Add(Subscriptions, "currentPeriodStart", "DATE"), Add(Subscriptions, "currentPeriodEnd", "DATE"),
     Add(Subscriptions, "cancelAtPeriodEnd", "BOOLEAN"), Add(Subscriptions, "canceledAt", "DATE"),
     Add(Subscriptions, "pendingPlanId", "UUID"),
     Add(SubscriptionInvoices, "baseAmount", "DECIMAL(14,2)"), Add(SubscriptionInvoices, "seatAmount", "DECIMAL(14,2)"),
     Add(SubscriptionInvoices, "usageAmount", "DECIMAL(14,2)"),
     Add(SubscriptionInvoices, "discountAmount", "DECIMAL(14,2)"),
     Add(SubscriptionInvoices, "taxAmount", "DECIMAL(14,2)"), Add(SubscriptionInvoices, "totalAmount", "DECIMAL(14,2)"),
     Add(SubscriptionInvoices, "periodStart", "DATE"), Add(SubscriptionInvoices, "periodEnd", "DATE"),
     AddColumn(SubscriptionPayments, InvoiceId, Plain("UUID")),
     Add(SubscriptionPayments, "provider", "STRING(50)"), Add(SubscriptionPayments, "providerReference", "STRING(255)")]
  }

  lemma SchemaStepsChangeNothing()
    ensures ChangesLast(SchemaSteps())
  {
    assert forall i :: 0 <= i < |SchemaSteps()| ==> !SchemaSteps()[i].ChangeColumn?;
  }

  // ---------------------------------------------------------------- the seed

  /** The database rows, changed statement by statement. */
  class Store {
    var rows: Rows

    constructor (rows: Rows)
      ensures this.rows == rows
    {
      this.rows := rows;
    }

    /** The `bulkInsert` of the features that are missing. */
    method InsertMissingFeatures()
      requires Valid(rows)
      modifies this
      ensures Valid(rows) && ViewOf(rows) == WithFeatures(ViewOf(old(rows)))
    {
      hide Valid, ViewOf, AddFeature;
      ghost var r := rows;
      for n := 0 to |FEATURES|
        invariant rows == AddFeatures(r, n)
      {
        rows := AddFeature(rows, FEATURES[n]);
      }
      AddFeaturesView(r, |FEATURES|);
    }

    /** A plan is inserted or updated. */
    method UpsertOne(p: PlanKey)
      requires Valid(rows)
      modifies this
      ensures Valid(rows) && ViewOf(rows) == WithPlan(ViewOf(old(rows)), p)
      ensures PlanAt(rows.plans, p).Some?
    {
      UpsertPlanView(rows, p);
      UpsertPlanLookup(rows, p, p);
      rows := UpsertPlan(rows, p);
    }

    /** The `bulkInsert` of a plan's missing plan features. */
    method InsertMissingGrants(p: PlanKey)
      requires Valid(rows) && PlanAt(rows.plans, p).Some?
      modifies this
      ensures Valid(rows) && ViewOf(rows) == WithGrants(ViewOf(old(rows)), p)
    {
      hide Valid, ViewOf, AddGrant;
      ghost var r := rows;
      var planId := rows.plans[PlanAt(rows.plans, p).value].id;
      var features := rows.features;
      for n := 0 to |features|
        invariant rows == AddGrants(r, p, planId, n)
      {
        rows := AddGrant(rows, p, planId, features[n]);
      }
      AddAllGrantsView(r, p);
    }

    /** The seeding part of `up`, to its end. */
    method Seed()
      requires Valid(rows)
      modifies this
      ensures Valid(rows) && ViewOf(rows) == Seeded(ViewOf(old(rows)), SEED_STATEMENTS)
    {
      hide Valid, ViewOf, WithFeatures, WithPlan, WithGrants, Seeded;
      ghost var v := ViewOf(rows);
      SeededFeatures(v);
      InsertMissingFeatures();
      for n := 0 to |PLANS|
        invariant Valid(rows) && ViewOf(rows) == Seeded(v, 1 + 2 * n)
      {
        SeededPlan(v, n);
        UpsertOne(PLANS[n]);
        InsertMissingGrants(PLANS[n]);
      }
    }
  }

  const SEED_STATEMENTS: nat := 7

  /** The view after the first `n` statements: the features, then for each plan its row and its plan features. */
  ghost function Seeded(v: View, n: nat): View
    requires n <= SEED_STATEMENTS
  {
    if n == 0 then v
    else if n == 1 then WithFeatures(v)
    else
      var before := Seeded(v, n - 1);
      if n % 2 == 0 then WithPlan(before, PLANS[n / 2 - 1]) else WithGrants(before, PLANS[n / 2 - 1])
  }

  lemma SeededFeatures(v: View)
    ensures Seeded(v, 1) == WithFeatures(v)
  {
  }

  lemma SeededPlan(v: View, n: nat)
    requires n < |PLANS|
    ensures Seeded(v, 2 + 2 * n) == WithPlan(Seeded(v, 1 + 2 * n), PLANS[n])
    ensures Seeded(v, 3 + 2 * n) == WithGrants(Seeded(v, 2 + 2 * n), PLANS[n])
  {
    hide WithPlan, WithGrants, WithFeatures;
    assert (2 + 2 * n) % 2 == 0 && (2 + 2 * n) / 2 - 1 == n;
    assert (3 + 2 * n) % 2 == 1 && (3 + 2 * n) / 2 - 1 == n;
  }

  // ---------------------------------------------------------------- what the seed leaves

  /** The statements, all at once: features, the terms of the first `a` plans, the plan features of the first `b`. */
  ghost function Reached(v: View, featuresDone: bool, a: nat, b: nat): View
    requires a <= |PLANS| && b <= |PLANS|
  {
    View(if featuresDone then v.features + FirstFeatures(|FEATURES|) else v.features,
         imap p | p in v.plans || p in PLANS[..a] ::
           if p in PLANS[..a] then WithPlan(v, p).plans[p] else v.plans[p],
         imap k: (PlanKey, FeatureKey) | k in v.grants || (k.0 in PLANS[..b] && k.1 in FEATURES) ::
           if k in v.grants then v.grants[k] else Rule(k.0, k.1))
  }

  lemma ReachedPlanIs(v: View, d: bool, a: nat, b: nat, p: PlanKey)
    requires a <= |PLANS| && b <= |PLANS|
    ensures var plans := Reached(v, d, a, b).plans;
            && (p in plans <==> p in v.plans || p in PLANS[..a])
            && (p in plans && p !in PLANS[..a] ==> plans[p] == v.plans[p])
            && (p in PLANS[..a] ==>
                  plans[p] == if p in v.plans then v.plans[p].(terms := TermsOf(p))
                              else PlanTerms(TermsOf(p), TermsOf(p).basePrice, Some(TermsOf(p).includedSeats)))
  {
    hide Rule, TermsOf, FirstFeatures;
  }

  lemma ReachedGrantIs(v: View, d: bool, a: nat, b: nat, k: (PlanKey, FeatureKey))
    requires a <= |PLANS| && b <= |PLANS|
    ensures var grants := Reached(v, d, a, b).grants;
            && (k in grants <==> k in v.grants || (k.0 in PLANS[..b] && k.1 in FEATURES))
            && (k in grants ==> grants[k] == if k in v.grants then v.grants[k] else Rule(k.0, k.1))
  {
    hide Rule, TermsOf, FirstFeatures;
  }

  lemma ReachedFeatureIs(v: View, a: nat, b: nat, f: FeatureKey)
    requires a <= |PLANS| && b <= |PLANS|
    ensures f in FirstFeatures(|FEATURES|) ==> f in Reached(v, true, a, b).features
  {
    hide Rule, TermsOf, FirstFeatures;
  }

  lemma NothingReached(v: View)
    ensures Reached(v, false, 0, 0) == v
  {
    hide Rule, TermsOf;
    assert Reached(v, false, 0, 0).plans == v.plans;
    assert Reached(v, false, 0, 0).grants == v.grants;
  }

  lemma ReachedFeatures(v: View)
    ensures WithFeatures(Reached(v, false, 0, 0)) == Reached(v, true, 0, 0)
  {
    hide Rule, TermsOf, FirstFeatures;
  }

  lemma PlanPrefix(a: nat, p: PlanKey)
    requires a < |PLANS|
    ensures p in PLANS[..a + 1] <==> p in PLANS[..a] || p == PLANS[a]
    ensures PLANS[a] !in PLANS[..a]
  {
    assert PLANS[..a + 1] == PLANS[..a] + [PLANS[a]];
    assert forall i, j :: 0 <= i < j < |PLANS| ==> PLANS[i] != PLANS[j];
  }

  lemma ReachedPlan(v: View, a: nat, b: nat)
    requires a < |PLANS| && b <= |PLANS|
    ensures WithPlan(Reached(v, true, a, b), PLANS[a]) == Reached(v, true, a + 1, b)
  {
    var before, after := WithPlan(Reached(v, true, a, b), PLANS[a]), Reached(v, true, a + 1, b);
    forall p
      ensures p in before.plans <==> p in after.plans
      ensures p in after.plans ==> before.plans[p] == after.plans[p]
    {
      PlanPrefix(a, p);
    }
    hide Rule, TermsOf, FirstFeatures;
    assert before.plans == after.plans;
    assert before.grants == after.grants;
  }

  lemma ReachedGrants(v: View, a: nat, b: nat)
    requires a <= |PLANS| && b < |PLANS|
    ensures WithGrants(Reached(v, true, a, b), PLANS[b]) == Reached(v, true, a, b + 1)
  {
    hide Rule, TermsOf;
    var before, after := WithGrants(Reached(v, true, a, b), PLANS[b]), Reached(v, true, a, b + 1);
    assert before.plans == after.plans && before.features == after.features;
    forall k: (PlanKey, FeatureKey)
      ensures k in before.grants <==> k in after.grants
      ensures k in after.grants ==> before.grants[k] == after.grants[k]
    {
      ReachedGrant(v, a, b, k);
    }
    hide Reached, WithGrants;
    assert before.grants == after.grants;
  }

  lemma ReachedGrant(v: View, a: nat, b: nat, k: (PlanKey, FeatureKey))
    requires a <= |PLANS| && b < |PLANS|
    ensures var before, after := WithGrants(Reached(v, true, a, b), PLANS[b]).grants, Reached(v, true, a, b + 1).grants;
            (k in before <==> k in after) && (k in after ==> before[k] == after[k])
  {
    hide Rule, TermsOf;
    assert FEATURES[..|FEATURES|] == FEATURES;
    PlanPrefix(b, k.0);
    assert k.1 in FEATURES ==> k.1 in FirstFeatures(|FEATURES|);
  }

  /** Statement by statement the seed reaches these views. */
  lemma {:induction false} SeededIsReached(v: View, n: nat)
    requires n <= SEED_STATEMENTS
    ensures Seeded(v, n) == Reached(v, 1 <= n, n / 2, if n == 0 then 0 else (n - 1) / 2)
  {
    hide Reached, WithFeatures, WithPlan, WithGrants;
    NothingReached(v);
    ReachedFeatures(v);
    if 1 < n {
      SeededIsReached(v, n - 1);
      if n % 2 == 0 {
        ReachedPlan(v, n / 2 - 1, n / 2 - 1);
      } else {
        ReachedGrants(v, n / 2, n / 2 - 1);
      }
    }
  }

  /**
   * After the seed each of the three plans has a plan-feature row for each of the nine features: the row it had, or
   * else the one of the plan's rule. Nothing else is granted or taken away, and other plans keep their terms.
   */
  lemma SeedGrantsEveryPair(v: View, p: PlanKey, f: FeatureKey)
    ensures var w := Seeded(v, SEED_STATEMENTS);
            && (p in PLANS && f in FEATURES ==>
                  (p, f) in w.grants && w.grants[(p, f)] == if (p, f) in v.grants then v.grants[(p, f)] else Rule(p, f))
            && (p !in PLANS || f !in FEATURES ==>
                  ((p, f) in w.grants <==> (p, f) in v.grants)
                  && ((p, f) in v.grants ==> w.grants[(p, f)] == v.grants[(p, f)]))
            && (p in PLANS ==> p in w.plans && w.plans[p].terms == TermsOf(p))
            && (p !in PLANS ==> (p in w.plans <==> p in v.plans) && (p in v.plans ==> w.plans[p] == v.plans[p]))
            && (f in FEATURES ==> f in w.features)
  {
    hide Rule, TermsOf, Seeded, Reached;
    SeededIsReached(v, SEED_STATEMENTS);
    ReachedPlanIs(v, true, 3, 3, p);
    ReachedGrantIs(v, true, 3, 3, (p, f));
    assert PLANS[..3] == PLANS;
    assert FEATURES[..|FEATURES|] == FEATURES;
    assert f in FEATURES ==> f in FirstFeatures(|FEATURES|);
    ReachedFeatureIs(v, 3, 3, f);
  }

  lemma PrefixOfPlans(a: nat, p: PlanKey)
    requires a <= |PLANS|
    ensures p in PLANS[..a] ==> p in PLANS[..|PLANS|]
  {
  }

  lemma ReachedTwicePlan(v: View, d: bool, a: nat, b: nat, p: PlanKey)
    requires a <= |PLANS| && b <= |PLANS|
    ensures var once := Reached(v, true, |PLANS|, |PLANS|).plans;
            var twice := Reached(Reached(v, d, a, b), true, |PLANS|, |PLANS|).plans;
            (p in once <==> p in twice) && (p in once ==> once[p] == twice[p])
  {
    hide Reached, Rule, TermsOf, FirstFeatures;
    PrefixOfPlans(a, p);
    var w := Reached(v, d, a, b);
    ReachedPlanIs(v, d, a, b, p);
    ReachedPlanIs(v, true, |PLANS|, |PLANS|, p);
    ReachedPlanIs(w, true, |PLANS|, |PLANS|, p);
  }

  lemma ReachedTwicePlans(v: View, d: bool, a: nat, b: nat)
    requires a <= |PLANS| && b <= |PLANS|
    ensures Reached(Reached(v, d, a, b), true, |PLANS|, |PLANS|).plans == Reached(v, true, |PLANS|, |PLANS|).plans
  {
    hide Reached, Rule, TermsOf, FirstFeatures;
    var w := Reached(v, d, a, b);
    var once, twice := Reached(v, true, |PLANS|, |PLANS|).plans, Reached(w, true, |PLANS|, |PLANS|).plans;
    forall p
      ensures p in once <==> p in twice
      ensures p in once ==> once[p] == twice[p]
    {
      ReachedTwicePlan(v, d, a, b, p);
    }
    assert once == twice;
  }

  lemma ReachedTwiceGrant(v: View, d: bool, a: nat, b: nat, k: (PlanKey, FeatureKey))
    requires a <= |PLANS| && b <= |PLANS|
    ensures var once := Reached(v, true, |PLANS|, |PLANS|).grants;
            var twice := Reached(Reached(v, d, a, b), true, |PLANS|, |PLANS|).grants;
            (k in once <==> k in twice) && (k in once ==> once[k] == twice[k])
  {
    hide Reached, Rule, TermsOf, FirstFeatures;
    PrefixOfPlans(b, k.0);
    var w := Reached(v, d, a, b);
    ReachedGrantIs(v, d, a, b, k);
    ReachedGrantIs(v, true, |PLANS|, |PLANS|, k);
    ReachedGrantIs(w, true, |PLANS|, |PLANS|, k);
  }

  lemma ReachedTwiceGrants(v: View, d: bool, a: nat, b: nat)
    requires a <= |PLANS| && b <= |PLANS|
    ensures Reached(Reached(v, d, a, b), true, |PLANS|, |PLANS|).grants == Reached(v, true, |PLANS|, |PLANS|).grants
  {
    hide Reached, Rule, TermsOf, FirstFeatures;
    var w := Reached(v, d, a, b);
    var once, twice := Reached(v, true, |PLANS|, |PLANS|).grants, Reached(w, true, |PLANS|, |PLANS|).grants;
    forall k: (PlanKey, FeatureKey)
      ensures k in once <==> k in twice
      ensures k in once ==> once[k] == twice[k]
    {
      ReachedTwiceGrant(v, d, a, b, k);
    }
    assert once == twice;
  }

  /** A full seed after a cut one ends as a full seed from the start. */
  lemma SeedAfterCut(v: View, k: nat)
    requires k <= SEED_STATEMENTS
    ensures Seeded(Seeded(v, k), SEED_STATEMENTS) == Seeded(v, SEED_STATEMENTS)
  {
    var a, b := k / 2, if k == 0 then 0 else (k - 1) / 2;
    var w := Reached(v, 1 <= k, a, b);
    SeededIsReached(v, k);
    SeededIsReached(w, SEED_STATEMENTS);
    SeededIsReached(v, SEED_STATEMENTS);
    ReachedTwicePlans(v, 1 <= k, a, b);
    ReachedTwiceGrants(v, 1 <= k, a, b);
    assert Reached(w, true, 3, 3).features == Reached(v, true, 3, 3).features by {
      assert w.features + FirstFeatures(|FEATURES|) == v.features + FirstFeatures(|FEATURES|);
    }
    hide Seeded, Reached;
  }

  // ---------------------------------------------------------------- the whole migration, cut off anywhere

  datatype State = State(schema: Schema, view: View)

  ghost function TotalSteps(): nat {
    |SchemaSteps()| + SEED_STATEMENTS
  }

  /** `up` cut off after `n` steps; the seed starts only once the schema part is through. */
  ghost function CutUp(s: State, n: nat): State
    requires n <= TotalSteps()
  {
    var steps := SchemaSteps();
    if n <= |steps| then State(Run(steps[..n], s.schema).schema, s.view)
    else if !Run(steps, s.schema).completed then State(Run(steps, s.schema).schema, s.view)
    else State(Run(steps, s.schema).schema, Seeded(s.view, n - |steps|))
  }

  ghost function FullUp(s: State): State {
    CutUp(s, TotalSteps())
  }

  ghost function AfterCutUps(s: State, cuts: seq<nat>): State
    requires forall i :: 0 <= i < |cuts| ==> cuts[i] <= TotalSteps()
  {
    if cuts == [] then s else CutUp(AfterCutUps(s, cuts[..|cuts| - 1]), cuts[|cuts| - 1])
  }

  lemma FullAfterCut(s: State, n: nat)
    requires n <= TotalSteps()
    ensures FullUp(CutUp(s, n)) == FullUp(s)
  {
    SchemaStepsChangeNothing();
    hide SchemaSteps, Seeded;
    var steps := SchemaSteps();
    assert steps[..|steps|] == steps;
    if n <= |steps| {
      Restart.RunAfterCut(steps, s.schema, n);
    } else {
      Restart.RunAfterCut(steps, s.schema, |steps|);
      if Run(steps, s.schema).completed { SeedAfterCut(s.view, n - |steps|); }
    }
  }

  /** Any number of cut runs and then one full run give the schema and the key-level rows of one full run. */
  lemma {:induction false} RestartedUpConverges(s: State, cuts: seq<nat>)
    requires forall i :: 0 <= i < |cuts| ==> cuts[i] <= TotalSteps()
    ensures FullUp(AfterCutUps(s, cuts)) == FullUp(s)
  {
    hide TotalSteps, CutUp;
    if cuts == [] {
    } else {
      var n := |cuts| - 1;
      RestartedUpConverges(s, cuts[..n]);
      FullAfterCut(AfterCutUps(s, cuts[..n]), cuts[n]);
    }
  }
}
