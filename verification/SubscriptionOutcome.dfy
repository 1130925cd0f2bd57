/** What the subscription migration leaves: its schema part, when that completes, and what a new plan is granted. */
module SubscriptionOutcome {
  import opened Common
  import opened Schemas
  import opened SchemaChanges
  import opened RunOutcome
  import opened RunReady
  import opened SubscriptionSeed
  import opened SubscriptionMigration

  // ---------------------------------------------------------------- the schema steps by kind

  predicate IsAddTo(step: Step, t: TableName) {
    step.AddColumn? && step.table == t && step.definition.references.None?
  }

  /** Which table a column is added to. */
  function TableAt(i: nat): TableName {
    if i < 8 then Plans else if i < 17 then Subscriptions else if i < 25 then SubscriptionInvoices
    else SubscriptionPayments
  }

  predicate IsAdding(i: nat) {
    i < 28 && i != 8 && i != 9 && i != 10 && i != 11
  }

  function FeatureColumns(): Table {
    map[Id := Plain("UUID"), Key := Plain("STRING(100) UNIQUE"), Name := Plain("STRING(150)")]
  }

  function PlanFeatureColumns(): Table {
    map[Id := Plain("UUID"), PlanId := To(Plans), FeatureId := To(Features)]
  }

  function UsageColumns(): Table {
    map[Id := Plain("UUID"), BusinessId := To(Businesses), SubscriptionId := To(Subscriptions),
        FeatureId := To(Features)]
  }

  lemma StepKinds()
    ensures |SchemaSteps()| == 28
    ensures forall i :: 0 <= i < 28 && IsAdding(i) ==> IsAddTo(SchemaSteps()[i], TableAt(i))
    ensures SchemaSteps()[8] == CreateTable(Features, FeatureColumns())
    ensures SchemaSteps()[9] == CreateTable(PlanFeatures, PlanFeatureColumns())
    ensures SchemaSteps()[10] == AddIndex(PlanFeatureUnique, Index(PlanFeatures, [PlanId, FeatureId], true))
    ensures SchemaSteps()[11] == CreateTable(UsageRecords, UsageColumns())
  {
  }

  lemma StepsAreAlone(i: nat)
    requires i < |SchemaSteps()|
    ensures IsAlone(SchemaSteps(), i)
  {
    StepKinds();
    hide SchemaSteps;
  }

  lemma CreatedTablesAreNotAltered()
    ensures !Alters(SchemaSteps(), Features) && !Alters(SchemaSteps(), PlanFeatures)
    ensures !Alters(SchemaSteps(), UsageRecords)
  {
    StepKinds();
    hide SchemaSteps;
  }

  // ---------------------------------------------------------------- what the schema part leaves

  ghost predicate PlanColumns(u: Schema) {
    var t := Plans;
    && HasColumn(u, t, OtherColumn("description")) && HasColumn(u, t, OtherColumn("basePrice"))
    && HasColumn(u, t, OtherColumn("billingCycle")) && HasColumn(u, t, OtherColumn("includedSeats"))
    && HasColumn(u, t, OtherColumn("extraSeatPrice")) && HasColumn(u, t, OtherColumn("currency"))
    && HasColumn(u, t, OtherColumn("isActive")) && HasColumn(u, t, OtherColumn("sortOrder"))
  }

  ghost predicate SubscriptionColumns(u: Schema) {
    var t := Subscriptions;
    && HasColumn(u, t, OtherColumn("currentPeriodStart")) && HasColumn(u, t, OtherColumn("currentPeriodEnd"))
    && HasColumn(u, t, OtherColumn("cancelAtPeriodEnd")) && HasColumn(u, t, OtherColumn("canceledAt"))
    && HasColumn(u, t, OtherColumn("pendingPlanId"))
  }

  ghost predicate InvoiceColumns(u: Schema) {
    var t := SubscriptionInvoices;
    && HasColumn(u, t, OtherColumn("baseAmount")) && HasColumn(u, t, OtherColumn("seatAmount"))
    && HasColumn(u, t, OtherColumn("usageAmount")) && HasColumn(u, t, OtherColumn("discountAmount"))
    && HasColumn(u, t, OtherColumn("taxAmount")) && HasColumn(u, t, OtherColumn("totalAmount"))
    && HasColumn(u, t, OtherColumn("periodStart")) && HasColumn(u, t, OtherColumn("periodEnd"))
  }

  ghost predicate PaymentColumns(u: Schema) {
    var t := SubscriptionPayments;
    && HasColumn(u, t, InvoiceId) && HasColumn(u, t, OtherColumn("provider"))
    && HasColumn(u, t, OtherColumn("providerReference"))
  }

  /** The three tables, and what the foreign keys of those that are new refer to. */
  ghost predicate TablesMade(s: Schema, u: Schema) {
    && Features in u.tables && PlanFeatures in u.tables && UsageRecords in u.tables
    && (PlanFeatures !in s.tables ==>
          Refers(u, PlanFeatures, PlanId, Plans) && Refers(u, PlanFeatures, FeatureId, Features))
    && (UsageRecords !in s.tables ==>
          && Refers(u, UsageRecords, BusinessId, Businesses)
          && Refers(u, UsageRecords, SubscriptionId, Subscriptions) && Refers(u, UsageRecords, FeatureId, Features))
  }

  lemma ColumnsStand(u: Schema)
    requires forall i :: 0 <= i < |SchemaSteps()| ==> Stands(SchemaSteps()[i], u)
    ensures PlanColumns(u) && SubscriptionColumns(u) && InvoiceColumns(u) && PaymentColumns(u)
  {
    hide HasColumn;
    var steps := SchemaSteps();
    assert Stands(steps[0], u) && Stands(steps[1], u) && Stands(steps[2], u) && Stands(steps[3], u);
    assert Stands(steps[4], u) && Stands(steps[5], u) && Stands(steps[6], u) && Stands(steps[7], u);
    assert Stands(steps[12], u) && Stands(steps[13], u) && Stands(steps[14], u) && Stands(steps[15], u);
    assert Stands(steps[16], u) && Stands(steps[17], u) && Stands(steps[18], u) && Stands(steps[19], u);
    assert Stands(steps[20], u) && Stands(steps[21], u) && Stands(steps[22], u) && Stands(steps[23], u);
    assert Stands(steps[24], u) && Stands(steps[25], u) && Stands(steps[26], u) && Stands(steps[27], u);
  }

  lemma ColumnsRefer(u: Schema)
    ensures PlanFeatures in u.tables && u.tables[PlanFeatures] == PlanFeatureColumns() ==>
              Refers(u, PlanFeatures, PlanId, Plans) && Refers(u, PlanFeatures, FeatureId, Features)
    ensures UsageRecords in u.tables && u.tables[UsageRecords] == UsageColumns() ==>
              && Refers(u, UsageRecords, BusinessId, Businesses)
              && Refers(u, UsageRecords, SubscriptionId, Subscriptions) && Refers(u, UsageRecords, FeatureId, Features)
  {
  }

  lemma TablesStand(s: Schema)
    requires Run(SchemaSteps(), s).completed
    ensures TablesMade(s, Run(SchemaSteps(), s).schema)
  {
    StepKinds();
    StepsAreAlone(8);
    StepsAreAlone(9);
    StepsAreAlone(11);
    CreatedTablesAreNotAltered();
    SchemaStepsChangeNothing();
    ColumnsRefer(Run(SchemaSteps(), s).schema);
    hide SchemaSteps, Run, ChangesLast, Alters, IsAlone, FeatureColumns, PlanFeatureColumns, UsageColumns, Refers;
    RunCreates(SchemaSteps(), s, 8);
    RunCreates(SchemaSteps(), s, 9);
    RunCreates(SchemaSteps(), s, 11);
  }

  /** A schema part that completes leaves every column, table and the unique index over plans and features. */
  lemma SchemaPartLeaves(s: Schema)
    requires Run(SchemaSteps(), s).completed
    ensures var u := Run(SchemaSteps(), s).schema;
            && PlanColumns(u) && SubscriptionColumns(u) && InvoiceColumns(u) && PaymentColumns(u) && TablesMade(s, u)
            && Indexed(s, u, PlanFeatureUnique, PlanFeatures, [PlanId, FeatureId], true)
            && (forall t, c :: HasColumn(s, t, c) ==> HasColumn(u, t, c) && u.tables[t][c] == s.tables[t][c])
  {
    StepKinds();
    SchemaStepsChangeNothing();
    NoColumnChanges();
    TablesStand(s);
    StepsAreAlone(10);
    hide SchemaSteps, Run, ChangesLast, IsAlone, TablesMade, PlanColumns, SubscriptionColumns, InvoiceColumns,
        PaymentColumns, Indexed;
    RunIndexes(SchemaSteps(), s, 10);
    forall i | 0 <= i < |SchemaSteps()| { RunStands(SchemaSteps(), s, i); }
    ColumnsStand(Run(SchemaSteps(), s).schema);
    forall t, c | HasColumn(s, t, c) { ColumnsKept(SchemaSteps(), s, t, c); }
  }

  lemma NoColumnChanges()
    ensures forall i :: 0 <= i < |SchemaSteps()| ==> !SchemaSteps()[i].ChangeColumn?
  {
    StepKinds();
    hide SchemaSteps;
  }

  // ---------------------------------------------------------------- when the schema part completes

  ghost predicate ReadyAt(i: nat, s: Schema)
    requires i < |SchemaSteps()|
  {
    Ready(SchemaSteps()[..i], SchemaSteps()[i], s)
  }

  lemma CompletesWhenReady(s: Schema)
    ensures Run(SchemaSteps(), s).completed <==> forall i :: 0 <= i < |SchemaSteps()| ==> ReadyAt(i, s)
  {
    forall i | 0 <= i < |SchemaSteps()| { StepsAreAlone(i); }
    hide SchemaSteps, Run, Ready, IsAlone, AllOnce;
    OnceIfAlone(SchemaSteps());
    RunCompletes(SchemaSteps(), s);
    assert forall i :: 0 <= i < |SchemaSteps()| ==>
                         (ReadyAt(i, s) <==> Ready(SchemaSteps()[..i], SchemaSteps()[i], s));
  }

  lemma CreatedSoFar(i: nat, t: TableName)
    requires i <= |SchemaSteps()|
    ensures CreatesTable(SchemaSteps()[..i], t) <==>
              (t.Features? && 8 < i) || (t.PlanFeatures? && 9 < i) || (t.UsageRecords? && 11 < i)
  {
    StepKinds();
    var steps := SchemaSteps();
    hide SchemaSteps, FeatureColumns, PlanFeatureColumns, UsageColumns;
    assert forall j :: 0 <= j < i ==> steps[..i][j] == steps[j];
    if t.Features? && 8 < i { IsCreated(steps[..i], t, 8); }
    if t.PlanFeatures? && 9 < i { IsCreated(steps[..i], t, 9); }
    if t.UsageRecords? && 11 < i { IsCreated(steps[..i], t, 11); }
    if CreatesTable(steps[..i], t) {
      var j := WhoCreates(steps[..i], t);
      assert j == 8 || j == 9 || j == 11;
    }
  }

  lemma AddingReady(i: nat, s: Schema)
    requires i < |SchemaSteps()| && IsAdding(i)
    ensures ReadyAt(i, s) <==> TableAt(i) in s.tables
  {
    StepKinds();
    CreatedSoFar(i, TableAt(i));
    hide SchemaSteps;
  }

  lemma FeatureTablesReady(s: Schema)
    requires Plans in s.tables
    ensures |SchemaSteps()| == 28 && ReadyAt(8, s) && ReadyAt(9, s)
  {
    StepKinds();
    CreatedSoFar(9, Features);
    FeatureKeys();
    hide SchemaSteps, CreatesTable, FeatureColumns, PlanFeatureColumns, UsageColumns;
  }

  lemma FeatureKeys()
    ensures forall c :: c in FeatureColumns() ==> FeatureColumns()[c].references.None?
    ensures forall c :: c in PlanFeatureColumns() && PlanFeatureColumns()[c].references.Some? ==>
                          var r := PlanFeatureColumns()[c].references.value; r == Plans || r == Features
  {
  }

  lemma UsageKeys()
    ensures KeyTo(UsageColumns(), BusinessId, Businesses)
    ensures forall c :: c in UsageColumns() && UsageColumns()[c].references.Some? ==>
                          var r := UsageColumns()[c].references.value;
                          r == Businesses || r == Subscriptions || r == Features
  {
  }

  lemma UsageReady(s: Schema)
    requires Subscriptions in s.tables
    ensures |SchemaSteps()| == 28
    ensures ReadyAt(11, s) <==> UsageRecords in s.tables || Businesses in s.tables
  {
    StepKinds();
    CreatedSoFar(11, Features);
    CreatedSoFar(11, Businesses);
    UsageKeys();
    hide SchemaSteps, CreatesTable, FeatureColumns, PlanFeatureColumns, UsageColumns;
  }

  lemma UniqueReady(s: Schema)
    ensures |SchemaSteps()| == 28
    ensures ReadyAt(10, s) <==> CanBeUnique(s)
  {
    StepKinds();
    CreatedSoFar(10, PlanFeatures);
    NothingAddedToPlanFeatures(10);
    var steps := SchemaSteps();
    hide SchemaSteps, CreatesTable, FeatureColumns, UsageColumns;
    assert steps[..10][9] == steps[9];
    assert PlanId in PlanFeatureColumns() && FeatureId in PlanFeatureColumns();
    IsCreatedWith(steps[..10], PlanFeatures, PlanId, 9);
    IsCreatedWith(steps[..10], PlanFeatures, FeatureId, 9);
    hide CreatesWith, AddsColumn, HasColumn;
    assert FieldsCome(steps[..10], s, Index(PlanFeatures, [PlanId, FeatureId], true)) <==>
             ColumnComes(steps[..10], s, PlanFeatures, PlanId) && ColumnComes(steps[..10], s, PlanFeatures, FeatureId);
  }

  lemma NothingAddedToPlanFeatures(i: nat)
    requires i <= |SchemaSteps()|
    ensures forall c :: !AddsColumn(SchemaSteps()[..i], PlanFeatures, c)
  {
    StepKinds();
    hide SchemaSteps;
    assert forall j :: 0 <= j < i ==> SchemaSteps()[..i][j] == SchemaSteps()[j];
    forall c
      ensures !AddsColumn(SchemaSteps()[..i], PlanFeatures, c)
    {
      if AddsColumn(SchemaSteps()[..i], PlanFeatures, c) {
        var j := WhoAdds(SchemaSteps()[..i], PlanFeatures, c);
      }
    }
  }

  lemma AddingStepsReady(s: Schema)
    ensures |SchemaSteps()| == 28
    ensures (forall i :: 0 <= i < 28 && IsAdding(i) ==> ReadyAt(i, s)) <==>
              && Plans in s.tables && Subscriptions in s.tables && SubscriptionInvoices in s.tables
              && SubscriptionPayments in s.tables
  {
    StepKinds();
    hide SchemaSteps, ReadyAt, IsAddTo;
    forall i | 0 <= i < 28 && IsAdding(i)
      ensures ReadyAt(i, s) <==> TableAt(i) in s.tables
    {
      AddingReady(i, s);
    }
    assert IsAdding(0) && IsAdding(12) && IsAdding(17) && IsAdding(25);
    assert TableAt(0) == Plans && TableAt(12) == Subscriptions && TableAt(17) == SubscriptionInvoices;
    assert TableAt(25) == SubscriptionPayments;
  }

  /** The index is there by its name, or the columns for it are there or come with their table. */
  predicate CanBeUnique(s: Schema) {
    if PlanFeatureUnique in s.indexes then s.indexes[PlanFeatureUnique].table == PlanFeatures
    else PlanFeatures in s.tables ==> HasColumn(s, PlanFeatures, PlanId) && HasColumn(s, PlanFeatures, FeatureId)
  }

  /** The schema part completes exactly when the tables it adds to and refers to are there, and what is indexed. */
  lemma SchemaPartCompletes(s: Schema)
    ensures Run(SchemaSteps(), s).completed <==>
              && Plans in s.tables && Subscriptions in s.tables && SubscriptionInvoices in s.tables
              && SubscriptionPayments in s.tables
              && (UsageRecords in s.tables || Businesses in s.tables)
              && CanBeUnique(s)
  {
    CompletesWhenReady(s);
    AddingStepsReady(s);
    UniqueReady(s);
    if Plans in s.tables { FeatureTablesReady(s); }
    if Subscriptions in s.tables { UsageReady(s); }
    hide SchemaSteps, ReadyAt, Run, CanBeUnique;
    assert (forall i :: 0 <= i < 28 ==> ReadyAt(i, s)) <==>
             && (forall i :: 0 <= i < 28 && IsAdding(i) ==> ReadyAt(i, s))
             && ReadyAt(8, s) && ReadyAt(9, s) && ReadyAt(10, s) && ReadyAt(11, s);
  }

  // ---------------------------------------------------------------- what a plan is granted

  /** What the subscription offers with each plan. */
  predicate Includes(p: PlanKey, f: FeatureKey) {
    match f
    case Attendance => true
    case LeaveManagement => true
    case SmsNotifications => true
    case EmployeeLimit => true
    case Payroll => !p.Starter?
    case AdvancedReports => !p.Starter?
    case TelegramBot => !p.Starter?
    case AiReports => !p.Starter?
    case Storage => p.Enterprise?
    case OtherFeature(_) => false
  }

  function Seats(p: PlanKey): int
    requires p in PLANS
  {
    match p
    case Starter => 10
    case Business => 50
    case Enterprise => 200
  }

  /**
   * A pair that had no row gets one for what its plan includes: the limit of employees is the plan's seats, and the
   * business plan has a hundred reports a month.
   */
  lemma NewGrantsFollowThePlan(v: View, p: PlanKey, f: FeatureKey)
    requires p in PLANS && f in FEATURES && (p, f) !in v.grants
    ensures var w := Seeded(v, SEED_STATEMENTS);
            && (p, f) in w.grants
            && (w.grants[(p, f)].isEnabled <==> Includes(p, f))
            && (f.EmployeeLimit? ==> w.grants[(p, f)].limitValue == Some(Seats(p)))
            && (f.AiReports? && p.Business? ==> w.grants[(p, f)].limitValue == Some(100))
            && (!f.EmployeeLimit? && !(f.AiReports? && p.Business?) ==> w.grants[(p, f)].limitValue == None)
            && (w.grants[(p, f)].monthly <==> f.AiReports? && p.Business?)
  {
    SeedGrantsEveryPair(v, p, f);
    hide Seeded;
  }

  /** The price, the seats, the price of one more and the place of each plan; a plan that is new costs its price. */
  lemma PlansHaveTheirTerms(v: View, p: PlanKey)
    requires p in PLANS
    ensures var w := Seeded(v, SEED_STATEMENTS);
            && p in w.plans
            && (p.Starter? ==> w.plans[p].terms == Terms(1000, 10, 70, 1))
            && (p.Business? ==> w.plans[p].terms == Terms(3000, 50, 50, 2))
            && (p.Enterprise? ==> w.plans[p].terms == Terms(8000, 200, 30, 3))
            && (p !in v.plans ==>
                  w.plans[p].priceMonthly == w.plans[p].terms.basePrice && w.plans[p].userLimit == Some(Seats(p)))
            && (p in v.plans ==>
                  w.plans[p].priceMonthly == v.plans[p].priceMonthly && w.plans[p].userLimit == v.plans[p].userLimit)
  {
    SeededIsReached(v, SEED_STATEMENTS);
    assert PLANS[..3] == PLANS;
    ReachedPlanIs(v, true, 3, 3, p);
    hide Seeded, Reached;
  }

  // ---------------------------------------------------------------- the whole migration

  /** `up` goes through the schema part as far as it gets, and through the seed when that part completes. */
  lemma FullUpIs(s: State)
    ensures FullUp(s).schema == Run(SchemaSteps(), s.schema).schema
    ensures FullUp(s).view == if Run(SchemaSteps(), s.schema).completed then Seeded(s.view, SEED_STATEMENTS) else s.view
  {
    StepKinds();
    hide SchemaSteps, Seeded;
  }

  /** A run that is cut off has done that many of the steps, the statements of the seed after those of the schema. */
  lemma CutUpIs(s: State, n: nat)
    requires n <= TotalSteps()
    ensures |SchemaSteps()| == 28
    ensures n <= 28 ==> CutUp(s, n) == State(Run(SchemaSteps()[..n], s.schema).schema, s.view)
    ensures 28 < n && Run(SchemaSteps(), s.schema).completed ==>
              CutUp(s, n) == State(Run(SchemaSteps(), s.schema).schema, Seeded(s.view, n - 28))
  {
    StepKinds();
    hide SchemaSteps, Seeded;
  }
}
