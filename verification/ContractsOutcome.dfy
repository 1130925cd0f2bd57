/** What the employment contract migration leaves behind when it commits. */
module ContractsOutcome {
  import opened Common
  import opened Schemas
  import opened SchemaChanges
  import opened ContractsMigration
  import opened RunOutcome

  function AllSteps(): seq<Step> {
    TableSteps() + OnboardingSteps()
  }

  /** Where a step stands in the migration, by the object it is about. */
  function Place(step: Step): nat {
    match step
    case CreateTable(t, _) => if t.ContractTemplates? then 0 else 4
    case EnsureIndex(n, _) =>
      match n {
        case TemplatesBusiness => 1
        case TemplatesBusinessActive => 2
        case TemplatesBusinessType => 3
        case ContractsBusiness => 5
        case ContractsBusinessStatus => 6
        case ContractsBusinessCandidateEmail => 7
        case ContractsBusinessNumberUnique => 8
        case ContractsOffer => 9
        case ContractsOnboarding => 10
        case ContractsEmployeeRecord => 11
        case _ => 13
      }
    case _ => 12
  }

  lemma StepsArePlaced()
    ensures |AllSteps()| == 14 && |TableSteps()| == 12
    ensures forall i :: 0 <= i < 14 ==> Place(AllSteps()[i]) == i && !AllSteps()[i].AddIndex?
    ensures forall i :: 0 <= i < 14 ==> !AllSteps()[i].ChangeColumn? && (AllSteps()[i].AddColumn? <==> i == 12)
  {
    hide TemplateColumns, ContractColumns;
  }

  /** The steps of a run, with or without the part about onboardings. */
  predicate IsRunnable(steps: seq<Step>) {
    steps == TableSteps() || steps == AllSteps()
  }

  lemma StepsAreAlone(steps: seq<Step>, i: nat)
    requires IsRunnable(steps) && i < |steps|
    ensures ChangesLast(steps) && steps[i] == AllSteps()[i] && IsAlone(steps, i)
  {
    StepsArePlaced();
    hide TableSteps, OnboardingSteps;
    assert forall j :: 0 <= j < |steps| ==> steps[j] == AllSteps()[j];
    hide AllSteps;
  }

  lemma TablesAreNotAltered(steps: seq<Step>)
    requires IsRunnable(steps)
    ensures !Alters(steps, ContractTemplates) && !Alters(steps, Contracts)
  {
    StepsArePlaced();
    StepsOfTables();
    hide TableSteps, OnboardingSteps;
    assert forall j :: 0 <= j < |steps| ==> steps[j] == AllSteps()[j];
    hide AllSteps;
  }

  // ---------------------------------------------------------------- the tables

  /** Where the table was not there before: what its foreign keys refer to. */
  ghost predicate TemplatesMade(u: Schema) {
    var t := ContractTemplates;
    Refers(u, t, BusinessId, Businesses) && Refers(u, t, CreatedById, Users) && Refers(u, t, UpdatedById, Users)
  }

  ghost predicate ContractsMade(u: Schema) {
    var t := Contracts;
    && Refers(u, t, BusinessId, Businesses) && Refers(u, t, TemplateId, ContractTemplates)
    && Refers(u, t, OfferId, OfferLetters) && Refers(u, t, CandidateOnboardingId, CandidateOnboardings)
    && Refers(u, t, EmployeeRecordId, EmployeeRecords) && Refers(u, t, DepartmentId, Departments)
    && Refers(u, t, PositionId, Positions) && Refers(u, t, ReportingManagerId, Users)
    && Refers(u, t, CreatedById, Users) && Refers(u, t, UpdatedById, Users)
  }

  lemma TemplateTargets()
    ensures var m := TemplateColumns();
            KeyTo(m, BusinessId, Businesses) && KeyTo(m, CreatedById, Users) && KeyTo(m, UpdatedById, Users)
  {
  }

  lemma ContractTargets()
    ensures var m := ContractColumns();
            && KeyTo(m, BusinessId, Businesses) && KeyTo(m, TemplateId, ContractTemplates)
            && KeyTo(m, OfferId, OfferLetters) && KeyTo(m, CandidateOnboardingId, CandidateOnboardings)
            && KeyTo(m, EmployeeRecordId, EmployeeRecords) && KeyTo(m, DepartmentId, Departments)
            && KeyTo(m, PositionId, Positions) && KeyTo(m, ReportingManagerId, Users)
            && KeyTo(m, CreatedById, Users) && KeyTo(m, UpdatedById, Users)
  {
  }

  lemma StepsOfTables()
    ensures |AllSteps()| == 14
    ensures AllSteps()[0] == CreateTable(ContractTemplates, TemplateColumns())
    ensures AllSteps()[4] == CreateTable(Contracts, ContractColumns())
    ensures AllSteps()[12] == AddColumn(CandidateOnboardings, ContractId, To(Contracts))
    ensures AllSteps()[13] == EnsureIndex(OnboardingsContract, Index(CandidateOnboardings, [ContractId], false))
  {
    hide TemplateColumns, ContractColumns;
  }

  lemma ColumnsRefer(u: Schema)
    ensures ContractTemplates in u.tables && u.tables[ContractTemplates] == TemplateColumns() ==> TemplatesMade(u)
    ensures Contracts in u.tables && u.tables[Contracts] == ContractColumns() ==> ContractsMade(u)
  {
    TemplateTargets();
    ContractTargets();
    hide TemplateColumns, ContractColumns;
  }

  lemma TablesStand(steps: seq<Step>, s: Schema)
    requires IsRunnable(steps) && Run(steps, s).completed && |steps| >= 12
    ensures var u := Run(steps, s).schema;
            && ContractTemplates in u.tables && (ContractTemplates !in s.tables ==> TemplatesMade(u))
            && Contracts in u.tables && (Contracts !in s.tables ==> ContractsMade(u))
  {
    hide *;
    StepsAreAlone(steps, 0);
    StepsAreAlone(steps, 4);
    TablesAreNotAltered(steps);
    StepsOfTables();
    RunCreates(steps, s, 0);
    RunCreates(steps, s, 4);
    ColumnsRefer(Run(steps, s).schema);
  }

  // ---------------------------------------------------------------- the indexes

  ghost predicate IndexesMade(s: Schema, u: Schema) {
    var (t, c) := (ContractTemplates, Contracts);
    && Indexed(s, u, TemplatesBusiness, t, [BusinessId], false)
    && Indexed(s, u, TemplatesBusinessActive, t, [BusinessId, IsActive], false)
    && Indexed(s, u, TemplatesBusinessType, t, [BusinessId, ContractType], false)
    && Indexed(s, u, ContractsBusiness, c, [BusinessId], false)
    && Indexed(s, u, ContractsBusinessStatus, c, [BusinessId, Status], false)
    && Indexed(s, u, ContractsBusinessCandidateEmail, c, [BusinessId, CandidateEmail], false)
    && Indexed(s, u, ContractsBusinessNumberUnique, c, [BusinessId, ContractNumber], true)
    && Indexed(s, u, ContractsOffer, c, [OfferId], false)
    && Indexed(s, u, ContractsOnboarding, c, [CandidateOnboardingId], false)
    && Indexed(s, u, ContractsEmployeeRecord, c, [EmployeeRecordId], false)
  }

  /** Each index of the run, as its step makes it. */
  ghost predicate IndexStands(steps: seq<Step>, i: nat, s: Schema, u: Schema)
    requires i < |steps|
  {
    IsIndexStep(steps[i]) ==>
      var x := steps[i].index;
      Indexed(s, u, steps[i].name, x.table, x.fields, x.unique)
  }

  lemma IndexesStand(steps: seq<Step>, s: Schema, i: nat)
    requires IsRunnable(steps) && Run(steps, s).completed && i < |steps|
    ensures steps[i] == AllSteps()[i] && IndexStands(steps, i, s, Run(steps, s).schema)
  {
    StepsAreAlone(steps, i);
    hide IsRunnable, Run, AllSteps, ChangesLast, IsAlone, Indexed;
    if IsIndexStep(steps[i]) { RunIndexes(steps, s, i); }
  }

  lemma IndexesAreMade(s: Schema, u: Schema)
    requires forall i :: 0 <= i < 12 && i < |AllSteps()| ==> IndexStands(AllSteps(), i, s, u)
    ensures IndexesMade(s, u)
  {
    hide TemplateColumns, ContractColumns, Indexed;
    var steps := AllSteps();
    assert IndexStands(steps, 1, s, u) && IndexStands(steps, 2, s, u) && IndexStands(steps, 3, s, u);
    assert IndexStands(steps, 5, s, u) && IndexStands(steps, 6, s, u) && IndexStands(steps, 7, s, u);
    assert IndexStands(steps, 8, s, u) && IndexStands(steps, 9, s, u) && IndexStands(steps, 10, s, u);
    assert IndexStands(steps, 11, s, u);
  }

  // ---------------------------------------------------------------- the column that closes the cycle

  /** The onboardings refer to the contracts, where they had no such column before, and are indexed by it. */
  ghost predicate CycleMade(s: Schema, u: Schema) {
    && HasColumn(u, CandidateOnboardings, ContractId)
    && (!HasColumn(s, CandidateOnboardings, ContractId) ==> Refers(u, CandidateOnboardings, ContractId, Contracts))
    && Indexed(s, u, OnboardingsContract, CandidateOnboardings, [ContractId], false)
  }

  lemma CycleStands(s: Schema)
    requires Run(AllSteps(), s).completed && CandidateOnboardings in s.tables
    ensures CycleMade(s, Run(AllSteps(), s).schema)
  {
    StepsOfTables();
    AddedOnce();
    hide TableSteps, OnboardingSteps, AllSteps, Run;
    IndexesStand(AllSteps(), s, 13);
    hide Indexed;
    RunAdds(AllSteps(), s, 12);
  }

  // ---------------------------------------------------------------- up

  lemma OnlyContractIdAltered(steps: seq<Step>)
    requires IsRunnable(steps)
    ensures forall t, c :: AltersColumn(steps, t, c) ==> t.CandidateOnboardings? && c.ContractId?
  {
    StepsArePlaced();
    StepsOfTables();
    hide TableSteps, OnboardingSteps;
    assert forall j :: 0 <= j < |steps| ==> steps[j] == AllSteps()[j];
    hide AllSteps;
  }

  /** What was there is there, and no old table has a new column but the onboardings, with `contractId`. */
  ghost predicate Kept(s: Schema, u: Schema) {
    && (forall t :: t in s.tables ==> t in u.tables)
    && (forall t, c: ColumnName :: t in s.tables && !(t.CandidateOnboardings? && c.ContractId?) ==>
          (HasColumn(u, t, c) <==> HasColumn(s, t, c)) && (HasColumn(s, t, c) ==> u.tables[t][c] == s.tables[t][c]))
    && (HasColumn(s, CandidateOnboardings, ContractId) ==>
          && HasColumn(u, CandidateOnboardings, ContractId)
          && u.tables[CandidateOnboardings][ContractId] == s.tables[CandidateOnboardings][ContractId])
    && (forall n :: n in s.indexes ==> n in u.indexes && u.indexes[n] == s.indexes[n])
  }

  lemma RunKeeps(s: Schema)
    requires Up(s).completed
    ensures Kept(s, Up(s).schema)
  {
    var steps := StepsFor(s);
    OnlyContractIdAltered(steps);
    RunPreserves(steps, s);
    if CandidateOnboardings in s.tables {
      StepsForOnboardings(s);
      StepsOfTables();
      AddedOnce();
      hide TableSteps, OnboardingSteps, AllSteps, Run;
      RunAdds(AllSteps(), s, 12);
    }
    hide TableSteps, OnboardingSteps, AllSteps, Run, AltersColumn;
  }

  lemma AddedOnce()
    ensures !AltersColumn(AllSteps()[..12], CandidateOnboardings, ContractId)
    ensures !AltersColumn(AllSteps()[13..], CandidateOnboardings, ContractId)
  {
    StepsArePlaced();
    hide TableSteps, OnboardingSteps, AllSteps;
  }

  lemma StepsForOnboardings(s: Schema)
    requires Up(s).completed
    ensures CandidateOnboardings in s.tables ==> StepsFor(s) == AllSteps()
  {
    RunPreserves(TableSteps(), s);
    hide TableSteps, OnboardingSteps, Run;
  }

  /** All of it is committed together with what was there, or nothing is. */
  lemma UpLeaves(s: Schema)
    ensures !Up(s).completed ==> Up(s).schema == s
    ensures Up(s).completed ==>
              var u := Up(s).schema;
              && ContractTemplates in u.tables && (ContractTemplates !in s.tables ==> TemplatesMade(u))
              && Contracts in u.tables && (Contracts !in s.tables ==> ContractsMade(u))
              && IndexesMade(s, u)
              && (CandidateOnboardings in s.tables ==> CycleMade(s, u))
              && Kept(s, u)
  {
    if Up(s).completed {
      var steps, u := StepsFor(s), Up(s).schema;
      RunKeeps(s);
      StepsForOnboardings(s);
      StepsArePlaced();
      TablesStand(steps, s);
      if CandidateOnboardings in s.tables { CycleStands(s); }
      hide TemplatesMade, ContractsMade, CycleMade, Kept, IndexesMade;
      forall i | 0 <= i < 12 && i < |AllSteps()|
        ensures IndexStands(AllSteps(), i, s, u)
      {
        IndexesStand(steps, s, i);
      }
      IndexesAreMade(s, u);
    }
  }

  /** From a schema without the migration's objects, the two tables refer to each other. */
  lemma FreshUpClosesTheCycle(s: Schema)
    requires Fresh(s) && Up(s).completed
    ensures var u := Up(s).schema;
            && TemplatesMade(u) && ContractsMade(u)
            && Refers(u, CandidateOnboardings, ContractId, Contracts)
            && Refers(u, Contracts, CandidateOnboardingId, CandidateOnboardings)
            && ContractsBusinessNumberUnique in u.indexes
            && u.indexes[ContractsBusinessNumberUnique] == Index(Contracts, [BusinessId, ContractNumber], true)
  {
    UpFromFresh(s);
    UpLeaves(s);
    hide Up, StepsFor, TableSteps, OnboardingSteps;
    assert MadeHere(ContractsBusinessNumberUnique);
  }
}
