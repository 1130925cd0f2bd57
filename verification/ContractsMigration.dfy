/**
 * The employment contract migration, up and down, each in one transaction. Contracts and onboardings refer to each
 * other, so the second foreign key of the cycle is added, and removed, as a column of its own.
 */
module ContractsMigration {
  import opened Common
  import opened Schemas
  import opened SchemaChanges

  function TemplateColumns(): Table {
    map[Id := Plain(), BusinessId := To(Businesses), Name := Plain(), ContractType := Plain(), IsActive := Plain(),
        CreatedById := To(Users), UpdatedById := To(Users)]
  }

  function ContractColumns(): Table {
    map[Id := Plain(), BusinessId := To(Businesses), ContractNumber := Plain(), TemplateId := To(ContractTemplates),
        OfferId := To(OfferLetters), CandidateOnboardingId := To(CandidateOnboardings),
        EmployeeRecordId := To(EmployeeRecords),
        CandidateEmail := Plain(), DepartmentId := To(Departments), PositionId := To(Positions),
        ReportingManagerId := To(Users), ContractType := Plain(), Status := Plain(), CreatedById := To(Users),
        UpdatedById := To(Users), DeletedAt := Plain()]
  }

  /** The two tables with their indexes. */
  function TableSteps(): seq<Step> {
    [CreateTable(ContractTemplates, TemplateColumns()),
     EnsureIndex(TemplatesBusiness, Index(ContractTemplates, [BusinessId], false)),
     EnsureIndex(TemplatesBusinessActive, Index(ContractTemplates, [BusinessId, IsActive], false)),
     EnsureIndex(TemplatesBusinessType, Index(ContractTemplates, [BusinessId, ContractType], false)),
     CreateTable(Contracts, ContractColumns()),
     EnsureIndex(ContractsBusiness, Index(Contracts, [BusinessId], false)),
     EnsureIndex(ContractsBusinessStatus, Index(Contracts, [BusinessId, Status], false)),
     EnsureIndex(ContractsBusinessCandidateEmail, Index(Contracts, [BusinessId, CandidateEmail], false)),
     EnsureIndex(ContractsBusinessNumberUnique, Index(Contracts, [BusinessId, ContractNumber], true)),
     EnsureIndex(ContractsOffer, Index(Contracts, [OfferId], false)),
     EnsureIndex(ContractsOnboarding, Index(Contracts, [CandidateOnboardingId], false)),
     EnsureIndex(ContractsEmployeeRecord, Index(Contracts, [EmployeeRecordId], false))]
  }

  /** The way back from onboardings to contracts. */
  function OnboardingSteps(): seq<Step> {
    [AddColumn(CandidateOnboardings, ContractId, To(Contracts)),
     EnsureIndex(OnboardingsContract, Index(CandidateOnboardings, [ContractId], false))]
  }

  /** The second part runs if the onboardings exist once the first part is done. */
  function StepsFor(s: Schema): seq<Step> {
    if CandidateOnboardings in Run(TableSteps(), s).schema.tables then TableSteps() + OnboardingSteps()
    else TableSteps()
  }

  /** A transaction that does not complete leaves what was committed. */
  function InTransaction(o: Outcome, committed: Schema): Outcome {
    if o.completed then o else Outcome(committed, false)
  }

  function Up(s: Schema): Outcome {
    InTransaction(Run(StepsFor(s), s), s)
  }

  // ---------------------------------------------------------------- down, state by state

  function WithoutContractId(s: Schema): Schema {
    if HasColumn(s, CandidateOnboardings, ContractId) then DropColumn(s, CandidateOnboardings, ContractId) else s
  }

  function DropIfThere(s: Schema, t: TableName): Option<Schema> {
    if t in s.tables then DropTable(s, t) else Some(s)
  }

  function WithoutContracts(s: Schema): Option<Schema> {
    DropIfThere(WithoutContractId(s), Contracts)
  }

  function WithoutTemplates(s: Schema): Option<Schema> {
    if WithoutContracts(s).None? then None else DropIfThere(WithoutContracts(s).value, ContractTemplates)
  }

  function Down(s: Schema): Outcome {
    match WithoutTemplates(s)
    case Some(t) => Outcome(t, true)
    case None => Outcome(s, false)
  }

  /** The database and the two migration directions. */
  class Database {
    var committed: Schema

    constructor (committed: Schema)
      ensures this.committed == committed
    {
      this.committed := committed;
    }

    method PerformUp() returns (ok: bool)
      modifies this
      ensures Outcome(committed, ok) == Up(old(committed))
    {
      hide TableSteps, OnboardingSteps;
      ghost var s := committed;
      var transaction := new QueryInterface(committed);
      ok := transaction.PerformAll(TableSteps());
      assert TableSteps() + [] == TableSteps();
      RunAppend(TableSteps(), OnboardingSteps(), s);
      if ok && CandidateOnboardings in transaction.schema.tables {
        ok := transaction.PerformAll(OnboardingSteps());
      }
      if ok { committed := transaction.schema; }
    }

    method PerformDown() returns (ok: bool)
      modifies this
      ensures Outcome(committed, ok) == Down(old(committed))
    {
      var pending := committed;
      if HasColumn(pending, CandidateOnboardings, ContractId) {
        pending := DropColumn(pending, CandidateOnboardings, ContractId);
      }
      if Contracts in pending.tables {
        if DropTable(pending, Contracts).None? { return false; }
        pending := DropTable(pending, Contracts).value;
      }
      if ContractTemplates in pending.tables {
        if DropTable(pending, ContractTemplates).None? { return false; }
        pending := DropTable(pending, ContractTemplates).value;
      }
      committed := pending;
      return true;
    }
  }

  // ---------------------------------------------------------------- closure on the way

  /** Every schema on the way up is closed under foreign keys. */
  lemma UpStaysClosed(s: Schema, n: nat)
    requires Closed(s) && n <= |StepsFor(s)|
    ensures Closed(Run(StepsFor(s)[..n], s).schema) && Closed(Up(s).schema)
  {
    hide StepsFor;
    EverySchemaIsClosed(StepsFor(s), s, n);
    EverySchemaIsClosed(StepsFor(s), s, |StepsFor(s)|);
    assert StepsFor(s)[..|StepsFor(s)|] == StepsFor(s);
  }

  /** Every schema on the way down is closed, and a table goes only when nothing refers to it. */
  lemma DownStaysClosed(s: Schema)
    requires Closed(s)
    ensures Closed(WithoutContractId(s)) && Closed(Down(s).schema)
    ensures WithoutContracts(s).Some? ==> Closed(WithoutContracts(s).value)
    ensures WithoutContracts(s).Some? ==>
              Contracts !in WithoutContractId(s).tables || !Referenced(WithoutContractId(s), Contracts)
    ensures WithoutTemplates(s).Some? ==>
              ContractTemplates !in WithoutContracts(s).value.tables
              || !Referenced(WithoutContracts(s).value, ContractTemplates)
  {
    hide DropTable, DropColumn, Closed;
    var a := WithoutContractId(s);
    if HasColumn(s, CandidateOnboardings, ContractId) { DropColumnKeepsClosed(s, CandidateOnboardings, ContractId); }
    DropTableRefused(a, Contracts);
    if WithoutContracts(s).Some? {
      var b := WithoutContracts(s).value;
      if Contracts in a.tables { DropTableKeepsClosed(a, Contracts); }
      DropTableRefused(b, ContractTemplates);
      if WithoutTemplates(s).Some? && ContractTemplates in b.tables { DropTableKeepsClosed(b, ContractTemplates); }
    }
  }

  // ---------------------------------------------------------------- what down takes away

  /** Everything but `contractId` and the indexes over it stays. */
  lemma ContractIdColumns(s: Schema)
    ensures var a := WithoutContractId(s);
            && a.tables.Keys == s.tables.Keys
            && (forall u, c ::
                  HasColumn(a, u, c) <==> HasColumn(s, u, c) && !(u.CandidateOnboardings? && c.ContractId?))
            && (forall u, c :: HasColumn(a, u, c) ==> a.tables[u][c] == s.tables[u][c])
  {
  }

  lemma ContractIdIndexes(s: Schema)
    requires HasColumn(s, CandidateOnboardings, ContractId)
    ensures var a := WithoutContractId(s);
            && (forall n :: n in a.indexes ==> n in s.indexes && a.indexes[n] == s.indexes[n])
            && (forall n :: n in s.indexes ==>
                  (n in a.indexes <==>
                     !(s.indexes[n].table.CandidateOnboardings? && ContractId in s.indexes[n].fields)))
  {
  }

  /** A dropped table takes its columns and indexes with it, and nothing else. */
  lemma DropColumns(s: Schema, t: TableName)
    requires DropIfThere(s, t).Some?
    ensures var a := DropIfThere(s, t).value;
            && a.tables.Keys == s.tables.Keys - {t}
            && (forall u, c :: HasColumn(a, u, c) <==> HasColumn(s, u, c) && u != t)
            && (forall u, c :: HasColumn(a, u, c) ==> a.tables[u][c] == s.tables[u][c])
  {
    var a := DropIfThere(s, t).value;
    assert a.tables == s.tables - {t};
    hide DropIfThere;
  }

  lemma DropIndexes(s: Schema, t: TableName)
    requires DropIfThere(s, t).Some? && t in s.tables
    ensures var a := DropIfThere(s, t).value;
            && (forall n :: n in a.indexes ==> n in s.indexes && a.indexes[n] == s.indexes[n])
            && (forall n :: n in s.indexes ==> (n in a.indexes <==> s.indexes[n].table != t))
  {
  }

  // ---------------------------------------------------------------- there and back

  predicate MadeHere(n: IndexName) {
    n in {TemplatesBusiness, TemplatesBusinessActive, TemplatesBusinessType, ContractsBusiness, ContractsBusinessStatus,
          ContractsBusinessCandidateEmail, ContractsBusinessNumberUnique, ContractsOffer, ContractsOnboarding,
          ContractsEmployeeRecord, OnboardingsContract}
  }

  /** None of the migration's objects exists. */
  predicate Fresh(s: Schema) {
    && ContractTemplates !in s.tables && Contracts !in s.tables
    && !HasColumn(s, CandidateOnboardings, ContractId)
    && forall n :: n in s.indexes ==> !MadeHere(n)
  }

  predicate CanRefer(s: Schema) {
    {Businesses, Users, OfferLetters, CandidateOnboardings, EmployeeRecords, Departments, Positions} <= s.tables.Keys
  }

  function TemplateIndexes(): seq<Step> {
    TableSteps()[1..4]
  }

  function ContractIndexes(): seq<Step> {
    TableSteps()[5..]
  }

  lemma TableStepsInParts()
    ensures TableSteps() == [CreateTable(ContractTemplates, TemplateColumns())] + TemplateIndexes()
                          + ([CreateTable(Contracts, ContractColumns())] + ContractIndexes())
  {
  }

  /** What `up` asks of a schema: of each table, or of what it refers to, and of each index, or of its columns. */
  ghost predicate CanUp(s: Schema) {
    && (ContractTemplates in s.tables || {Businesses, Users} <= s.tables.Keys)
    && (Contracts in s.tables || CanRefer(s))
    && (forall i :: 0 <= i < |TemplateIndexes()| ==>
          IndexReady(TemplateIndexes()[i], s, ColumnsOf(s, ContractTemplates, TemplateColumns())))
    && (forall i :: 0 <= i < |ContractIndexes()| ==>
          IndexReady(ContractIndexes()[i], s, ColumnsOf(s, Contracts, ContractColumns())))
  }

  function FirstTable(): seq<Step> {
    [CreateTable(ContractTemplates, TemplateColumns())] + TemplateIndexes()
  }

  function SecondTable(): seq<Step> {
    [CreateTable(Contracts, ContractColumns())] + ContractIndexes()
  }

  lemma FirstTableCompletes(s: Schema)
    ensures var o := Run(FirstTable(), s);
            && (o.completed <==>
                  && (ContractTemplates in s.tables || {Businesses, Users} <= s.tables.Keys)
                  && forall i :: 0 <= i < |TemplateIndexes()| ==>
                                   IndexReady(TemplateIndexes()[i], s,
                                              ColumnsOf(s, ContractTemplates, TemplateColumns())))
            && (o.completed ==>
                  && o.schema.tables ==
                       s.tables[ContractTemplates := ColumnsOf(s, ContractTemplates, TemplateColumns())]
                  && forall n :: n in o.schema.indexes <==> n in s.indexes || IsNamed(TemplateIndexes(), n))
  {
    hide TemplateColumns, ContractColumns, TemplateIndexes, IndexReady, Run, ReferencesExist;
    TemplateIndexesAre();
    ReferredTables(s);
    CreateAndIndex(ContractTemplates, TemplateColumns(), TemplateIndexes(), s);
  }

  /** The second table after the first, said of the schema before both. */
  lemma SecondTableCompletes(s: Schema, mid: Schema)
    requires mid.tables == s.tables[ContractTemplates := ColumnsOf(s, ContractTemplates, TemplateColumns())]
    requires forall n :: n in mid.indexes <==> n in s.indexes || IsNamed(TemplateIndexes(), n)
    ensures var o := Run(SecondTable(), mid);
            && (o.completed <==>
                  && (Contracts in s.tables || CanRefer(s))
                  && forall i :: 0 <= i < |ContractIndexes()| ==>
                                   IndexReady(ContractIndexes()[i], s, ColumnsOf(s, Contracts, ContractColumns())))
            && (o.completed ==> o.schema.tables.Keys == s.tables.Keys + {ContractTemplates, Contracts})
  {
    hide TemplateColumns, ContractColumns, TemplateIndexes, ContractIndexes, Run, ReferencesExist;
    ContractIndexesAre();
    ReferredTables(mid);
    assert CanRefer(mid) <==> CanRefer(s);
    CreateAndIndex(Contracts, ContractColumns(), ContractIndexes(), mid);
    assert ColumnsOf(mid, Contracts, ContractColumns()) == ColumnsOf(s, Contracts, ContractColumns());
    hide ColumnsOf, CanRefer;
    forall i | 0 <= i < |ContractIndexes()|
      ensures IndexReady(ContractIndexes()[i], mid, ColumnsOf(s, Contracts, ContractColumns())) <==>
                IndexReady(ContractIndexes()[i], s, ColumnsOf(s, Contracts, ContractColumns()))
    {
      OtherNames(i);
    }
  }

  lemma TablesComplete(s: Schema)
    ensures Run(TableSteps(), s).completed <==> CanUp(s)
    ensures Run(TableSteps(), s).completed ==>
              Run(TableSteps(), s).schema.tables.Keys == s.tables.Keys + {ContractTemplates, Contracts}
  {
    TableStepsInParts();
    FirstTableCompletes(s);
    hide TableSteps, TemplateColumns, ContractColumns, TemplateIndexes, ContractIndexes, Run, IndexReady, ColumnsOf,
        CanRefer;
    assert TableSteps() == FirstTable() + SecondTable();
    RunAppend(FirstTable(), SecondTable(), s);
    if Run(FirstTable(), s).completed { SecondTableCompletes(s, Run(FirstTable(), s).schema); }
  }

  /** No contract index has the name of a template index. */
  lemma OtherNames(i: nat)
    requires i < |ContractIndexes()|
    ensures ContractIndexes()[i].EnsureIndex? && !IsNamed(TemplateIndexes(), ContractIndexes()[i].name)
  {
  }

  /** From any schema the migration commits exactly when it can; a fresh one must have the tables referred to. */
  lemma UpCommits(s: Schema)
    ensures Up(s).completed <==> CanUp(s)
    ensures Fresh(s) ==> (CanUp(s) <==> CanRefer(s))
  {
    TablesComplete(s);
    if Fresh(s) { FreshIsReady(s); }
    hide TableSteps, OnboardingSteps, CanUp, Fresh;
    RunAppend(TableSteps(), OnboardingSteps(), s);
    var tables := Run(TableSteps(), s);
    if tables.completed && CandidateOnboardings in tables.schema.tables {
      OnboardingStepsComplete(tables.schema);
    }
  }

  lemma FreshIsReady(s: Schema)
    requires Fresh(s)
    ensures CanUp(s) <==> CanRefer(s)
  {
    hide TemplateColumns, ContractColumns, TemplateIndexes, ContractIndexes;
    TemplateIndexesAre();
    ContractIndexesAre();
  }

  /** Up from a fresh schema leaves both tables and the column that closes the cycle. */
  lemma UpFromFresh(s: Schema)
    requires Fresh(s) && Up(s).completed
    ensures CandidateOnboardings in s.tables && StepsFor(s) == TableSteps() + OnboardingSteps()
    ensures HasColumn(Up(s).schema, CandidateOnboardings, ContractId)
    ensures ContractTemplates in Up(s).schema.tables && Contracts in Up(s).schema.tables
  {
    UpCommits(s);
    TablesComplete(s);
    hide TableSteps, OnboardingSteps, CanUp, Fresh;
    RunAppend(TableSteps(), OnboardingSteps(), s);
    OnboardingStepsComplete(Run(TableSteps(), s).schema);
  }

  lemma ReferredTables(s: Schema)
    ensures ReferencesExist(s, ContractTemplates, TemplateColumns()) <==> {Businesses, Users} <= s.tables.Keys
    ensures ContractTemplates in s.tables ==>
              (ReferencesExist(s, Contracts, ContractColumns()) <==> CanRefer(s))
    ensures ContractTemplates !in s.tables ==> !ReferencesExist(s, Contracts, ContractColumns())
  {
    hide TemplateColumns, ContractColumns, ReferencesExist;
    TemplateReferences();
    ContractReferences();
    TargetsExist(s, ContractTemplates, TemplateColumns());
    TargetsExist(s, Contracts, ContractColumns());
    var others := {Businesses, Users, OfferLetters, CandidateOnboardings, EmployeeRecords, Departments, Positions};
    assert Targets(ContractColumns()) == others + {ContractTemplates};
  }

  /** The tables that columns refer to. */
  ghost function Targets(columns: Table): set<TableName> {
    set c | c in columns && columns[c].references.Some? :: columns[c].references.value
  }

  lemma TargetsExist(s: Schema, t: TableName, columns: Table)
    ensures ReferencesExist(s, t, columns) <==> forall u :: u in Targets(columns) && u != t ==> u in s.tables
  {
    if forall u :: u in Targets(columns) && u != t ==> u in s.tables {
      forall c | c in columns && columns[c].references.Some?
        ensures columns[c].references.value == t || columns[c].references.value in s.tables
      {
        assert columns[c].references.value in Targets(columns);
      }
    }
  }

  lemma TemplateReferences()
    ensures Targets(TemplateColumns()) == {Businesses, Users}
  {
    var t := TemplateColumns();
    assert t[BusinessId] == To(Businesses) && t[CreatedById] == To(Users);
  }

  lemma ContractReferences()
    ensures Targets(ContractColumns()) ==
              {Businesses, Users, OfferLetters, CandidateOnboardings, EmployeeRecords, Departments, Positions,
               ContractTemplates}
  {
    var c := ContractColumns();
    assert c[BusinessId] == To(Businesses) && c[CreatedById] == To(Users) && c[OfferId] == To(OfferLetters);
    assert c[CandidateOnboardingId] == To(CandidateOnboardings) && c[EmployeeRecordId] == To(EmployeeRecords);
    assert c[DepartmentId] == To(Departments) && c[PositionId] == To(Positions)
        && c[TemplateId] == To(ContractTemplates);
  }

  lemma TemplateIndexesAre()
    ensures AreIndexSteps(TemplateIndexes(), ContractTemplates)
    ensures forall i, f :: 0 <= i < |TemplateIndexes()| && f in TemplateIndexes()[i].index.fields ==>
        f in TemplateColumns()
  {
  }

  lemma ContractIndexesAre()
    ensures AreIndexSteps(ContractIndexes(), Contracts)
    ensures forall i, f ::
              0 <= i < |ContractIndexes()| && f in ContractIndexes()[i].index.fields ==> f in ContractColumns()
  {
    ContractIndexesTogether();
    ContractIndexFields();
    hide ContractIndexes, ContractColumns;
  }

  lemma ContractIndexesTogether()
    ensures AreIndexSteps(ContractIndexes(), Contracts)
  {
    hide ContractColumns, TemplateColumns;
  }

  lemma ContractIndexFields()
    ensures forall i, f ::
              0 <= i < |ContractIndexes()| && f in ContractIndexes()[i].index.fields ==> f in ContractColumns()
  {
  }

  lemma OnboardingStepsComplete(s: Schema)
    requires CandidateOnboardings in s.tables && Contracts in s.tables
    ensures Run(OnboardingSteps(), s).completed
    ensures var u := Run(OnboardingSteps(), s).schema;
            HasColumn(u, CandidateOnboardings, ContractId) && u.tables.Keys == s.tables.Keys
  {
    var add, index := OnboardingSteps()[0], OnboardingSteps()[1];
    assert OnboardingSteps() == [add] + [index];
    RunAppend([add], [index], s);
    RunOne(add, s);
    RunOne(index, Apply(add, s).value);
  }

  /** The steps make the two tables, alter onboardings by `contractId` only, and make no index but their own. */
  ghost predicate OwnSteps(steps: seq<Step>) {
    && (forall t :: Creates(steps, t) ==> t in {ContractTemplates, Contracts})
    && (forall t :: Alters(steps, t) ==> t.CandidateOnboardings?)
    && (forall t, c :: AltersColumn(steps, t, c) ==> t.CandidateOnboardings? && c.ContractId?)
    && (forall columns :: MakesTable(steps, ContractTemplates, columns) ==> columns == TemplateColumns())
    && (forall n, index :: Indexes(steps, n, index) ==>
          MadeHere(n) && (index.table in {ContractTemplates, Contracts}
                          || (index.table.CandidateOnboardings? && ContractId in index.fields)))
  }

  lemma StepsAreOwn()
    ensures OwnSteps(TableSteps() + OnboardingSteps())
  {
    hide TemplateColumns, ContractColumns;
    var steps := TableSteps() + OnboardingSteps();
    assert |steps| == 14;
    assert steps[0].CreateTable? && steps[4].CreateTable? && steps[12].AddColumn?;
    forall i | 0 <= i < 14
      ensures steps[i].CreateTable? <==> i in {0, 4}
      ensures steps[i].AddColumn? <==> i == 12
      ensures !steps[i].ChangeColumn? && !steps[i].AddIndex?
    {
    }
  }

  /** Up and then down gives back the schema, tables, columns and indexes, when none of the objects existed. */
  lemma DownUndoesUp(s: Schema)
    requires Closed(s) && Fresh(s) && Up(s).completed
    ensures Down(Up(s).schema) == Outcome(s, true)
  {
    hide TableSteps, OnboardingSteps, Run, Closed, Fresh, OwnSteps;
    var steps := TableSteps() + OnboardingSteps();
    UpFromFresh(s);
    RunPreserves(steps, s);
    RunOnlyMakes(steps, s);
    StepsAreOwn();
    UndoTables(steps, s, Run(steps, s).schema);
  }

  /** No column of `v` other than those of the migration's own tables refers to a table that `s` does not have. */
  lemma OldColumnsReferToOldTables(steps: seq<Step>, s: Schema, u: Schema, v: Schema, t: TableName)
    requires OwnSteps(steps) && Closed(s) && Preserves(steps, s, u) && OnlyMakes(steps, s, u)
    requires forall x, y :: HasColumn(v, x, y) ==> HasColumn(u, x, y) && v.tables[x][y] == u.tables[x][y]
    requires !HasColumn(v, CandidateOnboardings, ContractId)
    requires t !in s.tables
    ensures forall x, y :: HasColumn(v, x, y) && x !in {ContractTemplates, Contracts} ==>
        v.tables[x][y].references != Some(t)
  {
    forall x, y | HasColumn(v, x, y) && x !in {ContractTemplates, Contracts}
      ensures v.tables[x][y].references != Some(t)
    {
      assert HasColumn(u, x, y) && x in s.tables;
      assert !AltersColumn(steps, x, y);
      assert HasColumn(s, x, y) && u.tables[x][y] == s.tables[x][y];
    }
  }

  lemma NothingElseRefers(steps: seq<Step>, s: Schema, u: Schema)
    requires OwnSteps(steps) && Closed(s) && Fresh(s) && Preserves(steps, s, u) && OnlyMakes(steps, s, u)
    ensures WithoutContracts(u).Some? && WithoutTemplates(u).Some?
  {
    hide OwnSteps, Closed, Preserves, OnlyMakes, DropTable, WithoutContractId;
    var a := WithoutContractId(u);
    ContractIdColumns(u);
    OldColumnsReferToOldTables(steps, s, u, a, Contracts);
    NewTemplatesReferElsewhere(steps, s, u);
    DropTableRefused(a, Contracts);
    assert !Referenced(a, Contracts);
    DropColumns(a, Contracts);
    var b := WithoutContracts(u).value;
    OldColumnsReferToOldTables(steps, s, u, b, ContractTemplates);
    DropTableRefused(b, ContractTemplates);
    assert !Referenced(b, ContractTemplates);
  }

  lemma NewTemplatesReferElsewhere(steps: seq<Step>, s: Schema, u: Schema)
    requires OwnSteps(steps) && Fresh(s) && OnlyMakes(steps, s, u)
    ensures forall c :: HasColumn(u, ContractTemplates, c) ==>
        u.tables[ContractTemplates][c].references != Some(Contracts)
  {
    TemplatesReferElsewhere();
    if ContractTemplates in u.tables {
      assert MakesTable(steps, ContractTemplates, u.tables[ContractTemplates]);
    }
  }

  lemma TemplatesReferElsewhere()
    ensures forall c :: c in TemplateColumns() ==> TemplateColumns()[c].references != Some(Contracts)
  {
  }

  lemma UndoTables(steps: seq<Step>, s: Schema, u: Schema)
    requires OwnSteps(steps) && Closed(s) && Fresh(s) && Preserves(steps, s, u) && OnlyMakes(steps, s, u)
    requires HasColumn(u, CandidateOnboardings, ContractId) && ContractTemplates in u.tables && Contracts in u.tables
    ensures Down(u) == Outcome(s, true)
  {
    hide OwnSteps, Closed, Fresh, Preserves, OnlyMakes;
    NothingElseRefers(steps, s, u);
    DownColumns(u);
    DownIndexes(u);
    hide WithoutTemplates;
    SameTables(steps, s, u, WithoutTemplates(u).value);
    SameIndexes(steps, s, u, WithoutTemplates(u).value);
  }

  lemma DownColumns(u: Schema)
    requires WithoutTemplates(u).Some?
    ensures var c := WithoutTemplates(u).value;
            && c.tables.Keys == u.tables.Keys - {Contracts, ContractTemplates}
            && (forall t, x :: HasColumn(c, t, x) <==>
                  HasColumn(u, t, x) && !(t.CandidateOnboardings? && x.ContractId?)
                  && t !in {Contracts, ContractTemplates})
            && (forall t, x :: HasColumn(c, t, x) ==> c.tables[t][x] == u.tables[t][x])
  {
    hide WithoutContractId, DropIfThere, HasColumn;
    ContractIdColumns(u);
    DropColumns(WithoutContractId(u), Contracts);
    DropColumns(WithoutContracts(u).value, ContractTemplates);
  }

  lemma DownIndexes(u: Schema)
    requires WithoutTemplates(u).Some?
    requires HasColumn(u, CandidateOnboardings, ContractId) && ContractTemplates in u.tables && Contracts in u.tables
    ensures var c := WithoutTemplates(u).value;
            && (forall n :: n in c.indexes ==> n in u.indexes && c.indexes[n] == u.indexes[n])
            && (forall n :: n in u.indexes ==>
                  (n in c.indexes <==>
                     u.indexes[n].table !in {Contracts, ContractTemplates}
                     && !(u.indexes[n].table.CandidateOnboardings? && ContractId in u.indexes[n].fields)))
  {
    hide WithoutContractId, DropIfThere;
    ContractIdColumns(u);
    ContractIdIndexes(u);
    DropColumns(WithoutContractId(u), Contracts);
    DropIndexes(WithoutContractId(u), Contracts);
    DropIndexes(WithoutContracts(u).value, ContractTemplates);
  }

  lemma SameTables(steps: seq<Step>, s: Schema, u: Schema, c: Schema)
    requires OwnSteps(steps) && Fresh(s) && Preserves(steps, s, u) && OnlyMakes(steps, s, u)
    requires c.tables.Keys == u.tables.Keys - {Contracts, ContractTemplates}
    requires forall t, x :: HasColumn(c, t, x) <==>
               HasColumn(u, t, x) && !(t.CandidateOnboardings? && x.ContractId?) && t !in {Contracts, ContractTemplates}
    requires forall t, x :: HasColumn(c, t, x) ==> c.tables[t][x] == u.tables[t][x]
    ensures c.tables == s.tables
  {
    assert c.tables.Keys == s.tables.Keys by {
      forall t ensures t in c.tables <==> t in s.tables { }
    }
    forall t | t in s.tables
      ensures c.tables[t] == s.tables[t]
    {
      SameTable(steps, s, u, c, t);
    }
  }

  lemma SameTable(steps: seq<Step>, s: Schema, u: Schema, c: Schema, t: TableName)
    requires Fresh(s) && Preserves(steps, s, u)
    requires t in s.tables && t in c.tables
    requires forall x :: AltersColumn(steps, t, x) ==> t.CandidateOnboardings? && x.ContractId?
    requires forall x :: HasColumn(c, t, x) <==> HasColumn(u, t, x) && !(t.CandidateOnboardings? && x.ContractId?)
    requires forall x :: HasColumn(c, t, x) ==> c.tables[t][x] == u.tables[t][x]
    ensures c.tables[t] == s.tables[t]
  {
    forall x
      ensures x in c.tables[t] <==> x in s.tables[t]
      ensures x in s.tables[t] ==> c.tables[t][x] == s.tables[t][x]
    {
      SameColumn(steps, s, u, c, t, x);
    }
    hide *;
  }

  lemma SameColumn(steps: seq<Step>, s: Schema, u: Schema, c: Schema, t: TableName, x: ColumnName)
    requires Fresh(s) && Preserves(steps, s, u)
    requires t in s.tables && t in c.tables
    requires AltersColumn(steps, t, x) ==> t.CandidateOnboardings? && x.ContractId?
    requires HasColumn(c, t, x) <==> HasColumn(u, t, x) && !(t.CandidateOnboardings? && x.ContractId?)
    requires HasColumn(c, t, x) ==> c.tables[t][x] == u.tables[t][x]
    ensures x in c.tables[t] <==> x in s.tables[t]
    ensures x in s.tables[t] ==> c.tables[t][x] == s.tables[t][x]
  {
    hide AltersColumn;
  }

  lemma SameIndexes(steps: seq<Step>, s: Schema, u: Schema, c: Schema)
    requires OwnSteps(steps) && Closed(s) && Fresh(s) && Preserves(steps, s, u) && OnlyMakes(steps, s, u)
    requires forall n :: n in c.indexes ==> n in u.indexes && c.indexes[n] == u.indexes[n]
    requires forall n :: n in u.indexes ==>
               (n in c.indexes <==>
                  u.indexes[n].table !in {Contracts, ContractTemplates}
                  && !(u.indexes[n].table.CandidateOnboardings? && ContractId in u.indexes[n].fields))
    ensures c.indexes == s.indexes
  {
    forall n
      ensures n in c.indexes <==> n in s.indexes
    {
      if n in s.indexes {
        assert forall f :: f in s.indexes[n].fields ==> HasColumn(s, s.indexes[n].table, f);
      } else if n in u.indexes {
        assert Indexes(steps, n, u.indexes[n]);
      }
    }
  }

  // ---------------------------------------------------------------- when down commits

  /** A foreign key that `down` does not remove first. */
  ghost predicate HoldsContracts(s: Schema) {
    exists u, c :: u != Contracts && HasColumn(s, u, c) && s.tables[u][c].references == Some(Contracts)
                && !(u.CandidateOnboardings? && c.ContractId?)
  }

  ghost predicate HoldsTemplates(s: Schema) {
    exists u, c :: u != ContractTemplates && u != Contracts && HasColumn(s, u, c)
                && s.tables[u][c].references == Some(ContractTemplates)
                && !(u.CandidateOnboardings? && c.ContractId?)
  }

  lemma ContractsHeld(s: Schema)
    ensures Referenced(WithoutContractId(s), Contracts) <==> HoldsContracts(s)
  {
    ContractIdColumns(s);
    hide WithoutContractId;
  }

  lemma TemplatesHeld(s: Schema)
    requires WithoutContracts(s).Some?
    ensures Referenced(WithoutContracts(s).value, ContractTemplates) <==> HoldsTemplates(s)
  {
    ContractIdColumns(s);
    DropColumns(WithoutContractId(s), Contracts);
    hide WithoutContractId, DropTable, DropIfThere;
  }

  /** `down` commits exactly when no foreign key but the migration's own refers to a table it drops. */
  lemma DownCommits(s: Schema)
    ensures Down(s).completed <==>
              !(Contracts in s.tables && HoldsContracts(s)) && !(ContractTemplates in s.tables && HoldsTemplates(s))
  {
    hide WithoutContractId, DropTable, HoldsContracts, HoldsTemplates, Referenced;
    ContractIdColumns(s);
    ContractsHeld(s);
    DropTableRefused(WithoutContractId(s), Contracts);
    if WithoutContracts(s).Some? {
      DropColumns(WithoutContractId(s), Contracts);
      TemplatesHeld(s);
      DropTableRefused(WithoutContracts(s).value, ContractTemplates);
    }
  }
}
