/**
 * Database schemas and the guarded steps that migrations are made of. A column is known by the table it refers to
 * and by a shape standing for its type, nullability and default; plain columns that nothing here reads are left out.
 */
module Schemas {
  import opened Common

  datatype TableName =
    | Businesses | Users | Departments | Positions | EmployeeRecords | OfferLetters | CandidateOnboardings
    | ContractTemplates | Contracts | ExitProcesses | ExitReasons | OvertimeRequests
    | Plans | Features | PlanFeatures | UsageRecords | Subscriptions | SubscriptionInvoices | SubscriptionPayments
    | PositionCompetencies | EmployeeProbations | ProbationCriteria
    | OtherTable(name: string)

  datatype ColumnName =
    | Id | BusinessId | UserId | EmployeeUserId | EmployeeRecordId | PositionId | DepartmentId | Status | Name
    | IsActive
    | SortOrder | DeletedAt | CreatedById | UpdatedById
    // overtime_requests
    | StartTime | EndTime | RequestedDate | ExpectedDurationMinutes | ExpectedEndTime | RequestedAtUtc | RequestedBy
    | ApprovedBy | ApprovedAtUtc | OvertimeStartedAtUtc | ClosedBy | ClosedAtUtc | OvertimeClosedAtUtc
    | ApprovedOvertimeMinutes
    // subscriptions
    | Key | PlanId | FeatureId | SubscriptionId | InvoiceId
    // employment contracts
    | ContractType | ContractNumber | TemplateId | OfferId | CandidateOnboardingId | CandidateEmail | ReportingManagerId
    | ContractId
    // exits
    | ExitType | Reason | InitiatedByType | ExitMode | NoticePeriodDays | ExitReasonId | ExitReasonNameSnapshot
    | LetterHtml
    // probations
    | ManagerUserId | FinalApproverUserId | ExpectedEndDate | ExitProcessId | ParentProbationId | ProbationId
    | SourcePositionCompetencyId
    | OtherColumn(name: string)

  datatype IndexName =
    | OvertimeEmployeeDateStatus | OvertimeStatusStarted | OvertimeStatusClosed
    | PlanFeatureUnique
    | TemplatesBusiness | TemplatesBusinessActive | TemplatesBusinessType
    | ContractsBusiness | ContractsBusinessStatus | ContractsBusinessCandidateEmail | ContractsBusinessNumberUnique
    | ContractsOffer | ContractsOnboarding | ContractsEmployeeRecord | OnboardingsContract
    | ExitReasonsBusinessActive | ExitReasonsBusinessSort
    | CompetenciesBusinessPosition | CompetenciesPositionActiveOrder | CompetenciesPositionNameUnique
    | ProbationsBusinessStatus | ProbationsBusinessEndDate | ProbationsEmployeeStatus | ProbationsManagerStatus
    | ProbationsOneOpenPerEmployee | CriteriaBusinessProbation | CriteriaProbationNameUnique
    | OtherIndex(name: string)

  datatype Column = Column(shape: string, references: Option<TableName>)

  /** A column without a foreign key. */
  function Plain(shape: string := ""): Column {
    Column(shape, None)
  }

  /** A foreign key. */
  function To(t: TableName): Column {
    Column("UUID", Some(t))
  }

  type Table = map<ColumnName, Column>

  datatype Index = Index(table: TableName, fields: seq<ColumnName>, unique: bool)

  datatype Schema = Schema(tables: map<TableName, Table>, indexes: map<IndexName, Index>)

  predicate HasColumn(s: Schema, t: TableName, c: ColumnName) {
    t in s.tables && c in s.tables[t]
  }

  /** Every foreign key refers to a table that exists, and every index to columns that exist. */
  ghost predicate Closed(s: Schema) {
    && (forall t, c :: HasColumn(s, t, c) && s.tables[t][c].references.Some?
                       ==> s.tables[t][c].references.value in s.tables)
    && (forall n :: n in s.indexes ==> s.indexes[n].table in s.tables)
    && (forall n, f :: n in s.indexes && f in s.indexes[n].fields ==> HasColumn(s, s.indexes[n].table, f))
  }

  /** A guarded step; the guard is part of the step. */
  datatype Step =
    | CreateTable(table: TableName, columns: Table)                      // if the table is missing
    | AddColumn(table: TableName, column: ColumnName, definition: Column)     // if the column is missing
    | ChangeColumn(table: TableName, column: ColumnName, definition: Column)  // if the column is there
    | AddIndex(name: IndexName, index: Index)                            // if the table has no index of the name
    | EnsureIndex(name: IndexName, index: Index)                         // if no table has an index of the name

  /** The tables a new column or table refers to exist; a table may refer to itself. */
  predicate ReferencesExist(s: Schema, self: TableName, columns: Table) {
    forall c :: c in columns && columns[c].references.Some?
                ==> columns[c].references.value == self || columns[c].references.value in s.tables
  }

  predicate CanIndex(s: Schema, name: IndexName, index: Index) {
    name !in s.indexes && index.table in s.tables && forall f :: f in index.fields ==> f in s.tables[index.table]
  }

  /** One guarded step; None is an error, which ends the migration. */
  function Apply(step: Step, s: Schema): Option<Schema> {
    match step
    case CreateTable(t, columns) =>
      if t in s.tables then Some(s)
      else if ReferencesExist(s, t, columns) then Some(s.(tables := s.tables[t := columns]))
      else None
    case AddColumn(t, c, definition) =>
      if t !in s.tables then None
      else if c in s.tables[t] then Some(s)
      else if ReferencesExist(s, t, map[c := definition]) then
        Some(s.(tables := s.tables[t := s.tables[t][c := definition]]))
      else None
    case ChangeColumn(t, c, definition) =>
      if t !in s.tables then None
      else if c !in s.tables[t] then Some(s)
      else if ReferencesExist(s, t, map[c := definition]) then
        Some(s.(tables := s.tables[t := s.tables[t][c := definition]]))
      else None
    case AddIndex(n, index) =>
      if n in s.indexes && s.indexes[n].table == index.table then Some(s)
      else if CanIndex(s, n, index) then Some(s.(indexes := s.indexes[n := index]))
      else None
    case EnsureIndex(n, index) =>
      if n in s.indexes then Some(s)
      else if CanIndex(s, n, index) then Some(s.(indexes := s.indexes[n := index]))
      else None
  }

  /** One after another: a run of two lists of steps. */
  lemma {:induction false} RunAppend(a: seq<Step>, b: seq<Step>, s: Schema)
    ensures Run(a + b, s) == if Run(a, s).completed then Run(b, Run(a, s).schema) else Run(a, s)
    decreases |b|
  {
    hide Apply;
    if b == [] {
      assert a + b == a;
    } else {
      var n := |b| - 1;
      RunAppend(a, b[..n], s);
      assert (a + b)[..|a + b| - 1] == a + b[..n];
    }
  }

  /** What a run of steps leaves, and whether it got to its end. */
  datatype Outcome = Outcome(schema: Schema, completed: bool)

  function Run(steps: seq<Step>, s: Schema): Outcome {
    if steps == [] then Outcome(s, true)
    else
      var before := Run(steps[..|steps| - 1], s);
      if !before.completed then before
      else
        match Apply(steps[|steps| - 1], before.schema)
        case Some(t) => Outcome(t, true)
        case None => Outcome(before.schema, false)
  }

  /** The schema behind a connection, changed step by step. */
  class QueryInterface {
    var schema: Schema

    constructor (schema: Schema)
      ensures this.schema == schema
    {
      this.schema := schema;
    }

    method CreateTableIfMissing(t: TableName, columns: Table) returns (ok: bool)
      modifies this
      ensures Outcome(schema, ok) == Run([CreateTable(t, columns)], old(schema))
    {
      if t in schema.tables { return true; }
      if !ReferencesExist(schema, t, columns) { return false; }
      schema := schema.(tables := schema.tables[t := columns]);
      return true;
    }

    method AddColumnSafe(t: TableName, c: ColumnName, definition: Column) returns (ok: bool)
      modifies this
      ensures Outcome(schema, ok) == Run([AddColumn(t, c, definition)], old(schema))
    {
      if t !in schema.tables { return false; }
      if c in schema.tables[t] { return true; }
      if !ReferencesExist(schema, t, map[c := definition]) { return false; }
      schema := schema.(tables := schema.tables[t := schema.tables[t][c := definition]]);
      return true;
    }

    method ChangeColumnSafe(t: TableName, c: ColumnName, definition: Column) returns (ok: bool)
      modifies this
      ensures Outcome(schema, ok) == Run([ChangeColumn(t, c, definition)], old(schema))
    {
      if t !in schema.tables { return false; }
      if c !in schema.tables[t] { return true; }
      if !ReferencesExist(schema, t, map[c := definition]) { return false; }
      schema := schema.(tables := schema.tables[t := schema.tables[t][c := definition]]);
      return true;
    }

    method AddIndexSafe(n: IndexName, index: Index) returns (ok: bool)
      modifies this
      ensures Outcome(schema, ok) == Run([AddIndex(n, index)], old(schema))
    {
      if n in schema.indexes && schema.indexes[n].table == index.table { return true; }
      if !CanIndex(schema, n, index) { return false; }
      schema := schema.(indexes := schema.indexes[n := index]);
      return true;
    }

    method EnsureIndexByName(n: IndexName, index: Index) returns (ok: bool)
      modifies this
      ensures Outcome(schema, ok) == Run([EnsureIndex(n, index)], old(schema))
    {
      if n in schema.indexes { return true; }
      if !CanIndex(schema, n, index) { return false; }
      schema := schema.(indexes := schema.indexes[n := index]);
      return true;
    }

    /** The helper a step stands for. */
    method Perform(step: Step) returns (ok: bool)
      modifies this
      ensures Outcome(schema, ok) == Run([step], old(schema))
    {
      match step
      case CreateTable(t, columns) => ok := CreateTableIfMissing(t, columns);
      case AddColumn(t, c, definition) => ok := AddColumnSafe(t, c, definition);
      case ChangeColumn(t, c, definition) => ok := ChangeColumnSafe(t, c, definition);
      case AddIndex(n, index) => ok := AddIndexSafe(n, index);
      case EnsureIndex(n, index) => ok := EnsureIndexByName(n, index);
    }

    /** A migration's steps in order, up to the first error. */
    method PerformAll(steps: seq<Step>) returns (ok: bool)
      modifies this
      ensures Outcome(schema, ok) == Run(steps, old(schema))
    {
      hide Apply;
      ok := true;
      for n := 0 to |steps|
        invariant ok && Outcome(schema, true) == Run(steps[..n], old(schema))
      {
        assert steps[..n + 1][..n] == steps[..n];
        ghost var before := schema;
        ok := Perform(steps[n]);
        assert Run([steps[n]][..0], before) == Outcome(before, true);
        assert Outcome(schema, ok) == Run(steps[..n + 1], old(schema));
        if !ok {
          RunStops(steps, n + 1, old(schema));
          return;
        }
      }
      assert steps[..|steps|] == steps;
    }
  }

  /** After an error nothing more happens. */
  lemma {:induction false} RunStops(steps: seq<Step>, n: nat, s: Schema)
    requires n <= |steps| && !Run(steps[..n], s).completed
    ensures Run(steps, s) == Run(steps[..n], s)
    decreases |steps|
  {
    if n < |steps| {
      var shorter := steps[..|steps| - 1];
      assert shorter[..n] == steps[..n];
      RunStops(shorter, n, s);
    } else {
      assert steps[..n] == steps;
    }
  }

  // ---------------------------------------------------------------- foreign keys

  /** A step whose references or indexed columns are missing is refused, so closure is kept. */
  lemma ApplyKeepsClosed(step: Step, s: Schema)
    requires Closed(s) && Apply(step, s).Some?
    ensures Closed(Apply(step, s).value)
  {
    var s' := Apply(step, s).value;
    forall t, c | HasColumn(s', t, c) && s'.tables[t][c].references.Some?
      ensures s'.tables[t][c].references.value in s'.tables
    {
      if HasColumn(s, t, c) && s.tables[t][c] == s'.tables[t][c] {
        assert s.tables[t][c].references.value in s.tables;
      } else if !step.CreateTable? {
        assert s'.tables[t][c] == map[step.column := step.definition][c];
      }
    }
    forall n, f | n in s'.indexes && f in s'.indexes[n].fields
      ensures HasColumn(s', s'.indexes[n].table, f)
    {
    }
  }

  /** Every schema on the way is closed under foreign keys. */
  lemma {:induction false} EverySchemaIsClosed(steps: seq<Step>, s: Schema, n: nat)
    requires Closed(s) && n <= |steps|
    ensures Closed(Run(steps[..n], s).schema)
    decreases n
  {
    if 0 < n {
      EverySchemaIsClosed(steps, s, n - 1);
      assert steps[..n][..n - 1] == steps[..n - 1];
      var before := Run(steps[..n - 1], s);
      if before.completed && Apply(steps[n - 1], before.schema).Some? {
        ApplyKeepsClosed(steps[n - 1], before.schema);
      }
    }
  }

  // ---------------------------------------------------------------- interrupted runs

  /** A step that finds its work done. */
  predicate Settled(step: Step, s: Schema) {
    Apply(step, s) == Some(s)
  }

  /** No step adds or changes a column that an earlier step changes. */
  ghost predicate ChangesLast(steps: seq<Step>) {
    forall i, j :: 0 <= i < j < |steps| && steps[i].ChangeColumn? && (steps[j].AddColumn? || steps[j].ChangeColumn?)
                   ==> steps[i].table != steps[j].table || steps[i].column != steps[j].column
  }

  /** Writing what is there already changes nothing. */
  lemma SameWrite(s: Schema, t: TableName, c: ColumnName, definition: Column)
    requires HasColumn(s, t, c) && s.tables[t][c] == definition
    ensures s.(tables := s.tables[t := s.tables[t][c := definition]]) == s
  {
    assert s.tables[t][c := definition] == s.tables[t];
    assert s.tables[t := s.tables[t]] == s.tables;
  }

  /** A step's work is done once the step is. */
  lemma SettledAfter(step: Step, s: Schema)
    requires Apply(step, s).Some?
    ensures Settled(step, Apply(step, s).value)
  {
    var s' := Apply(step, s).value;
    if step.ChangeColumn? && HasColumn(s', step.table, step.column) {
      SameWrite(s', step.table, step.column, step.definition);
    }
  }

  /** Later steps leave it done. */
  lemma SettledStays(step: Step, other: Step, s: Schema)
    requires Settled(step, s) && Apply(other, s).Some?
    requires step.ChangeColumn? && (other.AddColumn? || other.ChangeColumn?)
             ==> step.table != other.table || step.column != other.column
    ensures Settled(step, Apply(other, s).value)
  {
    var s' := Apply(other, s).value;
    if step.ChangeColumn? && HasColumn(s, step.table, step.column) {
      assert s.tables[step.table := s.tables[step.table][step.column := step.definition]][step.table] ==
          s.tables[step.table];
      assert s.tables[step.table][step.column] == step.definition;
      SameWrite(s', step.table, step.column, step.definition);
    }
  }
}
