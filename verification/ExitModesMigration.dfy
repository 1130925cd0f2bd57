/** The exit modes migration: schema steps and a row update in one transaction, with a failure possible anywhere. */
module ExitModesMigration {
  import opened Common
  import opened Schemas
  import opened SchemaChanges

  datatype Value = Null | Text(text: string) | Number(number: int)

  type Row = map<ColumnName, Value>

  /** A schema, and the rows of `hr_exit_processes`. */
  datatype Database = Database(schema: Schema, exits: seq<Row>)

  ghost predicate WellFormed(db: Database) {
    forall i, c :: 0 <= i < |db.exits| ==> (c in db.exits[i] <==> HasColumn(db.schema, ExitProcesses, c))
  }

  datatype Statement =
    | RequireTable(table: TableName)
    | Structure(step: Step)                                                  // a guarded step on another table
    | AddExitColumn(column: ColumnName, definition: Column, default: Value)  // a guarded step on `hr_exit_processes`
    | UpdateExits

  const NAME_LIMIT := 120

  function Coalesce(a: Value, b: Value): Value {
    if a == Null then b else a
  }

  predicate HasInputs(row: Row) {
    {ExitType, Reason, ExitMode, NoticePeriodDays, ExitReasonNameSnapshot} <= row.Keys
  }

  /** The snapshot column takes 120 characters; a longer reason makes the update fail. */
  predicate ReasonFits(row: Row) {
    (ExitReasonNameSnapshot in row && row[ExitReasonNameSnapshot] != Null)
    || (Reason in row && row[Reason].Text? ==> |row[Reason].text| <= NAME_LIMIT)
  }

  /** The update of one row; all right-hand sides read the row as it was. */
  function Updated(row: Row): Row
    requires HasInputs(row)
  {
    row[InitiatedByType := Text(if row[ExitType] == Text("resignation") then "employee" else "employer")]
       [ExitMode := Coalesce(row[ExitMode], Text("standard_notice"))]
       [NoticePeriodDays := Coalesce(row[NoticePeriodDays], Number(30))]
       [ExitReasonNameSnapshot := Coalesce(row[ExitReasonNameSnapshot], row[Reason])]
  }

  /** The columns the update names. */
  predicate CanUpdate(db: Database) {
    && (forall c :: c in {ExitType, Reason, InitiatedByType, ExitMode, NoticePeriodDays, ExitReasonNameSnapshot}
                    ==> HasColumn(db.schema, ExitProcesses, c))
    && (forall i :: 0 <= i < |db.exits| ==> HasInputs(db.exits[i]) && ReasonFits(db.exits[i]))
  }

  /** One statement inside the transaction; None is an error. */
  function Perform(st: Statement, db: Database): Option<Database> {
    match st
    case RequireTable(t) => if t in db.schema.tables then Some(db) else None
    case Structure(step) =>
      if Apply(step, db.schema).Some? then Some(db.(schema := Apply(step, db.schema).value)) else None
    case AddExitColumn(c, definition, default) =>
      var added := Apply(AddColumn(ExitProcesses, c, definition), db.schema);
      if added.None? then None
      else if HasColumn(db.schema, ExitProcesses, c) then Some(db)
      else Some(Database(added.value, seq(|db.exits|, i requires 0 <= i < |db.exits| => db.exits[i][c := default])))
    case UpdateExits =>
      if CanUpdate(db)
      then Some(db.(exits := seq(|db.exits|, i requires 0 <= i < |db.exits| && HasInputs(db.exits[i]) =>
                                               Updated(db.exits[i]))))
      else None
  }

  function PerformAll(sts: seq<Statement>, db: Database): Option<Database> {
    if sts == [] then Some(db)
    else
      var n := |sts| - 1;
      match PerformAll(sts[..n], db)
      case None => None
      case Some(d) => Perform(sts[n], d)
  }

  function ReasonColumns(): Table {
    map[Id := Plain("UUID"), BusinessId := To(Businesses), Name := Plain("STRING(120)"), IsActive := Plain("BOOLEAN"),
        SortOrder := Plain("INTEGER"), CreatedById := To(Users), DeletedAt := Plain("DATE")]
  }

  function ReasonIndexes(): seq<Step> {
    [EnsureIndex(ExitReasonsBusinessActive, Index(ExitReasons, [BusinessId, IsActive], false)),
     EnsureIndex(ExitReasonsBusinessSort, Index(ExitReasons, [BusinessId, SortOrder], false))]
  }

  function Structures(steps: seq<Step>): seq<Statement> {
    if steps == [] then [] else Structures(steps[..|steps| - 1]) + [Structure(steps[|steps| - 1])]
  }

  function ReasonSteps(): seq<Step> {
    [CreateTable(ExitReasons, ReasonColumns())] + ReasonIndexes()
  }

  function Additions(): seq<Statement> {
    [AddExitColumn(InitiatedByType, Plain("STRING(20)"), Text("employee")),
     AddExitColumn(ExitMode, Plain("STRING(30)"), Text("standard_notice")),
     AddExitColumn(NoticePeriodDays, Plain("INTEGER"), Number(30)),
     AddExitColumn(ExitReasonId, To(ExitReasons), Null),
     AddExitColumn(ExitReasonNameSnapshot, Plain("STRING(120)"), Null),
     AddExitColumn(LetterHtml, Plain("TEXT"), Null)]
  }

  /** Everything before the update. */
  function SchemaStatements(): seq<Statement> {
    [RequireTable(ExitProcesses)] + Structures(ReasonSteps()) + Additions()
  }

  function Statements(): seq<Statement> {
    SchemaStatements() + [UpdateExits]
  }

  /** What `up` commits if nothing fails from outside. */
  function Complete(db: Database): Option<Database> {
    PerformAll(Statements(), db)
  }

  /** A failure from outside: of the statement of a number, or of the commit, which may have reached the database. */
  datatype Failure = AtStatement(number: nat) | AtCommit(stored: bool)

  /** The failure keeps the database as it was. */
  predicate Prevents(failure: Failure) {
    match failure
    case AtStatement(n) => n < |Statements()|
    case AtCommit(stored) => !stored
  }

  /** One call of `up` with a failure from outside, if there is one. */
  function Up(db: Database, failure: Option<Failure>): Database {
    if (failure.Some? && Prevents(failure.value)) || Complete(db).None? then db else Complete(db).value
  }

  class Connection {
    var committed: Database

    constructor (committed: Database)
      ensures this.committed == committed
    {
      this.committed := committed;
    }

    /** `up`: statements on the transaction's view, then commit; at the first error, roll back. */
    method PerformUp(failure: Option<Failure>) returns (ok: bool)
      modifies this
      ensures committed == Up(old(committed), failure)
      ensures ok <==> && Complete(old(committed)).Some?
                      && (failure.Some? ==> failure.value.AtStatement? && !Prevents(failure.value))
    {
      hide Perform, Statements;
      var sts := Statements();
      var pending := committed;
      for n := 0 to |sts|
        invariant committed == old(committed)
        invariant PerformAll(sts[..n], committed) == Some(pending)
        invariant failure.Some? && failure.value.AtStatement? ==> n <= failure.value.number
      {
        assert sts[..n + 1][..n] == sts[..n];
        if failure == Some(AtStatement(n)) { return false; }
        var next := Perform(sts[n], pending);
        if next.None? {
          ErrorIsFinal(sts, n + 1, committed);
          return false;
        }
        pending := next.value;
      }
      assert sts[..|sts|] == sts;
      if failure.Some? && failure.value.AtCommit? {
        if failure.value.stored { committed := pending; }
        return false;
      }
      committed := pending;
      return true;
    }
  }

  lemma {:induction false} ErrorIsFinal(sts: seq<Statement>, n: nat, db: Database)
    requires n <= |sts| && PerformAll(sts[..n], db).None?
    ensures PerformAll(sts, db).None?
    decreases |sts|
  {
    if n < |sts| {
      var shorter := sts[..|sts| - 1];
      assert shorter[..n] == sts[..n];
      ErrorIsFinal(shorter, n, db);
    } else {
      assert sts[..n] == sts;
    }
  }

  // ---------------------------------------------------------------- the update is a projection

  lemma UpdatedTwice(row: Row)
    requires HasInputs(row)
    ensures HasInputs(Updated(row)) && Updated(Updated(row)) == Updated(row)
    ensures ReasonFits(row) ==> ReasonFits(Updated(row))
  {
    var once := Updated(row);
    assert once.Keys == row.Keys + {InitiatedByType};
    assert Updated(once) == once;
  }

  lemma UpdateTwice(db: Database)
    requires Perform(UpdateExits, db).Some?
    ensures Perform(UpdateExits, Perform(UpdateExits, db).value) == Perform(UpdateExits, db)
  {
    var once := Perform(UpdateExits, db).value;
    forall i | 0 <= i < |db.exits|
      ensures HasInputs(once.exits[i]) && ReasonFits(once.exits[i]) && Updated(once.exits[i]) == once.exits[i]
    {
      UpdatedTwice(db.exits[i]);
    }
    assert Perform(UpdateExits, once).value.exits == once.exits;
  }

  // ---------------------------------------------------------------- running it again

  /** A statement before the update that finds its work done. */
  predicate FindsDone(st: Statement, s: Schema) {
    match st
    case RequireTable(t) => t in s.tables
    case Structure(step) => Settled(step, s)
    case AddExitColumn(c, _, _) => HasColumn(s, ExitProcesses, c)
    case UpdateExits => false
  }

  /** A guarded statement; a structural step concerns another table and changes no column. */
  predicate Guarded(st: Statement) {
    && !st.UpdateExits?
    && (st.Structure? ==> !st.step.ChangeColumn? && !st.step.AddColumn?)
    && (st.Structure? && st.step.CreateTable? ==> st.step.table != ExitProcesses)
  }

  lemma WorkIsDone(st: Statement, db: Database)
    requires Guarded(st) && Perform(st, db).Some?
    ensures FindsDone(st, Perform(st, db).value.schema)
  {
    if st.Structure? { SettledAfter(st.step, db.schema); }
  }

  lemma WorkStaysDone(st: Statement, other: Statement, db: Database)
    requires Guarded(st) && Guarded(other) && FindsDone(st, db.schema) && Perform(other, db).Some?
    ensures FindsDone(st, Perform(other, db).value.schema)
  {
    if st.Structure? {
      match other
      case Structure(step) => SettledStays(st.step, step, db.schema);
      case AddExitColumn(c, definition, _) => SettledStays(st.step, AddColumn(ExitProcesses, c, definition), db.schema);
      case _ =>
    }
  }

  lemma {:induction false} AllSettle(sts: seq<Statement>, db: Database, i: nat)
    requires forall k :: 0 <= k < |sts| ==> Guarded(sts[k])
    requires PerformAll(sts, db).Some? && i < |sts|
    ensures FindsDone(sts[i], PerformAll(sts, db).value.schema)
    decreases |sts|
  {
    hide Perform, FindsDone;
    var n := |sts| - 1;
    var before := PerformAll(sts[..n], db).value;
    if i == n {
      WorkIsDone(sts[n], before);
    } else {
      AllSettle(sts[..n], db, i);
      WorkStaysDone(sts[i], sts[n], before);
    }
  }

  lemma {:induction false} SettledDoNothing(sts: seq<Statement>, db: Database)
    requires forall k :: 0 <= k < |sts| ==> FindsDone(sts[k], db.schema)
    ensures PerformAll(sts, db) == Some(db)
  {
    if sts == [] {
    } else {
      SettledDoNothing(sts[..|sts| - 1], db);
    }
  }

  /** A completed `up` leaves a database that `up` does not change. */
  lemma CompleteTwice(db: Database)
    requires Complete(db).Some?
    ensures Complete(Complete(db).value) == Complete(db)
  {
    var sts := SchemaStatements();
    SchemaStatementsAdd();
    CompleteInParts(db);
    CompleteInParts(Complete(db).value);
    hide SchemaStatements, Perform, FindsDone, Complete;
    var mid := PerformAll(sts, db).value;
    var end := Complete(db).value;
    UpdateKeepsSchema(mid);
    forall k | 0 <= k < |sts|
      ensures FindsDone(sts[k], end.schema)
    {
      AllSettle(sts, db, k);
    }
    SettledDoNothing(sts, end);
    UpdateTwice(mid);
  }

  lemma UpdateKeepsSchema(db: Database)
    requires Perform(UpdateExits, db).Some?
    ensures Perform(UpdateExits, db).value.schema == db.schema
  {
  }

  /** The database after several calls of `up`, each with its own failure or none. */
  function AfterCalls(db: Database, failures: seq<Option<Failure>>): Database {
    if failures == [] then db else Up(AfterCalls(db, failures[..|failures| - 1]), failures[|failures| - 1])
  }

  predicate GetsThrough(failure: Option<Failure>) {
    failure.Some? ==> !Prevents(failure.value)
  }

  /**
   * Any mix of calls leaves the original database if none gets through, and otherwise exactly what one undisturbed
   * call leaves.
   */
  lemma {:induction false} CallsAreAllOrNothing(db: Database, failures: seq<Option<Failure>>)
    ensures AfterCalls(db, failures) ==
              if Complete(db).Some? && (exists i :: 0 <= i < |failures| && GetsThrough(failures[i]))
              then Complete(db).value else db
  {
    hide Complete, Prevents;
    if failures == [] {
    } else {
      var n := |failures| - 1;
      CallsAreAllOrNothing(db, failures[..n]);
      assert forall i :: 0 <= i < n ==> failures[..n][i] == failures[i];
      if Complete(db).Some? { CompleteTwice(db); }
    }
  }

  // ---------------------------------------------------------------- when it can complete at all

  /** Adding columns leaves a row's other columns alone. */
  lemma {:induction false} InputsSurvive(sts: seq<Statement>, db: Database)
    requires forall k :: 0 <= k < |sts| ==> Guarded(sts[k])
    requires forall k :: 0 <= k < |sts| && sts[k].AddExitColumn? ==>
               sts[k].column != Reason && (sts[k].column == ExitReasonNameSnapshot ==> sts[k].default == Null)
    requires PerformAll(sts, db).Some? && WellFormed(db)
    ensures var d := PerformAll(sts, db).value;
            && |d.exits| == |db.exits|
            && forall i :: 0 <= i < |db.exits| ==> (ReasonFits(d.exits[i]) <==> ReasonFits(db.exits[i]))
    decreases |sts|
  {
    if sts == [] {
    } else {
      var n := |sts| - 1;
      InputsSurvive(sts[..n], db);
      KeepsWellFormed(sts[..n], db);
      var before := PerformAll(sts[..n], db).value;
      var after := PerformAll(sts, db).value;
      forall i | 0 <= i < |db.exits|
        ensures ReasonFits(after.exits[i]) <==> ReasonFits(before.exits[i])
      {
        if sts[n].AddExitColumn? && !HasColumn(before.schema, ExitProcesses, sts[n].column) {
          assert sts[n].column !in before.exits[i];
          assert after.exits[i] == before.exits[i][sts[n].column := sts[n].default];
        }
      }
    }
  }

  lemma {:induction false} KeepsWellFormed(sts: seq<Statement>, db: Database)
    requires forall k :: 0 <= k < |sts| ==> Guarded(sts[k])
    requires PerformAll(sts, db).Some? && WellFormed(db)
    ensures WellFormed(PerformAll(sts, db).value)
  {
    hide Perform;
    if sts == [] {
    } else {
      var n := |sts| - 1;
      KeepsWellFormed(sts[..n], db);
      StatementKeepsWellFormed(sts[n], PerformAll(sts[..n], db).value);
    }
  }

  lemma StatementKeepsWellFormed(st: Statement, db: Database)
    requires Guarded(st) && Perform(st, db).Some? && WellFormed(db)
    ensures WellFormed(Perform(st, db).value)
  {
    var d := Perform(st, db).value;
    forall i, c | 0 <= i < |d.exits|
      ensures c in d.exits[i] <==> HasColumn(d.schema, ExitProcesses, c)
    {
      assert c in db.exits[i] <==> HasColumn(db.schema, ExitProcesses, c);
    }
  }

  /** The columns the update needs besides those the migration adds. */
  predicate HasOldColumns(s: Schema) {
    HasColumn(s, ExitProcesses, ExitType) && HasColumn(s, ExitProcesses, Reason)
  }

  predicate AddsExitColumn(sts: seq<Statement>, c: ColumnName) {
    exists k :: 0 <= k < |sts| && sts[k].AddExitColumn? && sts[k].column == c
  }

  /** The schema part never takes an exit column away, and ends with the columns it adds. */
  lemma {:induction false} ExitColumnsStay(sts: seq<Statement>, db: Database, c: ColumnName)
    requires forall k :: 0 <= k < |sts| ==> Guarded(sts[k])
    requires PerformAll(sts, db).Some?
    ensures HasColumn(PerformAll(sts, db).value.schema, ExitProcesses, c) <==>
              HasColumn(db.schema, ExitProcesses, c) || AddsExitColumn(sts, c)
    decreases |sts|
  {
    hide Perform, HasColumn;
    if sts == [] {
    } else {
      var n := |sts| - 1;
      ExitColumnsStay(sts[..n], db, c);
      StatementColumns(sts[n], PerformAll(sts[..n], db).value, c);
      LastAddsExitColumn(sts, c);
      hide AddsExitColumn;
    }
  }

  lemma StatementColumns(st: Statement, db: Database, c: ColumnName)
    requires Guarded(st) && Perform(st, db).Some?
    ensures HasColumn(Perform(st, db).value.schema, ExitProcesses, c) <==>
              HasColumn(db.schema, ExitProcesses, c) || (st.AddExitColumn? && st.column == c)
  {
  }

  lemma LastAddsExitColumn(sts: seq<Statement>, c: ColumnName)
    requires sts != []
    ensures AddsExitColumn(sts, c) <==>
              || AddsExitColumn(sts[..|sts| - 1], c)
              || (sts[|sts| - 1].AddExitColumn? && sts[|sts| - 1].column == c)
  {
    assert forall k :: 0 <= k < |sts| - 1 ==> sts[..|sts| - 1][k] == sts[k];
  }

  /** The schema part is four statements that add no exit column, and the additions. */
  lemma SchemaStatementsAre()
    ensures var sts := SchemaStatements();
            && |sts| == 4 + |Additions()| && sts[4..] == Additions()
            && forall k :: 0 <= k < 4 ==> Guarded(sts[k]) && !sts[k].AddExitColumn?
  {
    StructuresAre();
    hide Structures, Additions;
    assert SchemaStatements()[4..] == Additions();
  }

  lemma SchemaStatementsAdd()
    ensures var sts := SchemaStatements();
            && (forall k :: 0 <= k < |sts| ==> Guarded(sts[k]))
            && (forall k :: 0 <= k < |sts| && sts[k].AddExitColumn? ==>
                  sts[k].column != Reason && (sts[k].column == ExitReasonNameSnapshot ==> sts[k].default == Null))
            && (forall c :: c in {InitiatedByType, ExitMode, NoticePeriodDays, ExitReasonNameSnapshot} ==>
                  AddsExitColumn(sts, c))
            && !AddsExitColumn(sts, ExitType) && !AddsExitColumn(sts, Reason)
  {
    hide SchemaStatements, Additions, Guarded;
    SchemaStatementsAre();
    AdditionsAre();
    var sts, additions := SchemaStatements(), Additions();
    forall k | 4 <= k < |sts|
      ensures sts[k] == additions[k - 4]
    {
      assert sts[k] == sts[4..][k - 4];
    }
    assert sts[4] == additions[0] && sts[5] == additions[1] && sts[6] == additions[2] && sts[8] == additions[4];
  }

  lemma AdditionsAre()
    ensures var additions := Additions();
            && 5 <= |additions|
            && additions[0].AddExitColumn? && additions[0].column == InitiatedByType
            && additions[1].AddExitColumn? && additions[1].column == ExitMode
            && additions[2].AddExitColumn? && additions[2].column == NoticePeriodDays
            && additions[4].AddExitColumn? && additions[4].column == ExitReasonNameSnapshot
            && forall k :: 0 <= k < |additions| ==>
                 && Guarded(additions[k])
                 && (additions[k].AddExitColumn? ==>
                       && additions[k].column != Reason && additions[k].column != ExitType
                       && (additions[k].column == ExitReasonNameSnapshot ==> additions[k].default == Null))
  {
  }

  lemma AllInputs(db: Database, i: nat)
    requires WellFormed(db) && i < |db.exits|
    ensures HasInputs(db.exits[i]) <==>
              forall c :: c in {ExitType, Reason, ExitMode, NoticePeriodDays, ExitReasonNameSnapshot}
                          ==> HasColumn(db.schema, ExitProcesses, c)
  {
    assert forall c :: c in db.exits[i] <==> HasColumn(db.schema, ExitProcesses, c);
  }

  lemma CompleteInParts(db: Database)
    ensures Complete(db) == match PerformAll(SchemaStatements(), db)
                            case Some(mid) => Perform(UpdateExits, mid)
                            case None => None
  {
    hide SchemaStatements;
    var sts := SchemaStatements();
    assert Statements()[..|sts|] == sts && Statements()[|sts|] == UpdateExits;
  }

  /** The columns the update names are there after the schema part exactly when the old ones were before it. */
  lemma UpdateColumnsAreThere(db: Database)
    requires PerformAll(SchemaStatements(), db).Some?
    ensures (forall c :: c in {ExitType, Reason, InitiatedByType, ExitMode, NoticePeriodDays, ExitReasonNameSnapshot}
                         ==> HasColumn(PerformAll(SchemaStatements(), db).value.schema, ExitProcesses, c))
       <==> HasOldColumns(db.schema)
  {
    SchemaStatementsAdd();
    hide SchemaStatements, HasColumn, AddsExitColumn;
    ExitColumnsStay(SchemaStatements(), db, ExitType);
    ExitColumnsStay(SchemaStatements(), db, Reason);
    ExitColumnsStay(SchemaStatements(), db, InitiatedByType);
    ExitColumnsStay(SchemaStatements(), db, ExitMode);
    ExitColumnsStay(SchemaStatements(), db, NoticePeriodDays);
    ExitColumnsStay(SchemaStatements(), db, ExitReasonNameSnapshot);
  }

  lemma UpdateCompletes(db: Database)
    requires WellFormed(db) && PerformAll(SchemaStatements(), db).Some?
    ensures Complete(db).Some? <==>
              HasOldColumns(db.schema) && forall i :: 0 <= i < |db.exits| ==> ReasonFits(db.exits[i])
  {
    var sts := SchemaStatements();
    CompleteInParts(db);
    SchemaStatementsAdd();
    hide SchemaStatements, PerformAll, HasInputs, ReasonFits, HasColumn, WellFormed, Statements, HasOldColumns,
        Complete;
    InputsSurvive(sts, db);
    KeepsWellFormed(sts, db);
    UpdateColumnsAreThere(db);
    var mid := PerformAll(sts, db).value;
    forall i: nat | i < |mid.exits|
      ensures HasInputs(mid.exits[i]) <==>
                forall c :: c in {ExitType, Reason, ExitMode, NoticePeriodDays, ExitReasonNameSnapshot}
                            ==> HasColumn(mid.schema, ExitProcesses, c)
    {
      AllInputs(mid, i);
    }
    assert Perform(UpdateExits, mid).Some? <==> CanUpdate(mid);
  }

  // ---------------------------------------------------------------- when the schema part completes

  lemma StructuresAre()
    ensures Structures(ReasonSteps()) ==
              [Structure(ReasonSteps()[0]), Structure(ReasonSteps()[1]), Structure(ReasonSteps()[2])]
  {
    var steps := ReasonSteps();
    assert steps[..2] == [steps[0], steps[1]] && steps[..2][..1] == [steps[0]] && steps[..2][..1][..0] == [];
    assert Structures([]) == [] && Structures([steps[0]]) == [Structure(steps[0])];
  }

  lemma {:induction false} PerformAppend(a: seq<Statement>, b: seq<Statement>, db: Database)
    ensures PerformAll(a + b, db) == if PerformAll(a, db).Some? then PerformAll(b, PerformAll(a, db).value) else None
  {
    hide Perform;
    if b == [] {
      assert a + b == a;
    } else {
      var n := |b| - 1;
      PerformAppend(a, b[..n], db);
      assert (a + b)[..|a + b| - 1] == a + b[..n];
    }
  }

  /** Structural statements are a run of their steps. */
  lemma {:induction false} StructuresRun(steps: seq<Step>, db: Database)
    ensures var o := Run(steps, db.schema);
            PerformAll(Structures(steps), db) == if o.completed then Some(db.(schema := o.schema)) else None
  {
    hide Apply;
    if steps == [] {
    } else {
      var n := |steps| - 1;
      StructuresRun(steps[..n], db);
      var sts := Structures(steps);
      assert sts[..|sts| - 1] == Structures(steps[..n]);
    }
  }

  /** Columns that refer to nothing or to an existing table can always be added to an existing one. */
  lemma {:induction false} AdditionsSucceed(sts: seq<Statement>, db: Database)
    requires ExitProcesses in db.schema.tables
    requires forall i :: 0 <= i < |sts| ==>
               sts[i].AddExitColumn?
               && (sts[i].definition.references.Some? ==> sts[i].definition.references.value in db.schema.tables)
    ensures PerformAll(sts, db).Some? && PerformAll(sts, db).value.schema.tables.Keys == db.schema.tables.Keys
  {
    if sts == [] {
    } else {
      var n := |sts| - 1;
      AdditionsSucceed(sts[..n], db);
      assert sts[n].AddExitColumn?;
    }
  }

  /** What the schema part asks of a schema. */
  ghost predicate CanAlter(s: Schema) {
    && ExitProcesses in s.tables
    && (ExitReasons in s.tables || {Businesses, Users} <= s.tables.Keys)
    && forall i :: 0 <= i < |ReasonIndexes()| ==>
                     IndexReady(ReasonIndexes()[i], s, ColumnsOf(s, ExitReasons, ReasonColumns()))
  }

  lemma ReasonReferences(s: Schema)
    ensures ReferencesExist(s, ExitReasons, ReasonColumns()) <==> {Businesses, Users} <= s.tables.Keys
  {
    var c := ReasonColumns();
    assert c[BusinessId] == To(Businesses) && c[CreatedById] == To(Users);
  }

  lemma SchemaPartCompletes(db: Database)
    ensures PerformAll(SchemaStatements(), db).Some? <==> CanAlter(db.schema)
  {
    var require, reasons := [RequireTable(ExitProcesses)], Structures(ReasonSteps());
    hide Structures, Additions, ReasonIndexes, ReasonColumns, IndexReady;
    PerformAppend(require + reasons, Additions(), db);
    PerformAppend(require, reasons, db);
    assert require[..0] == [] && PerformAll([], db) == Some(db);
    hide PerformAll;
    StructuresRun(ReasonSteps(), db);
    ReasonReferences(db.schema);
    assert AreIndexSteps(ReasonIndexes(), ExitReasons) by { ReasonIndexesAre(); }
    CreateAndIndex(ExitReasons, ReasonColumns(), ReasonIndexes(), db.schema);
    hide Run, ReferencesExist;
    if ExitProcesses in db.schema.tables && Run(ReasonSteps(), db.schema).completed {
      AdditionsRefer();
      AdditionsSucceed(Additions(), db.(schema := Run(ReasonSteps(), db.schema).schema));
    }
  }

  lemma ReasonIndexesAre()
    ensures AreIndexSteps(ReasonIndexes(), ExitReasons)
  {
  }

  lemma AdditionsRefer()
    ensures forall i :: 0 <= i < |Additions()| ==>
              Additions()[i].AddExitColumn?
              && (Additions()[i].definition.references.Some? ==>
                  Additions()[i].definition.references.value == ExitReasons)
  {
  }

  /**
   * `up` completes exactly when its tables and indexes are there or can be made, the old columns are there, and no row
   * without a snapshot has a reason longer than the snapshot column.
   */
  lemma UpCompletes(db: Database)
    requires WellFormed(db)
    ensures Complete(db).Some? <==>
              && CanAlter(db.schema) && HasOldColumns(db.schema)
              && forall i :: 0 <= i < |db.exits| ==> ReasonFits(db.exits[i])
  {
    SchemaPartCompletes(db);
    CompleteInParts(db);
    hide SchemaStatements, PerformAll, WellFormed, HasOldColumns, Complete, CanAlter;
    if PerformAll(SchemaStatements(), db).Some? { UpdateCompletes(db); }
  }

  // ---------------------------------------------------------------- what a completed run leaves in the rows

  /** The columns the migration writes. */
  const WRITTEN := {InitiatedByType, ExitMode, NoticePeriodDays, ExitReasonId, ExitReasonNameSnapshot, LetterHtml}

  /** The value a statement gives to a new column. */
  predicate Gives(sts: seq<Statement>, c: ColumnName, v: Value) {
    exists k :: 0 <= k < |sts| && sts[k].AddExitColumn? && sts[k].column == c && sts[k].default == v
  }

  /** Schema statements keep every value and give new columns their defaults. */
  lemma {:induction false} RowsGrow(sts: seq<Statement>, db: Database, i: nat)
    requires forall k :: 0 <= k < |sts| ==> Guarded(sts[k])
    requires PerformAll(sts, db).Some? && WellFormed(db) && i < |db.exits|
    ensures var d := PerformAll(sts, db).value;
            && |d.exits| == |db.exits|
            && (forall c :: c in db.exits[i] ==> c in d.exits[i] && d.exits[i][c] == db.exits[i][c])
            && (forall c :: c in d.exits[i] && c !in db.exits[i] ==> Gives(sts, c, d.exits[i][c]))
    decreases |sts|
  {
    if sts == [] {
    } else {
      var n := |sts| - 1;
      var before, after := PerformAll(sts[..n], db).value, PerformAll(sts, db).value;
      RowsGrow(sts[..n], db, i);
      KeepsWellFormed(sts[..n], db);
      forall c | c in after.exits[i] && c !in db.exits[i]
        ensures Gives(sts, c, after.exits[i][c])
      {
        if c in before.exits[i] && after.exits[i][c] == before.exits[i][c] {
          assert Gives(sts[..n], c, before.exits[i][c]);
          var k :| 0 <= k < n && sts[..n][k].AddExitColumn? && sts[..n][k].column == c
                   && sts[..n][k].default == before.exits[i][c];
          assert sts[k] == sts[..n][k];
        } else {
          assert sts[n].AddExitColumn? && sts[n].column == c && sts[n].default == after.exits[i][c];
        }
      }
    }
  }

  lemma Defaults(c: ColumnName, v: Value)
    requires Gives(SchemaStatements(), c, v)
    ensures c in WRITTEN
    ensures c == ExitMode ==> v == Text("standard_notice")
    ensures c == NoticePeriodDays ==> v == Number(30)
    ensures c == ExitReasonNameSnapshot ==> v == Null
  {
    StructuresAre();
  }

  predicate Has(row: Row, c: ColumnName) {
    c in row && row[c] != Null
  }

  /** `grown` is `row` with new columns at their defaults. */
  ghost predicate IsGrown(row: Row, grown: Row) {
    && row.Keys <= grown.Keys <= row.Keys + WRITTEN
    && (forall c :: c in row ==> grown[c] == row[c])
    && (ExitMode in grown && ExitMode !in row ==> grown[ExitMode] == Text("standard_notice"))
    && (NoticePeriodDays in grown && NoticePeriodDays !in row ==> grown[NoticePeriodDays] == Number(30))
    && (ExitReasonNameSnapshot in grown && ExitReasonNameSnapshot !in row ==> grown[ExitReasonNameSnapshot] == Null)
  }

  lemma SchemaPartGrows(db: Database, i: nat)
    requires WellFormed(db) && PerformAll(SchemaStatements(), db).Some? && i < |db.exits|
    ensures var mid := PerformAll(SchemaStatements(), db).value;
            |mid.exits| == |db.exits| && IsGrown(db.exits[i], mid.exits[i])
  {
    SchemaStatementsAdd();
    RowsGrow(SchemaStatements(), db, i);
    var row, grown := db.exits[i], PerformAll(SchemaStatements(), db).value.exits[i];
    hide SchemaStatements, PerformAll, Gives, WellFormed;
    forall c | c in grown && c !in row
      ensures c in WRITTEN
      ensures c == ExitMode ==> grown[c] == Text("standard_notice")
      ensures c == NoticePeriodDays ==> grown[c] == Number(30)
      ensures c == ExitReasonNameSnapshot ==> grown[c] == Null
    {
      Defaults(c, grown[c]);
    }
  }

  lemma CompletedRow(db: Database, i: nat)
    requires WellFormed(db) && Complete(db).Some? && i < |db.exits|
    ensures |Complete(db).value.exits| == |db.exits| && ExitType in db.exits[i] && Reason in db.exits[i]
    ensures exists grown: Row ::
              IsGrown(db.exits[i], grown) && HasInputs(grown) && Complete(db).value.exits[i] == Updated(grown)
  {
    CompleteInParts(db);
    var mid := PerformAll(SchemaStatements(), db).value;
    SchemaPartGrows(db, i);
    UpdateColumnsAreThere(db);
    hide SchemaStatements, PerformAll, Complete, IsGrown, Updated;
    assert HasInputs(mid.exits[i]);
    assert HasOldColumns(db.schema);
  }

  /**
   * Who initiated an exit agrees with its type; mode, notice and snapshot keep the value they had, and otherwise are
   * the defaults and the reason; every other value stays.
   */
  ghost predicate IsCompletion(row: Row, done: Row) {
    && ExitType in row && Reason in row && row.Keys <= done.Keys <= row.Keys + WRITTEN
    && {InitiatedByType, ExitMode, NoticePeriodDays, ExitReasonNameSnapshot} <= done.Keys
    && done[InitiatedByType] == Text(if row[ExitType] == Text("resignation") then "employee" else "employer")
    && done[ExitMode] == (if Has(row, ExitMode) then row[ExitMode] else Text("standard_notice"))
    && done[NoticePeriodDays] == (if Has(row, NoticePeriodDays) then row[NoticePeriodDays] else Number(30))
    && done[ExitReasonNameSnapshot] ==
         (if Has(row, ExitReasonNameSnapshot) then row[ExitReasonNameSnapshot] else row[Reason])
    && forall c :: c in row && c !in {InitiatedByType, ExitMode, NoticePeriodDays, ExitReasonNameSnapshot} ==>
                     done[c] == row[c]
  }

  lemma UpdatedGrown(row: Row, grown: Row)
    requires IsGrown(row, grown) && HasInputs(grown) && ExitType in row && Reason in row
    ensures IsCompletion(row, Updated(grown))
  {
  }

  /** A completed run leaves every row completed. */
  lemma CompletedRows(db: Database, i: nat)
    requires WellFormed(db) && Complete(db).Some? && i < |db.exits|
    ensures |Complete(db).value.exits| == |db.exits| && IsCompletion(db.exits[i], Complete(db).value.exits[i])
  {
    hide Complete, WellFormed, IsGrown, HasInputs, Updated, IsCompletion;
    CompletedRow(db, i);
    var grown: Row :| IsGrown(db.exits[i], grown) && HasInputs(grown) && Complete(db).value.exits[i] == Updated(grown);
    UpdatedGrown(db.exits[i], grown);
  }
}
