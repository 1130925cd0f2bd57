/** What the exit modes migration commits besides the completed rows: the schema, and the values of new columns. */
module ExitModesOutcome {
  import opened Common
  import opened Schemas
  import opened SchemaChanges
  import opened RunOutcome
  import opened ExitModesMigration

  /** The additions as steps on the schema. */
  function AddSteps(): seq<Step> {
    [AddColumn(ExitProcesses, InitiatedByType, Plain("STRING(20)")),
     AddColumn(ExitProcesses, ExitMode, Plain("STRING(30)")),
     AddColumn(ExitProcesses, NoticePeriodDays, Plain("INTEGER")),
     AddColumn(ExitProcesses, ExitReasonId, To(ExitReasons)),
     AddColumn(ExitProcesses, ExitReasonNameSnapshot, Plain("STRING(120)")),
     AddColumn(ExitProcesses, LetterHtml, Plain("TEXT"))]
  }

  function AllSteps(): seq<Step> {
    ReasonSteps() + AddSteps()
  }

  predicate IsAddStep(st: Statement, step: Step) {
    st.AddExitColumn? && step == AddColumn(ExitProcesses, st.column, st.definition)
  }

  lemma AdditionsMatch()
    ensures |Additions()| == |AddSteps()|
    ensures forall i :: 0 <= i < |Additions()| ==> IsAddStep(Additions()[i], AddSteps()[i])
  {
  }

  lemma {:induction false} AdditionsRun(sts: seq<Statement>, steps: seq<Step>, db: Database)
    requires |sts| == |steps| && forall i :: 0 <= i < |sts| ==> IsAddStep(sts[i], steps[i])
    requires PerformAll(sts, db).Some?
    ensures Run(steps, db.schema) == Outcome(PerformAll(sts, db).value.schema, true)
  {
    if sts == [] {
    } else {
      var n := |sts| - 1;
      AdditionsRun(sts[..n], steps[..n], db);
      assert IsAddStep(sts[n], steps[n]);
      hide PerformAll, ReferencesExist;
      AdditionApplies(sts[n], steps[n], PerformBefore(sts, db));
    }
  }

  ghost function PerformBefore(sts: seq<Statement>, db: Database): Database
    requires sts != [] && PerformAll(sts, db).Some?
  {
    PerformAll(sts[..|sts| - 1], db).value
  }

  lemma AdditionApplies(st: Statement, step: Step, db: Database)
    requires IsAddStep(st, step) && Perform(st, db).Some?
    ensures Apply(step, db.schema) == Some(Perform(st, db).value.schema)
  {
    hide ReferencesExist;
  }

  /** The schema that is committed is the one the steps run to. */
  lemma SchemaIsRun(db: Database)
    requires Complete(db).Some?
    ensures Run(AllSteps(), db.schema) == Outcome(Complete(db).value.schema, true)
    ensures ExitProcesses in db.schema.tables
  {
    SchemaPartCompletes(db);
    var require, reasons := [RequireTable(ExitProcesses)], Structures(ReasonSteps());
    hide Structures, Additions, ReasonSteps, AddSteps, IndexReady;
    CompleteInParts(db);
    var mid := PerformAll(SchemaStatements(), db).value;
    UpdateKeepsSchema(mid);
    assert SchemaStatements() == require + reasons + Additions();
    PerformAppend(require + reasons, Additions(), db);
    PerformAppend(require, reasons, db);
    assert require[..0] == [] && PerformAll([], db) == Some(db);
    hide PerformAll, SchemaStatements, Complete;
    StructuresRun(ReasonSteps(), db);
    AdditionsMatch();
    AdditionsRun(Additions(), AddSteps(), db.(schema := Run(ReasonSteps(), db.schema).schema));
    RunAppend(ReasonSteps(), AddSteps(), db.schema);
  }

  // ---------------------------------------------------------------- the objects

  lemma StepsAre()
    ensures |AllSteps()| == 9 && AllSteps()[0] == CreateTable(ExitReasons, ReasonColumns())
    ensures AllSteps()[1] == EnsureIndex(ExitReasonsBusinessActive, Index(ExitReasons, [BusinessId, IsActive], false))
    ensures AllSteps()[2] == EnsureIndex(ExitReasonsBusinessSort, Index(ExitReasons, [BusinessId, SortOrder], false))
    ensures forall i :: 3 <= i < 9 ==> AllSteps()[i] == AddSteps()[i - 3]
  {
    hide ReasonColumns, AddSteps;
    assert |AddSteps()| == 6 by { SixSteps(); }
  }

  lemma SixSteps()
    ensures |AddSteps()| == 6
    ensures forall i :: 0 <= i < 6 ==> AddSteps()[i].AddColumn? && AddSteps()[i].table == ExitProcesses
    ensures forall i, j :: 0 <= i < j < 6 ==> AddSteps()[i].column != AddSteps()[j].column
  {
  }

  lemma StepsAreAlone(i: nat)
    requires i < |AllSteps()|
    ensures ChangesLast(AllSteps()) && IsAlone(AllSteps(), i)
    ensures AllSteps()[i].AddColumn? ==> AltersAlone(AllSteps(), i)
    ensures !Alters(AllSteps(), ExitReasons)
  {
    StepsAre();
    SixSteps();
    hide AllSteps, AddSteps, ReasonColumns;
  }

  /** The six columns, as they were or else as defined, and the reasons with their indexes. */
  ghost predicate SchemaMade(s: Schema, u: Schema) {
    var t := ExitProcesses;
    && HasAs(s, u, t, InitiatedByType, Plain("STRING(20)")) && HasAs(s, u, t, ExitMode, Plain("STRING(30)"))
    && HasAs(s, u, t, NoticePeriodDays, Plain("INTEGER")) && HasAs(s, u, t, ExitReasonId, To(ExitReasons))
    && HasAs(s, u, t, ExitReasonNameSnapshot, Plain("STRING(120)")) && HasAs(s, u, t, LetterHtml, Plain("TEXT"))
    && ExitReasons in u.tables
    && (ExitReasons !in s.tables ==>
          Refers(u, ExitReasons, BusinessId, Businesses) && Refers(u, ExitReasons, CreatedById, Users))
    && Indexed(s, u, ExitReasonsBusinessActive, ExitReasons, [BusinessId, IsActive], false)
    && Indexed(s, u, ExitReasonsBusinessSort, ExitReasons, [BusinessId, SortOrder], false)
  }

  lemma ReasonsRefer(u: Schema)
    ensures ExitReasons in u.tables && u.tables[ExitReasons] == ReasonColumns() ==>
              Refers(u, ExitReasons, BusinessId, Businesses) && Refers(u, ExitReasons, CreatedById, Users)
  {
  }

  lemma RunMakes(s: Schema)
    requires Run(AllSteps(), s).completed && ExitProcesses in s.tables
    ensures SchemaMade(s, Run(AllSteps(), s).schema)
  {
    var u := Run(AllSteps(), s).schema;
    StepsAre();
    ReasonsRefer(u);
    hide AllSteps, ReasonColumns, Run, HasAs, Indexed, Refers, ChangesLast, IsAlone, AltersAlone, Alters;
    StepsAreAlone(0);
    StepsAreAlone(1);
    StepsAreAlone(2);
    RunCreates(AllSteps(), s, 0);
    RunIndexes(AllSteps(), s, 1);
    RunIndexes(AllSteps(), s, 2);
    forall i | 3 <= i < 9
      ensures HasAs(s, u, AllSteps()[i].table, AllSteps()[i].column, AllSteps()[i].definition)
    {
      SixSteps();
      StepsAreAlone(i);
      RunHas(AllSteps(), s, i);
    }
    assert AllSteps()[3] == AddSteps()[0] && AllSteps()[4] == AddSteps()[1] && AllSteps()[5] == AddSteps()[2];
    assert AllSteps()[6] == AddSteps()[3] && AllSteps()[7] == AddSteps()[4] && AllSteps()[8] == AddSteps()[5];
  }

  /** A completed run leaves all of the schema it is for, and every old column and index as it was. */
  lemma CompletedSchema(db: Database)
    requires Complete(db).Some?
    ensures var (s, u) := (db.schema, Complete(db).value.schema);
            && SchemaMade(s, u)
            && (forall t, c :: HasColumn(s, t, c) ==> HasColumn(u, t, c) && u.tables[t][c] == s.tables[t][c])
            && (forall n :: n in s.indexes ==> n in u.indexes && u.indexes[n] == s.indexes[n])
  {
    SchemaIsRun(db);
    NoColumnChanges();
    RunPreserves(AllSteps(), db.schema);
    hide AllSteps, Complete, Run, SchemaMade;
    RunMakes(db.schema);
    forall t, c | HasColumn(db.schema, t, c) { ColumnsKept(AllSteps(), db.schema, t, c); }
  }

  lemma NoColumnChanges()
    ensures forall i :: 0 <= i < |AllSteps()| ==> !AllSteps()[i].ChangeColumn?
  {
    StepsAre();
    SixSteps();
    hide AllSteps, AddSteps;
  }

  // ---------------------------------------------------------------- the other new columns, and failures

  lemma NewValueIsNull(sts: seq<Statement>, c: ColumnName, v: Value)
    requires sts == SchemaStatements() && (c.ExitReasonId? || c.LetterHtml?) && Gives(sts, c, v)
    ensures v == Null
  {
    StructuresAre();
  }

  /** The update writes neither of the two. */
  lemma UpdatedKeeps(row: Row, c: ColumnName)
    requires HasInputs(row) && (c.ExitReasonId? || c.LetterHtml?)
    ensures c in Updated(row) <==> c in row
    ensures c in row ==> Updated(row)[c] == row[c]
  {
  }

  /** The rows before the update. */
  lemma GrownRow(db: Database, i: nat, c: ColumnName)
    requires WellFormed(db) && Complete(db).Some? && i < |db.exits| && (c.ExitReasonId? || c.LetterHtml?)
    requires PerformAll(SchemaStatements(), db).Some?
    ensures var mid := PerformAll(SchemaStatements(), db).value;
            && |mid.exits| == |db.exits|
            && (HasColumn(mid.schema, ExitProcesses, c) ==> c in mid.exits[i])
            && (c in db.exits[i] ==> c in mid.exits[i] && mid.exits[i][c] == db.exits[i][c])
            && (c in mid.exits[i] && c !in db.exits[i] ==> mid.exits[i][c] == Null)
  {
    var sts := SchemaStatements();
    SchemaStatementsAdd();
    KeepsWellFormed(sts, db);
    RowsGrow(sts, db, i);
    var mid := PerformAll(sts, db).value;
    assert c in mid.exits[i] <==> HasColumn(mid.schema, ExitProcesses, c);
    hide *;
    if c in mid.exits[i] && c !in db.exits[i] { NewValueIsNull(sts, c, mid.exits[i][c]); }
  }

  lemma UpdatedRow(db: Database, i: nat)
    requires Perform(UpdateExits, db).Some? && i < |db.exits|
    ensures var d := Perform(UpdateExits, db).value;
            |d.exits| == |db.exits| && HasInputs(db.exits[i]) && d.exits[i] == Updated(db.exits[i])
  {
    hide Updated, HasInputs, ReasonFits;
  }

  lemma HasNewColumns(s: Schema, u: Schema, c: ColumnName)
    requires SchemaMade(s, u) && (c.ExitReasonId? || c.LetterHtml?)
    ensures HasColumn(u, ExitProcesses, c)
  {
    hide Indexed, Refers;
  }

  /** The reason's id and the letter are empty in every row that did not have them. */
  lemma NewColumnsAreEmpty(db: Database, i: nat, c: ColumnName)
    requires WellFormed(db) && Complete(db).Some? && i < |db.exits| && (c.ExitReasonId? || c.LetterHtml?)
    ensures |Complete(db).value.exits| == |db.exits| && c in Complete(db).value.exits[i]
    ensures Complete(db).value.exits[i][c] == if c in db.exits[i] then db.exits[i][c] else Null
  {
    hide *;
    CompleteInParts(db);
    CompletedSchema(db);
    HasNewColumns(db.schema, Complete(db).value.schema, c);
    GrownRow(db, i, c);
    var mid := PerformAll(SchemaStatements(), db).value;
    UpdateKeepsSchema(mid);
    UpdatedRow(mid, i);
    UpdatedKeeps(mid.exits[i], c);
  }

  /** A failure at any of the eleven statements, or of a commit that is not stored, leaves everything as it was. */
  lemma FailureLeavesAll(db: Database, failure: Failure)
    ensures failure.AtStatement? && failure.number < 11 ==> Up(db, Some(failure)) == db
    ensures failure == AtCommit(false) ==> Up(db, Some(failure)) == db
    ensures failure == AtCommit(true) ==> Up(db, Some(failure)) == Up(db, None)
    ensures Complete(db).Some? ==> Up(db, None) == Complete(db).value
    ensures Complete(db).None? ==> Up(db, None) == db
  {
    SchemaStatementsAre();
    SixSteps();
    AdditionsMatch();
    hide SchemaStatements, Complete, AddSteps, Additions;
  }
}
