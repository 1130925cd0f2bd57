/** What the probation migration leaves behind, and from which schemas it completes. */
module ProbationOutcome {
  import opened Common
  import opened Schemas
  import opened ProbationMigration
  import opened RunOutcome

  // ---------------------------------------------------------------- any parts that guard no object twice

  /** Everything that was there is there, unchanged. */
  ghost predicate Keeps(c: Schema, p: Schema) {
    && (forall t :: t in c.tables ==> t in p.tables && p.tables[t] == c.tables[t])
    && (forall n :: n in c.indexes ==> n in p.indexes && p.indexes[n] == c.indexes[n])
  }

  /** The part's object is there, as the part describes it if it was not there before. */
  ghost predicate Stands(part: Part, c: Schema, p: Schema) {
    match part
    case TableUnlessThere(t, columns) => t in p.tables && (t !in c.tables ==> p.tables[t] == columns)
    case IndexUnlessThere(n, index) => n in p.indexes && (n !in c.indexes ==> p.indexes[n] == index)
    case IndexIfNotExists(n, index) => n in p.indexes && (n !in c.indexes ==> p.indexes[n] == index)
  }

  lemma EffectKeeps(part: Part, s: Schema)
    requires Effect(part, s, s).Some?
    ensures Keeps(s, Effect(part, s, s).value)
  {
    hide ReferencesExist;
  }

  lemma EffectStands(part: Part, c: Schema, s: Schema)
    requires Effect(part, s, s).Some?
    requires part.TableUnlessThere? ==> (part.table in s.tables <==> part.table in c.tables)
    requires !part.TableUnlessThere? ==> (part.name in s.indexes <==> part.name in c.indexes)
    ensures Stands(part, c, Effect(part, s, s).value)
  {
    hide CanIndex, ReferencesExist;
  }

  lemma StandsOn(part: Part, c: Schema, p: Schema, q: Schema)
    requires Stands(part, c, p) && Keeps(p, q)
    ensures Stands(part, c, q)
  {
  }

  lemma LastIsNotTested(parts: seq<Part>)
    requires TestedOnce(parts) && parts != []
    ensures var n := |parts| - 1;
            && TestedOnce(parts[..n])
            && (parts[n].TableUnlessThere? ==> !TableMade(parts[..n], parts[n].table))
            && (!parts[n].TableUnlessThere? ==> !IndexMade(parts[..n], parts[n].name))
  {
    var n := |parts| - 1;
    assert forall i :: 0 <= i < n ==> parts[..n][i] == parts[i] && !SameObject(parts[i], parts[n]);
  }

  /** Parts that complete leave all their objects and all that was there. */
  lemma {:induction false} OwnGuardsLeave(parts: seq<Part>, c: Schema)
    requires TestedOnce(parts) && WithOwnGuards(parts, c).Some?
    ensures Keeps(c, WithOwnGuards(parts, c).value)
    ensures forall i :: 0 <= i < |parts| ==> Stands(parts[i], c, WithOwnGuards(parts, c).value)
  {
    hide Effect, Stands, TableMade, IndexMade, SameObject;
    if parts == [] {
    } else {
      var n := |parts| - 1;
      var before, after := WithOwnGuards(parts[..n], c).value, WithOwnGuards(parts, c).value;
      LastIsNotTested(parts);
      OwnGuardsLeave(parts[..n], c);
      PendingDiffersInTested(parts[..n], c);
      EffectKeeps(parts[n], before);
      EffectStands(parts[n], c, before);
      forall i | 0 <= i < n
        ensures Stands(parts[i], c, after)
      {
        assert parts[..n][i] == parts[i];
        StandsOn(parts[i], c, before, after);
      }
    }
  }

  /** The table is there or made by the parts. */
  predicate TableReady(parts: seq<Part>, c: Schema, t: TableName) {
    t in c.tables || TableMade(parts, t)
  }

  /** The column is there, in the table as it was or else as the parts make it. */
  ghost predicate ColumnReady(parts: seq<Part>, c: Schema, t: TableName, f: ColumnName) {
    if t in c.tables then f in c.tables[t]
    else exists i :: 0 <= i < |parts| && parts[i].TableUnlessThere? && parts[i].table == t && f in parts[i].columns
  }

  ghost predicate FieldsReady(parts: seq<Part>, c: Schema, index: Index) {
    TableReady(parts, c, index.table) && forall f :: f in index.fields ==> ColumnReady(parts, c, index.table, f)
  }

  /** Said of the committed schema and the parts before: the part finds its object, or what it needs to make it. */
  ghost predicate PartReady(parts: seq<Part>, part: Part, c: Schema) {
    match part
    case TableUnlessThere(t, columns) =>
      || t in c.tables
      || forall x :: x in columns && columns[x].references.Some? ==>
                       columns[x].references.value == t || TableReady(parts, c, columns[x].references.value)
    case IndexUnlessThere(n, index) =>
      if n in c.indexes then c.indexes[n].table == index.table else FieldsReady(parts, c, index)
    case IndexIfNotExists(n, index) => n in c.indexes || FieldsReady(parts, c, index)
  }

  lemma PendingTables(parts: seq<Part>, c: Schema, t: TableName)
    requires TestedOnce(parts) && WithOwnGuards(parts, c).Some?
    ensures t in WithOwnGuards(parts, c).value.tables <==> TableReady(parts, c, t)
  {
    OwnGuardsLeave(parts, c);
    PendingDiffersInTested(parts, c);
    hide WithOwnGuards;
    if TableMade(parts, t) {
      var i :| 0 <= i < |parts| && parts[i].TableUnlessThere? && parts[i].table == t;
      assert Stands(parts[i], c, WithOwnGuards(parts, c).value);
    }
  }

  /** One part makes the table, so its columns are that part's. */
  lemma OneMaker(parts: seq<Part>, c: Schema, t: TableName, f: ColumnName, i: nat)
    requires TestedOnce(parts) && i < |parts| && parts[i].TableUnlessThere? && parts[i].table == t && t !in c.tables
    ensures ColumnReady(parts, c, t, f) <==> f in parts[i].columns
  {
    if ColumnReady(parts, c, t, f) {
      var j :| 0 <= j < |parts| && parts[j].TableUnlessThere? && parts[j].table == t && f in parts[j].columns;
      assert SameObject(parts[i], parts[j]) && SameObject(parts[j], parts[i]);
    }
  }

  lemma PendingColumns(parts: seq<Part>, c: Schema, t: TableName, f: ColumnName)
    requires TestedOnce(parts) && WithOwnGuards(parts, c).Some?
    requires TableReady(parts, c, t) && t in WithOwnGuards(parts, c).value.tables
    ensures f in WithOwnGuards(parts, c).value.tables[t] <==> ColumnReady(parts, c, t, f)
  {
    OwnGuardsLeave(parts, c);
    hide WithOwnGuards, TestedOnce;
    if t !in c.tables {
      var i :| 0 <= i < |parts| && parts[i].TableUnlessThere? && parts[i].table == t;
      assert Stands(parts[i], c, WithOwnGuards(parts, c).value);
      OneMaker(parts, c, t, f, i);
      hide ColumnReady;
    }
  }

  lemma PendingFields(parts: seq<Part>, c: Schema, n: IndexName, index: Index)
    requires TestedOnce(parts) && WithOwnGuards(parts, c).Some?
    ensures var p := WithOwnGuards(parts, c).value;
            n !in p.indexes ==> (CanIndex(p, n, index) <==> FieldsReady(parts, c, index))
  {
    hide WithOwnGuards, TestedOnce, ColumnReady;
    PendingTables(parts, c, index.table);
    if TableReady(parts, c, index.table) {
      forall f
        ensures f in WithOwnGuards(parts, c).value.tables[index.table] <==> ColumnReady(parts, c, index.table, f)
      {
        PendingColumns(parts, c, index.table, f);
      }
    }
  }

  lemma PendingReferences(parts: seq<Part>, c: Schema, t: TableName, columns: Table)
    requires TestedOnce(parts) && WithOwnGuards(parts, c).Some?
    ensures ReferencesExist(WithOwnGuards(parts, c).value, t, columns) <==>
              forall x :: x in columns && columns[x].references.Some? ==>
                            columns[x].references.value == t || TableReady(parts, c, columns[x].references.value)
  {
    hide WithOwnGuards, TestedOnce, TableReady;
    forall r
      ensures r in WithOwnGuards(parts, c).value.tables <==> TableReady(parts, c, r)
    {
      PendingTables(parts, c, r);
    }
  }

  lemma PartCompletes(parts: seq<Part>, part: Part, c: Schema)
    requires TestedOnce(parts) && WithOwnGuards(parts, c).Some?
    requires part.TableUnlessThere? ==> !TableMade(parts, part.table)
    requires !part.TableUnlessThere? ==> !IndexMade(parts, part.name)
    ensures var p := WithOwnGuards(parts, c).value;
            Effect(part, p, p).Some? <==> PartReady(parts, part, c)
  {
    PendingDiffersInTested(parts, c);
    hide WithOwnGuards, TestedOnce, CanIndex, ReferencesExist, FieldsReady, TableReady;
    match part
    case TableUnlessThere(t, columns) => PendingReferences(parts, c, t, columns);
    case IndexUnlessThere(n, index) => PendingFields(parts, c, n, index);
    case IndexIfNotExists(n, index) => PendingFields(parts, c, n, index);
  }

  /** The parts complete exactly when each of them is ready, which is said of the committed schema alone. */
  lemma {:induction false} OwnGuardsComplete(parts: seq<Part>, c: Schema)
    requires TestedOnce(parts)
    ensures WithOwnGuards(parts, c).Some? <==> forall i :: 0 <= i < |parts| ==> PartReady(parts[..i], parts[i], c)
  {
    hide Effect, PartReady, SameObject, TableMade, IndexMade;
    if parts == [] {
    } else {
      var n := |parts| - 1;
      LastIsNotTested(parts);
      OwnGuardsComplete(parts[..n], c);
      assert forall i :: 0 <= i < n ==> parts[..n][i] == parts[i] && parts[..n][..i] == parts[..i];
      if WithOwnGuards(parts[..n], c).Some? { PartCompletes(parts[..n], parts[n], c); }
    }
  }

  // ---------------------------------------------------------------- the migration

  /** Where the table was not there before: what its foreign keys refer to. */
  ghost predicate CompetenciesMade(p: Schema) {
    var t := PositionCompetencies;
    && t in p.tables
    && Refers(p, t, BusinessId, Businesses) && Refers(p, t, PositionId, Positions)
    && Refers(p, t, CreatedById, Users) && Refers(p, t, UpdatedById, Users)
  }

  ghost predicate ProbationsMade(p: Schema) {
    var t := EmployeeProbations;
    && t in p.tables
    && Refers(p, t, BusinessId, Businesses) && Refers(p, t, EmployeeRecordId, EmployeeRecords)
    && Refers(p, t, EmployeeUserId, Users) && Refers(p, t, PositionId, Positions)
    && Refers(p, t, DepartmentId, Departments) && Refers(p, t, ManagerUserId, Users)
    && Refers(p, t, FinalApproverUserId, Users) && Refers(p, t, ExitProcessId, ExitProcesses)
    && Refers(p, t, ParentProbationId, t) && Refers(p, t, CreatedById, Users) && Refers(p, t, UpdatedById, Users)
  }

  ghost predicate CriteriaMade(p: Schema) {
    var t := ProbationCriteria;
    && t in p.tables
    && Refers(p, t, BusinessId, Businesses) && Refers(p, t, ProbationId, EmployeeProbations)
    && Refers(p, t, SourcePositionCompetencyId, PositionCompetencies)
  }

  ghost predicate TablesMade(c: Schema, p: Schema) {
    && PositionCompetencies in p.tables && (PositionCompetencies !in c.tables ==> CompetenciesMade(p))
    && EmployeeProbations in p.tables && (EmployeeProbations !in c.tables ==> ProbationsMade(p))
    && ProbationCriteria in p.tables && (ProbationCriteria !in c.tables ==> CriteriaMade(p))
  }

  ghost predicate IndexesMade(c: Schema, p: Schema) {
    var (competencies, probations, criteria) := (PositionCompetencies, EmployeeProbations, ProbationCriteria);
    && Indexed(c, p, CompetenciesBusinessPosition, competencies, [BusinessId, PositionId], false)
    && Indexed(c, p, CompetenciesPositionActiveOrder, competencies, [PositionId, IsActive, SortOrder], false)
    && Indexed(c, p, CompetenciesPositionNameUnique, competencies, [PositionId, Name], true)
    && Indexed(c, p, ProbationsBusinessStatus, probations, [BusinessId, Status], false)
    && Indexed(c, p, ProbationsBusinessEndDate, probations, [BusinessId, ExpectedEndDate], false)
    && Indexed(c, p, ProbationsEmployeeStatus, probations, [EmployeeUserId, Status], false)
    && Indexed(c, p, ProbationsManagerStatus, probations, [ManagerUserId, Status], false)
    && Indexed(c, p, ProbationsOneOpenPerEmployee, probations, [BusinessId, EmployeeUserId], true)
    && Indexed(c, p, CriteriaBusinessProbation, criteria, [BusinessId, ProbationId], false)
    && Indexed(c, p, CriteriaProbationNameUnique, criteria, [ProbationId, Name], true)
  }

  lemma UpSettles(c: Schema)
    ensures var made := WithOwnGuards(Parts(), c);
            && (made.Some? ==> Up(c).completed && Up(c).schema == made.value)
            && (made.None? ==> !Up(c).completed && Up(c).schema == c)
  {
    hide Parts;
    UpAsWithOwnGuards(c);
  }

  lemma CompetencyTargets()
    ensures var m := CompetencyColumns();
            && KeyTo(m, BusinessId, Businesses) && KeyTo(m, PositionId, Positions)
            && KeyTo(m, CreatedById, Users) && KeyTo(m, UpdatedById, Users)
  {
  }

  lemma ProbationTargets()
    ensures var m := ProbationColumns();
            && KeyTo(m, BusinessId, Businesses) && KeyTo(m, EmployeeRecordId, EmployeeRecords)
            && KeyTo(m, EmployeeUserId, Users) && KeyTo(m, PositionId, Positions)
            && KeyTo(m, DepartmentId, Departments) && KeyTo(m, ManagerUserId, Users)
            && KeyTo(m, FinalApproverUserId, Users) && KeyTo(m, ExitProcessId, ExitProcesses)
            && KeyTo(m, ParentProbationId, EmployeeProbations) && KeyTo(m, CreatedById, Users)
            && KeyTo(m, UpdatedById, Users)
  {
  }

  lemma CriteriaTargets()
    ensures var m := CriteriaColumns();
            && KeyTo(m, BusinessId, Businesses) && KeyTo(m, ProbationId, EmployeeProbations)
            && KeyTo(m, SourcePositionCompetencyId, PositionCompetencies)
  {
  }

  lemma ColumnsAreMade(p: Schema)
    ensures PositionCompetencies in p.tables && p.tables[PositionCompetencies] == CompetencyColumns()
            ==> CompetenciesMade(p)
    ensures EmployeeProbations in p.tables && p.tables[EmployeeProbations] == ProbationColumns() ==> ProbationsMade(p)
    ensures ProbationCriteria in p.tables && p.tables[ProbationCriteria] == CriteriaColumns() ==> CriteriaMade(p)
  {
    CompetencyTargets();
    ProbationTargets();
    CriteriaTargets();
    hide CompetencyColumns, ProbationColumns, CriteriaColumns;
  }

  /** All objects of the migration, each as its part describes it. */
  lemma PartsAreMade(c: Schema, p: Schema)
    requires forall i :: 0 <= i < |Parts()| ==> Stands(Parts()[i], c, p)
    ensures TablesMade(c, p) && IndexesMade(c, p)
  {
    hide CompetencyColumns, ProbationColumns, CriteriaColumns, CompetenciesMade, ProbationsMade, CriteriaMade;
    var parts := Parts();
    ColumnsAreMade(p);
    assert TablesMade(c, p) by {
      assert Stands(parts[0], c, p) && Stands(parts[4], c, p) && Stands(parts[10], c, p);
    }
    hide TablesMade;
    assert Stands(parts[1], c, p) && Stands(parts[2], c, p) && Stands(parts[3], c, p);
    assert Stands(parts[5], c, p) && Stands(parts[6], c, p) && Stands(parts[7], c, p);
    assert Stands(parts[8], c, p) && Stands(parts[9], c, p);
    assert Stands(parts[11], c, p) && Stands(parts[12], c, p);
  }

  /** Every object is committed together with all that was there, or nothing is. */
  lemma UpLeaves(c: Schema)
    ensures !Up(c).completed ==> Up(c).schema == c
    ensures Up(c).completed ==>
              && Keeps(c, Up(c).schema) && TablesMade(c, Up(c).schema) && IndexesMade(c, Up(c).schema)
              && forall i :: 0 <= i < |Parts()| ==> Stands(Parts()[i], c, Up(c).schema)
  {
    UpSettles(c);
    PartsAreTestedOnce();
    hide Up, Parts, WithOwnGuards, Keeps, TestedOnce, Stands, TablesMade, IndexesMade;
    if Up(c).completed {
      OwnGuardsLeave(Parts(), c);
      PartsAreMade(c, Up(c).schema);
    }
  }

  // ---------------------------------------------------------------- when it completes

  /** The database has the index of the table by this name, or the name is free and the columns are there. */
  ghost predicate FindsOrIndexes(c: Schema, n: IndexName, t: TableName, fields: seq<ColumnName>) {
    if n in c.indexes then c.indexes[n].table == t else t in c.tables ==> forall f :: f in fields ==> f in c.tables[t]
  }

  /** The tables the migration refers to, where it has to make its own. */
  ghost predicate TargetsThere(c: Schema) {
    && (PositionCompetencies !in c.tables ==> Businesses in c.tables && Positions in c.tables && Users in c.tables)
    && (EmployeeProbations !in c.tables ==>
          && Businesses in c.tables && EmployeeRecords in c.tables && Users in c.tables && Positions in c.tables
          && Departments in c.tables && ExitProcesses in c.tables)
    && (ProbationCriteria !in c.tables ==> Businesses in c.tables)
  }

  ghost predicate IndexesReady(c: Schema) {
    var (competencies, probations, criteria) := (PositionCompetencies, EmployeeProbations, ProbationCriteria);
    && FindsOrIndexes(c, CompetenciesBusinessPosition, competencies, [BusinessId, PositionId])
    && FindsOrIndexes(c, CompetenciesPositionActiveOrder, competencies, [PositionId, IsActive, SortOrder])
    && FindsOrIndexes(c, CompetenciesPositionNameUnique, competencies, [PositionId, Name])
    && FindsOrIndexes(c, ProbationsBusinessStatus, probations, [BusinessId, Status])
    && FindsOrIndexes(c, ProbationsBusinessEndDate, probations, [BusinessId, ExpectedEndDate])
    && FindsOrIndexes(c, ProbationsEmployeeStatus, probations, [EmployeeUserId, Status])
    && FindsOrIndexes(c, ProbationsManagerStatus, probations, [ManagerUserId, Status])
    && (ProbationsOneOpenPerEmployee in c.indexes
        || FindsOrIndexes(c, ProbationsOneOpenPerEmployee, probations, [BusinessId, EmployeeUserId]))
    && FindsOrIndexes(c, CriteriaBusinessProbation, criteria, [BusinessId, ProbationId])
    && FindsOrIndexes(c, CriteriaProbationNameUnique, criteria, [ProbationId, Name])
  }

  /** Which of the three tables the parts before `i` make. */
  lemma MadeSoFar(i: nat, t: TableName)
    requires i <= |Parts()|
    ensures TableMade(Parts()[..i], t) <==>
              || (t.PositionCompetencies? && 0 < i) || (t.EmployeeProbations? && 4 < i)
              || (t.ProbationCriteria? && 10 < i)
  {
    hide CompetencyColumns, ProbationColumns, CriteriaColumns;
    var parts := Parts();
    assert forall k :: 0 <= k < i ==> parts[..i][k] == parts[k];
    assert parts[0].table.PositionCompetencies? && parts[4].table.EmployeeProbations?;
    assert parts[10].table.ProbationCriteria?;
    assert forall k :: 0 <= k < |parts| && parts[k].TableUnlessThere? ==> k == 0 || k == 4 || k == 10;
  }

  /** An index over columns that an earlier part makes, if the table is not there. */
  lemma FieldsOfMade(parts: seq<Part>, c: Schema, k: nat, i: nat, index: Index)
    requires TestedOnce(parts) && k < i <= |parts| && parts[k].TableUnlessThere? && parts[k].table == index.table
    requires forall f :: f in index.fields ==> f in parts[k].columns
    ensures FieldsReady(parts[..i], c, index) <==>
              (index.table in c.tables ==> forall f :: f in index.fields ==> f in c.tables[index.table])
  {
    var before := parts[..i];
    assert before[k] == parts[k];
    assert TableReady(before, c, index.table);
    if index.table !in c.tables {
      forall f | f in index.fields
        ensures ColumnReady(before, c, index.table, f)
      {
        assert f in before[k].columns;
      }
    }
  }

  /** The table part an index part follows. */
  function OwnTable(i: nat): nat {
    if i < 4 then 0 else if i < 10 then 4 else 10
  }

  /** Every index of the migration is over columns its own table is made with. */
  lemma IndexedColumnsAreMade(i: nat)
    requires i < |Parts()| && !Parts()[i].TableUnlessThere?
    ensures var (own, index) := (Parts()[OwnTable(i)], Parts()[i].index);
            && OwnTable(i) < i && own.TableUnlessThere? && own.table == index.table
            && forall f :: f in index.fields ==> f in own.columns
  {
  }

  lemma IndexPartReady(i: nat, c: Schema)
    requires i < |Parts()| && !Parts()[i].TableUnlessThere?
    ensures var part := Parts()[i];
            PartReady(Parts()[..i], part, c) <==>
              || (part.IndexIfNotExists? && part.name in c.indexes)
              || FindsOrIndexes(c, part.name, part.index.table, part.index.fields)
  {
    IndexedColumnsAreMade(i);
    PartsAreTestedOnce();
    hide Parts;
    FieldsOfMade(Parts(), c, OwnTable(i), i, Parts()[i].index);
    hide FieldsReady;
  }

  lemma CompetencyTargetsOnly(f: ColumnName)
    requires f in CompetencyColumns() && CompetencyColumns()[f].references.Some?
    ensures var r := CompetencyColumns()[f].references.value; r.Businesses? || r.Positions? || r.Users?
  {
  }

  lemma ProbationTargetsOnly(f: ColumnName)
    requires f in ProbationColumns() && ProbationColumns()[f].references.Some?
    ensures var r := ProbationColumns()[f].references.value;
            || r.Businesses? || r.EmployeeRecords? || r.Users? || r.Positions? || r.Departments? || r.ExitProcesses?
            || r.EmployeeProbations?
  {
  }

  lemma CriteriaTargetsOnly(f: ColumnName)
    requires f in CriteriaColumns() && CriteriaColumns()[f].references.Some?
    ensures var r := CriteriaColumns()[f].references.value;
            r.Businesses? || r.EmployeeProbations? || r.PositionCompetencies?
  {
  }

  ghost predicate Ready(i: nat, c: Schema)
    requires i < |Parts()|
  {
    PartReady(Parts()[..i], Parts()[i], c)
  }

  lemma CompetencyPartReady(c: Schema)
    ensures Ready(0, c) <==>
              PositionCompetencies in c.tables || (Businesses in c.tables && Positions in c.tables && Users in c.tables)
  {
    CompetencyTargets();
    forall f | f in CompetencyColumns() && CompetencyColumns()[f].references.Some? { CompetencyTargetsOnly(f); }
    hide CompetencyColumns, ProbationColumns, CriteriaColumns;
    MadeBefore(0);
  }

  lemma ProbationReferences(parts: seq<Part>, c: Schema)
    ensures var m := ProbationColumns();
            (forall x :: x in m && m[x].references.Some? ==>
                           m[x].references.value == EmployeeProbations || TableReady(parts, c, m[x].references.value))
            <==>
            && TableReady(parts, c, Businesses) && TableReady(parts, c, EmployeeRecords) && TableReady(parts, c, Users)
            && TableReady(parts, c, Positions) && TableReady(parts, c, Departments)
            && TableReady(parts, c, ExitProcesses)
  {
    ProbationTargets();
    forall f | f in ProbationColumns() && ProbationColumns()[f].references.Some? { ProbationTargetsOnly(f); }
    hide ProbationColumns, TableReady;
  }

  lemma ReadyIfThere(i: nat, c: Schema, t: TableName)
    requires i <= |Parts()| && !t.PositionCompetencies? && !t.EmployeeProbations? && !t.ProbationCriteria?
    ensures TableReady(Parts()[..i], c, t) <==> t in c.tables
  {
    MadeSoFar(i, t);
    hide Parts, TableMade;
  }

  lemma ProbationPartReady(c: Schema)
    ensures Ready(4, c) <==>
              || EmployeeProbations in c.tables
              || (&& Businesses in c.tables && EmployeeRecords in c.tables && Users in c.tables && Positions in c.tables
                  && Departments in c.tables && ExitProcesses in c.tables)
  {
    var before := Parts()[..4];
    ProbationReferences(before, c);
    ReadyIfThere(4, c, Businesses);
    ReadyIfThere(4, c, EmployeeRecords);
    ReadyIfThere(4, c, Users);
    ReadyIfThere(4, c, Positions);
    ReadyIfThere(4, c, Departments);
    ReadyIfThere(4, c, ExitProcesses);
    assert Parts()[4] == TableUnlessThere(EmployeeProbations, ProbationColumns());
    hide CompetencyColumns, ProbationColumns, CriteriaColumns, TableReady, Parts;
  }

  lemma CriteriaPartReady(c: Schema)
    ensures Ready(10, c) <==> ProbationCriteria in c.tables || Businesses in c.tables
  {
    CriteriaTargets();
    forall f | f in CriteriaColumns() && CriteriaColumns()[f].references.Some? { CriteriaTargetsOnly(f); }
    hide CompetencyColumns, ProbationColumns, CriteriaColumns;
    MadeBefore(10);
  }

  lemma MadeBefore(i: nat)
    requires i <= |Parts()|
    ensures forall t :: TableMade(Parts()[..i], t) <==>
                          || (t.PositionCompetencies? && 0 < i) || (t.EmployeeProbations? && 4 < i)
                          || (t.ProbationCriteria? && 10 < i)
  {
    hide Parts;
    forall t { MadeSoFar(i, t); }
  }

  lemma UpCompletesWhenReady(c: Schema)
    ensures |Parts()| == 13
    ensures Up(c).completed <==> forall i :: 0 <= i < 13 ==> Ready(i, c)
  {
    UpSettles(c);
    PartsAreTestedOnce();
    OwnGuardsComplete(Parts(), c);
    assert |Parts()| == 13;
    hide Up, Parts, PartReady, WithOwnGuards, TestedOnce;
    assert forall i :: 0 <= i < |Parts()| ==> (Ready(i, c) <==> PartReady(Parts()[..i], Parts()[i], c));
  }

  lemma AllThirteen(c: Schema)
    requires |Parts()| == 13
    ensures (forall i :: 0 <= i < 13 ==> Ready(i, c)) <==>
              && Ready(0, c) && Ready(1, c) && Ready(2, c) && Ready(3, c) && Ready(4, c) && Ready(5, c) && Ready(6, c)
              && Ready(7, c) && Ready(8, c) && Ready(9, c) && Ready(10, c) && Ready(11, c) && Ready(12, c)
  {
    hide Parts, Ready;
  }

  lemma CompetencyIndexesReady(c: Schema)
    ensures var t := PositionCompetencies;
            && (Ready(1, c) <==> FindsOrIndexes(c, CompetenciesBusinessPosition, t, [BusinessId, PositionId]))
            && (Ready(2, c) <==>
                  FindsOrIndexes(c, CompetenciesPositionActiveOrder, t, [PositionId, IsActive, SortOrder]))
            && (Ready(3, c) <==> FindsOrIndexes(c, CompetenciesPositionNameUnique, t, [PositionId, Name]))
  {
    IndexPartReady(1, c);
    IndexPartReady(2, c);
    IndexPartReady(3, c);
    hide PartReady, FindsOrIndexes, CompetencyColumns, ProbationColumns, CriteriaColumns;
  }

  lemma ProbationStatusIndexesReady(c: Schema)
    ensures var t := EmployeeProbations;
            && (Ready(5, c) <==> FindsOrIndexes(c, ProbationsBusinessStatus, t, [BusinessId, Status]))
            && (Ready(6, c) <==> FindsOrIndexes(c, ProbationsBusinessEndDate, t, [BusinessId, ExpectedEndDate]))
            && (Ready(7, c) <==> FindsOrIndexes(c, ProbationsEmployeeStatus, t, [EmployeeUserId, Status]))
  {
    IndexPartReady(5, c);
    IndexPartReady(6, c);
    IndexPartReady(7, c);
    hide PartReady, FindsOrIndexes, CompetencyColumns, ProbationColumns, CriteriaColumns;
  }

  lemma ProbationIndexesReady(c: Schema)
    ensures var t := EmployeeProbations;
            && (Ready(8, c) <==> FindsOrIndexes(c, ProbationsManagerStatus, t, [ManagerUserId, Status]))
            && (Ready(9, c) <==>
                  || ProbationsOneOpenPerEmployee in c.indexes
                  || FindsOrIndexes(c, ProbationsOneOpenPerEmployee, t, [BusinessId, EmployeeUserId]))
  {
    IndexPartReady(8, c);
    IndexPartReady(9, c);
    hide PartReady, FindsOrIndexes, CompetencyColumns, ProbationColumns, CriteriaColumns;
  }

  lemma CriteriaIndexesReady(c: Schema)
    ensures var t := ProbationCriteria;
            && (Ready(11, c) <==> FindsOrIndexes(c, CriteriaBusinessProbation, t, [BusinessId, ProbationId]))
            && (Ready(12, c) <==> FindsOrIndexes(c, CriteriaProbationNameUnique, t, [ProbationId, Name]))
  {
    IndexPartReady(11, c);
    IndexPartReady(12, c);
    hide PartReady, FindsOrIndexes, CompetencyColumns, ProbationColumns, CriteriaColumns;
  }

  /** The migration completes exactly when what it refers to is there, and each index, or else its columns. */
  lemma UpCompletes(c: Schema)
    ensures Up(c).completed <==> TargetsThere(c) && IndexesReady(c)
  {
    UpCompletesWhenReady(c);
    AllThirteen(c);
    CompetencyPartReady(c);
    ProbationPartReady(c);
    CriteriaPartReady(c);
    CompetencyIndexesReady(c);
    ProbationStatusIndexesReady(c);
    ProbationIndexesReady(c);
    CriteriaIndexesReady(c);
    hide Up, Ready, Parts, FindsOrIndexes;
  }

  /** From a schema without any of its objects: exactly when the six tables referred to are there. */
  lemma FreshUpCompletes(c: Schema)
    requires PositionCompetencies !in c.tables && EmployeeProbations !in c.tables && ProbationCriteria !in c.tables
    requires forall i :: 0 <= i < |Parts()| && !Parts()[i].TableUnlessThere? ==> Parts()[i].name !in c.indexes
    ensures Up(c).completed <==>
              && Businesses in c.tables && Users in c.tables && Positions in c.tables && Departments in c.tables
              && EmployeeRecords in c.tables && ExitProcesses in c.tables
  {
    UpCompletes(c);
    hide Up, CompetencyColumns, ProbationColumns, CriteriaColumns;
    var parts := Parts();
    assert parts[1].name !in c.indexes && parts[2].name !in c.indexes && parts[3].name !in c.indexes;
    assert parts[5].name !in c.indexes && parts[6].name !in c.indexes && parts[7].name !in c.indexes;
    assert parts[8].name !in c.indexes && parts[9].name !in c.indexes && parts[11].name !in c.indexes;
    assert parts[12].name !in c.indexes;
  }
}
