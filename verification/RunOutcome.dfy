/** What a run that got to its end has left behind, object by object. */
module RunOutcome {
  import opened Common
  import opened Schemas
  import opened SchemaChanges
  import Restart

  ghost predicate Refers(s: Schema, t: TableName, f: ColumnName, target: TableName) {
    HasColumn(s, t, f) && s.tables[t][f].references == Some(target)
  }

  predicate KeyTo(columns: Table, f: ColumnName, target: TableName) {
    f in columns && columns[f].references == Some(target)
  }

  /** The index is there, over these columns if its name was free before. */
  ghost predicate Indexed(before: Schema, after: Schema, n: IndexName, t: TableName, fields: seq<ColumnName>,
                          unique: bool) {
    n in after.indexes && (n !in before.indexes ==> after.indexes[n] == Index(t, fields, unique))
  }

  /** The column is there, as it was, or else as defined. */
  ghost predicate HasAs(before: Schema, after: Schema, t: TableName, c: ColumnName, definition: Column) {
    && HasColumn(after, t, c)
    && after.tables[t][c] == if HasColumn(before, t, c) then before.tables[t][c] else definition
  }

  /** What the step is for is there. */
  ghost predicate Stands(step: Step, u: Schema) {
    match step
    case CreateTable(t, _) => t in u.tables
    case AddColumn(t, c, _) => HasColumn(u, t, c)
    case ChangeColumn(t, c, definition) => HasColumn(u, t, c) ==> u.tables[t][c] == definition
    case AddIndex(n, index) => n in u.indexes && u.indexes[n].table == index.table
    case EnsureIndex(n, _) => n in u.indexes
  }

  lemma SettledStands(step: Step, u: Schema)
    requires Settled(step, u)
    ensures Stands(step, u)
  {
    hide ReferencesExist;
    if step.ChangeColumn? && HasColumn(u, step.table, step.column) {
      assert Apply(step, u).value.tables[step.table][step.column] == step.definition;
    }
  }

  /** A completed run leaves what each of its steps is for. */
  lemma RunStands(steps: seq<Step>, s: Schema, i: nat)
    requires ChangesLast(steps) && Run(steps, s).completed && i < |steps|
    ensures Stands(steps[i], Run(steps, s).schema)
  {
    hide Settled, ChangesLast, Stands;
    Restart.DoneAll(steps, s);
    Restart.DoneIsSettled(steps, s, i);
    SettledStands(steps[i], Run(steps, s).schema);
  }

  /** Without errors a run is the run of its first part, one step, and the run of the rest. */
  lemma RunAround(steps: seq<Step>, s: Schema, i: nat)
    requires Run(steps, s).completed && i < |steps|
    ensures var before := Run(steps[..i], s);
            && before.completed && Apply(steps[i], before.schema).Some?
            && Run(steps[i + 1..], Apply(steps[i], before.schema).value) == Run(steps, s)
  {
    hide Apply, Run;
    var before := Run(steps[..i], s);
    assert steps == steps[..i] + ([steps[i]] + steps[i + 1..]);
    RunAppend(steps[..i], [steps[i]] + steps[i + 1..], s);
    RunAppend([steps[i]], steps[i + 1..], before.schema);
    RunOne(steps[i], before.schema);
  }

  /** The one step about a column leaves it as it was, or else as the step defines it. */
  lemma RunAdds(steps: seq<Step>, s: Schema, i: nat)
    requires Run(steps, s).completed && i < |steps| && steps[i].AddColumn? && steps[i].table in s.tables
    requires !AltersColumn(steps[..i], steps[i].table, steps[i].column)
    requires !AltersColumn(steps[i + 1..], steps[i].table, steps[i].column)
    ensures var (t, c, u) := (steps[i].table, steps[i].column, Run(steps, s).schema);
            && HasColumn(u, t, c)
            && u.tables[t][c] == if HasColumn(s, t, c) then s.tables[t][c] else steps[i].definition
  {
    RunAround(steps, s, i);
    var before := Run(steps[..i], s).schema;
    var (t, c, after) := (steps[i].table, steps[i].column, Apply(steps[i], before).value);
    RunPreserves(steps[..i], s);
    RunPreserves(steps[i + 1..], after);
    hide Run, AltersColumn, ReferencesExist;
    assert HasColumn(after, t, c);
  }

  predicate IsIndexStep(step: Step) {
    step.AddIndex? || step.EnsureIndex?
  }

  /** No other step creates the same table, or an index of the same name. */
  ghost predicate IsAlone(steps: seq<Step>, i: nat)
    requires i < |steps|
  {
    && (steps[i].CreateTable? ==>
          forall j :: 0 <= j < |steps| && steps[j].CreateTable? && j != i ==> steps[j].table != steps[i].table)
    && (IsIndexStep(steps[i]) ==>
          forall j :: 0 <= j < |steps| && IsIndexStep(steps[j]) && j != i ==> steps[j].name != steps[i].name)
  }

  /** A table that was not there before has the columns of the one step that creates it. */
  lemma RunCreates(steps: seq<Step>, s: Schema, i: nat)
    requires ChangesLast(steps) && Run(steps, s).completed && i < |steps| && steps[i].CreateTable?
    requires IsAlone(steps, i) && !Alters(steps, steps[i].table)
    ensures var (t, u) := (steps[i].table, Run(steps, s).schema);
            t in u.tables && (t !in s.tables ==> u.tables[t] == steps[i].columns)
  {
    RunStands(steps, s, i);
    RunOnlyMakes(steps, s);
    hide Run, ChangesLast, Alters;
    var (t, u) := (steps[i].table, Run(steps, s).schema);
    if t !in s.tables {
      assert MakesTable(steps, t, u.tables[t]);
      var j :| 0 <= j < |steps| && steps[j] == CreateTable(t, u.tables[t]);
    }
  }

  /** An index that was not there before is as the one step of its name makes it. */
  lemma RunIndexes(steps: seq<Step>, s: Schema, i: nat)
    requires ChangesLast(steps) && Run(steps, s).completed && i < |steps| && IsIndexStep(steps[i])
    requires IsAlone(steps, i)
    ensures var (x, u) := (steps[i].index, Run(steps, s).schema);
            Indexed(s, u, steps[i].name, x.table, x.fields, x.unique)
  {
    RunStands(steps, s, i);
    RunOnlyMakes(steps, s);
    hide Run, ChangesLast;
    var (n, u) := (steps[i].name, Run(steps, s).schema);
    if n !in s.indexes {
      assert Indexes(steps, n, u.indexes[n]);
    }
  }

  /** No other step adds or changes the same column. */
  ghost predicate AltersAlone(steps: seq<Step>, i: nat)
    requires i < |steps| && (steps[i].AddColumn? || steps[i].ChangeColumn?)
  {
    forall j :: 0 <= j < |steps| && (steps[j].AddColumn? || steps[j].ChangeColumn?) && j != i ==>
                  steps[j].table != steps[i].table || steps[j].column != steps[i].column
  }

  /** A column of a table that was there stays as it was, or is as the one step about it defines it. */
  lemma RunHas(steps: seq<Step>, s: Schema, i: nat)
    requires Run(steps, s).completed && i < |steps| && steps[i].AddColumn? && steps[i].table in s.tables
    requires AltersAlone(steps, i)
    ensures HasAs(s, Run(steps, s).schema, steps[i].table, steps[i].column, steps[i].definition)
  {
    assert forall j :: 0 <= j < i ==> steps[..i][j] == steps[j];
    assert forall j :: i < j < |steps| ==> steps[j] == steps[i + 1..][j - i - 1];
    assert !AltersColumn(steps[..i], steps[i].table, steps[i].column);
    assert !AltersColumn(steps[i + 1..], steps[i].table, steps[i].column);
    hide Run, AltersAlone, AltersColumn;
    RunAdds(steps, s, i);
  }

  /** The column is as defined, if it was there at all. */
  ghost predicate Changed(before: Schema, after: Schema, t: TableName, c: ColumnName, definition: Column) {
    HasColumn(before, t, c) ==> HasColumn(after, t, c) && after.tables[t][c] == definition
  }

  lemma {:induction false} ColumnsStay(steps: seq<Step>, s: Schema, t: TableName, c: ColumnName)
    requires HasColumn(s, t, c)
    ensures HasColumn(Run(steps, s).schema, t, c)
  {
    hide ReferencesExist, CanIndex;
    if steps == [] {
    } else {
      ColumnsStay(steps[..|steps| - 1], s, t, c);
    }
  }

  /** A column that was there is as the last change of it defines it. */
  lemma RunChanges(steps: seq<Step>, s: Schema, i: nat)
    requires ChangesLast(steps) && Run(steps, s).completed && i < |steps| && steps[i].ChangeColumn?
    ensures Changed(s, Run(steps, s).schema, steps[i].table, steps[i].column, steps[i].definition)
  {
    RunStands(steps, s, i);
    hide Run, ChangesLast;
    if HasColumn(s, steps[i].table, steps[i].column) { ColumnsStay(steps, s, steps[i].table, steps[i].column); }
  }

  /** Without changes of columns, every column that was there stays as it was. */
  lemma {:induction false} ColumnsKept(steps: seq<Step>, s: Schema, t: TableName, c: ColumnName)
    requires HasColumn(s, t, c) && forall i :: 0 <= i < |steps| ==> !steps[i].ChangeColumn?
    ensures HasColumn(Run(steps, s).schema, t, c) && Run(steps, s).schema.tables[t][c] == s.tables[t][c]
  {
    hide ReferencesExist, CanIndex;
    if steps == [] {
    } else {
      ColumnsKept(steps[..|steps| - 1], s, t, c);
    }
  }
}
