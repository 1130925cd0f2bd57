/** What a run of steps can have touched, and the steps that take things away. */
module SchemaChanges {
  import opened Common
  import opened Schemas

  predicate Creates(steps: seq<Step>, t: TableName) {
    exists i :: 0 <= i < |steps| && steps[i].CreateTable? && steps[i].table == t
  }

  predicate Alters(steps: seq<Step>, t: TableName) {
    exists i :: 0 <= i < |steps| && (steps[i].AddColumn? || steps[i].ChangeColumn?) && steps[i].table == t
  }

  predicate AltersColumn(steps: seq<Step>, t: TableName, c: ColumnName) {
    exists i :: 0 <= i < |steps| && (steps[i].AddColumn? || steps[i].ChangeColumn?) && steps[i].table == t
             && steps[i].column == c
  }

  predicate Indexes(steps: seq<Step>, n: IndexName, index: Index) {
    exists i :: 0 <= i < |steps| && (steps[i].AddIndex? || steps[i].EnsureIndex?) && steps[i].name == n
             && steps[i].index == index
  }

  predicate MakesTable(steps: seq<Step>, t: TableName, columns: Table) {
    CreateTable(t, columns) in steps
  }

  /** What was there stays, except for columns the steps name. */
  ghost predicate Preserves(steps: seq<Step>, s: Schema, u: Schema) {
    && (forall t :: t in s.tables ==> t in u.tables)
    && (forall t, c :: t in s.tables && !AltersColumn(steps, t, c) ==>
          (HasColumn(u, t, c) <==> HasColumn(s, t, c)) && (HasColumn(s, t, c) ==> u.tables[t][c] == s.tables[t][c]))
    && (forall n :: n in s.indexes ==> n in u.indexes && u.indexes[n] == s.indexes[n])
  }

  /** What is new was made by a step. */
  ghost predicate OnlyMakes(steps: seq<Step>, s: Schema, u: Schema) {
    && (forall t :: t in u.tables && t !in s.tables ==> Creates(steps, t))
    && (forall t :: t in u.tables && t !in s.tables && !Alters(steps, t) ==> MakesTable(steps, t, u.tables[t]))
    && (forall n :: n in u.indexes && n !in s.indexes ==> Indexes(steps, n, u.indexes[n]))
  }

  lemma PrefixIsLess(steps: seq<Step>, k: nat)
    requires k <= |steps|
    ensures forall t :: Creates(steps[..k], t) ==> Creates(steps, t)
    ensures forall t :: Alters(steps[..k], t) ==> Alters(steps, t)
    ensures forall t, c :: AltersColumn(steps[..k], t, c) ==> AltersColumn(steps, t, c)
    ensures forall n, index :: Indexes(steps[..k], n, index) ==> Indexes(steps, n, index)
    ensures forall t, columns :: MakesTable(steps[..k], t, columns) ==> MakesTable(steps, t, columns)
  {
    var p := steps[..k];
    assert forall i :: 0 <= i < k ==> p[i] == steps[i];
  }

  lemma {:induction false} RunPreserves(steps: seq<Step>, s: Schema)
    ensures Preserves(steps, s, Run(steps, s).schema)
  {
    if steps == [] {
    } else {
      var n := |steps| - 1;
      var last, before := steps[n], Run(steps[..n], s);
      RunPreserves(steps[..n], s);
      PrefixIsLess(steps, n);
      if before.completed && Apply(last, before.schema).Some? {
        if last.AddColumn? || last.ChangeColumn? { assert AltersColumn(steps, last.table, last.column); }
      }
    }
  }

  /** A step is what it is named for. */
  lemma StepIsNamed(steps: seq<Step>, n: nat)
    requires n < |steps|
    ensures match steps[n]
            case CreateTable(t, columns) => Creates(steps, t) && MakesTable(steps, t, columns)
            case AddColumn(t, c, definition) => Alters(steps, t)
            case ChangeColumn(t, c, definition) => Alters(steps, t)
            case AddIndex(x, index) => Indexes(steps, x, index)
            case EnsureIndex(x, index) => Indexes(steps, x, index)
  {
  }

  lemma MoreStepsMake(steps: seq<Step>, n: nat, s: Schema, u: Schema)
    requires n <= |steps| && OnlyMakes(steps[..n], s, u)
    ensures OnlyMakes(steps, s, u)
  {
    PrefixIsLess(steps, n);
    hide Creates, Alters, Indexes, MakesTable;
  }

  /** What one more step makes is named by it. */
  lemma ApplyOnlyMakes(steps: seq<Step>, n: nat, s: Schema, u: Schema)
    requires n < |steps| && OnlyMakes(steps, s, u) && Apply(steps[n], u).Some?
    ensures OnlyMakes(steps, s, Apply(steps[n], u).value)
  {
    StepIsNamed(steps, n);
    hide ReferencesExist, CanIndex, Creates, Alters, Indexes, MakesTable;
  }

  lemma {:induction false} RunOnlyMakes(steps: seq<Step>, s: Schema)
    ensures OnlyMakes(steps, s, Run(steps, s).schema)
  {
    hide ReferencesExist, CanIndex;
    if steps == [] {
    } else {
      var n := |steps| - 1;
      var last, before := steps[n], Run(steps[..n], s);
      RunOnlyMakes(steps[..n], s);
      hide OnlyMakes, Apply;
      MoreStepsMake(steps, n, s, before.schema);
      if before.completed && Apply(last, before.schema).Some? { ApplyOnlyMakes(steps, n, s, before.schema); }
    }
  }

  // ---------------------------------------------------------------- a table and its indexes

  lemma RunOne(step: Step, s: Schema)
    ensures Run([step], s) == match Apply(step, s)
                              case Some(t) => Outcome(t, true)
                              case None => Outcome(s, false)
  {
    assert [step][..0] == [];
    assert Run([step][..0], s) == Outcome(s, true);
  }

  /** Index steps on one table, each with a name of its own. */
  ghost predicate AreIndexSteps(steps: seq<Step>, t: TableName) {
    && (forall i :: 0 <= i < |steps| ==> steps[i].EnsureIndex? && steps[i].index.table == t)
    && (forall i, j :: 0 <= i < j < |steps| ==> steps[i].name != steps[j].name)
  }

  /** The name is taken, which ends the step, or the columns are there. */
  predicate IndexReady(step: Step, s: Schema, columns: Table)
    requires step.EnsureIndex?
  {
    step.name in s.indexes || forall f :: f in step.index.fields ==> f in columns
  }

  predicate CreateReady(s: Schema, t: TableName, columns: Table) {
    t in s.tables || ReferencesExist(s, t, columns)
  }

  /** The columns of a table, if it is there already, or else those it is created with. */
  function ColumnsOf(s: Schema, t: TableName, columns: Table): Table {
    if t in s.tables then s.tables[t] else columns
  }

  predicate IsNamed(steps: seq<Step>, n: IndexName) {
    exists i :: 0 <= i < |steps| && steps[i].EnsureIndex? && steps[i].name == n
  }

  lemma {:induction false} IndexStepsComplete(steps: seq<Step>, s: Schema, t: TableName)
    requires AreIndexSteps(steps, t) && t in s.tables
    ensures Run(steps, s).completed <==> forall i :: 0 <= i < |steps| ==> IndexReady(steps[i], s, s.tables[t])
    ensures Run(steps, s).schema.tables == s.tables
    ensures Run(steps, s).completed ==>
              forall n :: n in Run(steps, s).schema.indexes <==> n in s.indexes || IsNamed(steps, n)
  {
    if steps == [] {
    } else {
      var n := |steps| - 1;
      var last, before := steps[n], Run(steps[..n], s);
      assert forall i :: 0 <= i < n ==> steps[..n][i] == steps[i];
      hide Apply, IsNamed, IndexReady;
      IndexStepsComplete(steps[..n], s, t);
      OneMoreName(steps, t);
      if before.completed {
        IndexApplied(last, before.schema);
        NewNameReady(last, before.schema, s, s.tables[t]);
      }
    }
  }

  lemma NewNameReady(step: Step, s: Schema, u: Schema, columns: Table)
    requires step.EnsureIndex? && (step.name in s.indexes <==> step.name in u.indexes)
    ensures IndexReady(step, s, columns) <==> IndexReady(step, u, columns)
  {
  }

  lemma IndexApplied(step: Step, s: Schema)
    requires step.EnsureIndex? && step.index.table in s.tables
    ensures Apply(step, s).Some? <==> IndexReady(step, s, s.tables[step.index.table])
    ensures Apply(step, s).Some? ==>
              && Apply(step, s).value.tables == s.tables
              && forall n :: n in Apply(step, s).value.indexes <==> n in s.indexes || n == step.name
  {
  }

  lemma OneMoreName(steps: seq<Step>, t: TableName)
    requires steps != [] && AreIndexSteps(steps, t)
    ensures var n := |steps| - 1;
            && (forall x :: IsNamed(steps, x) <==> IsNamed(steps[..n], x) || x == steps[n].name)
            && !IsNamed(steps[..n], steps[n].name)
  {
    var n := |steps| - 1;
    assert forall i :: 0 <= i < n ==> steps[..n][i] == steps[i];
    forall x
      ensures IsNamed(steps, x) <==> IsNamed(steps[..n], x) || x == steps[n].name
    {
      if i :| 0 <= i < |steps| && steps[i].EnsureIndex? && steps[i].name == x && i < n {
        assert steps[..n][i] == steps[i];
      }
    }
  }

  /** Creating a table unless it is there, and indexing it, completes exactly when all of it was ready before. */
  lemma CreateAndIndex(t: TableName, columns: Table, indexes: seq<Step>, s: Schema)
    requires AreIndexSteps(indexes, t)
    ensures var o := Run([CreateTable(t, columns)] + indexes, s);
            && (o.completed <==>
                  && CreateReady(s, t, columns)
                  && forall i :: 0 <= i < |indexes| ==> IndexReady(indexes[i], s, ColumnsOf(s, t, columns)))
            && (o.completed ==>
                  && o.schema.tables == s.tables[t := ColumnsOf(s, t, columns)]
                  && forall n :: n in o.schema.indexes <==> n in s.indexes || IsNamed(indexes, n))
  {
    var create := CreateTable(t, columns);
    RunOne(create, s);
    RunAppend([create], indexes, s);
    if CreateReady(s, t, columns) {
      var created := Apply(create, s).value;
      assert created.tables == s.tables[t := ColumnsOf(s, t, columns)] && created.indexes == s.indexes;
      hide Run, ReferencesExist;
      IndexStepsComplete(indexes, created, t);
    }
  }

  // ---------------------------------------------------------------- taking away

  /** `removeColumn`: the column, its foreign key and the indexes over it. */
  function DropColumn(s: Schema, t: TableName, c: ColumnName): Schema
    requires t in s.tables
  {
    Schema(s.tables[t := s.tables[t] - {c}],
           map n | n in s.indexes && !(s.indexes[n].table == t && c in s.indexes[n].fields) :: s.indexes[n])
  }

  /** Some other table has a foreign key to `t`. */
  ghost predicate Referenced(s: Schema, t: TableName) {
    exists u, c :: u != t && HasColumn(s, u, c) && s.tables[u][c].references == Some(t)
  }

  predicate RefersTo(columns: Table, t: TableName) {
    exists c :: c in columns && columns[c].references == Some(t)
  }

  /** `dropTable` without CASCADE: refused while another table refers to it. */
  function DropTable(s: Schema, t: TableName): Option<Schema> {
    if exists u :: u in s.tables && u != t && RefersTo(s.tables[u], t) then None
    else Some(Schema(s.tables - {t}, map n | n in s.indexes && s.indexes[n].table != t :: s.indexes[n]))
  }

  lemma DropTableRefused(s: Schema, t: TableName)
    ensures DropTable(s, t).None? <==> Referenced(s, t)
  {
    forall u | u in s.tables
      ensures RefersTo(s.tables[u], t) <==> exists c :: HasColumn(s, u, c) && s.tables[u][c].references == Some(t)
    {
      assert forall c :: HasColumn(s, u, c) <==> c in s.tables[u];
    }
    hide RefersTo;
  }

  lemma DropColumnKeepsClosed(s: Schema, t: TableName, c: ColumnName)
    requires Closed(s) && t in s.tables
    ensures Closed(DropColumn(s, t, c))
  {
    var u := DropColumn(s, t, c);
    assert forall x, y :: HasColumn(u, x, y) ==> HasColumn(s, x, y) && u.tables[x][y] == s.tables[x][y];
  }

  lemma DropTableKeepsClosed(s: Schema, t: TableName)
    requires Closed(s) && DropTable(s, t).Some?
    ensures Closed(DropTable(s, t).value)
  {
    var u := DropTable(s, t).value;
    DropTableRefused(s, t);
    assert u.tables == s.tables - {t};
    assert forall n :: n in u.indexes <==> n in s.indexes && s.indexes[n].table != t;
    assert forall n :: n in u.indexes ==> u.indexes[n] == s.indexes[n];
    hide DropTable;
    forall x, y
      ensures HasColumn(u, x, y) <==> HasColumn(s, x, y) && x != t
      ensures HasColumn(u, x, y) ==> u.tables[x][y] == s.tables[x][y]
    {
    }
    hide HasColumn;
  }
}
