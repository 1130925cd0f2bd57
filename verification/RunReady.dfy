/** When a run of guarded steps gets to its end, said of the schema it starts from. */
module RunReady {
  import opened Common
  import opened Schemas
  import opened SchemaChanges
  import opened RunOutcome

  predicate IsCreation(step: Step, t: TableName) {
    step.CreateTable? && step.table == t
  }

  predicate IsCreationWith(step: Step, t: TableName, c: ColumnName) {
    step.CreateTable? && step.table == t && c in step.columns
  }

  predicate IsAddition(step: Step, t: TableName, c: ColumnName) {
    step.AddColumn? && step.table == t && step.column == c
  }

  predicate IsNaming(step: Step, n: IndexName) {
    IsIndexStep(step) && step.name == n
  }

  predicate CreatesTable(steps: seq<Step>, t: TableName) {
    steps != [] && (CreatesTable(steps[..|steps| - 1], t) || IsCreation(steps[|steps| - 1], t))
  }

  predicate CreatesWith(steps: seq<Step>, t: TableName, c: ColumnName) {
    steps != [] && (CreatesWith(steps[..|steps| - 1], t, c) || IsCreationWith(steps[|steps| - 1], t, c))
  }

  predicate AddsColumn(steps: seq<Step>, t: TableName, c: ColumnName) {
    steps != [] && (AddsColumn(steps[..|steps| - 1], t, c) || IsAddition(steps[|steps| - 1], t, c))
  }

  predicate NamesIndex(steps: seq<Step>, n: IndexName) {
    steps != [] && (NamesIndex(steps[..|steps| - 1], n) || IsNaming(steps[|steps| - 1], n))
  }

  /** The table is there or the steps make it. */
  predicate TableComes(steps: seq<Step>, s: Schema, t: TableName) {
    t in s.tables || CreatesTable(steps, t)
  }

  /** The column is there, or the steps add it, or make its table with it. */
  predicate ColumnComes(steps: seq<Step>, s: Schema, t: TableName, c: ColumnName) {
    HasColumn(s, t, c) || AddsColumn(steps, t, c) || (t !in s.tables && CreatesWith(steps, t, c))
  }

  predicate IndexComes(steps: seq<Step>, s: Schema, n: IndexName) {
    n in s.indexes || NamesIndex(steps, n)
  }

  /** What the table's foreign keys refer to is there or made by the steps; a table may refer to itself. */
  predicate TargetsCome(steps: seq<Step>, s: Schema, t: TableName, columns: Table) {
    forall c :: c in columns && columns[c].references.Some? ==>
                  columns[c].references.value == t || TableComes(steps, s, columns[c].references.value)
  }

  predicate FieldsCome(steps: seq<Step>, s: Schema, x: Index) {
    TableComes(steps, s, x.table) && forall f :: f in x.fields ==> ColumnComes(steps, s, x.table, f)
  }

  /** Said of the schema before the run and the steps before this one: it finds its work done or can do it. */
  predicate Ready(steps: seq<Step>, step: Step, s: Schema) {
    match step
    case CreateTable(t, columns) => t in s.tables || TargetsCome(steps, s, t, columns)
    case AddColumn(t, c, d) =>
      TableComes(steps, s, t) && (ColumnComes(steps, s, t, c) || TargetsCome(steps, s, t, map[c := d]))
    case ChangeColumn(t, c, d) =>
      TableComes(steps, s, t) && (ColumnComes(steps, s, t, c) ==> TargetsCome(steps, s, t, map[c := d]))
    case AddIndex(n, x) => if n in s.indexes then s.indexes[n].table == x.table else FieldsCome(steps, s, x)
    case EnsureIndex(n, x) => n in s.indexes || FieldsCome(steps, s, x)
  }

  /** Tables, columns and index names are those that were there and those that the steps make. */
  ghost predicate Follows(steps: seq<Step>, s: Schema, u: Schema) {
    && (forall t :: t in u.tables <==> TableComes(steps, s, t))
    && (forall t, c :: HasColumn(u, t, c) <==> ColumnComes(steps, s, t, c))
    && (forall n :: n in u.indexes <==> IndexComes(steps, s, n))
    && (forall n :: n in s.indexes && n in u.indexes ==> u.indexes[n] == s.indexes[n])
  }

  lemma NothingFollows(s: Schema)
    ensures Follows([], s, s)
  {
  }

  lemma {:induction false} IsCreated(steps: seq<Step>, t: TableName, i: nat)
    requires i < |steps| && IsCreation(steps[i], t)
    ensures CreatesTable(steps, t)
  {
    hide IsCreation;
    if i < |steps| - 1 { IsCreated(steps[..|steps| - 1], t, i); }
  }

  lemma {:induction false} IsCreatedWith(steps: seq<Step>, t: TableName, c: ColumnName, i: nat)
    requires i < |steps| && IsCreationWith(steps[i], t, c)
    ensures CreatesWith(steps, t, c)
  {
    hide IsCreationWith;
    if i < |steps| - 1 { IsCreatedWith(steps[..|steps| - 1], t, c, i); }
  }

  lemma {:induction false} IsAdded(steps: seq<Step>, t: TableName, c: ColumnName, i: nat)
    requires i < |steps| && IsAddition(steps[i], t, c)
    ensures AddsColumn(steps, t, c)
  {
    hide IsAddition;
    if i < |steps| - 1 { IsAdded(steps[..|steps| - 1], t, c, i); }
  }

  lemma {:induction false} IsNamed(steps: seq<Step>, n: IndexName, i: nat)
    requires i < |steps| && IsNaming(steps[i], n)
    ensures NamesIndex(steps, n)
  {
    hide IsNaming;
    if i < |steps| - 1 { IsNamed(steps[..|steps| - 1], n, i); }
  }

  /** What a step makes of a schema, by tables, columns and index names. */
  ghost predicate Extends(step: Step, s: Schema, u: Schema) {
    && (forall t :: t in u.tables <==> t in s.tables || IsCreation(step, t))
    && (forall t, c :: HasColumn(u, t, c) <==>
          HasColumn(s, t, c) || IsAddition(step, t, c) || (t !in s.tables && IsCreationWith(step, t, c)))
    && (forall n :: n in u.indexes <==> n in s.indexes || IsNaming(step, n))
    && (forall n :: n in s.indexes && n in u.indexes ==> u.indexes[n] == s.indexes[n])
  }

  lemma ApplyExtends(step: Step, s: Schema)
    requires Apply(step, s).Some?
    ensures Extends(step, s, Apply(step, s).value)
  {
    hide ReferencesExist;
  }

  /** No table is created twice, and no index of one name made twice. */
  ghost predicate AllOnce(steps: seq<Step>) {
    forall i :: 0 <= i < |steps| ==> IsOnce(steps[..i], steps[i])
  }

  predicate IsOnce(before: seq<Step>, step: Step) {
    && (step.CreateTable? ==> !CreatesTable(before, step.table))
    && (IsIndexStep(step) ==> !NamesIndex(before, step.name))
  }

  lemma OnceBefore(steps: seq<Step>)
    requires steps != [] && AllOnce(steps)
    ensures AllOnce(steps[..|steps| - 1]) && IsOnce(steps[..|steps| - 1], steps[|steps| - 1])
  {
    hide IsOnce;
    var m := |steps| - 1;
    assert forall i :: 0 <= i < m ==> steps[..m][i] == steps[i] && steps[..m][..i] == steps[..i];
  }

  lemma CreatedWithIsCreated(step: Step, t: TableName, c: ColumnName)
    requires IsCreationWith(step, t, c)
    ensures IsCreation(step, t) && step.CreateTable? && step.table == t
  {
  }

  lemma FollowsOn(steps: seq<Step>, s: Schema, before: Schema, after: Schema)
    requires steps != [] && IsOnce(steps[..|steps| - 1], steps[|steps| - 1])
    requires Follows(steps[..|steps| - 1], s, before) && Extends(steps[|steps| - 1], before, after)
    ensures Follows(steps, s, after)
  {
    var m := |steps| - 1;
    forall t, c | IsCreationWith(steps[m], t, c) { CreatedWithIsCreated(steps[m], t, c); }
    hide IsCreation, IsCreationWith, IsAddition, IsNaming;
  }

  lemma {:induction false} RunFollows(steps: seq<Step>, s: Schema)
    requires AllOnce(steps) && Run(steps, s).completed
    ensures Follows(steps, s, Run(steps, s).schema)
  {
    if steps == [] {
      NothingFollows(s);
    } else {
      hide Apply, Follows, AllOnce, IsOnce, Extends;
      var m := |steps| - 1;
      var before := Run(steps[..m], s).schema;
      OnceBefore(steps);
      RunFollows(steps[..m], s);
      ApplyExtends(steps[m], before);
      FollowsOn(steps, s, before, Apply(steps[m], before).value);
    }
  }

  lemma TargetsFollow(steps: seq<Step>, s: Schema, u: Schema, t: TableName, columns: Table)
    requires Follows(steps, s, u)
    ensures ReferencesExist(u, t, columns) <==> TargetsCome(steps, s, t, columns)
  {
    hide TableComes, ColumnComes, IndexComes;
  }

  lemma FieldsFollow(steps: seq<Step>, s: Schema, u: Schema, n: IndexName, x: Index)
    requires Follows(steps, s, u) && n !in u.indexes
    ensures CanIndex(u, n, x) <==> FieldsCome(steps, s, x)
  {
    hide TableComes, ColumnComes, IndexComes;
    if x.table in u.tables {
      assert forall f :: HasColumn(u, x.table, f) <==> f in u.tables[x.table];
    }
  }

  lemma TakenName(u: Schema, n: IndexName, x: Index)
    ensures n in u.indexes ==> !CanIndex(u, n, x)
  {
  }

  lemma ApplyWhenReady(steps: seq<Step>, step: Step, s: Schema, u: Schema)
    requires Follows(steps, s, u) && IsOnce(steps, step)
    ensures Apply(step, u).Some? <==> Ready(steps, step, s)
  {
    hide ReferencesExist, CanIndex, TargetsCome, FieldsCome, CreatesTable, NamesIndex, ColumnComes;
    match step
    case CreateTable(t, columns) => TargetsFollow(steps, s, u, t, columns);
    case AddColumn(t, c, d) =>
      TargetsFollow(steps, s, u, t, map[c := d]);
      assert HasColumn(u, t, c) <==> ColumnComes(steps, s, t, c);
    case ChangeColumn(t, c, d) =>
      TargetsFollow(steps, s, u, t, map[c := d]);
      assert HasColumn(u, t, c) <==> ColumnComes(steps, s, t, c);
    case AddIndex(n, x) =>
      TakenName(u, n, x);
      if n !in u.indexes { FieldsFollow(steps, s, u, n, x); }
    case EnsureIndex(n, x) => if n !in u.indexes { FieldsFollow(steps, s, u, n, x); }
  }

  /** A run completes exactly when every step of it is ready. */
  lemma {:induction false} RunCompletes(steps: seq<Step>, s: Schema)
    requires AllOnce(steps)
    ensures Run(steps, s).completed <==> forall i :: 0 <= i < |steps| ==> Ready(steps[..i], steps[i], s)
  {
    hide Apply, Ready, Follows, IsOnce;
    if steps == [] {
    } else {
      var m := |steps| - 1;
      OnceBefore(steps);
      RunCompletes(steps[..m], s);
      assert forall i :: 0 <= i < m ==> steps[..m][i] == steps[i] && steps[..m][..i] == steps[..i];
      if Run(steps[..m], s).completed {
        RunFollows(steps[..m], s);
        ApplyWhenReady(steps[..m], steps[m], s, Run(steps[..m], s).schema);
      }
    }
  }

  // ---------------------------------------------------------------- which step it was

  lemma {:induction false} WhoCreates(steps: seq<Step>, t: TableName) returns (i: nat)
    requires CreatesTable(steps, t)
    ensures i < |steps| && IsCreation(steps[i], t)
  {
    hide IsCreation;
    i := |steps| - 1;
    if !IsCreation(steps[i], t) { i := WhoCreates(steps[..i], t); }
  }

  lemma {:induction false} WhoAdds(steps: seq<Step>, t: TableName, c: ColumnName) returns (i: nat)
    requires AddsColumn(steps, t, c)
    ensures i < |steps| && IsAddition(steps[i], t, c)
  {
    hide IsAddition;
    i := |steps| - 1;
    if !IsAddition(steps[i], t, c) { i := WhoAdds(steps[..i], t, c); }
  }

  lemma {:induction false} WhoNames(steps: seq<Step>, n: IndexName) returns (i: nat)
    requires NamesIndex(steps, n)
    ensures i < |steps| && IsNaming(steps[i], n)
  {
    hide IsNaming;
    i := |steps| - 1;
    if !IsNaming(steps[i], n) { i := WhoNames(steps[..i], n); }
  }

  lemma OnceIfAlone(steps: seq<Step>)
    requires forall i :: 0 <= i < |steps| ==> IsAlone(steps, i)
    ensures AllOnce(steps)
  {
    hide IsAlone;
    forall i | 0 <= i < |steps|
      ensures IsOnce(steps[..i], steps[i])
    {
      AloneIsOnce(steps, i);
    }
  }

  lemma AloneIsOnce(steps: seq<Step>, i: nat)
    requires i < |steps| && IsAlone(steps, i)
    ensures IsOnce(steps[..i], steps[i])
  {
    assert forall j :: 0 <= j < i ==> steps[..i][j] == steps[j];
    if steps[i].CreateTable? && CreatesTable(steps[..i], steps[i].table) {
      var j := WhoCreates(steps[..i], steps[i].table);
    }
    if IsIndexStep(steps[i]) && NamesIndex(steps[..i], steps[i].name) {
      var j := WhoNames(steps[..i], steps[i].name);
    }
  }
}
