/** The overtime request migration: guarded column changes, columns and indexes, outside any transaction. */
module OvertimeMigration {
  import opened Common
  import opened Schemas
  import opened RunOutcome
  import opened RunReady
  import opened SchemaChanges
  import Restart

  function OnRequests(fields: seq<ColumnName>): Index {
    Index(OvertimeRequests, fields, false)
  }

  function Steps(): seq<Step> {
    [ChangeColumn(OvertimeRequests, StartTime, Plain("STRING(10)")),
     ChangeColumn(OvertimeRequests, EndTime, Plain("STRING(10)")),
     AddColumn(OvertimeRequests, RequestedDate, Plain("DATEONLY")),
     AddColumn(OvertimeRequests, ExpectedDurationMinutes, Plain("INTEGER")),
     AddColumn(OvertimeRequests, ExpectedEndTime, Plain("STRING(10)")),
     AddColumn(OvertimeRequests, RequestedAtUtc, Plain("DATE")),
     AddColumn(OvertimeRequests, RequestedBy, To(Users)),
     AddColumn(OvertimeRequests, ApprovedBy, To(Users)),
     AddColumn(OvertimeRequests, ApprovedAtUtc, Plain("DATE")),
     AddColumn(OvertimeRequests, OvertimeStartedAtUtc, Plain("DATE")),
     AddColumn(OvertimeRequests, ClosedBy, To(Users)),
     AddColumn(OvertimeRequests, ClosedAtUtc, Plain("DATE")),
     AddColumn(OvertimeRequests, OvertimeClosedAtUtc, Plain("DATE")),
     AddColumn(OvertimeRequests, ApprovedOvertimeMinutes, Plain("INTEGER NOT NULL DEFAULT 0")),
     AddIndex(OvertimeEmployeeDateStatus, OnRequests([BusinessId, EmployeeUserId, RequestedDate, Status])),
     AddIndex(OvertimeStatusStarted, OnRequests([BusinessId, Status, OvertimeStartedAtUtc])),
     AddIndex(OvertimeStatusClosed, OnRequests([BusinessId, Status, OvertimeClosedAtUtc]))]
  }

  /** `up` returns at once when the table is missing. */
  function Up(s: Schema): Outcome {
    if OvertimeRequests in s.tables then Run(Steps(), s) else Outcome(s, true)
  }

  method PerformUp(q: QueryInterface) returns (ok: bool)
    modifies q
    ensures Outcome(q.schema, ok) == Up(old(q.schema))
  {
    if OvertimeRequests !in q.schema.tables { return true; }
    ok := q.PerformAll(Steps());
  }

  /** `up` cut off after some steps. */
  function CutUp(s: Schema, cut: nat): Schema
    requires cut <= |Steps()|
  {
    if OvertimeRequests in s.tables then Run(Steps()[..cut], s).schema else s
  }

  function AfterCutUps(s: Schema, cuts: seq<nat>): Schema
    requires forall i :: 0 <= i < |cuts| ==> cuts[i] <= |Steps()|
  {
    if cuts == [] then s else CutUp(AfterCutUps(s, cuts[..|cuts| - 1]), cuts[|cuts| - 1])
  }

  /** No column is changed and then added or changed again. */
  lemma StepsChangeLast()
    ensures ChangesLast(Steps())
  {
    var steps := Steps();
    forall i, j | 0 <= i < j < |steps| && steps[i].ChangeColumn? && (steps[j].AddColumn? || steps[j].ChangeColumn?)
      ensures steps[i].table != steps[j].table || steps[i].column != steps[j].column
    {
      assert i < 2;
      assert steps[0].column == StartTime && steps[1].column == EndTime;
      assert forall k :: 2 <= k < 14 ==> steps[k].column != StartTime && steps[k].column != EndTime;
    }
  }

  lemma {:induction false} StepsKeepTable(steps: seq<Step>, s: Schema, t: TableName)
    requires t in s.tables
    ensures t in Run(steps, s).schema.tables
  {
    if steps == [] {
    } else {
      StepsKeepTable(steps[..|steps| - 1], s, t);
    }
  }

  /** Cut runs, as many as may be, and one full run converge, whether or not the table exists. */
  lemma {:induction false} RestartedUpConverges(s: Schema, cuts: seq<nat>)
    requires forall i :: 0 <= i < |cuts| ==> cuts[i] <= |Steps()|
    ensures Up(AfterCutUps(s, cuts)) == Up(s)
  {
    hide Steps;
    if cuts == [] {
    } else {
      var n := |cuts| - 1;
      RestartedUpConverges(s, cuts[..n]);
      var before := AfterCutUps(s, cuts[..n]);
      if OvertimeRequests in before.tables {
        StepsKeepTable(Steps()[..cuts[n]], before, OvertimeRequests);
        StepsChangeLast();
        Restart.RunAfterCut(Steps(), before, cuts[n]);
      }
    }
  }

  // ---------------------------------------------------------------- what up leaves

  /** Where a step stands in the migration, by the object it is about. */
  function Place(step: Step): nat {
    match step
    case AddIndex(n, _) => if n.OvertimeEmployeeDateStatus? then 14 else if n.OvertimeStatusStarted? then 15 else 16
    case CreateTable(_, _) => 17
    case EnsureIndex(_, _) => 17
    case _ =>
      match step.column
      case StartTime => 0
      case EndTime => 1
      case RequestedDate => 2
      case ExpectedDurationMinutes => 3
      case ExpectedEndTime => 4
      case RequestedAtUtc => 5
      case RequestedBy => 6
      case ApprovedBy => 7
      case ApprovedAtUtc => 8
      case OvertimeStartedAtUtc => 9
      case ClosedBy => 10
      case ClosedAtUtc => 11
      case OvertimeClosedAtUtc => 12
      case _ => 13
  }

  lemma StepsArePlaced()
    ensures |Steps()| == 17
    ensures forall i :: 0 <= i < 17 ==> Place(Steps()[i]) == i
    ensures forall i :: 0 <= i < 14 ==> Steps()[i].table == OvertimeRequests
    ensures forall i :: 0 <= i < 17 ==> (Steps()[i].ChangeColumn? <==> i < 2) && (Steps()[i].AddIndex? <==> 14 <= i)
    ensures forall i :: 0 <= i < 17 ==> !Steps()[i].CreateTable? && !Steps()[i].EnsureIndex?
  {
    PlacesAre();
    StepKinds();
    hide Steps, Place;
  }

  lemma PlacesAre()
    ensures |Steps()| == 17 && forall i :: 0 <= i < 17 ==> Place(Steps()[i]) == i
  {
  }

  lemma StepKinds()
    ensures |Steps()| == 17
    ensures forall i :: 0 <= i < 14 ==> Steps()[i].table == OvertimeRequests
    ensures forall i :: 0 <= i < 17 ==> (Steps()[i].ChangeColumn? <==> i < 2) && (Steps()[i].AddIndex? <==> 14 <= i)
    ensures forall i :: 0 <= i < 17 ==> !Steps()[i].CreateTable? && !Steps()[i].EnsureIndex?
  {
  }

  lemma StepsAreAlone(i: nat)
    requires i < |Steps()|
    ensures IsAlone(Steps(), i)
    ensures Steps()[i].AddColumn? || Steps()[i].ChangeColumn? ==> AltersAlone(Steps(), i)
  {
    StepsArePlaced();
    hide Steps;
  }

  /** What the step is for, said of the schema before and the schema after. */
  ghost predicate Leaves(step: Step, s: Schema, u: Schema) {
    match step
    case AddColumn(t, c, definition) => HasAs(s, u, t, c, definition)
    case ChangeColumn(t, c, definition) => Changed(s, u, t, c, definition)
    case AddIndex(n, x) => Indexed(s, u, n, x.table, x.fields, x.unique)
    case _ => false
  }

  lemma StepLeaves(s: Schema, i: nat)
    requires OvertimeRequests in s.tables && Run(Steps(), s).completed && i < |Steps()|
    ensures Leaves(Steps()[i], s, Run(Steps(), s).schema)
  {
    StepsAreAlone(i);
    StepsArePlaced();
    StepsChangeLast();
    hide Steps, Run, HasAs, Changed, Indexed, ChangesLast, IsAlone, AltersAlone;
    if i < 2 {
      RunChanges(Steps(), s, i);
    } else if i < 14 {
      RunHas(Steps(), s, i);
    } else {
      RunIndexes(Steps(), s, i);
    }
  }

  ghost predicate ColumnsMade(s: Schema, u: Schema) {
    var t := OvertimeRequests;
    && Changed(s, u, t, StartTime, Plain("STRING(10)")) && Changed(s, u, t, EndTime, Plain("STRING(10)"))
    && HasAs(s, u, t, RequestedDate, Plain("DATEONLY")) && HasAs(s, u, t, ExpectedDurationMinutes, Plain("INTEGER"))
    && HasAs(s, u, t, ExpectedEndTime, Plain("STRING(10)")) && HasAs(s, u, t, RequestedAtUtc, Plain("DATE"))
    && HasAs(s, u, t, RequestedBy, To(Users)) && HasAs(s, u, t, ApprovedBy, To(Users))
    && HasAs(s, u, t, ApprovedAtUtc, Plain("DATE")) && HasAs(s, u, t, OvertimeStartedAtUtc, Plain("DATE"))
    && HasAs(s, u, t, ClosedBy, To(Users)) && HasAs(s, u, t, ClosedAtUtc, Plain("DATE"))
    && HasAs(s, u, t, OvertimeClosedAtUtc, Plain("DATE"))
    && HasAs(s, u, t, ApprovedOvertimeMinutes, Plain("INTEGER NOT NULL DEFAULT 0"))
  }

  ghost predicate IndexesMade(s: Schema, u: Schema) {
    var t := OvertimeRequests;
    && Indexed(s, u, OvertimeEmployeeDateStatus, t, [BusinessId, EmployeeUserId, RequestedDate, Status], false)
    && Indexed(s, u, OvertimeStatusStarted, t, [BusinessId, Status, OvertimeStartedAtUtc], false)
    && Indexed(s, u, OvertimeStatusClosed, t, [BusinessId, Status, OvertimeClosedAtUtc], false)
  }

  lemma ObjectsAreMade(s: Schema, u: Schema)
    requires forall i :: 0 <= i < |Steps()| ==> Leaves(Steps()[i], s, u)
    ensures ColumnsMade(s, u) && IndexesMade(s, u)
  {
    hide HasAs, Changed, Indexed;
    var steps := Steps();
    assert Leaves(steps[0], s, u) && Leaves(steps[1], s, u) && Leaves(steps[2], s, u) && Leaves(steps[3], s, u);
    assert Leaves(steps[4], s, u) && Leaves(steps[5], s, u) && Leaves(steps[6], s, u) && Leaves(steps[7], s, u);
    assert Leaves(steps[8], s, u) && Leaves(steps[9], s, u) && Leaves(steps[10], s, u) && Leaves(steps[11], s, u);
    assert Leaves(steps[12], s, u) && Leaves(steps[13], s, u) && Leaves(steps[14], s, u);
    assert Leaves(steps[15], s, u) && Leaves(steps[16], s, u);
  }

  /** A run that completes leaves every column and index; without the table it does nothing. */
  lemma UpLeaves(s: Schema)
    ensures OvertimeRequests !in s.tables ==> Up(s) == Outcome(s, true)
    ensures OvertimeRequests in s.tables && Up(s).completed ==>
              ColumnsMade(s, Up(s).schema) && IndexesMade(s, Up(s).schema)
    ensures forall t, c :: HasColumn(s, t, c) && t != OvertimeRequests ==>
                             HasColumn(Up(s).schema, t, c) && Up(s).schema.tables[t][c] == s.tables[t][c]
  {
    hide Steps, Run, ColumnsMade, IndexesMade;
    if OvertimeRequests in s.tables {
      OnlyRequestsAltered();
      RunPreserves(Steps(), s);
      if Up(s).completed {
        forall i | 0 <= i < |Steps()| { StepLeaves(s, i); }
        hide Leaves;
        ObjectsAreMade(s, Up(s).schema);
      }
    }
  }

  lemma OnlyRequestsAltered()
    ensures forall t, c :: AltersColumn(Steps(), t, c) ==> t == OvertimeRequests
  {
    StepsArePlaced();
    hide Steps;
  }

  // ---------------------------------------------------------------- when it completes

  /** An index of the table has the name, or the name is free and the columns it needs besides new ones are there. */
  ghost predicate FindsOrIndexes(s: Schema, n: IndexName, fields: seq<ColumnName>)
    requires OvertimeRequests in s.tables
  {
    if n in s.indexes then s.indexes[n].table == OvertimeRequests
    else forall f :: f in fields ==> f in s.tables[OvertimeRequests]
  }

  lemma NotAdded(i: nat, c: ColumnName)
    requires i <= |Steps()| && (c.BusinessId? || c.EmployeeUserId? || c.Status?)
    ensures !AddsColumn(Steps()[..i], OvertimeRequests, c)
  {
    StepsArePlaced();
    assert Steps()[13].column == ApprovedOvertimeMinutes;
    hide Steps;
    assert forall j :: 0 <= j < i ==> Steps()[..i][j] == Steps()[j];
    if AddsColumn(Steps()[..i], OvertimeRequests, c) {
      var j := WhoAdds(Steps()[..i], OvertimeRequests, c);
    }
  }

  lemma NothingElseComes(i: nat, s: Schema, t: TableName)
    requires i <= |Steps()|
    ensures TableComes(Steps()[..i], s, t) <==> t in s.tables
    ensures t in s.tables ==> forall c ::
              ColumnComes(Steps()[..i], s, t, c) <==> HasColumn(s, t, c) || AddsColumn(Steps()[..i], t, c)
  {
    StepsArePlaced();
    hide Steps;
    assert forall j :: 0 <= j < i ==> Steps()[..i][j] == Steps()[j];
    if CreatesTable(Steps()[..i], t) {
      var j := WhoCreates(Steps()[..i], t);
    }
  }

  /** The three columns that refer to users, and who of them can be added. */
  lemma UserColumnReady(i: nat, s: Schema)
    requires OvertimeRequests in s.tables && i < |Steps()|
    requires Steps()[i].AddColumn? && Steps()[i].definition == To(Users)
    ensures Ready(Steps()[..i], Steps()[i], s) <==>
              Users in s.tables || HasColumn(s, OvertimeRequests, Steps()[i].column)
  {
    StepsArePlaced();
    NothingElseComes(i, s, OvertimeRequests);
    NothingElseComes(i, s, Users);
    hide Steps;
    assert forall j :: 0 <= j < i ==> Steps()[..i][j] == Steps()[j];
    var step := Steps()[i];
    if AddsColumn(Steps()[..i], OvertimeRequests, step.column) {
      var j := WhoAdds(Steps()[..i], OvertimeRequests, step.column);
    }
    assert map[step.column := To(Users)][step.column].references == Some(Users);
  }

  lemma PlainColumnReady(i: nat, s: Schema)
    requires OvertimeRequests in s.tables && i < |Steps()|
    requires Steps()[i].AddColumn? || Steps()[i].ChangeColumn?
    requires Steps()[i].definition.references.None?
    ensures Ready(Steps()[..i], Steps()[i], s)
  {
    StepsArePlaced();
    NothingElseComes(i, s, OvertimeRequests);
    hide Steps;
  }

  /** An index over an old column or two and one that step `k` adds. */
  lemma IndexReady(i: nat, k: nat, s: Schema, present: seq<ColumnName>, added: ColumnName)
    requires OvertimeRequests in s.tables && k < i < |Steps()| && Steps()[i].AddIndex?
    requires IsAddition(Steps()[k], OvertimeRequests, added)
    requires forall f :: f in present ==> f.BusinessId? || f.EmployeeUserId? || f.Status?
    requires Steps()[i].index.table == OvertimeRequests
    requires forall f :: f in Steps()[i].index.fields <==> f in present || f == added
    ensures Ready(Steps()[..i], Steps()[i], s) <==> FindsOrIndexes(s, Steps()[i].name, present)
  {
    NothingElseComes(i, s, OvertimeRequests);
    forall f | f in present { NotAdded(i, f); }
    hide Steps, IsAddition;
    assert Steps()[..i][k] == Steps()[k];
    IsAdded(Steps()[..i], OvertimeRequests, added, k);
    hide AddsColumn, TableComes, ColumnComes;
  }

  /** What `up` asks of a schema with the table: the users, or else the columns for them, and what is to be indexed. */
  ghost predicate CanUp(s: Schema)
    requires OvertimeRequests in s.tables
  {
    var t := OvertimeRequests;
    && (Users in s.tables || (HasColumn(s, t, RequestedBy) && HasColumn(s, t, ApprovedBy) && HasColumn(s, t, ClosedBy)))
    && FindsOrIndexes(s, OvertimeEmployeeDateStatus, [BusinessId, EmployeeUserId, Status])
    && FindsOrIndexes(s, OvertimeStatusStarted, [BusinessId, Status])
    && FindsOrIndexes(s, OvertimeStatusClosed, [BusinessId, Status])
  }

  lemma UserSteps()
    ensures |Steps()| == 17
    ensures Steps()[6] == AddColumn(OvertimeRequests, RequestedBy, To(Users))
    ensures Steps()[7] == AddColumn(OvertimeRequests, ApprovedBy, To(Users))
    ensures Steps()[10] == AddColumn(OvertimeRequests, ClosedBy, To(Users))
    ensures forall i :: 0 <= i < 14 && i != 6 && i != 7 && i != 10 ==> Steps()[i].definition.references.None?
  {
  }

  lemma IndexSteps()
    ensures var t := OvertimeRequests;
            && |Steps()| == 17
            && IsAddition(Steps()[2], t, RequestedDate) && IsAddition(Steps()[9], t, OvertimeStartedAtUtc)
            && IsAddition(Steps()[12], t, OvertimeClosedAtUtc)
            && Steps()[14] ==
                 AddIndex(OvertimeEmployeeDateStatus,
                          Index(t, [BusinessId, EmployeeUserId, RequestedDate, Status], false))
            && Steps()[15] ==
                 AddIndex(OvertimeStatusStarted, Index(t, [BusinessId, Status, OvertimeStartedAtUtc], false))
            && Steps()[16] ==
                 AddIndex(OvertimeStatusClosed, Index(t, [BusinessId, Status, OvertimeClosedAtUtc], false))
  {
  }

  lemma IndexStepsReady(s: Schema)
    requires OvertimeRequests in s.tables
    ensures |Steps()| == 17
    ensures Ready(Steps()[..14], Steps()[14], s) <==>
              FindsOrIndexes(s, OvertimeEmployeeDateStatus, [BusinessId, EmployeeUserId, Status])
    ensures Ready(Steps()[..15], Steps()[15], s) <==> FindsOrIndexes(s, OvertimeStatusStarted, [BusinessId, Status])
    ensures Ready(Steps()[..16], Steps()[16], s) <==> FindsOrIndexes(s, OvertimeStatusClosed, [BusinessId, Status])
  {
    IndexSteps();
    hide Steps, Ready, FindsOrIndexes, IsAddition;
    IndexReady(14, 2, s, [BusinessId, EmployeeUserId, Status], RequestedDate);
    IndexReady(15, 9, s, [BusinessId, Status], OvertimeStartedAtUtc);
    IndexReady(16, 12, s, [BusinessId, Status], OvertimeClosedAtUtc);
  }

  ghost predicate ReadyAt(i: nat, s: Schema)
    requires i < |Steps()|
  {
    Ready(Steps()[..i], Steps()[i], s)
  }

  lemma RunCompletesWhenReady(s: Schema)
    ensures Run(Steps(), s).completed <==> forall i :: 0 <= i < |Steps()| ==> ReadyAt(i, s)
  {
    forall i | 0 <= i < |Steps()| { StepsAreAlone(i); }
    hide Steps, Run, Ready, IsAlone, AllOnce;
    OnceIfAlone(Steps());
    RunCompletes(Steps(), s);
    assert forall i :: 0 <= i < |Steps()| ==> (ReadyAt(i, s) <==> Ready(Steps()[..i], Steps()[i], s));
  }

  lemma ColumnStepsReady(s: Schema)
    requires OvertimeRequests in s.tables
    ensures |Steps()| == 17
    ensures var t := OvertimeRequests;
            (forall i :: 0 <= i < 14 ==> ReadyAt(i, s)) <==>
              || Users in s.tables
              || (HasColumn(s, t, RequestedBy) && HasColumn(s, t, ApprovedBy) && HasColumn(s, t, ClosedBy))
  {
    UserSteps();
    StepsArePlaced();
    UserColumnReady(6, s);
    UserColumnReady(7, s);
    UserColumnReady(10, s);
    hide Steps, Ready, HasColumn;
    forall i | 0 <= i < 14 && i != 6 && i != 7 && i != 10
      ensures ReadyAt(i, s)
    {
      PlainColumnReady(i, s);
    }
    hide ReadyAt;
    assert (forall i :: 0 <= i < 14 ==> ReadyAt(i, s)) <==> ReadyAt(6, s) && ReadyAt(7, s) && ReadyAt(10, s);
  }

  /** The migration completes exactly when the table is missing or it can do its work. */
  lemma UpCompletes(s: Schema)
    ensures Up(s).completed <==> OvertimeRequests !in s.tables || CanUp(s)
  {
    if OvertimeRequests in s.tables {
      RunCompletesWhenReady(s);
      ColumnStepsReady(s);
      IndexStepsReady(s);
      hide Steps, Run, Ready, FindsOrIndexes, HasColumn;
      assert (forall i :: 0 <= i < 17 ==> ReadyAt(i, s)) <==>
               (forall i :: 0 <= i < 14 ==> ReadyAt(i, s)) && ReadyAt(14, s) && ReadyAt(15, s) && ReadyAt(16, s);
    }
  }

  /** A run that is cut off has done that many of the steps; one that is not is `up`. */
  lemma CutUpIs(s: Schema, cut: nat)
    requires cut <= |Steps()| && OvertimeRequests in s.tables
    ensures CutUp(s, cut) == Run(Steps()[..cut], s).schema
    ensures cut == |Steps()| ==> CutUp(s, cut) == Up(s).schema
  {
    hide Steps;
    assert Steps()[..|Steps()|] == Steps();
  }
}
