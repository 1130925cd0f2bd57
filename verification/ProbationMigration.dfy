/**
 * The probation migration: its writes belong to a transaction, its guards do not, so they see the schema as it was
 * committed before the run.
 */
module ProbationMigration {
  import opened Common
  import opened Schemas

  /** The guard of a step, evaluated on one view, and its unguarded effect, on the transaction's view. */
  datatype Part =
    | TableUnlessThere(table: TableName, columns: Table)
    | IndexUnlessThere(name: IndexName, index: Index)
    | IndexIfNotExists(name: IndexName, index: Index)   // the database's own check, inside the transaction

  function Effect(part: Part, guard: Schema, pending: Schema): Option<Schema> {
    match part
    case TableUnlessThere(t, columns) =>
      if t in guard.tables then Some(pending)
      else if t !in pending.tables && ReferencesExist(pending, t, columns)
      then Some(pending.(tables := pending.tables[t := columns]))
      else None
    case IndexUnlessThere(n, index) =>
      if n in guard.indexes && guard.indexes[n].table == index.table then Some(pending)
      else if CanIndex(pending, n, index) then Some(pending.(indexes := pending.indexes[n := index]))
      else None
    case IndexIfNotExists(n, index) =>
      if n in pending.indexes then Some(pending)
      else if CanIndex(pending, n, index) then Some(pending.(indexes := pending.indexes[n := index]))
      else None
  }

  /** The transaction's view after the parts, with guards on the committed view; None is an error. */
  function WithCommittedGuards(parts: seq<Part>, committed: Schema): Option<Schema> {
    if parts == [] then Some(committed)
    else
      var n := |parts| - 1;
      match WithCommittedGuards(parts[..n], committed)
      case None => None
      case Some(pending) => Effect(parts[n], committed, pending)
  }

  /** The same with every guard on the transaction's own view. */
  function WithOwnGuards(parts: seq<Part>, committed: Schema): Option<Schema> {
    if parts == [] then Some(committed)
    else
      var n := |parts| - 1;
      match WithOwnGuards(parts[..n], committed)
      case None => None
      case Some(pending) => Effect(parts[n], pending, pending)
  }

  /** Commit, or roll back to what was committed. */
  function Settle(pending: Option<Schema>, committed: Schema): Outcome {
    match pending
    case Some(s) => Outcome(s, true)
    case None => Outcome(committed, false)
  }

  predicate SameObject(a: Part, b: Part) {
    || (a.TableUnlessThere? && b.TableUnlessThere? && a.table == b.table)
    || (!a.TableUnlessThere? && !b.TableUnlessThere? && a.name == b.name)
  }

  /** No object is tested twice. */
  ghost predicate TestedOnce(parts: seq<Part>) {
    forall i, j :: 0 <= i < j < |parts| ==> !SameObject(parts[i], parts[j])
  }

  predicate TableMade(parts: seq<Part>, t: TableName) {
    exists i :: 0 <= i < |parts| && parts[i].TableUnlessThere? && parts[i].table == t
  }

  predicate IndexMade(parts: seq<Part>, n: IndexName) {
    exists i :: 0 <= i < |parts| && !parts[i].TableUnlessThere? && parts[i].name == n
  }

  /** The transaction's view differs from the committed one in objects tested so far only. */
  lemma {:induction false} PendingDiffersInTested(parts: seq<Part>, committed: Schema)
    requires WithOwnGuards(parts, committed).Some?
    ensures var pending := WithOwnGuards(parts, committed).value;
            && (forall t :: !TableMade(parts, t) ==> (t in pending.tables <==> t in committed.tables))
            && (forall n :: !IndexMade(parts, n) ==>
                  (n in pending.indexes <==> n in committed.indexes)
                  && (n in committed.indexes ==> pending.indexes[n] == committed.indexes[n]))
  {
    if parts == [] {
    } else {
      var n := |parts| - 1;
      PendingDiffersInTested(parts[..n], committed);
      forall t | TableMade(parts[..n], t)
        ensures TableMade(parts, t)
      {
        var i :| 0 <= i < n && parts[..n][i].TableUnlessThere? && parts[..n][i].table == t;
        assert parts[i].table == t;
      }
      forall x | IndexMade(parts[..n], x)
        ensures IndexMade(parts, x)
      {
        var i :| 0 <= i < n && !parts[..n][i].TableUnlessThere? && parts[..n][i].name == x;
        assert parts[i].name == x;
      }
      if parts[n].TableUnlessThere? {
        assert TableMade(parts, parts[n].table);
      } else {
        assert IndexMade(parts, parts[n].name);
      }
    }
  }

  /** A part whose object stands alike in both views does the same under both guards. */
  lemma SameEffect(part: Part, committed: Schema, pending: Schema)
    requires part.TableUnlessThere? ==> (part.table in pending.tables <==> part.table in committed.tables)
    requires !part.TableUnlessThere? ==>
               && (part.name in pending.indexes <==> part.name in committed.indexes)
               && (part.name in committed.indexes ==> pending.indexes[part.name] == committed.indexes[part.name])
    ensures Effect(part, committed, pending) == Effect(part, pending, pending)
  {
    hide CanIndex, ReferencesExist;
  }

  /**
   * Guards that miss the transaction's own changes decide alike, in success and in failure, if nothing is tested twice.
   */
  lemma {:induction false} GuardsMayReadCommitted(parts: seq<Part>, committed: Schema)
    requires TestedOnce(parts)
    ensures WithCommittedGuards(parts, committed) == WithOwnGuards(parts, committed)
  {
    hide Effect;
    if parts == [] {
    } else {
      var n := |parts| - 1;
      GuardsMayReadCommitted(parts[..n], committed);
      if WithOwnGuards(parts[..n], committed).Some? {
        PendingDiffersInTested(parts[..n], committed);
        var last := parts[n];
        assert forall i :: 0 <= i < n ==> !SameObject(parts[i], last);
        if last.TableUnlessThere? {
          assert !TableMade(parts[..n], last.table);
        } else {
          assert !IndexMade(parts[..n], last.name);
        }
        SameEffect(last, committed, WithOwnGuards(parts[..n], committed).value);
      }
    }
  }

  /** Testing a table twice makes the difference: the second, stale guard lets the table be created again. */
  lemma TestedTwiceFails(t: TableName, columns: Table, committed: Schema)
    requires t !in committed.tables && ReferencesExist(committed, t, columns)
    ensures var parts := [TableUnlessThere(t, columns), TableUnlessThere(t, columns)];
            WithCommittedGuards(parts, committed).None? && WithOwnGuards(parts, committed).Some?
  {
    var part := TableUnlessThere(t, columns);
    var parts := [part, part];
    assert parts[..1] == [part] && [part][..0] == [];
    assert WithCommittedGuards([], committed) == Some(committed) == WithOwnGuards([], committed);
    assert WithCommittedGuards([part], committed) == Effect(part, committed, committed) ==
        WithOwnGuards([part], committed);
  }

  // ---------------------------------------------------------------- the migration

  function CompetencyColumns(): Table {
    map[Id := Plain(), BusinessId := To(Businesses), PositionId := To(Positions), Name := Plain(), SortOrder := Plain(),
        IsActive := Plain(), CreatedById := To(Users), UpdatedById := To(Users), DeletedAt := Plain()]
  }

  function ProbationColumns(): Table {
    map[Id := Plain(), BusinessId := To(Businesses), EmployeeRecordId := To(EmployeeRecords),
        EmployeeUserId := To(Users), PositionId := To(Positions), DepartmentId := To(Departments),
        ManagerUserId := To(Users), FinalApproverUserId := To(Users), Status := Plain(), ExpectedEndDate := Plain(),
        ExitProcessId := To(ExitProcesses), ParentProbationId := To(EmployeeProbations), CreatedById := To(Users),
        UpdatedById := To(Users), DeletedAt := Plain()]
  }

  function CriteriaColumns(): Table {
    map[Id := Plain(), BusinessId := To(Businesses), ProbationId := To(EmployeeProbations),
        SourcePositionCompetencyId := To(PositionCompetencies), Name := Plain(), DeletedAt := Plain()]
  }

  function Parts(): seq<Part> {
    [TableUnlessThere(PositionCompetencies, CompetencyColumns()),
     IndexUnlessThere(CompetenciesBusinessPosition, Index(PositionCompetencies, [BusinessId, PositionId], false)),
     IndexUnlessThere(CompetenciesPositionActiveOrder,
                      Index(PositionCompetencies, [PositionId, IsActive, SortOrder], false)),
     IndexUnlessThere(CompetenciesPositionNameUnique, Index(PositionCompetencies, [PositionId, Name], true)),
     TableUnlessThere(EmployeeProbations, ProbationColumns()),
     IndexUnlessThere(ProbationsBusinessStatus, Index(EmployeeProbations, [BusinessId, Status], false)),
     IndexUnlessThere(ProbationsBusinessEndDate, Index(EmployeeProbations, [BusinessId, ExpectedEndDate], false)),
     IndexUnlessThere(ProbationsEmployeeStatus, Index(EmployeeProbations, [EmployeeUserId, Status], false)),
     IndexUnlessThere(ProbationsManagerStatus, Index(EmployeeProbations, [ManagerUserId, Status], false)),
     IndexIfNotExists(ProbationsOneOpenPerEmployee, Index(EmployeeProbations, [BusinessId, EmployeeUserId], true)),
     TableUnlessThere(ProbationCriteria, CriteriaColumns()),
     IndexUnlessThere(CriteriaBusinessProbation, Index(ProbationCriteria, [BusinessId, ProbationId], false)),
     IndexUnlessThere(CriteriaProbationNameUnique, Index(ProbationCriteria, [ProbationId, Name], true))]
  }

  function Up(committed: Schema): Outcome {
    Settle(WithCommittedGuards(Parts(), committed), committed)
  }

  /** A connection with a committed schema, and the transaction's view of it. */
  class Connection {
    var committed: Schema

    constructor (committed: Schema)
      ensures this.committed == committed
    {
      this.committed := committed;
    }

    /** `up`: guarded changes in sequence, then commit or rollback. */
    method PerformUp() returns (ok: bool)
      modifies this
      ensures Outcome(committed, ok) == Up(old(committed))
    {
      hide Effect, Parts;
      var parts := Parts();
      var pending := committed;
      for n := 0 to |parts|
        invariant committed == old(committed)
        invariant WithCommittedGuards(parts[..n], committed) == Some(pending)
      {
        assert parts[..n + 1][..n] == parts[..n];
        var next := Effect(parts[n], committed, pending);
        if next.None? {
          ErrorIsFinal(parts, n + 1, committed);
          return false;
        }
        pending := next.value;
      }
      assert parts[..|parts|] == parts;
      committed := pending;
      return true;
    }
  }

  lemma {:induction false} ErrorIsFinal(parts: seq<Part>, n: nat, committed: Schema)
    requires n <= |parts| && WithCommittedGuards(parts[..n], committed).None?
    ensures WithCommittedGuards(parts, committed).None?
    decreases |parts|
  {
    if n < |parts| {
      var shorter := parts[..|parts| - 1];
      assert shorter[..n] == parts[..n];
      ErrorIsFinal(shorter, n, committed);
    } else {
      assert parts[..n] == parts;
    }
  }

  /** Where an object stands in the migration. */
  function Rank(part: Part): nat {
    match part
    case TableUnlessThere(t, _) => if t == PositionCompetencies then 0 else if t == EmployeeProbations then 4 else 10
    case _ =>
      match part.name
      case CompetenciesBusinessPosition => 1
      case CompetenciesPositionActiveOrder => 2
      case CompetenciesPositionNameUnique => 3
      case ProbationsBusinessStatus => 5
      case ProbationsBusinessEndDate => 6
      case ProbationsEmployeeStatus => 7
      case ProbationsManagerStatus => 8
      case ProbationsOneOpenPerEmployee => 9
      case CriteriaBusinessProbation => 11
      case _ => 12
  }

  lemma PartsAreTestedOnce()
    ensures TestedOnce(Parts())
  {
    var parts := Parts();
    assert forall i :: 0 <= i < |parts| ==> Rank(parts[i]) == i;
    assert forall a, b :: SameObject(a, b) ==> Rank(a) == Rank(b);
  }

  /** The stale guards make no difference to this migration, from any committed schema. */
  lemma UpAsWithOwnGuards(committed: Schema)
    ensures Up(committed) == Settle(WithOwnGuards(Parts(), committed), committed)
  {
    hide Parts;
    PartsAreTestedOnce();
    GuardsMayReadCommitted(Parts(), committed);
  }
}
