/**
 * The hooks that keep projects within a department: the owner, manager, members and assignees of a project with a
 * department belong to it, in the project's business.
 */
module ProjectScope {
  import opened Common

  type Id = string

  datatype Employee = Employee(businessId: Id, departmentId: Option<Id>)

  datatype Project = Project(businessId: Id, departmentId: Option<Id>, owner: Option<Id>, manager: Option<Id>)

  /** A project member, or a task with its assignee. */
  datatype Assignment = Assignment(businessId: Id, projectId: Id, employee: Option<Id>)

  datatype Table = Members | Tasks

  /** Rows by id; `departments` tells the business of each. */
  datatype Db = Db(departments: map<Id, Id>, employees: map<Id, Employee>, projects: map<Id, Project>,
                   members: map<Id, Assignment>, tasks: map<Id, Assignment>) {
    function Rows(t: Table): map<Id, Assignment> {
      match t case Members => members case Tasks => tasks
    }
  }

  datatype Error =
    | DepartmentNotFound
    | EmployeeNotFound
    | ProjectNotFound
    | OwnerElsewhere
    | ManagerElsewhere
    | AssigneeElsewhere(table: Table)

  /** Neither `null` nor the empty string. */
  predicate Given(id: Option<Id>) {
    id.Some? && id.value != ""
  }

  predicate InBusiness(db: Db, employeeId: Id, businessId: Id) {
    employeeId in db.employees && db.employees[employeeId].businessId == businessId
  }

  predicate InDepartment(db: Db, employeeId: Id, businessId: Id, departmentId: Id) {
    InBusiness(db, employeeId, businessId) && db.employees[employeeId].departmentId.GetOr("") == departmentId
  }

  predicate HasDepartment(db: Db, departmentId: Id, businessId: Id) {
    departmentId in db.departments && db.departments[departmentId] == businessId
  }

  // ---------------------------------------------------------------- the hooks

  /** The hook turns an empty department into none. */
  function Normal(p: Project): Project {
    if p.departmentId == Some("") then p.(departmentId := None) else p
  }

  function CheckField(db: Db, p: Project, employee: Option<Id>, elsewhere: Error): Option<Error> {
    if !Given(employee) then None
    else if !InBusiness(db, employee.value, p.businessId) then Some(EmployeeNotFound)
    else if Some(db.employees[employee.value].departmentId.GetOr("")) != p.departmentId then Some(elsewhere)
    else None
  }

  /** `beforeValidate` of a project: the error it throws, if any. */
  function CheckProject(db: Db, p: Project): Option<Error> {
    if !Given(p.departmentId) then None
    else if !HasDepartment(db, p.departmentId.value, p.businessId) then Some(DepartmentNotFound)
    else if CheckField(db, p, p.owner, OwnerElsewhere).Some? then CheckField(db, p, p.owner, OwnerElsewhere)
    else CheckField(db, p, p.manager, ManagerElsewhere)
  }

  /** `validateDepartmentScope` of members and of tasks. */
  function CheckAssignment(db: Db, t: Table, a: Assignment): Option<Error> {
    if !Given(a.employee) then None
    else if a.projectId !in db.projects || db.projects[a.projectId].businessId != a.businessId then
      Some(ProjectNotFound)
    else if !Given(db.projects[a.projectId].departmentId) then None
    else if !InBusiness(db, a.employee.value, a.businessId) then Some(EmployeeNotFound)
    else if db.employees[a.employee.value].departmentId.GetOr("") != db.projects[a.projectId].departmentId.value then
      Some(AssigneeElsewhere(t))
    else None
  }

  function WithRow(db: Db, t: Table, id: Id, a: Assignment): Db {
    match t
    case Members => db.(members := db.members[id := a])
    case Tasks => db.(tasks := db.tasks[id := a])
  }

  // ---------------------------------------------------------------- saves

  datatype Save =
    | SaveProject(id: Id, project: Project)
    | SaveRow(table: Table, id: Id, row: Assignment)
    | BulkCreate(table: Table, rows: seq<(Id, Assignment)>)

  /** The error of the first row the bulk hook refuses. */
  function CheckAll(db: Db, t: Table, rows: seq<(Id, Assignment)>): Option<Error> {
    if rows == [] then None
    else
      var n := |rows| - 1;
      var earlier := CheckAll(db, t, rows[..n]);
      if earlier.Some? then earlier else CheckAssignment(db, t, rows[n].1)
  }

  function WithRows(db: Db, t: Table, rows: seq<(Id, Assignment)>): Db {
    if rows == [] then db
    else WithRow(WithRows(db, t, rows[..|rows| - 1]), t, rows[|rows| - 1].0, rows[|rows| - 1].1)
  }

  function Check(db: Db, s: Save): Option<Error> {
    match s
    case SaveProject(_, p) => CheckProject(db, p)
    case SaveRow(t, _, a) => CheckAssignment(db, t, a)
    case BulkCreate(t, rows) => CheckAll(db, t, rows)
  }

  /** A save that a hook refuses changes nothing. */
  function After(db: Db, s: Save): Db {
    if Check(db, s).Some? then db
    else
      match s
      case SaveProject(id, p) => db.(projects := db.projects[id := Normal(p)])
      case SaveRow(t, id, a) => WithRow(db, t, id, a)
      case BulkCreate(t, rows) => WithRows(db, t, rows)
  }

  class Store {
    var db: Db

    constructor (db: Db)
      ensures this.db == db
    {
      this.db := db;
    }

    method SaveProject(id: Id, project: Project) returns (error: Option<Error>)
      modifies this
      ensures error == Check(old(db), Save.SaveProject(id, project))
      ensures db == After(old(db), Save.SaveProject(id, project))
    {
      var p := project;
      if p.departmentId == Some("") { p := p.(departmentId := None); }
      if Given(p.departmentId) {
        if !HasDepartment(db, p.departmentId.value, p.businessId) { return Some(DepartmentNotFound); }
        var fields := [(p.owner, OwnerElsewhere), (p.manager, ManagerElsewhere)];
        for i := 0 to |fields|
          invariant i > 0 ==> CheckField(db, p, p.owner, OwnerElsewhere).None?
          invariant i > 1 ==> CheckField(db, p, p.manager, ManagerElsewhere).None?
        {
          var employeeId := fields[i].0;
          if Given(employeeId) {
            if !InBusiness(db, employeeId.value, p.businessId) { return Some(EmployeeNotFound); }
            if db.employees[employeeId.value].departmentId.GetOr("") != p.departmentId.value {
              return Some(fields[i].1);
            }
          }
        }
      }
      db := db.(projects := db.projects[id := p]);
      error := None;
    }

    method SaveRow(t: Table, id: Id, a: Assignment) returns (error: Option<Error>)
      modifies this
      ensures error == Check(old(db), Save.SaveRow(t, id, a))
      ensures db == After(old(db), Save.SaveRow(t, id, a))
    {
      error := CheckAssignment(db, t, a);
      if error.None? { db := WithRow(db, t, id, a); }
    }

    /** All rows are checked before the first is written. */
    method BulkCreate(t: Table, rows: seq<(Id, Assignment)>) returns (error: Option<Error>)
      modifies this
      ensures error == Check(old(db), Save.BulkCreate(t, rows))
      ensures db == After(old(db), Save.BulkCreate(t, rows))
    {
      assert rows[..|rows|] == rows;
      for i := 0 to |rows|
        invariant db == old(db) && CheckAll(db, t, rows[..i]).None?
      {
        assert rows[..i + 1][..i] == rows[..i];
        error := CheckAssignment(db, t, rows[i].1);
        if error.Some? {
          FirstErrorStays(db, t, rows, i + 1);
          return;
        }
      }
      error := None;
      for i := 0 to |rows|
        invariant db == WithRows(old(db), t, rows[..i])
      {
        assert rows[..i + 1][..i] == rows[..i];
        db := WithRow(db, t, rows[i].0, rows[i].1);
      }
    }
  }

  lemma {:induction false} FirstErrorStays(db: Db, t: Table, rows: seq<(Id, Assignment)>, n: nat)
    requires n <= |rows| && CheckAll(db, t, rows[..n]).Some?
    ensures CheckAll(db, t, rows) == CheckAll(db, t, rows[..n])
    decreases |rows|
  {
    if n == |rows| {
      assert rows[..n] == rows;
    } else {
      assert rows[..|rows| - 1][..n] == rows[..n];
      FirstErrorStays(db, t, rows[..|rows| - 1], n);
    }
  }

  // ---------------------------------------------------------------- the invariant

  ghost predicate InScope(db: Db, p: Project, employee: Option<Id>) {
    Given(p.departmentId) && Given(employee) ==> InDepartment(db, employee.value, p.businessId, p.departmentId.value)
  }

  /** Projects with a department are of its business, and so are their owners and managers. */
  ghost predicate ProjectHalf(db: Db) {
    forall id :: id in db.projects ==>
      var p := db.projects[id];
      && (Given(p.departmentId) ==> HasDepartment(db, p.departmentId.value, p.businessId))
      && InScope(db, p, p.owner) && InScope(db, p, p.manager)
  }

  /** The row belongs to the project. */
  predicate IsOf(a: Assignment, id: Id, p: Project) {
    a.projectId == id && a.businessId == p.businessId
  }

  ghost predicate RowHolds(db: Db, a: Assignment) {
    a.projectId in db.projects && IsOf(a, a.projectId, db.projects[a.projectId]) ==>
      InScope(db, db.projects[a.projectId], a.employee)
  }

  ghost predicate RowsHold(db: Db, t: Table) {
    forall id :: id in db.Rows(t) ==> RowHolds(db, db.Rows(t)[id])
  }

  ghost predicate Scoped(db: Db) {
    ProjectHalf(db) && RowsHold(db, Members) && RowsHold(db, Tasks)
  }

  ghost predicate IsStranded(db: Db, id: Id, p: Project, a: Assignment) {
    IsOf(a, id, p) && !InScope(db, Normal(p), a.employee)
  }

  /** The save gives a project a department that one of its members or assignees does not belong to. */
  ghost predicate Strands(db: Db, s: Save) {
    && s.SaveProject? && CheckProject(db, s.project).None?
    && exists t: Table, id :: id in db.Rows(t) && IsStranded(db, s.id, s.project, db.Rows(t)[id])
  }

  lemma ProjectCheckMeans(db: Db, p: Project)
    ensures CheckProject(db, p).None? <==>
              && (Given(p.departmentId) ==> HasDepartment(db, p.departmentId.value, p.businessId))
              && InScope(db, p, p.owner) && InScope(db, p, p.manager)
  {
  }

  /** Which error a refused project gets: the department's first, then the owner's, then the manager's. */
  lemma WhichError(db: Db, p: Project)
    requires Given(p.departmentId)
    ensures CheckProject(db, p) == Some(DepartmentNotFound) <==> !HasDepartment(db, p.departmentId.value, p.businessId)
    ensures CheckProject(db, p) == Some(OwnerElsewhere) <==>
              && HasDepartment(db, p.departmentId.value, p.businessId)
              && Given(p.owner) && InBusiness(db, p.owner.value, p.businessId) && !InScope(db, p, p.owner)
    ensures CheckProject(db, p) == Some(ManagerElsewhere) <==>
              && HasDepartment(db, p.departmentId.value, p.businessId) && InScope(db, p, p.owner)
              && Given(p.manager) && InBusiness(db, p.manager.value, p.businessId) && !InScope(db, p, p.manager)
    ensures CheckProject(db, p) == Some(EmployeeNotFound) <==>
              && HasDepartment(db, p.departmentId.value, p.businessId)
              && ((Given(p.owner) && !InBusiness(db, p.owner.value, p.businessId))
                  || (InScope(db, p, p.owner) && Given(p.manager) && !InBusiness(db, p.manager.value, p.businessId)))
  {
  }

  /** A row is refused exactly when its project is missing or it would not hold. */
  lemma RowCheckMeans(db: Db, t: Table, a: Assignment)
    ensures CheckAssignment(db, t, a).None? <==>
              (Given(a.employee) ==>
                 a.projectId in db.projects && IsOf(a, a.projectId, db.projects[a.projectId])) && RowHolds(db, a)
  {
  }

  /** Which error a refused row gets. */
  lemma WhichRowError(db: Db, t: Table, a: Assignment)
    requires Given(a.employee)
    ensures var found := a.projectId in db.projects && IsOf(a, a.projectId, db.projects[a.projectId]);
            && (CheckAssignment(db, t, a) == Some(ProjectNotFound) <==> !found)
            && (CheckAssignment(db, t, a) == Some(EmployeeNotFound) <==>
                  found && Given(db.projects[a.projectId].departmentId)
                      && !InBusiness(db, a.employee.value, a.businessId))
            && (CheckAssignment(db, t, a) == Some(AssigneeElsewhere(t)) <==>
                  found && !RowHolds(db, a) && InBusiness(db, a.employee.value, a.businessId))
  {
  }

  /** What the hooks read of the other tables does not change when rows are added. */
  lemma {:induction false} RowsLeaveTheRest(db: Db, t: Table, rows: seq<(Id, Assignment)>)
    ensures var after := WithRows(db, t, rows);
            && after.departments == db.departments && after.employees == db.employees && after.projects == db.projects
            && (forall u: Table :: u != t ==> after.Rows(u) == db.Rows(u))
            && (forall id :: id in after.Rows(t) ==>
                  (id in db.Rows(t) && after.Rows(t)[id] == db.Rows(t)[id])
                  || exists i :: 0 <= i < |rows| && rows[i] == (id, after.Rows(t)[id]))
  {
    if rows == [] {
    } else {
      var n := |rows| - 1;
      RowsLeaveTheRest(db, t, rows[..n]);
      var before, after := WithRows(db, t, rows[..n]), WithRows(db, t, rows);
      forall id | id in after.Rows(t)
        ensures (id in db.Rows(t) && after.Rows(t)[id] == db.Rows(t)[id])
                || exists i :: 0 <= i < |rows| && rows[i] == (id, after.Rows(t)[id])
      {
        if after.Rows(t)[id] == rows[n].1 && id == rows[n].0 {
          assert rows[n] == (id, after.Rows(t)[id]);
        } else if !(id in db.Rows(t) && after.Rows(t)[id] == db.Rows(t)[id]) {
          var i :| 0 <= i < n && rows[..n][i] == (id, before.Rows(t)[id]);
          assert rows[i] == (id, after.Rows(t)[id]);
        }
      }
    }
  }

  lemma {:induction false} AllChecked(db: Db, t: Table, rows: seq<(Id, Assignment)>)
    ensures CheckAll(db, t, rows).None? <==> forall i :: 0 <= i < |rows| ==> CheckAssignment(db, t, rows[i].1).None?
  {
    hide CheckAssignment;
    if rows == [] {
    } else {
      var n := |rows| - 1;
      AllChecked(db, t, rows[..n]);
      assert forall i :: 0 <= i < n ==> rows[..n][i] == rows[i];
    }
  }

  lemma SaveOneIsBulk(db: Db, t: Table, id: Id, a: Assignment)
    ensures After(db, SaveRow(t, id, a)) == After(db, BulkCreate(t, [(id, a)]))
  {
    assert [(id, a)][..0] == [];
    assert CheckAll(db, t, [(id, a)][..0]).None? && WithRows(db, t, [(id, a)][..0]) == db;
  }

  /** Bulk creates keep the whole invariant. */
  lemma BulkKeepsScope(db: Db, t: Table, rows: seq<(Id, Assignment)>)
    requires Scoped(db)
    ensures Scoped(After(db, BulkCreate(t, rows)))
  {
    var after := After(db, BulkCreate(t, rows));
    RowsLeaveTheRest(db, t, rows);
    AllChecked(db, t, rows);
    hide WithRows, CheckAll, CheckAssignment;
    forall u: Table, id | id in after.Rows(u)
      ensures RowHolds(after, after.Rows(u)[id])
    {
      if u == t && after != db && !(id in db.Rows(t) && after.Rows(t)[id] == db.Rows(t)[id]) {
        var i :| 0 <= i < |rows| && rows[i] == (id, after.Rows(t)[id]);
        RowCheckMeans(db, t, rows[i].1);
      } else {
        assert RowHolds(db, db.Rows(u)[id]);
      }
    }
  }

  lemma ProjectSaveKeepsProjectHalf(db: Db, id: Id, p: Project)
    requires ProjectHalf(db)
    ensures ProjectHalf(After(db, SaveProject(id, p)))
  {
    ProjectCheckMeans(db, p);
  }

  lemma ProjectSaveRows(db: Db, id: Id, p: Project, t: Table)
    requires RowsHold(db, t) && CheckProject(db, p).None?
    ensures RowsHold(After(db, SaveProject(id, p)), t) <==>
              forall r :: r in db.Rows(t) && IsOf(db.Rows(t)[r], id, p) ==>
                  InScope(db, Normal(p), db.Rows(t)[r].employee)
  {
    var after := After(db, SaveProject(id, p));
    forall r | r in db.Rows(t)
      ensures RowHolds(after, after.Rows(t)[r]) <==>
                (IsOf(db.Rows(t)[r], id, p) ==> InScope(db, Normal(p), db.Rows(t)[r].employee))
    {
      assert RowHolds(db, db.Rows(t)[r]);
    }
  }

  /** Every save keeps the invariant, but for one kind; and that kind always breaks it. */
  lemma SaveKeepsScopeIff(db: Db, s: Save)
    requires Scoped(db)
    ensures Scoped(After(db, s)) <==> !Strands(db, s)
    ensures ProjectHalf(After(db, s))
  {
    match s
    case SaveProject(id, p) =>
      ProjectSaveKeepsProjectHalf(db, id, p);
      if CheckProject(db, p).None? {
        ProjectSaveRows(db, id, p, Members);
        ProjectSaveRows(db, id, p, Tasks);
      }
    case SaveRow(t, id, a) =>
      SaveOneIsBulk(db, t, id, a);
      BulkKeepsScope(db, t, [(id, a)]);
    case BulkCreate(t, rows) =>
      BulkKeepsScope(db, t, rows);
  }

  /** Only a save that sets a department the project did not have can leave somebody outside. */
  lemma OnlyNewDepartmentsStrand(db: Db, s: Save)
    requires Scoped(db) && Strands(db, s)
    ensures s.SaveProject? && Given(s.project.departmentId)
    ensures s.id in db.projects ==> db.projects[s.id].departmentId != s.project.departmentId
  {
    var t: Table, id :| id in db.Rows(t) && IsStranded(db, s.id, s.project, db.Rows(t)[id]);
    assert RowHolds(db, db.Rows(t)[id]);
    ProjectCheckMeans(db, s.project);
  }

  // ---------------------------------------------------------------- what is stored

  /** An accepted project is stored as it was given, an empty department as none; a refused one changes nothing. */
  lemma ProjectIsStored(db: Db, id: Id, p: Project)
    ensures var (d, accepted) := (After(db, SaveProject(id, p)), CheckProject(db, p).None?);
            && d.departments == db.departments && d.employees == db.employees
            && d.members == db.members && d.tasks == db.tasks
            && (!accepted ==> d.projects == db.projects)
            && (accepted ==>
                  && id in d.projects
                  && d.projects[id].businessId == p.businessId
                  && d.projects[id].owner == p.owner && d.projects[id].manager == p.manager
                  && (p.departmentId != Some("") ==> d.projects[id].departmentId == p.departmentId)
                  && (p.departmentId == Some("") ==> d.projects[id].departmentId == None)
                  && (forall other :: other in d.projects <==> other in db.projects || other == id)
                  && forall other :: other in db.projects && other != id ==> d.projects[other] == db.projects[other])
  {
  }

  ghost predicate OnlyRowsChange(db: Db, d: Db, t: Table) {
    && d.departments == db.departments && d.employees == db.employees && d.projects == db.projects
    && (!t.Members? ==> d.members == db.members) && (!t.Tasks? ==> d.tasks == db.tasks)
  }

  /** An accepted row is stored in its table; a refused one changes nothing. */
  lemma RowIsStored(db: Db, t: Table, id: Id, a: Assignment)
    ensures var (d, accepted) := (After(db, SaveRow(t, id, a)), CheckAssignment(db, t, a).None?);
            && OnlyRowsChange(db, d, t)
            && (t.Members? ==> d.members == if accepted then db.members[id := a] else db.members)
            && (t.Tasks? ==> d.tasks == if accepted then db.tasks[id := a] else db.tasks)
  {
  }

  /** The last of the rows with this id. */
  ghost predicate IsLastRow(rows: seq<(Id, Assignment)>, k: nat, id: Id) {
    k < |rows| && rows[k].0 == id && forall j :: k < j < |rows| ==> rows[j].0 != id
  }

  /** Every id of the rows ends with its last row, and every other id with what it had. */
  ghost predicate AreStored(rows: seq<(Id, Assignment)>, before: map<Id, Assignment>, after: map<Id, Assignment>) {
    && (forall id :: id in after <==> id in before || exists k: nat :: IsLastRow(rows, k, id))
    && (forall id, k: nat :: IsLastRow(rows, k, id) ==> id in after && after[id] == rows[k].1)
    && (forall id :: id in before && (forall k: nat :: !IsLastRow(rows, k, id)) ==>
                       id in after && after[id] == before[id])
  }

  lemma OneMoreStored(rows: seq<(Id, Assignment)>, before: map<Id, Assignment>, after: map<Id, Assignment>)
    requires rows != [] && AreStored(rows[..|rows| - 1], before, after)
    ensures AreStored(rows, before, after[rows[|rows| - 1].0 := rows[|rows| - 1].1])
  {
    var n := |rows| - 1;
    forall id, k: nat
      ensures IsLastRow(rows, k, id) <==> if rows[n].0 == id then k == n else IsLastRow(rows[..n], k, id)
    {
      if k < n { assert rows[..n][k] == rows[k] && (rows[n].0 == id ==> k < n < |rows|); }
      assert forall j :: k < j < n ==> rows[..n][j] == rows[j];
    }
    assert IsLastRow(rows, n, rows[n].0);
    hide IsLastRow;
  }

  lemma {:induction false} RowsAreStored(db: Db, t: Table, rows: seq<(Id, Assignment)>)
    ensures var d := WithRows(db, t, rows);
            && OnlyRowsChange(db, d, t)
            && (t.Members? ==> AreStored(rows, db.members, d.members))
            && (t.Tasks? ==> AreStored(rows, db.tasks, d.tasks))
  {
    if rows == [] {
    } else {
      hide AreStored;
      var n := |rows| - 1;
      RowsAreStored(db, t, rows[..n]);
      if t.Members? {
        OneMoreStored(rows, db.members, WithRows(db, t, rows[..n]).members);
      } else {
        OneMoreStored(rows, db.tasks, WithRows(db, t, rows[..n]).tasks);
      }
    }
  }

  /** A bulk create that passes stores every row in its table; one that does not changes nothing. */
  lemma BulkIsStored(db: Db, t: Table, rows: seq<(Id, Assignment)>)
    ensures var d := After(db, BulkCreate(t, rows));
            && OnlyRowsChange(db, d, t)
            && (CheckAll(db, t, rows).Some? ==> d == db)
            && (CheckAll(db, t, rows).None? && t.Members? ==> AreStored(rows, db.members, d.members))
            && (CheckAll(db, t, rows).None? && t.Tasks? ==> AreStored(rows, db.tasks, d.tasks))
  {
    RowsAreStored(db, t, rows);
    hide WithRows, AreStored, CheckAll;
  }

  /** With everything given, the project passes exactly when each id names a row of its business and department. */
  lemma GivenProjectPasses(db: Db, p: Project, d: Id, owner: Id, manager: Id)
    requires d != "" && owner != "" && manager != ""
    requires p.departmentId == Some(d) && p.owner == Some(owner) && p.manager == Some(manager)
    ensures CheckProject(db, p).None? <==>
              && d in db.departments && db.departments[d] == p.businessId
              && owner in db.employees && db.employees[owner] == Employee(p.businessId, Some(d))
              && manager in db.employees && db.employees[manager] == Employee(p.businessId, Some(d))
  {
  }

  /** A row for somebody on a project with a department passes exactly when all are of one business and department. */
  lemma GivenRowPasses(db: Db, t: Table, a: Assignment, e: Id, d: Id)
    requires e != "" && d != "" && a.employee == Some(e)
    requires a.projectId in db.projects && db.projects[a.projectId].departmentId == Some(d)
    ensures CheckAssignment(db, t, a).None? <==>
              && db.projects[a.projectId].businessId == a.businessId
              && e in db.employees && db.employees[e] == Employee(a.businessId, Some(d))
  {
  }

  function NoneIfEmpty(id: Option<Id>): Option<Id> {
    if id == Some("") then None else id
  }

  /** Empty ids are missing ones, and without a department nothing is checked. */
  lemma EmptyIsMissing(db: Db, p: Project, t: Table, a: Assignment)
    ensures CheckProject(db, p) ==
              CheckProject(db, p.(departmentId := NoneIfEmpty(p.departmentId), owner := NoneIfEmpty(p.owner),
                                  manager := NoneIfEmpty(p.manager)))
    ensures CheckAssignment(db, t, a) == CheckAssignment(db, t, a.(employee := NoneIfEmpty(a.employee)))
    ensures p.departmentId == None ==> CheckProject(db, p) == None
    ensures a.employee == None ==> CheckAssignment(db, t, a) == None
  {
  }

  // ---------------------------------------------------------------- histories

  ghost function AfterAll(db: Db, history: seq<Save>): Db {
    if history == [] then db else After(AfterAll(db, history[..|history| - 1]), history[|history| - 1])
  }

  /** No save of the history leaves somebody outside the department it sets. */
  ghost predicate StrandsNobody(db: Db, history: seq<Save>) {
    forall i :: 0 <= i < |history| ==> !Strands(AfterAll(db, history[..i]), history[i])
  }

  ghost predicate ScopedThroughout(db: Db, history: seq<Save>) {
    forall i :: 0 <= i <= |history| ==> Scoped(AfterAll(db, history[..i]))
  }

  lemma LastOfThroughout(db: Db, history: seq<Save>)
    requires history != []
    ensures var n := |history| - 1;
            ScopedThroughout(db, history) <==> ScopedThroughout(db, history[..n]) && Scoped(AfterAll(db, history))
  {
    hide Scoped, AfterAll;
    var n := |history| - 1;
    assert history[..n + 1] == history;
    assert forall i :: 0 <= i <= n ==> history[..n][..i] == history[..i];
  }

  lemma LastOfStrands(db: Db, history: seq<Save>)
    requires history != []
    ensures var n := |history| - 1;
            StrandsNobody(db, history) <==>
              StrandsNobody(db, history[..n]) && !Strands(AfterAll(db, history[..n]), history[n])
  {
    hide Strands, AfterAll;
    var n := |history| - 1;
    forall i | 0 <= i < n
      ensures Strands(AfterAll(db, history[..n][..i]), history[..n][i]) ==
          Strands(AfterAll(db, history[..i]), history[i])
    {
      assert history[..n][..i] == history[..i];
    }
  }

  /** The invariant holds after every save of a history exactly when no save strands anybody. */
  lemma {:induction false} HistoryKeepsScopeIff(db: Db, history: seq<Save>)
    requires Scoped(db)
    ensures ScopedThroughout(db, history) <==> StrandsNobody(db, history)
  {
    if history == [] {
      assert history[..0] == [];
    } else {
      hide Scoped, Strands, After, StrandsNobody, ScopedThroughout;
      var n := |history| - 1;
      HistoryKeepsScopeIff(db, history[..n]);
      LastOfThroughout(db, history);
      LastOfStrands(db, history);
      if ScopedThroughout(db, history[..n]) {
        ThroughoutToTheEnd(db, history[..n]);
        SaveKeepsScopeIff(AfterAll(db, history[..n]), history[n]);
      }
    }
  }

  lemma ThroughoutToTheEnd(db: Db, history: seq<Save>)
    requires ScopedThroughout(db, history)
    ensures Scoped(AfterAll(db, history))
  {
    assert history[..|history|] == history;
  }

  /** The project half needs no such condition. */
  lemma {:induction false} HistoryKeepsProjectHalf(db: Db, history: seq<Save>)
    requires ProjectHalf(db)
    ensures ProjectHalf(AfterAll(db, history))
  {
    hide ProjectHalf, After, WithRows;
    if history == [] {
    } else {
      var n := |history| - 1;
      HistoryKeepsProjectHalf(db, history[..n]);
      StepKeepsProjectHalf(AfterAll(db, history[..n]), history[n]);
    }
  }

  lemma StepKeepsProjectHalf(db: Db, s: Save)
    requires ProjectHalf(db)
    ensures ProjectHalf(After(db, s))
  {
    match s
    case SaveProject(id, p) => ProjectSaveKeepsProjectHalf(db, id, p);
    case SaveRow(t, id, a) =>
      SaveOneIsBulk(db, t, id, a);
      RowsLeaveTheRest(db, t, [(id, a)]);
    case BulkCreate(t, rows) => RowsLeaveTheRest(db, t, rows);
  }

  // ---------------------------------------------------------------- bulk creates and single creates

  function OneByOne(t: Table, rows: seq<(Id, Assignment)>): seq<Save> {
    if rows == [] then [] else OneByOne(t, rows[..|rows| - 1]) + [SaveRow(t, rows[|rows| - 1].0, rows[|rows| - 1].1)]
  }

  /**
   * A bulk create passes exactly when every row would pass on its own; then it does what saving the rows one by one
   * does.
   */
  lemma {:induction false} BulkIsOneByOne(db: Db, t: Table, rows: seq<(Id, Assignment)>)
    ensures Check(db, BulkCreate(t, rows)).None? <==>
              forall i :: 0 <= i < |rows| ==> Check(db, SaveRow(t, rows[i].0, rows[i].1)).None?
    ensures Check(db, BulkCreate(t, rows)).None? ==>
              After(db, BulkCreate(t, rows)) == AfterAll(db, OneByOne(t, rows))
  {
    AllChecked(db, t, rows);
    hide CheckAssignment, WithRow;
    if rows != [] && CheckAll(db, t, rows).None? {
      var n := |rows| - 1;
      BulkIsOneByOne(db, t, rows[..n]);
      var before := AfterAll(db, OneByOne(t, rows[..n]));
      RowsLeaveTheRest(db, t, rows[..n]);
      SameCheck(db, before, t, rows[n].1);
      var saves := OneByOne(t, rows);
      assert saves[..|saves| - 1] == OneByOne(t, rows[..n]);
    }
  }

  lemma SameCheck(db: Db, other: Db, t: Table, a: Assignment)
    requires db.employees == other.employees && db.projects == other.projects
    ensures CheckAssignment(db, t, a) == CheckAssignment(other, t, a)
  {
  }

  // ---------------------------------------------------------------- a history that leaves the scope

  /** Three saves that the hooks let pass: a project without department, a member from one, then another department. */
  lemma SomeHistoryStrands()
    ensures var a, b := Employee("biz", Some("sales")), map["sales" := "biz", "legal" := "biz"];
            var db := Db(b, map["ann" := a], map[], map[], map[]);
            var history := [SaveProject("p", Project("biz", None, None, None)),
                            SaveRow(Members, "m", Assignment("biz", "p", Some("ann"))),
                            SaveProject("p", Project("biz", Some("legal"), None, None))];
            && Scoped(db) && (forall i :: 0 <= i < 3 ==> Check(AfterAll(db, history[..i]), history[i]).None?)
            && !Scoped(AfterAll(db, history))
  {
    var a, b := Employee("biz", Some("sales")), map["sales" := "biz", "legal" := "biz"];
    var db := Db(b, map["ann" := a], map[], map[], map[]);
    var bare, legal := Project("biz", None, None, None), Project("biz", Some("legal"), None, None);
    var row := Assignment("biz", "p", Some("ann"));
    var history := [SaveProject("p", bare), SaveRow(Members, "m", row), SaveProject("p", legal)];
    var one := db.(projects := map["p" := bare]);
    var two := one.(members := map["m" := row]);
    var three := two.(projects := map["p" := legal]);
    assert history[..0] == [] && history[..1][..0] == [] && history[..2][..1] == history[..1];
    assert history[..3][..2] == history[..2] && history[..3] == history;
    assert AfterAll(db, history[..1]) == one;
    assert AfterAll(db, history[..2]) == two;
    assert AfterAll(db, history) == three;
    assert !RowHolds(three, three.Rows(Members)["m"]);
  }
}
