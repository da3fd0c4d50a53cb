/** What each service operation does to the tables: its checks in order, its one write, its reply. */
module Mutations {
  import opened Wrappers
  import opened Forest
  import opened Storage
  import opened Reassignment

  datatype ServiceError =
    | Validation | NothingToUpdate
    | InvalidDepartmentId | InvalidDepth | DepartmentAlreadyExists | DepartmentNotFound
    | InvalidDeleteMode | ReassignTargetRequired | ReassignTargetNotFound | CannotReassignToSelf
    | DepartmentWouldCreateCycle
    | InvalidParentDepartmentId | ParentDepartmentNotFound | DepartmentCannotBeParentOfItself
    | DepartmentMoveWouldCreateCycle
    | InvalidEmployeeId | EmployeeNotFound | InvalidHiredAt
    | RepositoryError(error: StorageError)

  /** A date the caller sent: parsed by the clock library, or not a date. */
  datatype DateText = NotADate | Date(at: Timestamp)

  datatype CreateDepartmentInput = CreateDepartmentInput(name: string, parent: Option<Id>)

  datatype PatchDepartmentInput = PatchDepartmentInput(
    id: Id, name: Option<string>, parent: Option<Id>, parentSet: bool)

  datatype DeleteDepartmentInput = DeleteDepartmentInput(id: Id, mode: string, reassignTo: Option<Id>)

  datatype DeletedDepartment = DeletedDepartment(message: string, id: Id, mode: string, reassignTo: Option<Id>)

  datatype CreateEmployeeInput = CreateEmployeeInput(
    departmentId: Id, fullName: string, position: string, hiredAt: Option<DateText>)

  datatype PatchEmployeeInput = PatchEmployeeInput(
    id: Id, fullName: Option<string>, fullNameSet: bool, position: Option<string>, positionSet: bool,
    departmentId: Option<Id>, departmentIdSet: bool, hiredAt: Option<DateText>, hiredAtSet: bool)

  // ---- validation ----

  predicate IsSpace(c: char) {
    || '\t' <= c <= '\r' || c == ' ' || c == '\U{85}' || c == '\U{A0}' || c == '\U{1680}'
    || '\U{2000}' <= c <= '\U{200A}' || c == '\U{2028}' || c == '\U{2029}' || c == '\U{202F}'
    || c == '\U{205F}' || c == '\U{3000}'
  }

  function TrimLeft(s: string): string {
    if s != [] && IsSpace(s[0]) then TrimLeft(s[1..]) else s
  }

  function TrimRight(s: string): string {
    if s != [] && IsSpace(s[|s| - 1]) then TrimRight(s[..|s| - 1]) else s
  }

  function RequiredString(value: string): (r: Result<string, ServiceError>)
    ensures r.Ok? ==> 0 < |r.value| <= MAX_TEXT
  {
    var trimmed := TrimRight(TrimLeft(value));
    if trimmed == "" || |trimmed| > MAX_TEXT then Err(Validation) else Ok(trimmed)
  }

  function NotFoundAs(error: StorageError, notFound: ServiceError): ServiceError {
    if error == NotFound then notFound else RepositoryError(error)
  }

  function ConflictAs(error: StorageError, conflict: ServiceError): ServiceError {
    if error == AlreadyExists then conflict else RepositoryError(error)
  }

  // ---- departments ----

  /** Everything CreateDepartment checks before it writes, and the row it then writes. */
  function CreateDepartmentChecks(db: Database, input: CreateDepartmentInput, now: Timestamp):
    Result<Department, ServiceError>
  {
    var name :- RequiredString(input.name);
    if input.parent == Some(0) then Err(InvalidParentDepartmentId)
    else if input.parent.Some? && input.parent.value !in db.departments then Err(ParentDepartmentNotFound)
    else if NameExists(db.departments, name, input.parent) then Err(DepartmentAlreadyExists)
    else Ok(Department(name, input.parent, now))
  }

  function CreateDepartment(db: Database, input: CreateDepartmentInput, now: Timestamp):
    (Database, Result<DepartmentRow, ServiceError>)
  {
    match CreateDepartmentChecks(db, input, now)
    case Err(error) => (db, Err(error))
    case Ok(row) =>
      match InsertDepartment(db, row)
      case (Ok(id), written) => (written, Ok(DepartmentRow(id, row)))
      case (Err(error), issued) => (issued, Err(ConflictAs(error, DepartmentAlreadyExists)))
  }

  /** The parent a patch asks for, once it has passed the checks on it. */
  ghost function PatchedParent(db: Database, input: PatchDepartmentInput): Result<Option<Id>, ServiceError>
    requires input.id in db.departments
  {
    if !input.parentSet then Ok(db.departments[input.id].parent)
    else if input.parent.None? then Ok(None)
    else if input.parent.value == 0 then Err(InvalidParentDepartmentId)
    else if input.parent.value == input.id then Err(DepartmentCannotBeParentOfItself)
    else if input.parent.value !in db.departments then Err(ParentDepartmentNotFound)
    else if Reaches(db.departments, input.parent.value, input.id) then Err(DepartmentMoveWouldCreateCycle)
    else Ok(input.parent)
  }

  /** Everything PatchDepartment checks before it writes, and the row it then writes. */
  ghost function PatchDepartmentChecks(db: Database, input: PatchDepartmentInput): Result<Department, ServiceError> {
    if input.id == 0 then Err(InvalidDepartmentId)
    else if input.id !in db.departments then Err(DepartmentNotFound)
    else if input.name.None? && !input.parentSet then Err(NothingToUpdate)
    else
      var current := db.departments[input.id];
      var name :- if input.name.Some? then RequiredString(input.name.value) else Ok(current.name);
      var parent :- PatchedParent(db, input);
      if NameTaken(db.departments, input.id, name, parent) then Err(DepartmentAlreadyExists)
      else Ok(current.(name := name, parent := parent))
  }

  ghost function PatchDepartment(db: Database, input: PatchDepartmentInput):
    (Database, Result<DepartmentRow, ServiceError>)
  {
    match PatchDepartmentChecks(db, input)
    case Err(error) => (db, Err(error))
    case Ok(row) =>
      match WriteDepartment(db, input.id, row)
      case Ok(written) => (written, Ok(DepartmentRow(input.id, row)))
      case Err(error) => (db, Err(ConflictAs(error, DepartmentAlreadyExists)))
  }

  ghost function DeleteDepartmentChecks(db: Database, input: DeleteDepartmentInput): Result<(), ServiceError> {
    if input.id == 0 then Err(InvalidDepartmentId)
    else if input.id !in db.departments then Err(DepartmentNotFound)
    else if input.mode == "cascade" then Ok(())
    else if input.mode != "reassign" then Err(InvalidDeleteMode)
    else if input.reassignTo.None? then Err(ReassignTargetRequired)
    else if input.reassignTo.value == 0 then Err(InvalidDepartmentId)
    else if input.reassignTo.value == input.id then Err(CannotReassignToSelf)
    else if input.reassignTo.value !in db.departments then Err(ReassignTargetNotFound)
    else if Reaches(db.departments, input.reassignTo.value, input.id) then Err(DepartmentWouldCreateCycle)
    else Ok(())
  }

  function DeletedReply(input: DeleteDepartmentInput, reassignTo: Option<Id>): DeletedDepartment {
    DeletedDepartment("department deleted", input.id, input.mode, reassignTo)
  }

  ghost function RemoveDepartment(db: Database, input: DeleteDepartmentInput):
    (Database, Result<DeletedDepartment, ServiceError>)
  {
    match DeleteDepartmentChecks(db, input)
    case Err(error) => (db, Err(error))
    case Ok(_) =>
      if input.mode == "cascade" then (DeleteDepartment(db, input.id), Ok(DeletedReply(input, None)))
      else
        match Reassign(db, input.id, input.reassignTo.value)
        case Ok(written) => (written, Ok(DeletedReply(input, input.reassignTo)))
        case Err(error) => (db, Err(ConflictAs(error, DepartmentAlreadyExists)))
  }

  // ---- employees ----

  function HiredAt(text: Option<DateText>): Result<Option<Timestamp>, ServiceError> {
    match text
    case None => Ok(None)
    case Some(NotADate) => Err(InvalidHiredAt)
    case Some(Date(at)) => Ok(Some(at))
  }

  function CreateEmployeeChecks(db: Database, input: CreateEmployeeInput, now: Timestamp):
    Result<Employee, ServiceError>
  {
    if input.departmentId == 0 then Err(InvalidDepartmentId)
    else
      var fullName :- RequiredString(input.fullName);
      var position :- RequiredString(input.position);
      var hiredAt :- HiredAt(input.hiredAt);
      if input.departmentId !in db.departments then Err(DepartmentNotFound)
      else Ok(Employee(input.departmentId, fullName, position, hiredAt, now))
  }

  function CreateEmployee(db: Database, input: CreateEmployeeInput, now: Timestamp):
    (Database, Result<EmployeeRow, ServiceError>)
  {
    match CreateEmployeeChecks(db, input, now)
    case Err(error) => (db, Err(error))
    case Ok(row) =>
      match InsertEmployee(db, row)
      case (Ok(id), written) => (written, Ok(EmployeeRow(id, row)))
      case (Err(error), issued) => (issued, Err(RepositoryError(error)))
  }

  /** A text field of a patch: kept when absent, refused when null. */
  function PatchedText(current: string, text: Option<string>, isSet: bool): Result<string, ServiceError> {
    if !isSet then Ok(current)
    else if text.None? then Err(Validation)
    else RequiredString(text.value)
  }

  function PatchedDepartmentId(db: Database, current: Id, id: Option<Id>, isSet: bool): Result<Id, ServiceError> {
    if !isSet then Ok(current)
    else if id.None? then Err(Validation)
    else if id.value == 0 then Err(InvalidDepartmentId)
    else if id.value !in db.departments then Err(DepartmentNotFound)
    else Ok(id.value)
  }

  function PatchEmployeeChecks(db: Database, input: PatchEmployeeInput): Result<Employee, ServiceError> {
    if input.id == 0 then Err(InvalidEmployeeId)
    else if !input.fullNameSet && !input.positionSet && !input.departmentIdSet && !input.hiredAtSet then
      Err(NothingToUpdate)
    else if input.id !in db.employees then Err(EmployeeNotFound)
    else
      var current := db.employees[input.id];
      var fullName :- PatchedText(current.fullName, input.fullName, input.fullNameSet);
      var position :- PatchedText(current.position, input.position, input.positionSet);
      var departmentId :- PatchedDepartmentId(db, current.departmentId, input.departmentId, input.departmentIdSet);
      var hiredAt :- if input.hiredAtSet then HiredAt(input.hiredAt) else Ok(current.hiredAt);
      Ok(Employee(departmentId, fullName, position, hiredAt, current.createdAt))
  }

  function PatchEmployee(db: Database, input: PatchEmployeeInput): (Database, Result<EmployeeRow, ServiceError>) {
    match PatchEmployeeChecks(db, input)
    case Err(error) => (db, Err(error))
    case Ok(row) =>
      match WriteEmployee(db, input.id, row)
      case Ok(written) => (written, Ok(EmployeeRow(input.id, row)))
      case Err(error) => (db, Err(RepositoryError(error)))
  }

  function RemoveEmployee(db: Database, id: Id): (Database, Result<(), ServiceError>) {
    if id == 0 then (db, Err(InvalidEmployeeId))
    else if id !in db.employees then (db, Err(EmployeeNotFound))
    else (DeleteEmployee(db, id), Ok(()))
  }

  // ---- one mutation ----

  datatype Mutation =
    | DoCreateDepartment(createDepartment: CreateDepartmentInput, now: Timestamp)
    | DoPatchDepartment(patchDepartment: PatchDepartmentInput)
    | DoDeleteDepartment(deleteDepartment: DeleteDepartmentInput)
    | DoCreateEmployee(createEmployee: CreateEmployeeInput, now: Timestamp)
    | DoPatchEmployee(patchEmployee: PatchEmployeeInput)
    | DoDeleteEmployee(employeeId: Id)

  /** The tables after a mutation, and whether it committed. */
  ghost function Perform(db: Database, m: Mutation): (Database, bool) {
    match m
    case DoCreateDepartment(input, now) => var (db', r) := CreateDepartment(db, input, now); (db', r.Ok?)
    case DoPatchDepartment(input) => var (db', r) := PatchDepartment(db, input); (db', r.Ok?)
    case DoDeleteDepartment(input) => var (db', r) := RemoveDepartment(db, input); (db', r.Ok?)
    case DoCreateEmployee(input, now) => var (db', r) := CreateEmployee(db, input, now); (db', r.Ok?)
    case DoPatchEmployee(input) => var (db', r) := PatchEmployee(db, input); (db', r.Ok?)
    case DoDeleteEmployee(id) => var (db', r) := RemoveEmployee(db, id); (db', r.Ok?)
  }

  // ---- the checks imply the storage constraints ----

  /** A create that passes its checks can fail only because the sequence is exhausted. */
  lemma CreateChecksSuffice(db: Database, input: CreateDepartmentInput, now: Timestamp)
    requires WellFormed(db) && CreateDepartmentChecks(db, input, now).Ok?
    ensures var row := CreateDepartmentChecks(db, input, now).value;
            InsertDepartment(db, row).0 ==
            if db.lastDepartmentId < MAX_BIGINT then Ok(db.lastDepartmentId + 1) else Err(SequenceExhausted)
  {
  }

  /** A patch that passes its checks violates no foreign key, no length limit and neither unique index. */
  lemma PatchChecksSuffice(db: Database, input: PatchDepartmentInput)
    requires WellFormed(db) && PatchDepartmentChecks(db, input).Ok?
    ensures WriteDepartment(db, input.id, PatchDepartmentChecks(db, input).value).Ok?
  {
  }

  lemma CreateEmployeeChecksSuffice(db: Database, input: CreateEmployeeInput, now: Timestamp)
    requires WellFormed(db) && CreateEmployeeChecks(db, input, now).Ok?
    ensures InsertEmployee(db, CreateEmployeeChecks(db, input, now).value).0 ==
            if db.lastEmployeeId < MAX_BIGINT then Ok(db.lastEmployeeId + 1) else Err(SequenceExhausted)
  {
    var row := CreateEmployeeChecks(db, input, now).value;
    assert EmployeeFits(row) && row.departmentId in db.departments;
  }

  lemma PatchEmployeeChecksSuffice(db: Database, input: PatchEmployeeInput)
    requires WellFormed(db) && PatchEmployeeChecks(db, input).Ok?
    ensures WriteEmployee(db, input.id, PatchEmployeeChecks(db, input).value).Ok?
  {
    assert EmployeeFits(db.employees[input.id]);
  }

  /** A mutation that does not commit leaves no trace. */
  lemma RefusedChangesNothing(db: Database, m: Mutation)
    requires WellFormed(db) && !Perform(db, m).1
    ensures Perform(db, m).0 == db
  {
    match m
    case DoCreateDepartment(input, now) =>
      if CreateDepartmentChecks(db, input, now).Ok? {
        CreateChecksSuffice(db, input, now);
      }
    case DoCreateEmployee(input, now) =>
      if CreateEmployeeChecks(db, input, now).Ok? {
        CreateEmployeeChecksSuffice(db, input, now);
      }
    case _ =>
  }

  // ---- the forest invariant ----

  /** In an acyclic forest no department lies above its own parent. */
  lemma OwnParentIsSafe(ds: Departments, id: Id)
    requires Acyclic(ds) && id in ds
    ensures !Above(ds, ds[id].parent, id)
  {
    if ds[id].parent.Some? {
      forall n: nat ensures Up(ds, ds[id].parent.value, n) != Some(id) {
        assert Up(ds, id, 0) == Some(id);
        UpAdd(ds, id, 1, ds[id].parent.value, n);
      }
    }
  }

  /** Writing a row with a safe parent is a move of that one department. */
  lemma RowWriteIsAMove(ds: Departments, id: Id, row: Department)
    requires Acyclic(ds) && id in ds && !Above(ds, row.parent, id)
    ensures Acyclic(ds[id := row])
    ensures forall x: Id, a: Id ::
              Reaches(ds[id := row], x, a) <==> Reaches(Reparent(ds, {id}, row.parent), x, a)
  {
    ReparentAcyclic(ds, {id}, row.parent);
    ReachesFrame(ds[id := row], Reparent(ds, {id}, row.parent));
  }

  lemma PatchIsAMove(db: Database, input: PatchDepartmentInput)
    requires WellFormed(db) && PatchDepartmentChecks(db, input).Ok?
    ensures !Above(db.departments, PatchDepartmentChecks(db, input).value.parent, input.id)
  {
    if !input.parentSet {
      OwnParentIsSafe(db.departments, input.id);
    }
  }

  lemma InsertKeepsWellFormed(db: Database, row: Department)
    requires WellFormed(db)
    requires row.parent.Some? ==> row.parent.value in db.departments
    ensures WellFormed(InsertDepartment(db, row).1)
  {
    if db.lastDepartmentId < MAX_BIGINT {
      var id := db.lastDepartmentId + 1;
      assert id !in db.departments;
      FreshRowKeepsAcyclic(db.departments, id, row);
      var issued := db.(lastDepartmentId := id);
      assert WellFormed(issued);
      if WriteDepartment(issued, id, row).Ok? {
        WriteKeepsWellFormed(issued, id, row);
      }
    }
  }

  lemma CreateKeepsWellFormed(db: Database, input: CreateDepartmentInput, now: Timestamp)
    requires WellFormed(db)
    ensures WellFormed(CreateDepartment(db, input, now).0)
  {
    var checks := CreateDepartmentChecks(db, input, now);
    if checks.Ok? {
      InsertKeepsWellFormed(db, checks.value);
    }
  }

  lemma PatchKeepsWellFormed(db: Database, input: PatchDepartmentInput)
    requires WellFormed(db)
    ensures WellFormed(PatchDepartment(db, input).0)
  {
    var checks := PatchDepartmentChecks(db, input);
    if checks.Ok? && WriteDepartment(db, input.id, checks.value).Ok? {
      PatchIsAMove(db, input);
      RowWriteIsAMove(db.departments, input.id, checks.value);
      WriteKeepsWellFormed(db, input.id, checks.value);
    }
  }

  lemma RemoveKeepsWellFormed(db: Database, input: DeleteDepartmentInput)
    requires WellFormed(db)
    ensures WellFormed(RemoveDepartment(db, input).0)
  {
    if DeleteDepartmentChecks(db, input).Ok? {
      if input.mode == "cascade" {
        DeleteKeepsWellFormed(db, input.id);
      } else if !SharesChildName(db.departments, input.id, input.reassignTo.value) {
        ReassignKeepsWellFormed(db, input.id, input.reassignTo.value);
      }
    }
  }

  lemma EmployeeWriteKeepsWellFormed(db: Database, id: Id, row: Employee)
    requires WellFormed(db) && 0 < id <= db.lastEmployeeId
    requires WriteEmployee(db, id, row).Ok?
    ensures WellFormed(WriteEmployee(db, id, row).value)
  {
  }

  lemma CreateEmployeeKeepsWellFormed(db: Database, input: CreateEmployeeInput, now: Timestamp)
    requires WellFormed(db)
    ensures WellFormed(CreateEmployee(db, input, now).0)
    ensures CreateEmployee(db, input, now).1.Err? ==> CreateEmployee(db, input, now).0 == db
  {
    var checks := CreateEmployeeChecks(db, input, now);
    if checks.Ok? && db.lastEmployeeId < MAX_BIGINT {
      var id := db.lastEmployeeId + 1;
      var issued := db.(lastEmployeeId := id);
      assert WellFormed(issued);
      EmployeeWriteKeepsWellFormed(issued, id, checks.value);
    }
  }

  lemma PatchEmployeeKeepsWellFormed(db: Database, input: PatchEmployeeInput)
    requires WellFormed(db)
    ensures WellFormed(PatchEmployee(db, input).0)
    ensures PatchEmployee(db, input).1.Err? ==> PatchEmployee(db, input).0 == db
  {
  }

  lemma RemoveEmployeeKeepsWellFormed(db: Database, id: Id)
    requires WellFormed(db)
    ensures WellFormed(RemoveEmployee(db, id).0)
  {
  }

  /** Every mutation, committed or refused, keeps the forest well formed; a refused one changes nothing. */
  lemma PerformKeepsWellFormed(db: Database, m: Mutation)
    requires WellFormed(db)
    ensures WellFormed(Perform(db, m).0)
    ensures !Perform(db, m).1 ==> Perform(db, m).0 == db
  {
    match m
    case DoCreateDepartment(input, now) =>
      CreateKeepsWellFormed(db, input, now);
      if CreateDepartmentChecks(db, input, now).Ok? {
        CreateChecksSuffice(db, input, now);
      }
    case DoPatchDepartment(input) => PatchKeepsWellFormed(db, input);
    case DoDeleteDepartment(input) => RemoveKeepsWellFormed(db, input);
    case DoCreateEmployee(input, now) => CreateEmployeeKeepsWellFormed(db, input, now);
    case DoPatchEmployee(input) => PatchEmployeeKeepsWellFormed(db, input);
    case DoDeleteEmployee(id) => RemoveEmployeeKeepsWellFormed(db, id);
  }

  /** Every database of a run, each made from the one before by a mutation, is well formed if the first is. */
  lemma {:induction false} RunKeepsWellFormed(dbs: seq<Database>, ms: seq<Mutation>, i: nat)
    requires |dbs| == |ms| + 1 && i <= |ms| && WellFormed(dbs[0])
    requires forall k :: 0 <= k < |ms| ==> dbs[k + 1] == Perform(dbs[k], ms[k]).0
    ensures WellFormed(dbs[i])
  {
    if i > 0 {
      RunKeepsWellFormed(dbs, ms, i - 1);
      PerformKeepsWellFormed(dbs[i - 1], ms[i - 1]);
      assert dbs[i - 1 + 1] == Perform(dbs[i - 1], ms[i - 1]).0;
    }
  }

  /** What an accepted patch does to every ancestor and descendant relation. */
  lemma PatchReaches(db: Database, input: PatchDepartmentInput, x: Id, ancestor: Id)
    requires WellFormed(db) && PatchDepartmentChecks(db, input).Ok?
    ensures PatchDepartment(db, input).1.Ok?
    ensures var ds := db.departments;
            var parent := PatchDepartmentChecks(db, input).value.parent;
            Reaches(PatchDepartment(db, input).0.departments, x, ancestor) <==>
            if Reaches(ds, x, input.id) then
              (Reaches(ds, x, ancestor) && Reaches(ds, ancestor, input.id)) || Above(ds, parent, ancestor)
            else Reaches(ds, x, ancestor)
  {
    var row := PatchDepartmentChecks(db, input).value;
    PatchChecksSuffice(db, input);
    PatchIsAMove(db, input);
    MoveReaches(db.departments, input.id, row.parent, x, ancestor);
    RowWriteIsAMove(db.departments, input.id, row);
  }

  // ---- the checks are exact ----

  /** The row a patch asks for, checked for nothing but its texts. */
  function RequestedRow(current: Department, input: PatchDepartmentInput): Department
    requires input.name.Some? ==> RequiredString(input.name.value).Ok?
  {
    current.(name := if input.name.Some? then RequiredString(input.name.value).value else current.name,
             parent := if input.parentSet then input.parent else current.parent)
  }

  /** What the checks of a patch ask of the row: a parent that exists and lies outside the department's own
      subtree, and a name free under that parent. */
  ghost predicate SafeRow(ds: Departments, id: Id, row: Department) {
    && !Above(ds, row.parent, id)
    && (row.parent.Some? ==> row.parent.value in ds && row.parent.value != id)
    && !NameTaken(ds, id, row.name, row.parent)
  }

  lemma PatchChecksAsk(db: Database, input: PatchDepartmentInput)
    requires WellFormed(db) && input.id in db.departments
    requires input.name.Some? || input.parentSet
    requires input.name.Some? ==> RequiredString(input.name.value).Ok?
    ensures var row := RequestedRow(db.departments[input.id], input);
            && (PatchDepartmentChecks(db, input).Ok? <==> SafeRow(db.departments, input.id, row))
            && (PatchDepartmentChecks(db, input).Ok? ==> PatchDepartmentChecks(db, input).value == row)
  {
    OwnParentIsSafe(db.departments, input.id);
    ReachesSelf(db.departments, input.id);
    assert input.id > 0;
  }

  lemma SafeRowsExact(db: Database, id: Id, row: Department)
    requires WellFormed(db) && id in db.departments && |row.name| <= MAX_TEXT
    ensures SafeRow(db.departments, id, row) <==> WellFormed(db.(departments := db.departments[id := row]))
  {
    var ds := db.departments;
    if SafeRow(ds, id, row) {
      RowWriteIsAMove(ds, id, row);
      WriteKeepsWellFormed(db, id, row);
    }
    if WellFormed(db.(departments := ds[id := row])) {
      SafeRowHasSafeParent(ds, id, row);
      NameFreeIfUnique(ds, id, row);
    }
  }

  /** A patch with a proper name is accepted exactly when writing the row it asks for leaves the tables
      well formed: nothing unsafe passes and nothing safe is refused. */
  lemma PatchChecksExact(db: Database, input: PatchDepartmentInput)
    requires WellFormed(db) && input.id in db.departments
    requires input.name.Some? || input.parentSet
    requires input.name.Some? ==> RequiredString(input.name.value).Ok?
    ensures var row := RequestedRow(db.departments[input.id], input);
            && (PatchDepartmentChecks(db, input).Ok? <==>
                WellFormed(db.(departments := db.departments[input.id := row])))
            && (PatchDepartmentChecks(db, input).Ok? ==> PatchDepartmentChecks(db, input).value == row)
  {
    var row := RequestedRow(db.departments[input.id], input);
    assert |db.departments[input.id].name| <= MAX_TEXT;
    PatchChecksAsk(db, input);
    SafeRowsExact(db, input.id, row);
  }

  lemma SafeRowHasSafeParent(ds: Departments, id: Id, row: Department)
    requires Acyclic(ds) && id in ds && Acyclic(ds[id := row]) && ParentsExist(ds[id := row])
    ensures !Above(ds, row.parent, id)
    ensures row.parent.Some? ==> row.parent.value in ds && row.parent.value != id
  {
    ReparentAcyclic(ds, {id}, row.parent);
    ReachesFrame(ds[id := row], Reparent(ds, {id}, row.parent));
    ReachesSelf(ds, id);
    assert ds[id := row][id].parent == row.parent;
  }

  lemma NameFreeIfUnique(ds: Departments, id: Id, row: Department)
    requires UniqueNames(ds[id := row])
    ensures !NameTaken(ds, id, row.name, row.parent)
  {
    forall o | o in ds && o != id ensures !(ds[o].name == row.name && ds[o].parent == row.parent) {
      assert ds[id := row][o] == ds[o] && ds[id := row][id] == row;
    }
  }

  /** A create with a proper name is accepted exactly when adding the row
      leaves the tables well formed. */
  lemma CreateChecksExact(db: Database, input: CreateDepartmentInput, now: Timestamp)
    requires WellFormed(db) && db.lastDepartmentId < MAX_BIGINT
    requires RequiredString(input.name).Ok?
    ensures var id := db.lastDepartmentId + 1;
            var row := Department(RequiredString(input.name).value, input.parent, now);
            CreateDepartmentChecks(db, input, now).Ok? <==>
            WellFormed(db.(departments := db.departments[id := row], lastDepartmentId := id))
  {
    var id := db.lastDepartmentId + 1;
    var row := Department(RequiredString(input.name).value, input.parent, now);
    var ds := db.departments;
    var raw := db.(departments := ds[id := row], lastDepartmentId := id);
    if CreateDepartmentChecks(db, input, now).Ok? {
      NextRowKeepsWellFormed(db, row);
    }
    if WellFormed(raw) {
      assert id !in ds;
      NewRowIsSafe(ds, id, row);
    }
  }

  lemma NextRowKeepsWellFormed(db: Database, row: Department)
    requires WellFormed(db) && db.lastDepartmentId < MAX_BIGINT && |row.name| <= MAX_TEXT
    requires row.parent.Some? ==> row.parent.value in db.departments
    requires !NameExists(db.departments, row.name, row.parent)
    ensures var id := db.lastDepartmentId + 1;
            WellFormed(db.(departments := db.departments[id := row], lastDepartmentId := id))
  {
    var id := db.lastDepartmentId + 1;
    var issued := db.(lastDepartmentId := id);
    assert id !in db.departments;
    FreshRowKeepsAcyclic(db.departments, id, row);
    assert WellFormed(issued);
    assert WriteDepartment(issued, id, row) == Ok(issued.(departments := issued.departments[id := row]));
    WriteKeepsWellFormed(issued, id, row);
  }

  lemma NewRowIsSafe(ds: Departments, id: Id, row: Department)
    requires id !in ds && Acyclic(ds[id := row]) && ParentsExist(ds[id := row]) && UniqueNames(ds[id := row])
    ensures row.parent.Some? ==> row.parent.value in ds
    ensures !NameExists(ds, row.name, row.parent)
  {
    assert ds[id := row][id].parent == row.parent;
    assert Up(ds[id := row], id, 0) == Some(id);
    assert Up(ds[id := row], id, 1) != Some(id);
    NameFreeIfUnique(ds, id, row);
  }

  /** A created department is a leaf: it hangs below its parent's chain and every other chain is as before. */
  lemma CreateAddsALeaf(db: Database, input: CreateDepartmentInput, now: Timestamp, x: Id, ancestor: Id)
    requires WellFormed(db) && CreateDepartment(db, input, now).1.Ok?
    ensures var db' := CreateDepartment(db, input, now).0;
            var id := CreateDepartment(db, input, now).1.value.id;
            && id !in db.departments && db'.departments.Keys == db.departments.Keys + {id}
            && db'.employees == db.employees
            && (x in db.departments ==>
                  db'.departments[x] == db.departments[x]
                  && (Reaches(db'.departments, x, ancestor) <==> Reaches(db.departments, x, ancestor)))
            && (Reaches(db'.departments, id, ancestor) <==>
                ancestor == id || Above(db.departments, input.parent, ancestor))
  {
    var ds := db.departments;
    var row := CreateDepartment(db, input, now).1.value.fields;
    var id := CreateWrites(db, input, now, row);
    NewLeafReaches(ds, id, row, x, ancestor);
  }

  /** A successful create issues the next key and adds the one row. */
  lemma CreateWrites(db: Database, input: CreateDepartmentInput, now: Timestamp, row: Department) returns (id: Id)
    requires KeysIssued(db)
    requires CreateDepartment(db, input, now).1.Ok? && CreateDepartment(db, input, now).1.value.fields == row
    ensures CreateDepartment(db, input, now).1.value.id == id && id !in db.departments
    ensures row.parent == input.parent && (row.parent.Some? ==> row.parent.value in db.departments)
    ensures CreateDepartment(db, input, now).0.departments == db.departments[id := row]
    ensures CreateDepartment(db, input, now).0.employees == db.employees
  {
    id := db.lastDepartmentId + 1;
    assert id !in db.departments;
  }

  lemma NewLeafReaches(ds: Departments, id: Id, row: Department, x: Id, ancestor: Id)
    requires ParentsExist(ds) && id !in ds && (row.parent.Some? ==> row.parent.value in ds)
    ensures x in ds ==> (Reaches(ds[id := row], x, ancestor) <==> Reaches(ds, x, ancestor))
    ensures Reaches(ds[id := row], id, ancestor) <==> ancestor == id || Above(ds, row.parent, ancestor)
  {
    var ds' := ds[id := row];
    forall y: Id, n: nat | y in ds ensures Up(ds', y, n) == Up(ds, y, n) {
      OldRowsStayOld(ds, id, row, y, n);
    }
    ReachesStep(ds', id, ancestor);
    if row.parent.Some? {
      assert Reaches(ds', row.parent.value, ancestor) <==> Reaches(ds, row.parent.value, ancestor);
    }
  }
}
