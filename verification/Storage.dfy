/** The two tables and what PostgreSQL promises about them: keys, cascades and the two partial unique indexes. */
module Storage {
  import opened Wrappers
  import opened Forest

  const MAX_BIGINT := 0x7FFF_FFFF_FFFF_FFFF
  const MAX_TEXT := 200

  datatype Employee = Employee(
    departmentId: Id, fullName: string, position: string, hiredAt: Option<Timestamp>, createdAt: Timestamp)

  type Employees = map<Id, Employee>

  /** Rows by primary key, and the last value each BIGSERIAL sequence has handed out. */
  datatype Database = Database(
    departments: Departments, employees: Employees, lastDepartmentId: nat, lastEmployeeId: nat)

  datatype DepartmentRow = DepartmentRow(id: Id, fields: Department)
  datatype EmployeeRow = EmployeeRow(id: Id, fields: Employee)

  /** `Unavailable` is any failure of a query that no constraint explains. */
  datatype StorageError =
    Unavailable | NotFound | AlreadyExists | ForeignKeyViolation | ValueTooLong | SequenceExhausted

  // ---- the invariant ----

  ghost predicate ParentsExist(ds: Departments) {
    forall id :: id in ds && ds[id].parent.Some? ==> ds[id].parent.value in ds
  }

  ghost predicate UniqueNames(ds: Departments) {
    forall a, b :: a in ds && b in ds && ds[a].name == ds[b].name && ds[a].parent == ds[b].parent ==> a == b
  }

  ghost predicate EmployeesPlaced(es: Employees, ds: Departments) {
    forall e :: e in es ==> es[e].departmentId in ds
  }

  ghost predicate KeysIssued(db: Database) {
    && db.lastDepartmentId <= MAX_BIGINT && db.lastEmployeeId <= MAX_BIGINT
    && (forall id :: id in db.departments ==> 0 < id <= db.lastDepartmentId)
    && (forall e :: e in db.employees ==> 0 < e <= db.lastEmployeeId)
  }

  ghost predicate TextsFit(db: Database) {
    && (forall id :: id in db.departments ==> |db.departments[id].name| <= MAX_TEXT)
    && (forall e :: e in db.employees ==> EmployeeFits(db.employees[e]))
  }

  ghost predicate WellFormed(db: Database) {
    && Acyclic(db.departments)
    && ParentsExist(db.departments)
    && UniqueNames(db.departments)
    && EmployeesPlaced(db.employees, db.departments)
    && KeysIssued(db)
    && TextsFit(db)
  }

  // ---- writes ----

  /** Another row already holds this (parent, name), roots counting as one parent. */
  predicate NameTaken(ds: Departments, self: Id, name: string, parent: Option<Id>) {
    exists o :: o in ds && o != self && ds[o].name == name && ds[o].parent == parent
  }

  predicate NameExists(ds: Departments, name: string, parent: Option<Id>) {
    exists o :: o in ds && ds[o].name == name && ds[o].parent == parent
  }

  /** Insert or update one department row; foreign keys are checked when the statement ends. */
  function WriteDepartment(db: Database, id: Id, row: Department): Result<Database, StorageError> {
    if |row.name| > MAX_TEXT then Err(ValueTooLong)
    else if NameTaken(db.departments, id, row.name, row.parent) then Err(AlreadyExists)
    else if row.parent.Some? && row.parent.value != id && row.parent.value !in db.departments then
      Err(ForeignKeyViolation)
    else Ok(db.(departments := db.departments[id := row]))
  }

  /** A failed insert still consumes its sequence value. */
  function InsertDepartment(db: Database, row: Department): (Result<Id, StorageError>, Database) {
    if db.lastDepartmentId >= MAX_BIGINT then (Err(SequenceExhausted), db)
    else
      var id := db.lastDepartmentId + 1;
      var issued := db.(lastDepartmentId := id);
      match WriteDepartment(issued, id, row)
      case Ok(written) => (Ok(id), written)
      case Err(error) => (Err(error), issued)
  }

  predicate EmployeeFits(row: Employee) {
    |row.fullName| <= MAX_TEXT && |row.position| <= MAX_TEXT
  }

  function WriteEmployee(db: Database, id: Id, row: Employee): Result<Database, StorageError> {
    if !EmployeeFits(row) then Err(ValueTooLong)
    else if row.departmentId !in db.departments then Err(ForeignKeyViolation)
    else Ok(db.(employees := db.employees[id := row]))
  }

  function InsertEmployee(db: Database, row: Employee): (Result<Id, StorageError>, Database) {
    if db.lastEmployeeId >= MAX_BIGINT then (Err(SequenceExhausted), db)
    else
      var id := db.lastEmployeeId + 1;
      var issued := db.(lastEmployeeId := id);
      match WriteEmployee(issued, id, row)
      case Ok(written) => (Ok(id), written)
      case Err(error) => (Err(error), issued)
  }

  function DeleteEmployee(db: Database, id: Id): Database {
    db.(employees := db.employees - {id})
  }

  /** DELETE with both ON DELETE CASCADE rules; deleting a missing row is no error. */
  function DeleteDepartment(db: Database, id: Id): Database {
    if id !in db.departments then db
    else
      var gone := Cascade(db.departments, {id});
      db.(departments := db.departments - gone,
          employees := map e | e in db.employees && db.employees[e].departmentId !in gone :: db.employees[e])
  }

  // ---- the reassign transaction ----

  function Children(ds: Departments, parent: Id): set<Id> {
    ChildrenOf(ds, {parent})
  }

  /** UPDATE departments SET parent_id = to, row by row, each row checked at once against the unique index. */
  function MoveRows(ds: Departments, rows: seq<Id>, to: Id): Option<Departments>
    requires forall id :: id in rows ==> id in ds
  {
    if rows == [] then Some(ds)
    else if NameTaken(ds, rows[0], ds[rows[0]].name, Some(to)) then None
    else MoveRows(ds[rows[0] := ds[rows[0]].(parent := Some(to))], rows[1..], to)
  }

  function Redirect(es: Employees, from: Id, to: Id): Employees {
    map e | e in es :: if es[e].departmentId == from then es[e].(departmentId := to) else es[e]
  }

  ghost predicate Enumerates(rows: seq<Id>, ids: set<Id>) {
    && (forall i, j :: 0 <= i < j < |rows| ==> rows[i] != rows[j])
    && (forall id :: id in rows <==> id in ids)
  }

  /** The three statements of the transaction, for one order in which the engine visits the child rows. */
  function ReassignInOrder(db: Database, from: Id, to: Id, rows: seq<Id>): Result<Database, StorageError>
    requires forall id :: id in rows ==> id in db.departments
  {
    match MoveRows(db.departments, rows, to)
    case None => Err(AlreadyExists)
    case Some(moved) =>
      if rows != [] && to !in db.departments then Err(ForeignKeyViolation)
      else
        var redirected := Redirect(db.employees, from, to);
        if redirected != db.employees && to !in db.departments then Err(ForeignKeyViolation)
        else Ok(DeleteDepartment(db.(departments := moved, employees := redirected), from))
  }

  /** Some child of `from` shares its name with a current child of `to`. */
  predicate SharesChildName(ds: Departments, from: Id, to: Id) {
    exists c :: c in Children(ds, from) && NameTaken(ds, c, ds[c].name, Some(to))
  }

  /** The transaction's outcome, with no order in it. */
  function Reassign(db: Database, from: Id, to: Id): Result<Database, StorageError> {
    var ds := db.departments;
    var redirected := Redirect(db.employees, from, to);
    if SharesChildName(ds, from, to) then Err(AlreadyExists)
    else if to !in ds && (Children(ds, from) != {} || redirected != db.employees) then Err(ForeignKeyViolation)
    else Ok(DeleteDepartment(
              db.(departments := Reparent(ds, Children(ds, from), Some(to)), employees := redirected), from))
  }

  /** Row by row, in any order, the move fails exactly when one of the rows meets a name already there. */
  lemma {:induction false} MoveRowsExact(ds: Departments, rows: seq<Id>, moved: set<Id>, to: Id)
    requires Enumerates(rows, moved) && moved <= ds.Keys
    requires forall a, b :: a in moved && b in moved && ds[a].name == ds[b].name ==> a == b
    ensures MoveRows(ds, rows, to) ==
            if exists c :: c in moved && NameTaken(ds, c, ds[c].name, Some(to)) then None
            else Some(Reparent(ds, moved, Some(to)))
  {
    if rows == [] {
      assert Reparent(ds, moved, Some(to)) == ds;
    } else {
      var c := rows[0];
      assert c in rows;
      var ds1 := ds[c := ds[c].(parent := Some(to))];
      if !NameTaken(ds, c, ds[c].name, Some(to)) {
        var rest := moved - {c};
        forall id ensures id in rows[1..] <==> id in rest {
          assert id in rows <==> id == c || id in rows[1..];
        }
        MoveRowsExact(ds1, rows[1..], rest, to);
        forall t | t in rest
          ensures NameTaken(ds1, t, ds1[t].name, Some(to)) <==> NameTaken(ds, t, ds[t].name, Some(to))
        {
          MovedRowTakesNoOtherName(ds, ds1, c, t, to);
        }
        assert Reparent(ds1, rest, Some(to)) == Reparent(ds, moved, Some(to));
      }
    }
  }

  lemma MovedRowTakesNoOtherName(ds: Departments, ds1: Departments, c: Id, t: Id, to: Id)
    requires c in ds && t in ds && c != t && ds[c].name != ds[t].name
    requires ds1 == ds[c := ds[c].(parent := Some(to))]
    ensures NameTaken(ds1, t, ds1[t].name, Some(to)) <==> NameTaken(ds, t, ds[t].name, Some(to))
  {
    if o :| o in ds && o != t && ds[o].name == ds[t].name && ds[o].parent == Some(to) {
      assert ds1[o] == ds[o];
    }
  }

  lemma ReassignOrderIrrelevant(db: Database, from: Id, to: Id, rows: seq<Id>)
    requires UniqueNames(db.departments)
    requires Enumerates(rows, Children(db.departments, from))
    ensures ReassignInOrder(db, from, to, rows) == Reassign(db, from, to)
  {
    MoveRowsExact(db.departments, rows, Children(db.departments, from), to);
    if rows == [] {
      assert Children(db.departments, from) == {};
    } else {
      assert rows[0] in rows;
    }
  }

  // ---- what the writes preserve ----

  lemma DeleteKeepsWellFormed(db: Database, id: Id)
    requires WellFormed(db)
    ensures WellFormed(DeleteDepartment(db, id))
  {
    if id in db.departments {
      var gone := Cascade(db.departments, {id});
      RemovalKeepsChains(db.departments, gone);
      forall x | x in db.departments - gone && db.departments[x].parent.Some?
        ensures db.departments[x].parent.value in db.departments - gone
      {
        assert x !in ChildrenOf(db.departments, gone);
      }
    }
  }

  /** Cascade delete removes the subtree and its employees, and nothing else. */
  lemma DeleteExact(db: Database, id: Id)
    requires id in db.departments
    ensures DeleteDepartment(db, id).departments == db.departments - Subtree(db.departments, id)
    ensures DeleteDepartment(db, id).employees ==
            map e | e in db.employees && db.employees[e].departmentId !in Subtree(db.departments, id) :: db.employees[e]
    ensures id in Subtree(db.departments, id)
    ensures forall x: Id, ancestor: Id :: x in db.departments && !Reaches(db.departments, x, id) ==>
              (Reaches(DeleteDepartment(db, id).departments, x, ancestor) <==> Reaches(db.departments, x, ancestor))
  {
    CascadeIsSubtree(db.departments, id);
    ReachesSelf(db.departments, id);
    RemovalKeepsChains(db.departments, Cascade(db.departments, {id}));
  }

  lemma WriteKeepsWellFormed(db: Database, id: Id, row: Department)
    requires WellFormed(db)
    requires 0 < id <= db.lastDepartmentId
    requires WriteDepartment(db, id, row).Ok?
    requires Acyclic(db.departments[id := row])
    ensures WellFormed(WriteDepartment(db, id, row).value)
  {
  }

  /** A new row hangs below the forest: no chain runs through it. */
  lemma FreshRowKeepsAcyclic(ds: Departments, id: Id, row: Department)
    requires Acyclic(ds) && ParentsExist(ds) && id !in ds
    requires row.parent.Some? ==> row.parent.value in ds
    ensures Acyclic(ds[id := row])
  {
    var ds' := ds[id := row];
    forall x: Id, n: nat | n > 0 ensures Up(ds', x, n) != Some(x) {
      if x in ds {
        OldRowsStayOld(ds, id, row, x, n);
      } else if Up(ds', x, n).Some? {
        var p := UpOne(ds', x, n);
        UpAdd(ds', x, 1, p, n - 1);
        OldRowsStayOld(ds, id, row, p, n - 1);
      }
    }
  }

  lemma {:induction false} OldRowsStayOld(ds: Departments, id: Id, row: Department, x: Id, n: nat)
    requires ParentsExist(ds) && id !in ds && x in ds
    ensures Up(ds[id := row], x, n) == Up(ds, x, n)
    ensures Up(ds, x, n).Some? ==> Up(ds, x, n).value in ds
  {
    if n > 0 {
      OldRowsStayOld(ds, id, row, x, n - 1);
    }
  }
}
