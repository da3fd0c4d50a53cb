/** What each mutation does and replies, in terms of its input and of the tables before and after,
    and what each refusal says about them. */
module Effects {
  import opened Wrappers
  import opened Forest
  import opened Storage
  import opened Reassignment
  import opened Mutations

  // ---- texts ----

  ghost predicate SpaceBetween(s: string, from: nat, to: nat)
    requires to <= |s|
  {
    forall k :: from <= k < to ==> IsSpace(s[k])
  }

  /** `core` is `value[i..j]`, with nothing but white space around it and none at its own ends. */
  ghost predicate CutAt(value: string, core: string, i: nat, j: nat) {
    && i <= j <= |value| && core == value[i..j]
    && SpaceBetween(value, 0, i) && SpaceBetween(value, j, |value|)
    && (i < j ==> !IsSpace(value[i]) && !IsSpace(value[j - 1]))
  }

  ghost predicate TrimsTo(value: string, core: string) {
    exists i, j :: CutAt(value, core, i, j)
  }

  /** The text a field is given when the caller sends `value`. */
  ghost predicate Proper(value: string, core: string) {
    TrimsTo(value, core) && 0 < |core| <= MAX_TEXT
  }

  ghost predicate Improper(value: string) {
    forall core :: !Proper(value, core)
  }

  lemma {:induction false} TrimLeftCuts(s: string) returns (i: nat)
    ensures i <= |s| && TrimLeft(s) == s[i..] && SpaceBetween(s, 0, i)
    ensures i < |s| ==> !IsSpace(s[i])
  {
    i := 0;
    if s != [] && IsSpace(s[0]) {
      var rest := s[1..];
      i := TrimLeftCuts(rest);
      assert forall k :: 1 <= k < |s| ==> s[k] == rest[k - 1];
      i := i + 1;
    }
  }

  lemma {:induction false} TrimRightCuts(s: string) returns (j: nat)
    ensures j <= |s| && TrimRight(s) == s[..j] && SpaceBetween(s, j, |s|)
    ensures j > 0 ==> !IsSpace(s[j - 1])
    decreases |s|
  {
    j := |s|;
    if s != [] && IsSpace(s[|s| - 1]) {
      var rest := s[..|s| - 1];
      j := TrimRightCuts(rest);
      assert forall k :: 0 <= k < |rest| ==> s[k] == rest[k];
    }
  }

  lemma TrimCuts(value: string)
    ensures TrimsTo(value, TrimRight(TrimLeft(value)))
  {
    var i := TrimLeftCuts(value);
    var rest := value[i..];
    var j := TrimRightCuts(rest);
    assert forall k :: i <= k < |value| ==> value[k] == rest[k - i];
    assert value[i..i + j] == rest[..j];
    assert CutAt(value, rest[..j], i, i + j);
  }

  lemma CutIsInside(value: string, a: string, i: nat, j: nat, b: string, i': nat, j': nat)
    requires CutAt(value, a, i, j) && CutAt(value, b, i', j') && a != []
    ensures i' <= i && j <= j'
  {
  }

  lemma TrimIsUnique(value: string, a: string, b: string)
    requires TrimsTo(value, a) && TrimsTo(value, b)
    ensures a == b
  {
    var i, j :| CutAt(value, a, i, j);
    var i', j' :| CutAt(value, b, i', j');
    if a != [] {
      CutIsInside(value, a, i, j, b, i', j');
    }
    if b != [] {
      CutIsInside(value, b, i', j', a, i, j);
    }
  }

  /** A text is accepted exactly if what is left without the white space around it is neither empty nor too
      long, and that is what is stored. */
  lemma RequiredStringExact(value: string)
    ensures match RequiredString(value)
            case Ok(core) => Proper(value, core) && forall other :: Proper(value, other) ==> other == core
            case Err(error) => error == Validation && Improper(value)
  {
    var trimmed := TrimRight(TrimLeft(value));
    TrimCuts(value);
    forall other | Proper(value, other) ensures other == trimmed {
      TrimIsUnique(value, other, trimmed);
    }
  }

  ghost predicate NamedUnder(ds: Departments, except: Id, name: string, parent: Option<Id>) {
    exists o :: o in ds && o != except && ds[o].name == name && ds[o].parent == parent
  }

  // ---- creating a department ----

  /** What the refusal says is so, and nothing the service looks at earlier was amiss. */
  ghost predicate CreateRefused(db: Database, input: CreateDepartmentInput, error: ServiceError) {
    var ds := db.departments;
    var parentFound := input.parent.Some? ==> input.parent.value != 0 && input.parent.value in ds;
    match error
    case Validation => Improper(input.name)
    case InvalidParentDepartmentId => !Improper(input.name) && input.parent == Some(0)
    case ParentDepartmentNotFound =>
      !Improper(input.name) && input.parent.Some? && input.parent.value != 0 && input.parent.value !in ds
    case DepartmentAlreadyExists =>
      parentFound && exists name :: Proper(input.name, name) && NamedUnder(ds, 0, name, input.parent)
    case RepositoryError(SequenceExhausted) =>
      && parentFound && db.lastDepartmentId >= MAX_BIGINT
      && exists name :: Proper(input.name, name) && !NamedUnder(ds, 0, name, input.parent)
    case _ => false
  }

  /** A create adds one row, made of the trimmed name, the parent asked for and the time, under the next key,
      and replies with it; or it changes nothing, for a reason. */
  lemma CreateDepartmentEffect(db: Database, input: CreateDepartmentInput, now: Timestamp)
    requires WellFormed(db)
    ensures var (db', r) := CreateDepartment(db, input, now);
            match r
            case Ok(reply) =>
              && reply.id == db.lastDepartmentId + 1 && reply.id !in db.departments
              && Proper(input.name, reply.fields.name)
              && reply.fields.parent == input.parent && reply.fields.createdAt == now
              && (input.parent.Some? ==> input.parent.value in db.departments)
              && !NamedUnder(db.departments, reply.id, reply.fields.name, input.parent)
              && db' == Database(db.departments[reply.id := reply.fields], db.employees, reply.id, db.lastEmployeeId)
            case Err(error) => db' == db && CreateRefused(db, input, error)
  {
    RequiredStringExact(input.name);
    assert 0 !in db.departments && db.lastDepartmentId + 1 !in db.departments;
    if CreateDepartmentChecks(db, input, now).Ok? {
      CreateChecksSuffice(db, input, now);
    }
  }

  // ---- patching a department ----

  ghost predicate PatchRefused(db: Database, input: PatchDepartmentInput, error: ServiceError) {
    var ds := db.departments;
    if input.id !in ds then error == if input.id == 0 then InvalidDepartmentId else DepartmentNotFound
    else if input.name.None? && !input.parentSet then error == NothingToUpdate
    else if input.name.Some? && Improper(input.name.value) then error == Validation
    else if input.parentSet && input.parent == Some(0) then error == InvalidParentDepartmentId
    else if input.parentSet && input.parent == Some(input.id) then error == DepartmentCannotBeParentOfItself
    else if input.parentSet && input.parent.Some? && input.parent.value !in ds then error == ParentDepartmentNotFound
    else if input.parentSet && Above(ds, input.parent, input.id) then error == DepartmentMoveWouldCreateCycle
    else
      && error == DepartmentAlreadyExists
      && exists name :: NameAfter(ds[input.id], input, name) && NamedUnder(ds, input.id, name, ParentAfter(ds[input.id], input))
  }

  ghost predicate NameAfter(before: Department, input: PatchDepartmentInput, name: string) {
    if input.name.Some? then Proper(input.name.value, name) else name == before.name
  }

  function ParentAfter(before: Department, input: PatchDepartmentInput): Option<Id> {
    if input.parentSet then input.parent else before.parent
  }

  /** A patch writes one row, with the name and the parent asked for and everything else as it was, and replies
      with the row as written; or it changes nothing, for a reason. */
  lemma PatchDepartmentEffect(db: Database, input: PatchDepartmentInput)
    requires WellFormed(db)
    ensures var (db', r) := PatchDepartment(db, input);
            match r
            case Ok(reply) =>
              && reply.id == input.id && input.id in db.departments
              && NameAfter(db.departments[input.id], input, reply.fields.name)
              && reply.fields.parent == ParentAfter(db.departments[input.id], input)
              && reply.fields.createdAt == db.departments[input.id].createdAt
              && db' == db.(departments := db.departments[input.id := reply.fields])
            case Err(error) => db' == db && PatchRefused(db, input, error)
  {
    if PatchDepartmentChecks(db, input).Ok? {
      PatchChecksSuffice(db, input);
      if input.name.Some? {
        RequiredStringExact(input.name.value);
      }
    } else {
      PatchRefusalIsRight(db, input);
    }
  }

  lemma PatchRefusalIsRight(db: Database, input: PatchDepartmentInput)
    requires KeysIssued(db) && PatchDepartmentChecks(db, input).Err?
    ensures PatchRefused(db, input, PatchDepartmentChecks(db, input).error)
  {
    assert 0 !in db.departments;
    if input.name.Some? {
      RequiredStringExact(input.name.value);
    }
    if PatchDepartmentChecks(db, input).error == DepartmentAlreadyExists {
      var name := RequestedRow(db.departments[input.id], input).name;
      assert NameAfter(db.departments[input.id], input, name);
      assert NamedUnder(db.departments, input.id, name, ParentAfter(db.departments[input.id], input));
    }
  }

  /** A patch with a proper name commits exactly when the row it asks for leaves the tables well formed,
      and then stores and replies exactly that row. */
  lemma PatchDepartmentExact(db: Database, input: PatchDepartmentInput)
    requires WellFormed(db) && input.id in db.departments
    requires input.name.Some? || input.parentSet
    requires input.name.Some? ==> RequiredString(input.name.value).Ok?
    ensures var row := RequestedRow(db.departments[input.id], input);
            var asked := db.(departments := db.departments[input.id := row]);
            && NameAfter(db.departments[input.id], input, row.name)
            && row.parent == ParentAfter(db.departments[input.id], input)
            && (if WellFormed(asked) then PatchDepartment(db, input) == (asked, Ok(DepartmentRow(input.id, row)))
                else PatchDepartment(db, input).0 == db && PatchDepartment(db, input).1.Err?)
  {
    PatchChecksExact(db, input);
    if input.name.Some? {
      RequiredStringExact(input.name.value);
    }
    if PatchDepartmentChecks(db, input).Ok? {
      PatchChecksSuffice(db, input);
    }
  }

  // ---- deleting a department ----

  /** Some child of `from` and some child of `to` share a name. */
  ghost predicate SharedName(ds: Departments, from: Id, to: Id) {
    exists c, o :: c in ds && o in ds && ds[c].parent == Some(from) && ds[o].parent == Some(to) && ds[c].name == ds[o].name
  }

  ghost predicate RemoveRefused(db: Database, input: DeleteDepartmentInput, error: ServiceError) {
    var ds := db.departments;
    if input.id !in ds then error == if input.id == 0 then InvalidDepartmentId else DepartmentNotFound
    else if input.mode != "reassign" then input.mode != "cascade" && error == InvalidDeleteMode
    else if input.reassignTo.None? then error == ReassignTargetRequired
    else if input.reassignTo == Some(0) then error == InvalidDepartmentId
    else if input.reassignTo == Some(input.id) then error == CannotReassignToSelf
    else if input.reassignTo.value !in ds then error == ReassignTargetNotFound
    else if Reaches(ds, input.reassignTo.value, input.id) then error == DepartmentWouldCreateCycle
    else error == DepartmentAlreadyExists && SharedName(ds, input.id, input.reassignTo.value)
  }

  /** The subtree of `id` and its employees are gone, and nothing else has changed. */
  ghost predicate CascadedAway(db: Database, db': Database, id: Id) {
    && (forall d :: d in db'.departments <==> d in db.departments && !Reaches(db.departments, d, id))
    && (forall d :: d in db'.departments ==> db'.departments[d] == db.departments[d])
    && (forall e :: e in db'.employees <==> e in db.employees && !Reaches(db.departments, db.employees[e].departmentId, id))
    && (forall e :: e in db'.employees ==> db'.employees[e] == db.employees[e])
    && (forall x: Id, a: Id :: x in db'.departments ==>
          (Reaches(db'.departments, x, a) <==> Reaches(db.departments, x, a)))
    && db'.lastDepartmentId == db.lastDepartmentId && db'.lastEmployeeId == db.lastEmployeeId
  }

  /** Exactly `from` is gone; its children and its employees, and only they, have `to` in its place; every chain
      runs as before, or through `to` where it ran through `from`. */
  ghost predicate PassedOn(db: Database, db': Database, from: Id, to: Id) {
    var ds, ds' := db.departments, db'.departments;
    && ds'.Keys == ds.Keys - {from} && db'.employees.Keys == db.employees.Keys
    && (forall d :: d in ds' ==> ds'[d] == if ds[d].parent == Some(from) then ds[d].(parent := Some(to)) else ds[d])
    && (forall e :: e in db.employees ==>
          db'.employees[e] == if db.employees[e].departmentId == from then db.employees[e].(departmentId := to)
                              else db.employees[e])
    && (forall x, a :: x in ds' && a in ds' ==> (Reaches(ds', x, a) <==> ReachesAfterReassign(ds, from, to, x, a)))
    && db'.lastDepartmentId == db.lastDepartmentId && db'.lastEmployeeId == db.lastEmployeeId
  }

  /** A delete does what its mode says and replies with what it was asked; or it changes nothing, for a reason. */
  lemma RemoveDepartmentEffect(db: Database, input: DeleteDepartmentInput)
    requires WellFormed(db)
    ensures var (db', r) := RemoveDepartment(db, input);
            match r
            case Ok(reply) =>
              && input.id in db.departments
              && reply.message == "department deleted" && reply.id == input.id && reply.mode == input.mode
              && ((input.mode == "cascade" && reply.reassignTo.None? && CascadedAway(db, db', input.id))
                  || (input.mode == "reassign" && input.reassignTo.Some? && reply.reassignTo == input.reassignTo
                      && !SharedName(db.departments, input.id, input.reassignTo.value)
                      && PassedOn(db, db', input.id, input.reassignTo.value)))
            case Err(error) => db' == db && RemoveRefused(db, input, error)
  {
    assert 0 !in db.departments;
    if DeleteDepartmentChecks(db, input).Ok? {
      if input.mode == "cascade" {
        CascadeEffect(db, input.id);
      } else {
        PassingOnEffect(db, input.id, input.reassignTo.value);
      }
    }
  }

  lemma CascadeEffect(db: Database, id: Id)
    requires WellFormed(db) && id in db.departments
    ensures CascadedAway(db, DeleteDepartment(db, id), id)
  {
    DeleteExact(db, id);
  }

  lemma PassingOnEffect(db: Database, from: Id, to: Id)
    requires WellFormed(db)
    requires from in db.departments && to in db.departments && from != to && !Reaches(db.departments, to, from)
    ensures SharedName(db.departments, from, to) <==> Reassign(db, from, to) == Err(AlreadyExists)
    ensures Reassign(db, from, to).Err? ==> Reassign(db, from, to).error == AlreadyExists
    ensures Reassign(db, from, to).Ok? ==> PassedOn(db, Reassign(db, from, to).value, from, to)
  {
    SharedNameIsConflict(db.departments, from, to);
    if !SharesChildName(db.departments, from, to) {
      ReassignEffect(db, from, to);
      OnlyTheSourceGoes(db, from, to);
    }
  }

  lemma SharedNameIsConflict(ds: Departments, from: Id, to: Id)
    requires from != to
    ensures SharedName(ds, from, to) <==> SharesChildName(ds, from, to)
  {
    if c, o :| c in ds && o in ds && ds[c].parent == Some(from) && ds[o].parent == Some(to) && ds[c].name == ds[o].name {
      assert c in Children(ds, from) && NameTaken(ds, c, ds[c].name, Some(to));
    }
  }

  // ---- employees ----

  ghost predicate Dated(text: Option<DateText>, at: Option<Timestamp>) {
    match text
    case None => at.None?
    case Some(NotADate) => false
    case Some(Date(t)) => at == Some(t)
  }

  ghost predicate CreateEmployeeRefused(db: Database, input: CreateEmployeeInput, error: ServiceError) {
    if input.departmentId == 0 then error == InvalidDepartmentId
    else if Improper(input.fullName) || Improper(input.position) then error == Validation
    else if input.hiredAt == Some(NotADate) then error == InvalidHiredAt
    else if input.departmentId !in db.departments then error == DepartmentNotFound
    else error == RepositoryError(SequenceExhausted) && db.lastEmployeeId >= MAX_BIGINT
  }

  /** Creating an employee adds one row, each field from the input meant for it, under the next key, and replies
      with it; or it changes nothing, for a reason. */
  lemma CreateEmployeeEffect(db: Database, input: CreateEmployeeInput, now: Timestamp)
    requires WellFormed(db)
    ensures var (db', r) := CreateEmployee(db, input, now);
            match r
            case Ok(reply) =>
              && reply.id == db.lastEmployeeId + 1 && reply.id !in db.employees
              && reply.fields.departmentId == input.departmentId && input.departmentId in db.departments
              && Proper(input.fullName, reply.fields.fullName) && Proper(input.position, reply.fields.position)
              && Dated(input.hiredAt, reply.fields.hiredAt) && reply.fields.createdAt == now
              && db' == Database(db.departments, db.employees[reply.id := reply.fields], db.lastDepartmentId, reply.id)
            case Err(error) => db' == db && CreateEmployeeRefused(db, input, error)
  {
    CreateEmployeeChecksExact(db, input, now);
    if CreateEmployeeChecks(db, input, now).Ok? {
      CreateEmployeeChecksSuffice(db, input, now);
      assert db.lastEmployeeId + 1 !in db.employees;
    }
  }

  lemma CreateEmployeeChecksExact(db: Database, input: CreateEmployeeInput, now: Timestamp)
    requires KeysIssued(db)
    ensures match CreateEmployeeChecks(db, input, now)
            case Ok(row) =>
              && row.departmentId == input.departmentId && input.departmentId in db.departments && input.departmentId != 0
              && Proper(input.fullName, row.fullName) && Proper(input.position, row.position)
              && Dated(input.hiredAt, row.hiredAt) && row.createdAt == now
            case Err(error) => !error.RepositoryError? && CreateEmployeeRefused(db, input, error)
  {
    RequiredStringExact(input.fullName);
    RequiredStringExact(input.position);
  }


  /** A text field of a patch is kept, or is the trimmed text sent. */
  ghost predicate TextAfter(before: string, text: Option<string>, isSet: bool, after: string) {
    if isSet then text.Some? && Proper(text.value, after) else after == before
  }

  ghost predicate BadText(text: Option<string>, isSet: bool) {
    isSet && (text.None? || Improper(text.value))
  }

  ghost predicate PatchEmployeeRefused(db: Database, input: PatchEmployeeInput, error: ServiceError) {
    if input.id == 0 then error == InvalidEmployeeId
    else if !input.fullNameSet && !input.positionSet && !input.departmentIdSet && !input.hiredAtSet then
      error == NothingToUpdate
    else if input.id !in db.employees then error == EmployeeNotFound
    else if BadText(input.fullName, input.fullNameSet) || BadText(input.position, input.positionSet) then
      error == Validation
    else if input.departmentIdSet && input.departmentId.None? then error == Validation
    else if input.departmentIdSet && input.departmentId == Some(0) then error == InvalidDepartmentId
    else if input.departmentIdSet && input.departmentId.value !in db.departments then error == DepartmentNotFound
    else error == InvalidHiredAt && input.hiredAtSet && input.hiredAt == Some(NotADate)
  }

  lemma PatchedTextExact(before: string, text: Option<string>, isSet: bool)
    ensures match PatchedText(before, text, isSet)
            case Ok(after) => TextAfter(before, text, isSet, after)
            case Err(error) => error == Validation && BadText(text, isSet)
    ensures BadText(text, isSet) ==> PatchedText(before, text, isSet).Err?
  {
    if isSet && text.Some? {
      RequiredStringExact(text.value);
    }
  }

  /** Patching an employee writes one row, every field that is set from the input meant for it and every other as
      it was, and replies with the row as written; or it changes nothing, for a reason. */
  lemma PatchEmployeeEffect(db: Database, input: PatchEmployeeInput)
    requires WellFormed(db)
    ensures var (db', r) := PatchEmployee(db, input);
            match r
            case Ok(reply) =>
              && reply.id == input.id && input.id in db.employees
              && var before := db.employees[input.id];
              && TextAfter(before.fullName, input.fullName, input.fullNameSet, reply.fields.fullName)
              && TextAfter(before.position, input.position, input.positionSet, reply.fields.position)
              && (if input.departmentIdSet then input.departmentId == Some(reply.fields.departmentId)
                  else reply.fields.departmentId == before.departmentId)
              && (if input.hiredAtSet then Dated(input.hiredAt, reply.fields.hiredAt)
                  else reply.fields.hiredAt == before.hiredAt)
              && reply.fields.createdAt == before.createdAt
              && db' == db.(employees := db.employees[input.id := reply.fields])
            case Err(error) => db' == db && PatchEmployeeRefused(db, input, error)
  {
    assert 0 !in db.departments && 0 !in db.employees;
    if input.id in db.employees {
      PatchedTextExact(db.employees[input.id].fullName, input.fullName, input.fullNameSet);
      PatchedTextExact(db.employees[input.id].position, input.position, input.positionSet);
    }
    if PatchEmployeeChecks(db, input).Ok? {
      PatchEmployeeChecksSuffice(db, input);
    }
  }

  /** Deleting an employee removes that row alone; a missing one is reported and nothing changes. */
  lemma RemoveEmployeeEffect(db: Database, id: Id)
    requires WellFormed(db)
    ensures var (db', r) := RemoveEmployee(db, id);
            if id in db.employees then
              && r == Ok(())
              && (forall e :: e in db'.employees <==> e in db.employees && e != id)
              && (forall e :: e in db'.employees ==> db'.employees[e] == db.employees[e])
              && db' == db.(employees := db'.employees)
            else r == Err(if id == 0 then InvalidEmployeeId else EmployeeNotFound) && db' == db
  {
    assert 0 !in db.employees;
  }
}
