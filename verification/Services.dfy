/** The services as objects over the repositories and the optional cache, each method proved against
    its specification. */
module Services {
  import opened Wrappers
  import opened Forest
  import opened Storage
  import opened Mutations
  import opened Trees
  import opened Json
  import opened CacheKeys
  import opened Entries
  import opened Ttl
  import opened Repositories
  import opened CacheStores

  function Footprint(store: CacheStore?): set<object> {
    if store == null then {} else {store}
  }

  /** A committed mutation asks for one increment, which gets lost only if the store is at fault; any other
      leaves the store alone. */
  twostate predicate Bumped(store: CacheStore?, committed: bool)
    reads Footprint(store)
  {
    store != null ==>
      && store.asked == old(store.asked) + (if committed then 1 else 0)
      && (if committed && store.faults == old(store.faults) then Incremented(old(store.entries), store.entries, EPOCH_KEY)
          else store.entries == old(store.entries))
  }

  method BumpDepartmentTreeEpoch(store: CacheStore?)
    modifies Footprint(store)
    ensures Bumped(store, true)
  {
    if store == null {
      return;
    }
    var _ := store.Increment(EPOCH_KEY);
  }

  /** The epoch, if one can be read, is the number of the counter; one cannot only if the store is at fault,
      or holds no such number. */
  method ReadDepartmentTreeEpoch(store: CacheStore) returns (epoch: Option<int>)
    modifies store`faults, store`errors
    ensures store.faults >= old(store.faults)
    ensures epoch.Some? ==> store.errors == old(store.errors)
    ensures epoch.None? && store.faults == old(store.faults) ==>
              CounterAt(store.entries, EPOCH_KEY).None? || CounterAt(store.entries, EPOCH_KEY).value < 0
    ensures epoch.Some? ==> epoch == CounterAt(store.entries, EPOCH_KEY) && epoch.value >= 0
  {
    var got := store.Get(EPOCH_KEY);
    if got.GetFailed? {
      return None;
    }
    if got.Miss? {
      return Some(0);
    }
    if !got.blob.Text? {
      return None;
    }
    var n := ParseInt(got.blob.text);
    if n.None? || n.value < 0 {
      return None;
    }
    return n;
  }

  /** A tree read from the cache is the one stored under this very key, and has passed the check; unless the
      store is at fault, one that is stored there and passes is read. */
  method ReadCachedDepartmentTree(store: CacheStore, p: Params) returns (r: CacheRead)
    modifies store`faults, store`errors
    ensures store.faults >= old(store.faults)
    ensures store.errors == old(store.errors) + (if r.ReadError? then 1 else 0)
    ensures store.faults == old(store.faults) ==>
              r == if KeyOf(p) in store.entries && Accept(store.entries[KeyOf(p)], p).Some?
                   then Cached(Accept(store.entries[KeyOf(p)], p).value) else NotCached
    ensures r.Cached? ==> KeyOf(p) in store.entries && Accept(store.entries[KeyOf(p)], p) == Some(r.tree)
  {
    TreeKeyIsNotEpochKey(p.epoch, p.id, p.depth, p.withEmployees);
    var got := store.Get(KeyOf(p));
    if got.GetFailed? {
      return ReadError;
    }
    if got.Miss? || !got.blob.Document? {
      return NotCached;
    }
    var tree := DecodeTree(got.blob.json);
    if tree.Err? || tree.value.id != p.id {
      return NotCached;
    }
    var valid := CheckNode(tree.value, p.depth, p.withEmployees);
    return if valid then Cached(tree.value) else NotCached;
  }

  twostate predicate NotAsked(tables: Tables)
    reads tables`queries, tables`failures
  {
    tables.queries == old(tables.queries) && tables.failures == old(tables.failures)
  }

  twostate predicate Failed(tables: Tables)
    reads tables`failures
  {
    tables.failures > old(tables.failures)
  }

  /** A mutation does and replies what its specification says, unless a query of it failed:
      then it says so and has changed nothing. */
  ghost predicate Outcome<T>(before: Database, after: Database, r: Result<T, ServiceError>,
                             specified: (Database, Result<T, ServiceError>), failed: bool)
  {
    if failed then r == Err(RepositoryError(Unavailable)) && after == before
    else (after, r) == specified
  }

  /** The answer the tables alone would give, or the error of a query that failed. */
  ghost predicate IsTreeOf(db: Database, r: Result<Tree, ServiceError>, id: Id, depth: int, withEmployees: bool,
                           failed: bool)
  {
    if failed then r == Err(RepositoryError(Unavailable))
    else
      match r
      case Ok(tree) => tree.id == id && Represents(db, tree, depth, withEmployees)
      case Err(error) => error == DepartmentNotFound && id !in db.departments
  }

  ghost predicate IsStored(entries: Contents, p: Params, r: Result<Tree, ServiceError>) {
    r.Ok? && KeyOf(p) in entries && Accept(entries[KeyOf(p)], p) == Some(r.value)
  }

  /** The epoch of these parameters is the counter's, or the counter has moved on since it was captured. */
  ghost predicate Captured(entries: Contents, p: Params) {
    CounterAt(entries, EPOCH_KEY).Some? ==> p.epoch <= CounterAt(entries, EPOCH_KEY).value
  }

  /** A read writes at most its own answer under its key, if that fits and no Get of it returned an error; it
      asks for no increment, and keeps the store in agreement, even if its epoch is no longer the current one. */
  twostate predicate OnlyCaches(store: CacheStore, db: Database, p: Params, new r: Result<Tree, ServiceError>,
                                payloadFits: Tree -> bool)
    reads store
  {
    && store.asked == old(store.asked) && store.faults >= old(store.faults)
    && CounterAt(store.entries, EPOCH_KEY) == CounterAt(old(store.entries), EPOCH_KEY)
    && (store.entries == old(store.entries)
        || (r.Ok? && payloadFits(r.value) && store.errors == old(store.errors)
            && store.entries == old(store.entries)[KeyOf(p) := Document(EncodeTree(r.value))]))
    && (Agrees(old(store.entries), db) && Captured(old(store.entries), p) ==> Agrees(store.entries, db))
  }

  /** While the store works, a tree it holds is the answer and costs no query, and one that fits is held afterwards. */
  twostate predicate ServesAndFills(store: CacheStore, tables: Tables, p: Params, new r: Result<Tree, ServiceError>,
                                    payloadFits: Tree -> bool)
    reads store, tables`queries, tables`failures
  {
    store.faults == old(store.faults) ==>
      var before := old(store.entries);
      && (KeyOf(p) in before && Accept(before[KeyOf(p)], p).Some? ==> IsStored(before, p, r) && NotAsked(tables))
      && (r.Ok? && payloadFits(r.value) ==> IsStored(store.entries, p, r))
  }

  lemma StoringKeepsAgreement(entries: Contents, db: Database, p: Params, tree: Tree)
    requires WellFormed(db) && tree.id == p.id && Represents(db, tree, p.depth, p.withEmployees)
    ensures var after := entries[KeyOf(p) := Document(EncodeTree(tree))];
            && CounterAt(after, EPOCH_KEY) == CounterAt(entries, EPOCH_KEY)
            && (Agrees(entries, db) && Captured(entries, p) ==> Agrees(after, db))
            && IsStored(after, p, Ok(tree))
  {
    TreeKeyIsNotEpochKey(p.epoch, p.id, p.depth, p.withEmployees);
    RepresentedIsAccepted(db, tree, p);
    if Agrees(entries, db) && Captured(entries, p) {
      PutAgrees(entries, db, p, tree);
    }
  }

  /** A node over the trees of all its children is a tree one level deeper. */
  lemma Assemble(db: Database, node: Tree, rows: seq<DepartmentRow>, trees: seq<Tree>, depth: int, withEmployees: bool)
    requires depth > 0 && Shows(db, node, withEmployees)
    requires ListsChildren(db.departments, node.id, rows) && |trees| == |rows|
    requires forall j :: 0 <= j < |rows| ==> trees[j].id == rows[j].id
    requires forall j :: 0 <= j < |rows| ==> Represents(db, trees[j], depth - 1, withEmployees)
    ensures Represents(db, node.(children := Items(trees)), depth, withEmployees)
  {
  }

  class DepartmentService {
    const departmentRepo: DepartmentRepository
    const employeeRepo: EmployeeRepository
    const store: CacheStore?
    const ttl: Duration
    const jitter: Jitter
    /** The tree marshals to no more than the size limit. */
    const payloadFits: Tree -> bool

    constructor (departmentRepo: DepartmentRepository, employeeRepo: EmployeeRepository, store: CacheStore?, ttl: Duration,
                 payloadFits: Tree -> bool)
      ensures this.departmentRepo == departmentRepo && this.employeeRepo == employeeRepo && this.store == store
      ensures this.ttl == ttl && this.payloadFits == payloadFits
    {
      this.departmentRepo, this.employeeRepo, this.store, this.ttl := departmentRepo, employeeRepo, store, ttl;
      this.payloadFits := payloadFits;
      jitter := new Jitter();
    }

    function Tables(): Tables {
      departmentRepo.tables
    }

    /** Both repositories work on the same tables. */
    ghost predicate Linked() {
      departmentRepo.tables == employeeRepo.tables
    }

    method CreateDepartment(input: CreateDepartmentInput, now: Timestamp) returns (r: Result<DepartmentRow, ServiceError>)
      modifies Tables(), Footprint(store)
      ensures Outcome(old(Tables().db), Tables().db, r, Mutations.CreateDepartment(old(Tables().db), input, now),
                      Failed(Tables()))
      ensures Tables().failures >= old(Tables().failures)
      ensures Bumped(store, r.Ok?)
    {
      var name := RequiredString(input.name);
      if name.Err? {
        return Err(name.error);
      }
      if input.parent.Some? {
        if input.parent.value == 0 {
          return Err(InvalidParentDepartmentId);
        }
        var parent := departmentRepo.GetByID(input.parent.value);
        if parent.Err? {
          return Err(NotFoundAs(parent.error, ParentDepartmentNotFound));
        }
      }
      var taken := departmentRepo.ExistsByNameAndParent(name.value, input.parent);
      if taken.Err? {
        return Err(RepositoryError(taken.error));
      }
      if taken.value {
        return Err(DepartmentAlreadyExists);
      }
      var row := Department(name.value, input.parent, now);
      var created := departmentRepo.Create(row);
      if created.Err? {
        return Err(ConflictAs(created.error, DepartmentAlreadyExists));
      }
      BumpDepartmentTreeEpoch(store);
      return Ok(DepartmentRow(created.value, row));
    }

    method PatchDepartment(input: PatchDepartmentInput) returns (r: Result<DepartmentRow, ServiceError>)
      requires Acyclic(Tables().db.departments) && ParentsExist(Tables().db.departments)
      modifies Tables(), Footprint(store)
      ensures Outcome(old(Tables().db), Tables().db, r, Mutations.PatchDepartment(old(Tables().db), input),
                      Failed(Tables()))
      ensures Tables().failures >= old(Tables().failures)
      ensures Bumped(store, r.Ok?)
    {
      if input.id == 0 {
        return Err(InvalidDepartmentId);
      }
      var fetched := departmentRepo.GetByID(input.id);
      if fetched.Err? {
        return Err(NotFoundAs(fetched.error, DepartmentNotFound));
      }
      if input.name.None? && !input.parentSet {
        return Err(NothingToUpdate);
      }
      var department := fetched.value.fields;
      if input.name.Some? {
        var name := RequiredString(input.name.value);
        if name.Err? {
          return Err(name.error);
        }
        department := department.(name := name.value);
      }
      if input.parentSet {
        if input.parent.None? {
          department := department.(parent := None);
        } else {
          var parentId := input.parent.value;
          if parentId == 0 {
            return Err(InvalidParentDepartmentId);
          }
          if parentId == input.id {
            return Err(DepartmentCannotBeParentOfItself);
          }
          var parent := departmentRepo.GetByID(parentId);
          if parent.Err? {
            return Err(NotFoundAs(parent.error, ParentDepartmentNotFound));
          }
          var cycle, _ := departmentRepo.WouldCreateCycle(input.id, parentId);
          if cycle.Err? {
            return Err(RepositoryError(cycle.error));
          }
          if cycle.value {
            return Err(DepartmentMoveWouldCreateCycle);
          }
          department := department.(parent := Some(parentId));
        }
      }
      var taken := departmentRepo.ExistsByNameAndParentExceptID(department.name, department.parent, input.id);
      if taken.Err? {
        return Err(RepositoryError(taken.error));
      }
      if taken.value {
        return Err(DepartmentAlreadyExists);
      }
      var updated := departmentRepo.Update(input.id, department);
      if updated.Err? {
        return Err(ConflictAs(updated.error, DepartmentAlreadyExists));
      }
      BumpDepartmentTreeEpoch(store);
      return Ok(DepartmentRow(input.id, department));
    }

    method DeleteDepartment(input: DeleteDepartmentInput) returns (r: Result<DeletedDepartment, ServiceError>)
      requires Acyclic(Tables().db.departments) && ParentsExist(Tables().db.departments)
      requires UniqueNames(Tables().db.departments)
      modifies Tables(), Footprint(store)
      ensures Outcome(old(Tables().db), Tables().db, r, RemoveDepartment(old(Tables().db), input),
                      Failed(Tables()))
      ensures Tables().failures >= old(Tables().failures)
      ensures Bumped(store, r.Ok?)
    {
      if input.id == 0 {
        return Err(InvalidDepartmentId);
      }
      var fetched := departmentRepo.GetByID(input.id);
      if fetched.Err? {
        return Err(NotFoundAs(fetched.error, DepartmentNotFound));
      }
      if input.mode == "cascade" {
        var deleted := departmentRepo.DeleteByID(input.id);
        if deleted.Err? {
          return Err(RepositoryError(deleted.error));
        }
        BumpDepartmentTreeEpoch(store);
        return Ok(DeletedReply(input, None));
      } else if input.mode == "reassign" {
        if input.reassignTo.None? {
          return Err(ReassignTargetRequired);
        }
        var to := input.reassignTo.value;
        if to == 0 {
          return Err(InvalidDepartmentId);
        }
        if to == input.id {
          return Err(CannotReassignToSelf);
        }
        var target := departmentRepo.GetByID(to);
        if target.Err? {
          return Err(NotFoundAs(target.error, ReassignTargetNotFound));
        }
        var cycle, _ := departmentRepo.WouldCreateCycle(input.id, to);
        if cycle.Err? {
          return Err(RepositoryError(cycle.error));
        }
        if cycle.value {
          return Err(DepartmentWouldCreateCycle);
        }
        var moved := departmentRepo.ReassignAndDelete(input.id, to);
        if moved.Err? {
          return Err(ConflictAs(moved.error, DepartmentAlreadyExists));
        }
        BumpDepartmentTreeEpoch(store);
        return Ok(DeletedReply(input, input.reassignTo));
      } else {
        return Err(InvalidDeleteMode);
      }
    }

    /** The builder without interleaving: one database throughout, any query of which may fail. */
    method BuildDepartmentTree(row: DepartmentRow, depth: int, withEmployees: bool) returns (r: Result<Tree, ServiceError>)
      requires Linked()
      requires row.id in Tables().db.departments && Tables().db.departments[row.id] == row.fields
      modifies Tables()`queries, Tables()`failures
      ensures Tables().failures == old(Tables().failures) + (if r.Err? then 1 else 0)
      ensures r.Err? ==> r.error == RepositoryError(Unavailable)
      ensures r.Ok? ==> r.value.id == row.id && Represents(Tables().db, r.value, depth, withEmployees)
      decreases if depth <= 0 then 0 else depth
    {
      ghost var db := Tables().db;
      var tree := Tree(row.id, row.fields.name, row.fields.parent, row.fields.createdAt, None, Items([]));
      if withEmployees {
        var employees := employeeRepo.ListByDepartmentID(row.id);
        if employees.Err? {
          return Err(RepositoryError(employees.error));
        }
        tree := tree.(employees := Some(Items(employees.value)));
      }
      assert Shows(db, tree, withEmployees);
      if depth <= 0 {
        return Ok(tree);
      }
      var listed := departmentRepo.GetChildren(row.id);
      if listed.Err? {
        return Err(RepositoryError(listed.error));
      }
      var children := listed.value;
      var trees: seq<Tree> := [];
      for i := 0 to |children|
        invariant Tables().db == db && |trees| == i && Tables().failures == old(Tables().failures)
        invariant forall j :: 0 <= j < i ==> trees[j].id == children[j].id
        invariant forall j :: 0 <= j < i ==> Represents(db, trees[j], depth - 1, withEmployees)
      {
        var child := BuildDepartmentTree(children[i], depth - 1, withEmployees);
        if child.Err? {
          return child;
        }
        trees := trees + [child.value];
      }
      Assemble(db, tree, children, trees, depth, withEmployees);
      return Ok(tree.(children := Items(trees)));
    }

    method LoadDepartmentTree(id: Id, depth: int, withEmployees: bool) returns (r: Result<Tree, ServiceError>)
      requires Linked()
      modifies Tables()`queries, Tables()`failures
      ensures IsTreeOf(Tables().db, r, id, depth, withEmployees, Failed(Tables()))
      ensures Tables().failures >= old(Tables().failures)
    {
      var row := departmentRepo.GetByID(id);
      if row.Err? {
        return Err(NotFoundAs(row.error, DepartmentNotFound));
      }
      r := BuildDepartmentTree(row.value, depth, withEmployees);
    }

    /** The body of a flight: look again, load, and store what fits under the captured epoch. */
    method LoadOrCacheDepartmentTree(p: Params) returns (r: Result<Tree, ServiceError>)
      requires Linked() && Tables().Valid() && store != null
      modifies store, jitter.random, Tables()`queries, Tables()`failures
      ensures || (IsStored(old(store.entries), p, r) && NotAsked(Tables()))
              || IsTreeOf(Tables().db, r, p.id, p.depth, p.withEmployees, Failed(Tables()))
      ensures OnlyCaches(store, Tables().db, p, r, payloadFits)
      ensures ServesAndFills(store, Tables(), p, r, payloadFits)
    {
      var cached := ReadCachedDepartmentTree(store, p);
      if cached.Cached? {
        return Ok(cached.tree);
      }
      r := LoadDepartmentTree(p.id, p.depth, p.withEmployees);
      if cached.ReadError? || r.Err? {
        return;
      }
      var data := EncodeTree(r.value);
      if !payloadFits(r.value) {
        return;
      }
      var ttl := jitter.Apply(ttl);
      StoringKeepsAgreement(store.entries, Tables().db, p, r.value);
      var _ := store.Set(KeyOf(p), Document(data), ttl);
    }

    method GetDepartmentTreeCached(id: Id, depth: int, withEmployees: bool) returns (r: Result<Tree, ServiceError>)
      requires Linked() && Tables().Valid() && store != null
      modifies store, jitter.random, Tables()`queries, Tables()`failures
      ensures var epoch := CounterAt(old(store.entries), EPOCH_KEY);
              var p := Params(if epoch.Some? then epoch.value else 0, id, depth, withEmployees);
              && OnlyCaches(store, Tables().db, p, r, payloadFits)
              && (epoch.Some? && epoch.value >= 0 ==> ServesAndFills(store, Tables(), p, r, payloadFits))
              && (IsTreeOf(Tables().db, r, id, depth, withEmployees, Failed(Tables()))
                  || (epoch.Some? && IsStored(old(store.entries), p, r) && NotAsked(Tables())))
    {
      var epoch := ReadDepartmentTreeEpoch(store);
      if epoch.None? {
        r := LoadDepartmentTree(id, depth, withEmployees);
        return;
      }
      var p := Params(epoch.value, id, depth, withEmployees);
      var cached := ReadCachedDepartmentTree(store, p);
      if cached.ReadError? {
        r := LoadDepartmentTree(id, depth, withEmployees);
        return;
      }
      if cached.Cached? {
        return Ok(cached.tree);
      }
      r := LoadOrCacheDepartmentTree(p);
    }

    /** While the store agrees with the tables, a read through the cache answers exactly what the tables would,
        whichever of its cache operations fail, unless a repository query of it failed; and leaves the store in
        agreement. */
    method GetDepartmentTree(id: Id, depth: int, withEmployees: bool) returns (r: Result<Tree, ServiceError>)
      requires Linked() && Tables().Valid()
      modifies Footprint(store), jitter.random, Tables()`queries, Tables()`failures
      ensures id == 0 ==> r == Err(InvalidDepartmentId)
      ensures id != 0 && !(1 <= depth <= 5) ==> r == Err(InvalidDepth)
      ensures id != 0 && 1 <= depth <= 5 && (store == null || Agrees(old(store.entries), Tables().db)) ==>
                IsTreeOf(Tables().db, r, id, depth, withEmployees, Failed(Tables()))
      ensures store != null ==>
                && store.asked == old(store.asked)
                && CounterAt(store.entries, EPOCH_KEY) == CounterAt(old(store.entries), EPOCH_KEY)
                && (Agrees(old(store.entries), Tables().db) ==> Agrees(store.entries, Tables().db))
      ensures var epoch := if store == null then None else CounterAt(old(store.entries), EPOCH_KEY);
              id != 0 && 1 <= depth <= 5 && epoch.Some? && epoch.value >= 0 ==>
                ServesAndFills(store, Tables(), Params(epoch.value, id, depth, withEmployees), r, payloadFits)
    {
      if id == 0 {
        return Err(InvalidDepartmentId);
      }
      if depth < 1 || depth > 5 {
        return Err(InvalidDepth);
      }
      if store == null {
        r := LoadDepartmentTree(id, depth, withEmployees);
        return;
      }
      r := GetDepartmentTreeCached(id, depth, withEmployees);
    }
  }

  /** A text field of a patch: absent, null, or checked. */
  method PatchText(current: string, text: Option<string>, isSet: bool) returns (r: Result<string, ServiceError>)
    ensures r == PatchedText(current, text, isSet)
  {
    if !isSet {
      return Ok(current);
    }
    if text.None? {
      return Err(Validation);
    }
    r := RequiredString(text.value);
  }

  class EmployeeService {
    const employeeRepo: EmployeeRepository
    const departmentRepo: DepartmentRepository
    const store: CacheStore?

    constructor (employeeRepo: EmployeeRepository, departmentRepo: DepartmentRepository, store: CacheStore?)
      ensures this.employeeRepo == employeeRepo && this.departmentRepo == departmentRepo && this.store == store
    {
      this.employeeRepo, this.departmentRepo, this.store := employeeRepo, departmentRepo, store;
    }

    function Tables(): Tables {
      employeeRepo.tables
    }

    /** Both repositories work on the same tables. */
    ghost predicate Linked() {
      departmentRepo.tables == employeeRepo.tables
    }

    method CreateEmployee(input: CreateEmployeeInput, now: Timestamp) returns (r: Result<EmployeeRow, ServiceError>)
      requires Linked()
      modifies Tables(), Footprint(store)
      ensures Outcome(old(Tables().db), Tables().db, r, Mutations.CreateEmployee(old(Tables().db), input, now),
                      Failed(Tables()))
      ensures Tables().failures >= old(Tables().failures)
      ensures Bumped(store, r.Ok?)
    {
      if input.departmentId == 0 {
        return Err(InvalidDepartmentId);
      }
      var fullName := RequiredString(input.fullName);
      if fullName.Err? {
        return Err(fullName.error);
      }
      var position := RequiredString(input.position);
      if position.Err? {
        return Err(position.error);
      }
      var hiredAt := HiredAt(input.hiredAt);
      if hiredAt.Err? {
        return Err(hiredAt.error);
      }
      var department := departmentRepo.GetByID(input.departmentId);
      if department.Err? {
        return Err(NotFoundAs(department.error, DepartmentNotFound));
      }
      var row := Employee(input.departmentId, fullName.value, position.value, hiredAt.value, now);
      var created := employeeRepo.Create(row);
      if created.Err? {
        return Err(RepositoryError(created.error));
      }
      BumpDepartmentTreeEpoch(store);
      return Ok(EmployeeRow(created.value, row));
    }

    /** The row a patch asks for: fetched, and each field that is set checked and assigned. */
    method PatchedEmployee(input: PatchEmployeeInput) returns (r: Result<Employee, ServiceError>)
      requires Linked()
      modifies Tables()`queries, Tables()`failures
      ensures Tables().failures >= old(Tables().failures)
      ensures if Failed(Tables()) then r == Err(RepositoryError(Unavailable))
              else r == PatchEmployeeChecks(Tables().db, input)
    {
      if input.id == 0 {
        return Err(InvalidEmployeeId);
      }
      if !input.fullNameSet && !input.positionSet && !input.departmentIdSet && !input.hiredAtSet {
        return Err(NothingToUpdate);
      }
      var fetched := employeeRepo.GetByID(input.id);
      if fetched.Err? {
        return Err(NotFoundAs(fetched.error, EmployeeNotFound));
      }
      var employee := fetched.value.fields;
      ghost var current := employee;
      var fullName := PatchText(employee.fullName, input.fullName, input.fullNameSet);
      if fullName.Err? {
        return Err(fullName.error);
      }
      var position := PatchText(employee.position, input.position, input.positionSet);
      if position.Err? {
        return Err(position.error);
      }
      employee := employee.(fullName := fullName.value, position := position.value);
      if input.departmentIdSet {
        if input.departmentId.None? {
          return Err(Validation);
        }
        if input.departmentId.value == 0 {
          return Err(InvalidDepartmentId);
        }
        var department := departmentRepo.GetByID(input.departmentId.value);
        if department.Err? {
          return Err(NotFoundAs(department.error, DepartmentNotFound));
        }
        employee := employee.(departmentId := input.departmentId.value);
      }
      assert PatchedDepartmentId(Tables().db, current.departmentId, input.departmentId, input.departmentIdSet)
          == Ok(employee.departmentId);
      if input.hiredAtSet {
        var hiredAt := HiredAt(input.hiredAt);
        if hiredAt.Err? {
          return Err(hiredAt.error);
        }
        employee := employee.(hiredAt := hiredAt.value);
      }
      return Ok(employee);
    }

    method PatchEmployee(input: PatchEmployeeInput) returns (r: Result<EmployeeRow, ServiceError>)
      requires Linked()
      modifies Tables(), Footprint(store)
      ensures Outcome(old(Tables().db), Tables().db, r, Mutations.PatchEmployee(old(Tables().db), input),
                      Failed(Tables()))
      ensures Tables().failures >= old(Tables().failures)
      ensures Bumped(store, r.Ok?)
    {
      var employee := PatchedEmployee(input);
      if employee.Err? {
        return Err(employee.error);
      }
      var updated := employeeRepo.Update(input.id, employee.value);
      if updated.Err? {
        return Err(RepositoryError(updated.error));
      }
      BumpDepartmentTreeEpoch(store);
      return Ok(EmployeeRow(input.id, employee.value));
    }

    method DeleteEmployee(id: Id) returns (r: Result<(), ServiceError>)
      requires Linked()
      modifies Tables(), Footprint(store)
      ensures Outcome(old(Tables().db), Tables().db, r, RemoveEmployee(old(Tables().db), id),
                      Failed(Tables()))
      ensures Tables().failures >= old(Tables().failures)
      ensures Bumped(store, r.Ok?)
    {
      if id == 0 {
        return Err(InvalidEmployeeId);
      }
      var fetched := employeeRepo.GetByID(id);
      if fetched.Err? {
        return Err(NotFoundAs(fetched.error, EmployeeNotFound));
      }
      var deleted := employeeRepo.DeleteByID(id);
      if deleted.Err? {
        return Err(RepositoryError(deleted.error));
      }
      BumpDepartmentTreeEpoch(store);
      return Ok(());
    }
  }

  /** The two services over one database and one optional cache. */
  class Application {
    const departments: DepartmentService
    const employees: EmployeeService

    constructor (store: CacheStore?, ttl: Duration, payloadFits: Tree -> bool)
      ensures Valid() && departments.store == store
    {
      var tables := new Tables();
      var departmentRepo := new DepartmentRepository(tables);
      var employeeRepo := new EmployeeRepository(tables);
      departments := new DepartmentService(departmentRepo, employeeRepo, store, ttl, payloadFits);
      employees := new EmployeeService(employeeRepo, departmentRepo, store);
    }

    function Tables(): Tables {
      departments.Tables()
    }

    ghost predicate Valid()
      reads Tables()
    {
      && departments.departmentRepo == employees.departmentRepo
      && departments.employeeRepo == employees.employeeRepo
      && departments.store == employees.store
      && departments.Linked() && employees.Linked()
      && Tables().Valid()
    }

    /** Any mutation, committed, refused or failed, keeps the tables well formed and is announced exactly when it committed.
        Unless its increment gets lost, the store agrees with the tables afterwards as it did before. */
    method Execute(m: Mutation) returns (committed: bool)
      requires Valid()
      modifies Tables(), Footprint(departments.store)
      ensures Valid()
      ensures if Failed(Tables()) then !committed && Tables().db == old(Tables().db)
              else (Tables().db, committed) == Perform(old(Tables().db), m)
      ensures Bumped(departments.store, committed)
      ensures departments.store != null && Agrees(old(departments.store.entries), old(Tables().db))
              && (committed ==> departments.store.faults == old(departments.store.faults)) ==>
                Agrees(departments.store.entries, Tables().db)
    {
      committed := Dispatch(m);
      var store := departments.store;
      if store != null && Agrees(old(store.entries), old(Tables().db)) {
        if !committed {
          if !Perform(old(Tables().db), m).1 {
            RefusedChangesNothing(old(Tables().db), m);
          }
        } else if store.faults == old(store.faults) {
          IncrementAgrees(old(store.entries), store.entries, old(Tables().db), Tables().db);
        }
      }
    }

    method Dispatch(m: Mutation) returns (committed: bool)
      requires Valid()
      modifies Tables(), Footprint(departments.store)
      ensures Valid()
      ensures if Failed(Tables()) then !committed && Tables().db == old(Tables().db)
              else (Tables().db, committed) == Perform(old(Tables().db), m)
      ensures Bumped(departments.store, committed)
    {
      PerformKeepsWellFormed(Tables().db, m);
      match m
      case DoCreateDepartment(input, now) =>
        var r := departments.CreateDepartment(input, now);
        committed := r.Ok?;
      case DoPatchDepartment(input) =>
        var r := departments.PatchDepartment(input);
        committed := r.Ok?;
      case DoDeleteDepartment(input) =>
        var r := departments.DeleteDepartment(input);
        committed := r.Ok?;
      case DoCreateEmployee(input, now) =>
        var r := employees.CreateEmployee(input, now);
        committed := r.Ok?;
      case DoPatchEmployee(input) =>
        var r := employees.PatchEmployee(input);
        committed := r.Ok?;
      case DoDeleteEmployee(id) =>
        var r := employees.DeleteEmployee(id);
        committed := r.Ok?;
    }
  }
}
