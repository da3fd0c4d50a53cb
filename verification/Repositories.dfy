/** The repositories as objects over shared tables, each method proved against its specification.
    Any query may fail; one that fails changes nothing. */
module Repositories {
  import opened Wrappers
  import opened Forest
  import opened Storage
  import opened Trees

  /** The database both repositories work on. */
  class Tables {
    var db: Database
    /** How many queries have been made, and how many of them failed. */
    ghost var queries: nat
    ghost var failures: nat

    constructor ()
      ensures Valid() && db == Database(map[], map[], 0, 0)
    {
      db, queries, failures := Database(map[], map[], 0, 0), 0, 0;
      new;
      EmptyIsAcyclic();
    }

    ghost predicate Valid()
      reads `db
    {
      WellFormed(db)
    }

    /** One more query; it may fail. */
    method Ask() returns (fails: bool)
      modifies `queries, `failures
      ensures Asked(this, fails)
    {
      fails := *;
      queries := queries + 1;
      if fails {
        failures := failures + 1;
      }
    }
  }

  /** Exactly one query was made since the old state, and counted as failed exactly if it did. */
  twostate predicate Asked(tables: Tables, failed: bool)
    reads tables`queries, tables`failures
  {
    && tables.queries == old(tables.queries) + 1
    && tables.failures == old(tables.failures) + (if failed then 1 else 0)
  }

  /** The rows of a query come back in an order of the engine's choosing. */
  method Visit(ids: set<Id>) returns (rows: seq<Id>)
    ensures Enumerates(rows, ids)
  {
    rows := [];
    var left := ids;
    while left != {}
      invariant left <= ids
      invariant Enumerates(rows, ids - left)
      decreases left
    {
      var id :| id in left;
      rows := rows + [id];
      left := left - {id};
    }
  }

  class DepartmentRepository {
    const tables: Tables

    constructor (tables: Tables)
      ensures this.tables == tables
    {
      this.tables := tables;
    }

    method Create(row: Department) returns (r: Result<Id, StorageError>)
      modifies tables
      ensures Asked(tables, r == Err(Unavailable))
      ensures || (r, tables.db) == InsertDepartment(old(tables.db), row)
              || (r == Err(Unavailable) && tables.db == old(tables.db))
    {
      var fails := tables.Ask();
      if fails {
        return Err(Unavailable);
      }
      var (id, db) := InsertDepartment(tables.db, row);
      tables.db := db;
      r := id;
    }

    method GetByID(id: Id) returns (r: Result<DepartmentRow, StorageError>)
      modifies tables`queries, tables`failures
      ensures Asked(tables, r == Err(Unavailable))
      ensures || r == Err(Unavailable)
              || r == if id in tables.db.departments then Ok(DepartmentRow(id, tables.db.departments[id])) else Err(NotFound)
    {
      var fails := tables.Ask();
      if fails {
        return Err(Unavailable);
      }
      if id in tables.db.departments {
        r := Ok(DepartmentRow(id, tables.db.departments[id]));
      } else {
        r := Err(NotFound);
      }
    }

    method Update(id: Id, row: Department) returns (r: Result<(), StorageError>)
      modifies tables
      ensures Asked(tables, r == Err(Unavailable))
      ensures match r
              case Ok(_) => WriteDepartment(old(tables.db), id, row) == Ok(tables.db)
              case Err(error) =>
                (error == Unavailable || WriteDepartment(old(tables.db), id, row) == Err(error)) && tables.db == old(tables.db)
    {
      var fails := tables.Ask();
      if fails {
        return Err(Unavailable);
      }
      match WriteDepartment(tables.db, id, row)
      case Ok(db) =>
        tables.db := db;
        r := Ok(());
      case Err(error) => r := Err(error);
    }

    method DeleteByID(id: Id) returns (r: Result<(), StorageError>)
      modifies tables
      ensures Asked(tables, r == Err(Unavailable))
      ensures r == Ok(()) || r == Err(Unavailable)
      ensures tables.db == if r.Ok? then DeleteDepartment(old(tables.db), id) else old(tables.db)
    {
      var fails := tables.Ask();
      if fails {
        return Err(Unavailable);
      }
      tables.db := DeleteDepartment(tables.db, id);
      return Ok(());
    }

    /** The transaction: committed as a whole, or rolled back to the state it started from. */
    method ReassignAndDelete(from: Id, to: Id) returns (r: Result<(), StorageError>)
      requires UniqueNames(tables.db.departments)
      modifies tables
      ensures Asked(tables, r == Err(Unavailable))
      ensures match r
              case Ok(_) => Reassign(old(tables.db), from, to) == Ok(tables.db)
              case Err(error) =>
                (error == Unavailable || Reassign(old(tables.db), from, to) == Err(error)) && tables.db == old(tables.db)
    {
      var fails := tables.Ask();
      if fails {
        return Err(Unavailable);
      }
      var rows := Visit(Children(tables.db.departments, from));
      ReassignOrderIrrelevant(tables.db, from, to, rows);
      match ReassignInOrder(tables.db, from, to, rows)
      case Ok(db) =>
        tables.db := db;
        r := Ok(());
      case Err(error) => r := Err(error);
    }

    method GetChildren(parent: Id) returns (r: Result<seq<DepartmentRow>, StorageError>)
      modifies tables`queries, tables`failures
      ensures Asked(tables, r == Err(Unavailable))
      ensures r == Err(Unavailable) || (r.Ok? && ListsChildren(tables.db.departments, parent, r.value))
    {
      var fails := tables.Ask();
      if fails {
        return Err(Unavailable);
      }
      var ds := tables.db.departments;
      var ids := Visit(Children(ds, parent));
      assert forall i :: 0 <= i < |ids| ==> ids[i] in ids;
      var rows := seq(|ids|, i requires 0 <= i < |ids| && ids[i] in ds => DepartmentRow(ids[i], ds[ids[i]]));
      assert DepartmentIds(rows) == ids;
      return Ok(rows);
    }

    method ExistsByNameAndParent(name: string, parent: Option<Id>) returns (r: Result<bool, StorageError>)
      modifies tables`queries, tables`failures
      ensures Asked(tables, r == Err(Unavailable))
      ensures r == Err(Unavailable) || r == Ok(NameExists(tables.db.departments, name, parent))
    {
      var fails := tables.Ask();
      if fails {
        return Err(Unavailable);
      }
      var matching := set id | id in tables.db.departments && tables.db.departments[id].name == name
                               && tables.db.departments[id].parent == parent;
      r := Ok(|matching| > 0);
      if NameExists(tables.db.departments, name, parent) {
        var o :| o in tables.db.departments && tables.db.departments[o].name == name && tables.db.departments[o].parent == parent;
        assert o in matching;
      }
      if matching != {} {
        var o :| o in matching;
      }
    }

    method ExistsByNameAndParentExceptID(name: string, parent: Option<Id>, except: Id) returns (r: Result<bool, StorageError>)
      modifies tables`queries, tables`failures
      ensures Asked(tables, r == Err(Unavailable))
      ensures r == Err(Unavailable) || r == Ok(NameTaken(tables.db.departments, except, name, parent))
    {
      var fails := tables.Ask();
      if fails {
        return Err(Unavailable);
      }
      var matching := set id | id in tables.db.departments && tables.db.departments[id].name == name && id != except
                               && tables.db.departments[id].parent == parent;
      r := Ok(|matching| > 0);
      if NameTaken(tables.db.departments, except, name, parent) {
        var o :| o in tables.db.departments && o != except && tables.db.departments[o].name == name
                 && tables.db.departments[o].parent == parent;
        assert o in matching;
      }
      if matching != {} {
        var o :| o in matching;
      }
    }

    /** Walk up from the proposed parent. On a well-formed forest the walk visits each ancestor at most once,
        so it ends after at most as many fetches as there are departments, and its answer is exact. */
    method WouldCreateCycle(department: Id, newParent: Id) returns (r: Result<bool, StorageError>, fetched: nat)
      requires Acyclic(tables.db.departments) && ParentsExist(tables.db.departments)
      modifies tables`queries, tables`failures
      ensures r == Err(Unavailable) || r == CycleAnswer(tables.db.departments, department, newParent)
      ensures tables.queries == old(tables.queries) + fetched
      ensures tables.failures == old(tables.failures) + (if r == Err(Unavailable) then 1 else 0)
      ensures fetched <= |tables.db.departments.Keys| + 1
      ensures r.Ok? ==> fetched <= |tables.db.departments.Keys|
    {
      var current := newParent;
      fetched := 0;
      ghost var ds := tables.db.departments;
      while true
        invariant tables.db.departments == ds
        invariant tables.queries == old(tables.queries) + fetched && tables.failures == old(tables.failures)
        invariant Walked(ds, newParent, department, fetched, current)
        decreases |ds.Keys| - fetched
      {
        WalkIsShort(ds, newParent, fetched, current);
        if current == department {
          WalkFinds(ds, newParent, department, fetched);
          return Ok(true), fetched;
        }
        var row := GetByID(current);
        if row.Err? {
          if row.error == NotFound {
            WalkDangles(ds, newParent, department, fetched, current);
          }
          return Err(row.error), fetched + 1;
        }
        if row.value.fields.parent.None? {
          WalkEnds(ds, newParent, department, fetched, current);
          return Ok(false), fetched + 1;
        }
        current := row.value.fields.parent.value;
        fetched := fetched + 1;
      }
    }
  }

  /** What the walk answers: true on the department itself, an error on a missing parent, else reachability. */
  ghost function CycleAnswer(ds: Departments, department: Id, newParent: Id): Result<bool, StorageError> {
    if newParent == department then Ok(true)
    else if newParent !in ds then Err(NotFound)
    else Ok(Reaches(ds, newParent, department))
  }

  /** After `steps` fetches the walk stands at `current` and has not met `target`. */
  ghost predicate Walked(ds: Departments, start: Id, target: Id, steps: nat, current: Id) {
    && Up(ds, start, steps) == Some(current)
    && (forall i: nat :: i < steps ==> Up(ds, start, i) != Some(target))
  }

  ghost predicate OnChain(ds: Departments, start: Id, n: nat, id: Id) {
    exists i: nat :: i < n && Up(ds, start, i) == Some(id)
  }

  /** The first `n` departments of an acyclic chain are all different. */
  lemma {:induction false} DistinctAncestors(ds: Departments, start: Id, n: nat) returns (seen: set<Id>)
    requires Acyclic(ds) && Up(ds, start, n).Some?
    ensures seen <= ds.Keys && |seen| == n
    ensures forall id :: id in seen ==> OnChain(ds, start, n, id)
  {
    if n == 0 {
      seen := {};
    } else {
      var below := Up(ds, start, n - 1).value;
      var before := DistinctAncestors(ds, start, n - 1);
      if below in before {
        var i: nat :| i < n - 1 && Up(ds, start, i) == Some(below);
        NoReturn(ds, start, i, n - 1);
      }
      seen := before + {below};
      forall id | id in seen ensures OnChain(ds, start, n, id) {
        if id in before {
          assert OnChain(ds, start, n - 1, id);
        } else {
          assert Up(ds, start, n - 1) == Some(id);
        }
      }
    }
  }

  lemma SubsetIsSmaller(small: set<Id>, big: set<Id>)
    requires small <= big
    ensures |small| <= |big|
  {
    assert big == small + (big - small);
  }

  /** The walk has made no more fetches than there are departments, and fewer if it can make another. */
  lemma WalkIsShort(ds: Departments, start: Id, steps: nat, current: Id)
    requires Acyclic(ds) && Up(ds, start, steps) == Some(current)
    ensures steps <= |ds.Keys|
    ensures current in ds ==> steps + 1 <= |ds.Keys|
  {
    var seen := DistinctAncestors(ds, start, steps);
    SubsetIsSmaller(seen, ds.Keys);
    if current in ds {
      if current in seen {
        assert OnChain(ds, start, steps, current);
        var i: nat :| i < steps && Up(ds, start, i) == Some(current);
        NoReturn(ds, start, i, steps);
      }
      SubsetIsSmaller(seen + {current}, ds.Keys);
    }
  }

  lemma WalkFinds(ds: Departments, start: Id, target: Id, steps: nat)
    requires ParentsExist(ds)
    requires Walked(ds, start, target, steps, target)
    ensures CycleAnswer(ds, target, start) == Ok(true)
  {
    if start != target {
      var above := UpOne(ds, start, steps);
    }
  }

  /** Above a root there is nothing. */
  lemma WalkEnds(ds: Departments, start: Id, target: Id, steps: nat, current: Id)
    requires Walked(ds, start, target, steps, current)
    requires current != target && current in ds && ds[current].parent.None?
    ensures CycleAnswer(ds, target, start) == Ok(false)
  {
    forall i: nat ensures Up(ds, start, i) != Some(target) {
      if i > steps {
        assert Up(ds, start, steps + 1) == None;
        if Up(ds, start, i).Some? {
          UpShorter(ds, start, steps + 1, i);
        }
      }
    }
    if steps > 0 {
      var above := UpOne(ds, start, steps);
    }
    assert Up(ds, start, 0) == Some(start);
  }

  /** Parents exist, so only the start of the walk can be missing. */
  lemma WalkDangles(ds: Departments, start: Id, target: Id, steps: nat, current: Id)
    requires ParentsExist(ds)
    requires Walked(ds, start, target, steps, current)
    requires current != target && current !in ds
    ensures CycleAnswer(ds, target, start) == Err(NotFound)
  {
  }

  class EmployeeRepository {
    const tables: Tables

    constructor (tables: Tables)
      ensures this.tables == tables
    {
      this.tables := tables;
    }

    method Create(row: Employee) returns (r: Result<Id, StorageError>)
      modifies tables
      ensures Asked(tables, r == Err(Unavailable))
      ensures || (r, tables.db) == InsertEmployee(old(tables.db), row)
              || (r == Err(Unavailable) && tables.db == old(tables.db))
    {
      var fails := tables.Ask();
      if fails {
        return Err(Unavailable);
      }
      var (id, db) := InsertEmployee(tables.db, row);
      tables.db := db;
      r := id;
    }

    method GetByID(id: Id) returns (r: Result<EmployeeRow, StorageError>)
      modifies tables`queries, tables`failures
      ensures Asked(tables, r == Err(Unavailable))
      ensures || r == Err(Unavailable)
              || r == if id in tables.db.employees then Ok(EmployeeRow(id, tables.db.employees[id])) else Err(NotFound)
    {
      var fails := tables.Ask();
      if fails {
        return Err(Unavailable);
      }
      if id in tables.db.employees {
        r := Ok(EmployeeRow(id, tables.db.employees[id]));
      } else {
        r := Err(NotFound);
      }
    }

    method Update(id: Id, row: Employee) returns (r: Result<(), StorageError>)
      modifies tables
      ensures Asked(tables, r == Err(Unavailable))
      ensures match r
              case Ok(_) => WriteEmployee(old(tables.db), id, row) == Ok(tables.db)
              case Err(error) =>
                (error == Unavailable || WriteEmployee(old(tables.db), id, row) == Err(error)) && tables.db == old(tables.db)
    {
      var fails := tables.Ask();
      if fails {
        return Err(Unavailable);
      }
      match WriteEmployee(tables.db, id, row)
      case Ok(db) =>
        tables.db := db;
        r := Ok(());
      case Err(error) => r := Err(error);
    }

    method DeleteByID(id: Id) returns (r: Result<(), StorageError>)
      modifies tables
      ensures Asked(tables, r == Err(Unavailable))
      ensures r == Ok(()) || r == Err(Unavailable)
      ensures tables.db == if r.Ok? then DeleteEmployee(old(tables.db), id) else old(tables.db)
    {
      var fails := tables.Ask();
      if fails {
        return Err(Unavailable);
      }
      tables.db := DeleteEmployee(tables.db, id);
      return Ok(());
    }

    method ListByDepartmentID(department: Id) returns (r: Result<seq<EmployeeRow>, StorageError>)
      modifies tables`queries, tables`failures
      ensures Asked(tables, r == Err(Unavailable))
      ensures r == Err(Unavailable) || (r.Ok? && ListsStaff(tables.db.employees, department, r.value))
    {
      var fails := tables.Ask();
      if fails {
        return Err(Unavailable);
      }
      var es := tables.db.employees;
      var ids := Visit(StaffOf(es, department));
      assert forall i :: 0 <= i < |ids| ==> ids[i] in ids;
      var rows := seq(|ids|, i requires 0 <= i < |ids| && ids[i] in es => EmployeeRow(ids[i], es[ids[i]]));
      assert EmployeeIds(rows) == ids;
      return Ok(rows);
    }
  }
}
