/** The cycle check and what the two re-parenting operations do to reachability. */
module Reassignment {
  import opened Wrappers
  import opened Forest
  import opened Storage

  /** The cycle check refuses exactly the single moves that would create a cycle. */
  lemma MoveCheckExact(ds: Departments, id: Id, parent: Id)
    requires Acyclic(ds) && id in ds
    ensures Acyclic(Reparent(ds, {id}, Some(parent))) <==> !Reaches(ds, parent, id)
  {
    ReparentAcyclic(ds, {id}, Some(parent));
    assert Above(ds, Some(parent), id) <==> Reaches(ds, parent, id);
  }

  /** Something strictly below `from` passes through one of its children. */
  lemma ChildOnTheWay(ds: Departments, id: Id, from: Id) returns (child: Id)
    requires Reaches(ds, id, from) && id != from
    ensures child in Children(ds, from) && Reaches(ds, id, child)
  {
    var n: nat :| Up(ds, id, n) == Some(from);
    child := Up(ds, id, n - 1).value;
  }

  lemma ChildReaches(ds: Departments, child: Id, from: Id)
    requires child in Children(ds, from)
    ensures Reaches(ds, child, from)
  {
    ReachesParent(ds, child);
  }

  /** Two children of one department on the same chain are the same child. */
  lemma OneChildOnTheWay(ds: Departments, id: Id, from: Id, c: Id, t: Id)
    requires Acyclic(ds)
    requires c in Children(ds, from) && Reaches(ds, id, c)
    requires t in Children(ds, from) && Reaches(ds, id, t)
    ensures c == t
  {
    var i: nat :| Up(ds, id, i) == Some(c);
    var j: nat :| Up(ds, id, j) == Some(t);
    assert Up(ds, id, i + 1) == Some(from) && Up(ds, id, j + 1) == Some(from);
    DistanceUnique(ds, id, i + 1, j + 1);
  }

  /** The cycle check refuses exactly the bulk moves of all children of `from` that would create a cycle. */
  lemma ReassignCheckExact(ds: Departments, from: Id, to: Id)
    requires Acyclic(ds)
    ensures Acyclic(Reparent(ds, Children(ds, from), Some(to))) <==> from == to || !Reaches(ds, to, from)
  {
    var moved := Children(ds, from);
    ReparentAcyclic(ds, moved, Some(to));
    if from == to {
      assert Reparent(ds, moved, Some(to)) == ds;
    } else {
      if Reaches(ds, to, from) {
        var c := ChildOnTheWay(ds, to, from);
        assert c in moved && Above(ds, Some(to), c);
      }
      if c :| c in moved && Above(ds, Some(to), c) {
        ChildReaches(ds, c, from);
        ReachesTransitive(ds, to, c, from);
      }
    }
  }

  /** Where a department hangs once the children of `from` hang below `to`. */
  ghost predicate ReachesAfterReassign(ds: Departments, from: Id, to: Id, id: Id, ancestor: Id) {
    if Reaches(ds, id, from) then
      (Reaches(ds, id, ancestor) && Reaches(ds, ancestor, from)) || Reaches(ds, to, ancestor)
    else
      Reaches(ds, id, ancestor)
  }

  lemma BulkMoveReaches(ds: Departments, from: Id, to: Id, id: Id, ancestor: Id)
    requires Acyclic(ds) && !Reaches(ds, to, from)
    requires id != from && ancestor != from
    ensures Reaches(Reparent(ds, Children(ds, from), Some(to)), id, ancestor) <==>
            ReachesAfterReassign(ds, from, to, id, ancestor)
  {
    var moved := Children(ds, from);
    forall t | t in moved ensures !Above(ds, Some(to), t) {
      if Reaches(ds, to, t) {
        ChildReaches(ds, t, from);
        ReachesTransitive(ds, to, t, from);
      }
    }
    if Reaches(ds, id, from) {
      var c := ChildOnTheWay(ds, id, from);
      forall t | t in moved && Reaches(ds, id, t) ensures t == c {
        OneChildOnTheWay(ds, id, from, c, t);
      }
      ReparentNear(ds, moved, Some(to), c, id, ancestor);
      ChildReaches(ds, c, from);
      if Reaches(ds, id, ancestor) && Reaches(ds, ancestor, from) {
        var c' := ChildOnTheWay(ds, ancestor, from);
        ReachesTransitive(ds, id, ancestor, c');
        assert c' == c;
      }
      if Reaches(ds, ancestor, c) {
        ReachesTransitive(ds, ancestor, c, from);
      }
    } else {
      forall t | t in moved ensures !Reaches(ds, id, t) {
        if Reaches(ds, id, t) {
          ChildReaches(ds, t, from);
          ReachesTransitive(ds, id, t, from);
        }
      }
      ReparentFar(ds, moved, Some(to), id, ancestor);
    }
  }

  /** After the moves nothing hangs on `from`, so deleting it cascades to nothing else. */
  lemma OnlyTheSourceGoes(db: Database, from: Id, to: Id)
    requires from in db.departments && to in db.departments && from != to
    requires !SharesChildName(db.departments, from, to)
    ensures Reassign(db, from, to) ==
            Ok(db.(departments := Reparent(db.departments, Children(db.departments, from), Some(to)) - {from},
                   employees := Redirect(db.employees, from, to)))
  {
    var moved := Reparent(db.departments, Children(db.departments, from), Some(to));
    var redirected := Redirect(db.employees, from, to);
    assert ChildrenOf(moved, {from}) == {};
    assert {from} + ChildrenOf(moved, {from}) == {from};
    var kept := map e | e in redirected && redirected[e].departmentId !in {from} :: redirected[e];
    assert redirected == kept;
    var db1 := db.(departments := moved, employees := redirected);
    assert DeleteDepartment(db1, from) == db1.(departments := moved - {from}, employees := kept);
  }

  lemma MovedNamesUnique(ds: Departments, from: Id, to: Id)
    requires UniqueNames(ds) && !SharesChildName(ds, from, to)
    ensures UniqueNames(Reparent(ds, Children(ds, from), Some(to)))
  {
  }

  /** No parent and no employee points at the source once everything has been moved. */
  lemma NothingPointsAtSource(db: Database, from: Id, to: Id)
    requires ParentsExist(db.departments) && EmployeesPlaced(db.employees, db.departments)
    requires to in db.departments && from != to
    ensures ParentsExist(Reparent(db.departments, Children(db.departments, from), Some(to)) - {from})
    ensures EmployeesPlaced(Redirect(db.employees, from, to), db.departments - {from})
  {
  }

  lemma TextsStillFit(db: Database, from: Id, to: Id)
    requires TextsFit(db)
    ensures forall e :: e in db.employees ==> EmployeeFits(Redirect(db.employees, from, to)[e])
    ensures forall id :: id in db.departments ==>
              |Reparent(db.departments, Children(db.departments, from), Some(to))[id].name| <= MAX_TEXT
  {
  }

  lemma AcyclicAfterReassign(ds: Departments, from: Id, to: Id)
    requires Acyclic(ds) && from != to && !Reaches(ds, to, from)
    ensures Acyclic(Reparent(ds, Children(ds, from), Some(to)) - {from})
  {
    var moved := Reparent(ds, Children(ds, from), Some(to));
    ReassignCheckExact(ds, from, to);
    assert ChildrenOf(moved, {from}) == {};
    RemovalKeepsChains(moved, {from});
  }

  lemma ReassignKeepsWellFormed(db: Database, from: Id, to: Id)
    requires WellFormed(db)
    requires from in db.departments && to in db.departments && from != to
    requires !Reaches(db.departments, to, from)
    requires !SharesChildName(db.departments, from, to)
    ensures Reassign(db, from, to).Ok? && WellFormed(Reassign(db, from, to).value)
  {
    var moved := Reparent(db.departments, Children(db.departments, from), Some(to));
    OnlyTheSourceGoes(db, from, to);
    AcyclicAfterReassign(db.departments, from, to);
    NothingPointsAtSource(db, from, to);
    MovedNamesUnique(db.departments, from, to);
    TextsStillFit(db, from, to);
    assert UniqueNames(moved - {from});
  }

  /** The tables a reassign aims at: what belonged to `from` handed to `to`, and `from` gone. */
  function HandedOver(db: Database, from: Id, to: Id): Database {
    db.(departments := Reparent(db.departments, Children(db.departments, from), Some(to)) - {from},
        employees := Redirect(db.employees, from, to))
  }

  /** A child of `from` shares its name with a child of `to` other than `from` itself. */
  ghost predicate SharesOtherChildName(ds: Departments, from: Id, to: Id) {
    exists c, o :: c in ds && o in ds && o != from && ds[c].parent == Some(from) && ds[o].parent == Some(to)
                   && ds[c].name == ds[o].name
  }

  /** The finished tables break nothing exactly when no such name is shared. */
  lemma HandedOverExact(db: Database, from: Id, to: Id)
    requires WellFormed(db)
    requires from in db.departments && to in db.departments && from != to
    requires !Reaches(db.departments, to, from)
    ensures WellFormed(HandedOver(db, from, to)) <==> !SharesOtherChildName(db.departments, from, to)
  {
    var ds := db.departments;
    AcyclicAfterReassign(ds, from, to);
    NoOwnParent(ds, from);
    HandedOverNames(ds, from, to);
    HandedOverTables(db, from, to);
  }

  lemma NoOwnParent(ds: Departments, id: Id)
    requires Acyclic(ds) && id in ds
    ensures ds[id].parent != Some(id)
  {
    assert Up(ds, id, 0) == Some(id);
    assert Up(ds, id, 1) == ds[id].parent;
  }

  lemma HandedOverTables(db: Database, from: Id, to: Id)
    requires ParentsExist(db.departments) && EmployeesPlaced(db.employees, db.departments)
    requires KeysIssued(db) && TextsFit(db)
    requires to in db.departments && from != to
    ensures var db' := HandedOver(db, from, to);
            && ParentsExist(db'.departments) && EmployeesPlaced(db'.employees, db'.departments)
            && KeysIssued(db') && TextsFit(db')
  {
    NothingPointsAtSource(db, from, to);
    TextsStillFit(db, from, to);
  }

  lemma HandedOverNames(ds: Departments, from: Id, to: Id)
    requires UniqueNames(ds) && from != to && (from in ds ==> ds[from].parent != Some(from))
    ensures UniqueNames(Reparent(ds, Children(ds, from), Some(to)) - {from}) <==> !SharesOtherChildName(ds, from, to)
  {
    var ds' := Reparent(ds, Children(ds, from), Some(to)) - {from};
    if c, o :| c in ds && o in ds && o != from && ds[c].parent == Some(from) && ds[o].parent == Some(to)
               && ds[c].name == ds[o].name {
      assert c != from;
      assert c in ds' && o in ds' && ds'[c].parent == Some(to) && ds'[o].parent == Some(to);
      assert ds'[c].name == ds'[o].name && c != o;
    } else {
      forall a, b | a in ds' && b in ds' && ds'[a].name == ds'[b].name && ds'[a].parent == ds'[b].parent
        ensures a == b
      {
        HandedOverPair(ds, from, to, a, b);
        HandedOverPair(ds, from, to, b, a);
      }
    }
  }

  /** A row that was handed over meets no namesake that was not. */
  lemma HandedOverPair(ds: Departments, from: Id, to: Id, a: Id, b: Id)
    requires !SharesOtherChildName(ds, from, to)
    requires a in ds && b in ds && b != from && ds[a].name == ds[b].name
    ensures !(ds[a].parent == Some(from) && ds[b].parent == Some(to))
  {
  }

  /** Reassign refuses a hand-over the finished tables would allow exactly when the source is still a child of
      the target, one of its own children has its name, and no other name is shared. */
  lemma SpuriousConflictExact(db: Database, from: Id, to: Id)
    requires WellFormed(db)
    requires from in db.departments && to in db.departments && from != to
    requires !Reaches(db.departments, to, from)
    ensures Reassign(db, from, to).Err? && WellFormed(HandedOver(db, from, to)) <==>
            && db.departments[from].parent == Some(to)
            && (exists c :: c in db.departments && db.departments[c].parent == Some(from)
                            && db.departments[c].name == db.departments[from].name)
            && !SharesOtherChildName(db.departments, from, to)
  {
    HandedOverExact(db, from, to);
    ConflictsSplit(db.departments, from, to);
  }

  /** A shared name is the source's own or some other child's. */
  lemma ConflictsSplit(ds: Departments, from: Id, to: Id)
    requires Acyclic(ds) && from in ds && from != to
    ensures SharesChildName(ds, from, to) <==>
            || SharesOtherChildName(ds, from, to)
            || (ds[from].parent == Some(to) && exists c :: c in ds && ds[c].parent == Some(from) && ds[c].name == ds[from].name)
  {
  }

  /** It does happen: "b" below "a" has a child "b", and cannot be reassigned to "a". */
  lemma SpuriousConflictHappens()
    ensures var db := NamesakeChild();
            && WellFormed(db) && !Reaches(db.departments, 1, 2)
            && Reassign(db, 2, 1) == Err(AlreadyExists)
            && WellFormed(HandedOver(db, 2, 1))
  {
    var db := NamesakeChild();
    var ds := db.departments;
    NamesakeChildIsWellFormed();
    ReachesStep(ds, 1, 2);
    assert ds[3].parent == Some(2) && ds[3].name == ds[2].name;
    SpuriousConflictExact(db, 2, 1);
  }

  lemma NamesakeChildIsWellFormed()
    ensures WellFormed(NamesakeChild())
  {
    var a := map[1 := Department("a", None, 0)];
    var ab := a[2 := Department("b", Some(1), 0)];
    EmptyIsAcyclic();
    FreshRowKeepsAcyclic(map[], 1, Department("a", None, 0));
    FreshRowKeepsAcyclic(a, 2, Department("b", Some(1), 0));
    FreshRowKeepsAcyclic(ab, 3, Department("b", Some(2), 0));
    assert NamesakeChild().departments == ab[3 := Department("b", Some(2), 0)];
  }

  function NamesakeChild(): Database {
    Database(map[1 := Department("a", None, 0), 2 := Department("b", Some(1), 0), 3 := Department("b", Some(2), 0)],
             map[], 3, 0)
  }

  /** A successful reassign: one department goes, every chain and every employee is accounted for. */
  lemma ReassignEffect(db: Database, from: Id, to: Id)
    requires WellFormed(db)
    requires from in db.departments && to in db.departments && from != to
    requires !Reaches(db.departments, to, from)
    requires !SharesChildName(db.departments, from, to)
    ensures Reassign(db, from, to).Ok?
    ensures var db' := Reassign(db, from, to).value;
            && db'.departments.Keys == db.departments.Keys - {from}
            && db'.employees.Keys == db.employees.Keys
    ensures var db' := Reassign(db, from, to).value;
            forall e :: e in db.employees ==>
              && (db.employees[e].departmentId == from ==>
                    db'.employees[e] == db.employees[e].(departmentId := to))
              && (db.employees[e].departmentId != from ==> db'.employees[e] == db.employees[e])
    ensures var db' := Reassign(db, from, to).value;
            forall id, ancestor :: id in db'.departments && ancestor in db'.departments ==>
              (Reaches(db'.departments, id, ancestor) <==>
               ReachesAfterReassign(db.departments, from, to, id, ancestor))
  {
    var ds := db.departments;
    var moved := Reparent(ds, Children(ds, from), Some(to));
    OnlyTheSourceGoes(db, from, to);
    assert ChildrenOf(moved, {from}) == {};
    RemovalKeepsChains(moved, {from});
    forall id, ancestor | id in moved - {from} && ancestor in moved - {from}
      ensures Reaches(moved - {from}, id, ancestor) <==> ReachesAfterReassign(ds, from, to, id, ancestor)
    {
      BulkMoveReaches(ds, from, to, id, ancestor);
    }
  }

  /** The target's new subtree is its old one plus the strict subtree of the source, minus the source. */
  lemma ReassignSubtree(db: Database, from: Id, to: Id)
    requires WellFormed(db)
    requires from in db.departments && to in db.departments && from != to
    requires !Reaches(db.departments, to, from)
    requires !SharesChildName(db.departments, from, to)
    ensures Reassign(db, from, to).Ok?
    ensures Subtree(Reassign(db, from, to).value.departments, to) ==
            Subtree(db.departments, to) + Subtree(db.departments, from) - {from}
  {
    ReassignEffect(db, from, to);
    var ds := db.departments;
    var ds' := Reassign(db, from, to).value.departments;
    ReachesSelf(ds, to);
    forall id ensures id in Subtree(ds', to) <==> id in Subtree(ds, to) + Subtree(ds, from) - {from} {
      if id in ds' {
        assert Reaches(ds', id, to) <==> ReachesAfterReassign(ds, from, to, id, to);
      }
    }
  }

  /** Whatever order the engine visits the rows in, the transaction fails exactly on a shared child name,
      and the source counts as a child of the target for as long as it still is one. */
  lemma ReassignConflictExact(db: Database, from: Id, to: Id, rows: seq<Id>)
    requires WellFormed(db)
    requires from in db.departments && to in db.departments && from != to
    requires Enumerates(rows, Children(db.departments, from))
    ensures ReassignInOrder(db, from, to, rows).Err? <==>
            exists c, o :: c in db.departments && o in db.departments
                           && db.departments[c].parent == Some(from) && db.departments[o].parent == Some(to)
                           && db.departments[c].name == db.departments[o].name
    ensures ReassignInOrder(db, from, to, rows).Err? ==>
              ReassignInOrder(db, from, to, rows).error == AlreadyExists
    ensures (exists c :: c in db.departments && db.departments[c].parent == Some(from)
                         && db.departments[c].name == db.departments[from].name)
            && db.departments[from].parent == Some(to) ==>
              ReassignInOrder(db, from, to, rows).Err?
  {
    ReassignOrderIrrelevant(db, from, to, rows);
    var ds := db.departments;
    if c :| c in Children(ds, from) && NameTaken(ds, c, ds[c].name, Some(to)) {
      var o :| o in ds && o != c && ds[o].name == ds[c].name && ds[o].parent == Some(to);
      assert ds[c].parent == Some(from);
    }
    if c, o :| c in ds && o in ds && ds[c].parent == Some(from) && ds[o].parent == Some(to) && ds[c].name == ds[o].name {
      assert c in Children(ds, from) && NameTaken(ds, c, ds[c].name, Some(to));
    }
  }

  /** What giving one department a new parent (or none) does to every chain. */
  lemma MoveReaches(ds: Departments, id: Id, parent: Option<Id>, x: Id, ancestor: Id)
    requires Acyclic(ds) && id in ds && !Above(ds, parent, id)
    ensures Reaches(Reparent(ds, {id}, parent), x, ancestor) <==>
            if Reaches(ds, x, id) then
              (Reaches(ds, x, ancestor) && Reaches(ds, ancestor, id)) || Above(ds, parent, ancestor)
            else Reaches(ds, x, ancestor)
  {
    if Reaches(ds, x, id) {
      ReparentNear(ds, {id}, parent, id, x, ancestor);
    } else {
      ReparentFar(ds, {id}, parent, x, ancestor);
    }
  }
}
