/** The tree response: what it says about the forest, and the check a cached one must pass. */
module Trees {
  import opened Wrappers
  import opened Forest
  import opened Storage

  /** A Go slice: nil, or its items. */
  datatype Slice<+T> = Nil | Items(items: seq<T>)

  datatype Tree = Tree(
    id: Id, name: string, parentId: Option<Id>, createdAt: Timestamp,
    employees: Option<Slice<EmployeeRow>>, children: Slice<Tree>)

  // ---- what a tree says about the forest ----

  function TreeIds(trees: seq<Tree>): (ids: seq<Id>)
    ensures |ids| == |trees| && forall i :: 0 <= i < |trees| ==> ids[i] == trees[i].id
  {
    seq(|trees|, i requires 0 <= i < |trees| => trees[i].id)
  }

  function DepartmentIds(rows: seq<DepartmentRow>): (ids: seq<Id>)
    ensures |ids| == |rows| && forall i :: 0 <= i < |rows| ==> ids[i] == rows[i].id
  {
    seq(|rows|, i requires 0 <= i < |rows| => rows[i].id)
  }

  function EmployeeIds(rows: seq<EmployeeRow>): (ids: seq<Id>)
    ensures |ids| == |rows| && forall i :: 0 <= i < |rows| ==> ids[i] == rows[i].id
  {
    seq(|rows|, i requires 0 <= i < |rows| => rows[i].id)
  }

  function StaffOf(es: Employees, department: Id): set<Id> {
    set e | e in es && es[e].departmentId == department
  }

  /** The rows of the children of `parent`, each once, in some order. */
  ghost predicate ListsChildren(ds: Departments, parent: Id, rows: seq<DepartmentRow>) {
    && Enumerates(DepartmentIds(rows), Children(ds, parent))
    && forall i :: 0 <= i < |rows| ==> rows[i].id in ds && ds[rows[i].id] == rows[i].fields
  }

  ghost predicate ListsStaff(es: Employees, department: Id, rows: seq<EmployeeRow>) {
    && Enumerates(EmployeeIds(rows), StaffOf(es, department))
    && forall i :: 0 <= i < |rows| ==> rows[i].id in es && es[rows[i].id] == rows[i].fields
  }

  /** The node's own fields and employee list are those of the database. */
  ghost predicate Shows(db: Database, node: Tree, withEmployees: bool) {
    && node.id in db.departments
    && db.departments[node.id] == Department(node.name, node.parentId, node.createdAt)
    && (if withEmployees then
          node.employees.Some? && node.employees.value.Items?
          && ListsStaff(db.employees, node.id, node.employees.value.items)
        else node.employees == None)
  }

  /** `tree` is a tree of department `tree.id` to the given depth; the order of siblings is free. */
  ghost predicate Represents(db: Database, tree: Tree, depth: int, withEmployees: bool) {
    && Shows(db, tree, withEmployees)
    && tree.children.Items?
    && (if depth <= 0 then tree.children.items == []
        else Enumerates(TreeIds(tree.children.items), Children(db.departments, tree.id)))
    && forall i :: 0 <= i < |tree.children.items| ==>
         Represents(db, tree.children.items[i], depth - 1, withEmployees)
  }

  /** How many nodes at the given level of the tree carry `id`. */
  function Occurrences(tree: Tree, id: Id, level: nat): nat
    decreases level, 0
  {
    if level == 0 then (if tree.id == id then 1 else 0)
    else if tree.children.Nil? then 0
    else OccurrencesIn(tree.children.items, id, level - 1)
  }

  function OccurrencesIn(trees: seq<Tree>, id: Id, level: nat): nat
    decreases level, |trees| + 1
  {
    if trees == [] then 0
    else Occurrences(trees[0], id, level) + OccurrencesIn(trees[1..], id, level)
  }

  /** A department occurs at level `l` once if it lies `l` steps below the root and `l` is in range, else never. */
  lemma {:induction false} OccursByDistance(db: Database, tree: Tree, depth: int, withEmployees: bool,
                                            id: Id, level: nat)
    requires depth >= 0 && Represents(db, tree, depth, withEmployees)
    ensures Occurrences(tree, id, level) ==
            if level <= depth && Up(db.departments, id, level) == Some(tree.id) then 1 else 0
    decreases level, 0
  {
    if level > 0 {
      var items := tree.children.items;
      if depth > 0 {
        OccursInForest(db, items, depth - 1, withEmployees, id, level - 1);
        LastStep(db.departments, TreeIds(items), tree.id, id, level);
      } else {
        assert OccurrencesIn([], id, level - 1) == 0;
      }
    }
  }

  /** Being `level` steps below `root` is being one step less below one of its children. */
  lemma LastStep(ds: Departments, children: seq<Id>, root: Id, id: Id, level: nat)
    requires level > 0 && Enumerates(children, Children(ds, root))
    ensures Up(ds, id, level) == Some(root) <==>
            exists i :: 0 <= i < |children| && Up(ds, id, level - 1) == Some(children[i])
  {
    if Up(ds, id, level) == Some(root) {
      assert Up(ds, id, level - 1).value in Children(ds, root);
      assert Up(ds, id, level - 1).value in children;
    }
    if i :| 0 <= i < |children| && Up(ds, id, level - 1) == Some(children[i]) {
      assert children[i] in children;
    }
  }

  lemma {:induction false} OccursInForest(db: Database, trees: seq<Tree>, depth: nat, withEmployees: bool,
                                          id: Id, level: nat)
    requires forall i :: 0 <= i < |trees| ==> Represents(db, trees[i], depth, withEmployees)
    requires forall i, j :: 0 <= i < j < |trees| ==> TreeIds(trees)[i] != TreeIds(trees)[j]
    ensures OccurrencesIn(trees, id, level) ==
            if level <= depth && exists i :: 0 <= i < |trees| && Up(db.departments, id, level) == Some(TreeIds(trees)[i])
            then 1 else 0
    decreases level, |trees| + 1
  {
    if trees != [] {
      OccursByDistance(db, trees[0], depth, withEmployees, id, level);
      assert TreeIds(trees)[0] == trees[0].id;
      forall i, j | 0 <= i < j < |trees[1..]| ensures TreeIds(trees[1..])[i] != TreeIds(trees[1..])[j] {
        assert TreeIds(trees)[i + 1] != TreeIds(trees)[j + 1];
      }
      OccursInForest(db, trees[1..], depth, withEmployees, id, level);
      if i :| 0 <= i < |trees[1..]| && Up(db.departments, id, level) == Some(TreeIds(trees[1..])[i]) {
        assert TreeIds(trees)[i + 1] == TreeIds(trees[1..])[i];
        assert TreeIds(trees)[0] != TreeIds(trees)[i + 1];
      }
      if i :| 0 < i < |trees| && Up(db.departments, id, level) == Some(TreeIds(trees)[i]) {
        assert TreeIds(trees[1..])[i - 1] == TreeIds(trees)[i];
      }
    }
  }

  /** In an acyclic forest no department occurs at two levels, so within reach each occurs exactly once. */
  lemma OccursOnce(db: Database, tree: Tree, depth: int, withEmployees: bool, id: Id, l1: nat, l2: nat)
    requires depth >= 0 && Represents(db, tree, depth, withEmployees) && Acyclic(db.departments)
    requires Occurrences(tree, id, l1) > 0 && Occurrences(tree, id, l2) > 0
    ensures l1 == l2 && Occurrences(tree, id, l1) == 1
  {
    OccursByDistance(db, tree, depth, withEmployees, id, l1);
    OccursByDistance(db, tree, depth, withEmployees, id, l2);
    DistanceUnique(db.departments, id, l1, l2);
  }

  /** The node reached by following child positions from the root. */
  function NodeAt(tree: Tree, path: seq<nat>): Option<Tree>
    decreases |path|
  {
    if path == [] then Some(tree)
    else if tree.children.Nil? || path[0] >= |tree.children.items| then None
    else NodeAt(tree.children.items[path[0]], path[1..])
  }

  /** Every node, wherever it sits, carries its department's row and exactly its own employees,
      at a level equal to its distance from the root. */
  lemma {:induction false} EveryNodeIsARow(db: Database, tree: Tree, depth: int, withEmployees: bool, path: seq<nat>)
    requires depth >= 0 && Represents(db, tree, depth, withEmployees)
    requires NodeAt(tree, path).Some?
    ensures |path| <= depth
    ensures Shows(db, NodeAt(tree, path).value, withEmployees)
    ensures Up(db.departments, NodeAt(tree, path).value.id, |path|) == Some(tree.id)
    decreases |path|
  {
    if path != [] {
      var child := tree.children.items[path[0]];
      EveryNodeIsARow(db, child, depth - 1, withEmployees, path[1..]);
      assert TreeIds(tree.children.items)[path[0]] in TreeIds(tree.children.items);
      assert child.id in Children(db.departments, tree.id);
    }
  }

  /** Cut a tree below the given depth. */
  function Truncate(tree: Tree, depth: int): Tree
    decreases tree
  {
    if depth <= 0 || tree.children.Nil? then tree.(children := Items([]))
    else
      var items := tree.children.items;
      tree.(children := Items(seq(|items|, i requires 0 <= i < |items| => Truncate(items[i], depth - 1))))
  }

  /** Truncating a tree to a smaller depth gives a tree of that depth. */
  lemma {:induction false} TruncateRepresents(db: Database, tree: Tree, depth: int, smaller: int, withEmployees: bool)
    requires smaller <= depth && Represents(db, tree, depth, withEmployees)
    ensures Represents(db, Truncate(tree, smaller), smaller, withEmployees)
    decreases tree
  {
    if smaller > 0 {
      var items := tree.children.items;
      var cut := Truncate(tree, smaller).children.items;
      forall i | 0 <= i < |items|
        ensures Represents(db, cut[i], smaller - 1, withEmployees) && cut[i].id == items[i].id
      {
        assert cut[i] == Truncate(items[i], smaller - 1);
        TruncateRepresents(db, items[i], depth - 1, smaller - 1, withEmployees);
      }
      assert TreeIds(cut) == TreeIds(items);
    }
  }

  // ---- what a commit may do to a tree ----

  ghost predicate SameStaff(es: Employees, es': Employees, department: Id) {
    && StaffOf(es, department) == StaffOf(es', department)
    && forall e :: e in StaffOf(es, department) ==> es[e] == es'[e]
  }

  /** Seen from `id` down to the given depth, two databases hold the same rows. */
  ghost predicate SameView(db: Database, db': Database, id: Id, depth: int, withEmployees: bool)
    decreases if depth <= 0 then 0 else depth
  {
    && id in db.departments && id in db'.departments && db.departments[id] == db'.departments[id]
    && (withEmployees ==> SameStaff(db.employees, db'.employees, id))
    && (depth > 0 ==>
          && Children(db.departments, id) == Children(db'.departments, id)
          && forall c :: c in Children(db.departments, id) ==> SameView(db, db', c, depth - 1, withEmployees))
  }

  lemma SameEnumeration(rows: seq<Id>, ids: set<Id>, ids': set<Id>)
    requires Enumerates(rows, ids)
    ensures Enumerates(rows, ids') <==> ids == ids'
  {
    if Enumerates(rows, ids') {
      assert forall id :: id in ids <==> id in ids';
    }
  }

  lemma SameStaffLists(es: Employees, es': Employees, department: Id, rows: seq<EmployeeRow>)
    requires ListsStaff(es, department, rows)
    ensures ListsStaff(es', department, rows) <==> SameStaff(es, es', department)
  {
    SameEnumeration(EmployeeIds(rows), StaffOf(es, department), StaffOf(es', department));
    if ListsStaff(es', department, rows) {
      forall e | e in StaffOf(es, department) ensures es[e] == es'[e] {
        assert e in EmployeeIds(rows);
      }
    }
    if SameStaff(es, es', department) {
      forall i | 0 <= i < |rows| ensures rows[i].id in es' && es'[rows[i].id] == rows[i].fields {
        assert EmployeeIds(rows)[i] in EmployeeIds(rows);
      }
    }
  }

  /** A tree of one database is a tree of another exactly when both look the same from its root. */
  lemma {:induction false} RepresentsIffSameView(db: Database, db': Database, tree: Tree, depth: int, withEmployees: bool)
    requires Represents(db, tree, depth, withEmployees)
    ensures Represents(db', tree, depth, withEmployees) <==> SameView(db, db', tree.id, depth, withEmployees)
    decreases tree
  {
    var items := tree.children.items;
    if withEmployees {
      SameStaffLists(db.employees, db'.employees, tree.id, tree.employees.value.items);
    }
    forall i | 0 <= i < |items|
      ensures Represents(db', items[i], depth - 1, withEmployees) <==> SameView(db, db', items[i].id, depth - 1, withEmployees)
    {
      RepresentsIffSameView(db, db', items[i], depth - 1, withEmployees);
    }
    if depth > 0 {
      SameEnumeration(TreeIds(items), Children(db.departments, tree.id), Children(db'.departments, tree.id));
      forall i | 0 <= i < |items| ensures items[i].id in Children(db.departments, tree.id) {
        assert TreeIds(items)[i] in TreeIds(items);
      }
      forall c | c in Children(db.departments, tree.id) ensures exists i :: 0 <= i < |items| && items[i].id == c {
        assert c in TreeIds(items);
      }
    }
  }

  // ---- the check on cached trees ----

  predicate ValidNode(node: Tree, remainingDepth: int, withEmployees: bool) {
    && node.id != 0 && node.children != Nil
    && (if withEmployees then node.employees.Some? && node.employees.value != Nil else node.employees.None?)
    && (if remainingDepth <= 0 then |node.children.items| == 0
        else forall i :: 0 <= i < |node.children.items| ==>
               && node.children.items[i].parentId == Some(node.id)
               && ValidNode(node.children.items[i], remainingDepth - 1, withEmployees))
  }

  predicate Valid(tree: Tree, wantId: Id, depth: int, withEmployees: bool) {
    tree.id == wantId && ValidNode(tree, depth, withEmployees)
  }

  /** Every tree of a database whose keys count from one passes the check. */
  lemma {:induction false} RepresentedIsValid(db: Database, tree: Tree, depth: int, withEmployees: bool)
    requires KeysIssued(db) && Represents(db, tree, depth, withEmployees)
    ensures ValidNode(tree, depth, withEmployees)
    decreases tree
  {
    var items := tree.children.items;
    forall i | 0 <= i < |items|
      ensures items[i].parentId == Some(tree.id) && ValidNode(items[i], depth - 1, withEmployees)
    {
      RepresentedIsValid(db, items[i], depth - 1, withEmployees);
      assert TreeIds(items)[i] in TreeIds(items);
      assert items[i].id in Children(db.departments, tree.id);
    }
  }

  /** The recursive check with its loop over the children. */
  method CheckNode(node: Tree, remainingDepth: int, withEmployees: bool) returns (ok: bool)
    ensures ok == ValidNode(node, remainingDepth, withEmployees)
    decreases node
  {
    if node.id == 0 || node.children == Nil {
      return false;
    }
    if withEmployees {
      if node.employees.None? || node.employees.value == Nil {
        return false;
      }
    } else if node.employees.Some? {
      return false;
    }
    if remainingDepth <= 0 {
      return |node.children.items| == 0;
    }
    for index := 0 to |node.children.items|
      invariant forall i :: 0 <= i < index ==>
                  && node.children.items[i].parentId == Some(node.id)
                  && ValidNode(node.children.items[i], remainingDepth - 1, withEmployees)
    {
      var child := node.children.items[index];
      if child.parentId.None? || child.parentId.value != node.id {
        return false;
      }
      var childOk := CheckNode(child, remainingDepth - 1, withEmployees);
      if !childOk {
        return false;
      }
    }
    return true;
  }
}
