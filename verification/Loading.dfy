/** One load of a tree as the queries it makes, each a step of its own: the recursive builder
    read off a log of the queries answered so far. */
module Loading {
  import opened Wrappers
  import opened Forest
  import opened Storage
  import opened Trees

  datatype Query = GetDepartment(id: Id) | ListEmployees(id: Id) | ListChildren(id: Id)

  datatype Answer =
    | Failed
    | Missing
    | Found(department: DepartmentRow)
    | Staff(employees: seq<EmployeeRow>)
    | Rows(departments: seq<DepartmentRow>)

  /** A query, its answer, and the database version that answered it. */
  datatype Read = Read(query: Query, answer: Answer, version: nat)

  datatype LoadError = RepositoryFailure | DepartmentMissing

  /** How far a load gets on a log: it has its value and the position after it, it stops on an error,
      it has used up the log and asks for more, or the log does not fit its queries. */
  datatype Progress<+T> = Built(value: T, next: nat) | Stopped(error: LoadError) | Ask(query: Query) | Misfit {

    predicate IsFailure() {
      !Built?
    }

    function PropagateFailure<U>(): Progress<U>
      requires !Built?
    {
      match this
      case Stopped(error) => Stopped(error)
      case Ask(query) => Ask(query)
      case Misfit => Misfit
    }

    function Extract(): (T, nat)
      requires Built?
    {
      (value, next)
    }
  }

  // ---- the builder on a log ----

  function NextAnswer(log: seq<Read>, at: nat, query: Query): (p: Progress<Answer>)
    requires at <= |log|
    ensures p.Built? ==> at < p.next <= |log|
  {
    if at == |log| then Ask(query)
    else if log[at].query != query then Misfit
    else if log[at].answer.Failed? then Stopped(RepositoryFailure)
    else Built(log[at].answer, at + 1)
  }

  function NextEmployees(log: seq<Read>, at: nat, id: Id, withEmployees: bool):
    (p: Progress<Option<Slice<EmployeeRow>>>)
    requires at <= |log|
    ensures p.Built? ==> at <= p.next <= |log|
  {
    if !withEmployees then Built(None, at)
    else
      var (answer, next) :- NextAnswer(log, at, ListEmployees(id));
      if answer.Staff? then Built(Some(Items(answer.employees)), next) else Misfit
  }

  function NextChildren(log: seq<Read>, at: nat, id: Id): (p: Progress<seq<DepartmentRow>>)
    requires at <= |log|
    ensures p.Built? ==> at <= p.next <= |log|
  {
    var (answer, next) :- NextAnswer(log, at, ListChildren(id));
    if answer.Rows? then Built(answer.departments, next) else Misfit
  }

  function Remaining(depth: int): nat {
    if depth <= 0 then 0 else depth
  }

  function BuildTree(log: seq<Read>, at: nat, row: DepartmentRow, depth: int, withEmployees: bool): (p: Progress<Tree>)
    requires at <= |log|
    ensures p.Built? ==> at <= p.next <= |log|
    decreases Remaining(depth), 0
  {
    var (employees, next) :- NextEmployees(log, at, row.id, withEmployees);
    var bare := Tree(row.id, row.fields.name, row.fields.parent, row.fields.createdAt, employees, Items([]));
    if depth <= 0 then Built(bare, next)
    else
      var (rows, next1) :- NextChildren(log, next, row.id);
      var (trees, next2) :- BuildForest(log, next1, rows, depth - 1, withEmployees);
      Built(bare.(children := Items(trees)), next2)
  }

  /** The loop over the children, appending their trees in order. */
  function BuildForest(log: seq<Read>, at: nat, rows: seq<DepartmentRow>, depth: int, withEmployees: bool):
    (p: Progress<seq<Tree>>)
    requires at <= |log|
    ensures p.Built? ==> at <= p.next <= |log|
    decreases Remaining(depth), |rows| + 1
  {
    if rows == [] then Built([], at)
    else
      var (first, next) :- BuildTree(log, at, rows[0], depth, withEmployees);
      var (rest, next1) :- BuildForest(log, next, rows[1..], depth, withEmployees);
      Built([first] + rest, next1)
  }

  /** loadDepartmentTree: fetch the root row, then build. */
  function Load(log: seq<Read>, id: Id, depth: int, withEmployees: bool): (p: Progress<Tree>)
    ensures p.Built? ==> p.next <= |log|
  {
    var (answer, next) :- NextAnswer(log, 0, GetDepartment(id));
    match answer
    case Missing => Stopped(DepartmentMissing)
    case Found(row) => BuildTree(log, next, row, depth, withEmployees)
    case _ => Misfit
  }

  // ---- what the database may answer ----

  /** `answer` is what a query sees on `db`; any query may also fail. */
  ghost predicate Answers(db: Database, query: Query, answer: Answer) {
    answer.Failed? ||
    match query
    case GetDepartment(id) =>
      if id in db.departments then answer == Found(DepartmentRow(id, db.departments[id])) else answer == Missing
    case ListEmployees(id) => answer.Staff? && ListsStaff(db.employees, id, answer.employees)
    case ListChildren(id) => answer.Rows? && ListsChildren(db.departments, id, answer.departments)
  }

  /** The answer has the shape the query asks for. */
  predicate Fits(query: Query, answer: Answer) {
    answer.Failed? ||
    match query
    case GetDepartment(_) => answer.Missing? || answer.Found?
    case ListEmployees(_) => answer.Staff?
    case ListChildren(_) => answer.Rows?
  }

  lemma {:induction false} EverySetHasAnOrder(ids: set<Id>) returns (rows: seq<Id>)
    ensures Enumerates(rows, ids)
    decreases ids
  {
    rows := [];
    if ids != {} {
      var id :| id in ids;
      rows := EverySetHasAnOrder(ids - {id});
      rows := rows + [id];
      assert forall x :: x in ids <==> x == id || x in ids - {id};
    }
  }

  /** No query is without an answer, even if none may fail. */
  lemma EveryQueryHasAnAnswer(db: Database, query: Query) returns (answer: Answer)
    ensures Answers(db, query, answer) && !answer.Failed?
  {
    match query
    case GetDepartment(id) =>
      answer := if id in db.departments then Found(DepartmentRow(id, db.departments[id])) else Missing;
    case ListEmployees(id) =>
      var ids := EverySetHasAnOrder(StaffOf(db.employees, id));
      assert forall i :: 0 <= i < |ids| ==> ids[i] in ids;
      var rows := seq(|ids|, i requires 0 <= i < |ids| => EmployeeRow(ids[i], db.employees[ids[i]]));
      assert EmployeeIds(rows) == ids;
      answer := Staff(rows);
    case ListChildren(id) =>
      var ids := EverySetHasAnOrder(Children(db.departments, id));
      assert forall i :: 0 <= i < |ids| ==> ids[i] in ids;
      var rows := seq(|ids|, i requires 0 <= i < |ids| => DepartmentRow(ids[i], db.departments[ids[i]]));
      assert DepartmentIds(rows) == ids;
      answer := Rows(rows);
  }

  // ---- one more answer moves a load forward ----

  /** The relation between a load on a log and on the log extended by one read. */
  ghost predicate Extends<T(!new)>(p: Progress<T>, p': Progress<T>, read: Read) {
    if p.Ask? then
      read.query == p.query && Fits(read.query, read.answer) ==>
        !p'.Misfit? && (p'.Stopped? ==> read.answer.Failed? || read.answer.Missing?)
    else p' == p
  }

  lemma ExtendNextAnswer(log: seq<Read>, read: Read, at: nat, query: Query)
    requires at <= |log|
    ensures Extends(NextAnswer(log, at, query), NextAnswer(log + [read], at, query), read)
    ensures at == |log| && read.query == query && Fits(query, read.answer) ==>
              NextAnswer(log + [read], at, query) ==
              if read.answer.Failed? then Stopped(RepositoryFailure) else Built(read.answer, at + 1)
  {
  }

  ghost predicate TreeExtends(log: seq<Read>, read: Read, at: nat, row: DepartmentRow, depth: int,
                              withEmployees: bool)
    requires at <= |log|
  {
    Extends(BuildTree(log, at, row, depth, withEmployees),
            BuildTree(log + [read], at, row, depth, withEmployees), read)
  }

  lemma {:induction false} ExtendTree(log: seq<Read>, read: Read, at: nat, row: DepartmentRow, depth: int,
                                      withEmployees: bool)
    requires at <= |log|
    ensures TreeExtends(log, read, at, row, depth, withEmployees)
    decreases Remaining(depth), 0
  {
    var log' := log + [read];
    var e := NextEmployees(log, at, row.id, withEmployees);
    ExtendNextAnswer(log, read, at, ListEmployees(row.id));
    if e.Built? {
      assert NextEmployees(log', at, row.id, withEmployees) == e;
      if depth > 0 {
        var c := NextChildren(log, e.next, row.id);
        ExtendNextAnswer(log, read, e.next, ListChildren(row.id));
        if c.Built? {
          assert NextChildren(log', e.next, row.id) == c;
          ExtendForest(log, read, c.next, c.value, depth - 1, withEmployees);
        } else if c.Ask? && NextChildren(log', e.next, row.id).Built? {
          NothingLeft(log', |log'|, NextChildren(log', e.next, row.id).value, depth - 1, withEmployees);
        }
      }
    } else if e.Ask? && NextEmployees(log', at, row.id, withEmployees).Built? && depth > 0 {
      assert NextChildren(log', |log'|, row.id).Ask?;
    }
  }

  /** With the log used up a load can only ask or be done. */
  lemma {:induction false} NothingLeft(log: seq<Read>, at: nat, rows: seq<DepartmentRow>, depth: int, withEmployees: bool)
    requires at == |log|
    ensures var p := BuildForest(log, at, rows, depth, withEmployees); p.Ask? || (p.Built? && p.next == |log|)
    decreases |rows|
  {
    if rows != [] {
      var e := NextEmployees(log, at, rows[0].id, withEmployees);
      assert e.Ask? || (e.Built? && e.next == |log|);
      if e.Built? && depth > 0 {
        assert NextChildren(log, at, rows[0].id).Ask?;
      }
      NothingLeft(log, at, rows[1..], depth, withEmployees);
    }
  }

  lemma {:induction false} ExtendForest(log: seq<Read>, read: Read, at: nat, rows: seq<DepartmentRow>, depth: int,
                                        withEmployees: bool)
    requires at <= |log|
    ensures Extends(BuildForest(log, at, rows, depth, withEmployees),
                    BuildForest(log + [read], at, rows, depth, withEmployees), read)
    decreases Remaining(depth), |rows| + 1
  {
    if rows != [] {
      var log' := log + [read];
      ExtendTree(log, read, at, rows[0], depth, withEmployees);
      var t := BuildTree(log, at, rows[0], depth, withEmployees);
      if t.Built? {
        ExtendForest(log, read, t.next, rows[1..], depth, withEmployees);
      } else if t.Ask? {
        var t' := BuildTree(log', at, rows[0], depth, withEmployees);
        if t'.Built? && read.query == t.query && Fits(read.query, read.answer) {
          UsesLast(log, read, at, rows[0], depth, withEmployees);
          NothingLeft(log', |log'|, rows[1..], depth, withEmployees);
        }
      }
    }
  }

  /** A tree that needs the appended read to be finished uses the log up. */
  lemma {:induction false} UsesLast(log: seq<Read>, read: Read, at: nat, row: DepartmentRow, depth: int, withEmployees: bool)
    requires at <= |log|
    requires BuildTree(log, at, row, depth, withEmployees).Ask?
    requires BuildTree(log + [read], at, row, depth, withEmployees).Built?
    ensures BuildTree(log + [read], at, row, depth, withEmployees).next == |log| + 1
  {
    var p := BuildTree(log + [read], at, row, depth, withEmployees);
    if p.next <= |log| {
      UnusedTail(log, read, at, row, depth, withEmployees);
    }
  }

  /** A tree finished before the appended read does not depend on it. */
  lemma {:induction false} UnusedTail(log: seq<Read>, read: Read, at: nat, row: DepartmentRow, depth: int, withEmployees: bool)
    requires at <= |log|
    requires var p := BuildTree(log + [read], at, row, depth, withEmployees); p.Built? && p.next <= |log|
    ensures BuildTree(log, at, row, depth, withEmployees) == BuildTree(log + [read], at, row, depth, withEmployees)
    decreases Remaining(depth), 0
  {
    var log' := log + [read];
    var e := NextEmployees(log', at, row.id, withEmployees);
    if depth > 0 {
      var c := NextChildren(log', e.next, row.id);
      UnusedForestTail(log, read, c.next, c.value, depth - 1, withEmployees);
    }
  }

  lemma {:induction false} UnusedForestTail(log: seq<Read>, read: Read, at: nat, rows: seq<DepartmentRow>, depth: int,
                                            withEmployees: bool)
    requires at <= |log| + 1
    requires var p := BuildForest(log + [read], at, rows, depth, withEmployees); p.Built? && p.next <= |log|
    ensures at <= |log|
    ensures BuildForest(log, at, rows, depth, withEmployees) == BuildForest(log + [read], at, rows, depth, withEmployees)
    decreases Remaining(depth), |rows| + 1
  {
    var log' := log + [read];
    if rows != [] {
      var t := BuildTree(log', at, rows[0], depth, withEmployees);
      UnusedForestTail(log, read, t.next, rows[1..], depth, withEmployees);
      UnusedTail(log, read, at, rows[0], depth, withEmployees);
    }
  }

  /** Answering the query a load asks for never leaves it without a next move. */
  lemma LoadMovesOn(log: seq<Read>, read: Read, id: Id, depth: int, withEmployees: bool)
    requires Load(log, id, depth, withEmployees) == Ask(read.query)
    requires Fits(read.query, read.answer)
    ensures var p := Load(log + [read], id, depth, withEmployees);
            && !p.Misfit? && (p.Stopped? ==> read.answer.Failed? || read.answer.Missing?)
            && (p.Built? ==> p.next == |log| + 1)
  {
    if |log| > 0 {
      ExtendTree(log, read, 1, log[0].answer.department, depth, withEmployees);
      if Load(log + [read], id, depth, withEmployees).Built? {
        UsesLast(log, read, 1, log[0].answer.department, depth, withEmployees);
      }
    } else if read.answer.Found? {
      var p := BuildForest(log + [read], 1, [read.answer.department], depth, withEmployees);
      NothingLeft(log + [read], 1, [read.answer.department], depth, withEmployees);
    }
  }

  // ---- a load on one fixed database ----

  ghost predicate AllFrom(db: Database, log: seq<Read>) {
    forall i :: 0 <= i < |log| ==> Answers(db, log[i].query, log[i].answer)
  }

  lemma {:induction false} BuiltTreeRepresents(db: Database, log: seq<Read>, at: nat, row: DepartmentRow, depth: int,
                                               withEmployees: bool)
    requires at <= |log| && AllFrom(db, log)
    requires row.id in db.departments && db.departments[row.id] == row.fields
    requires BuildTree(log, at, row, depth, withEmployees).Built?
    ensures var tree := BuildTree(log, at, row, depth, withEmployees).value;
            tree.id == row.id && Represents(db, tree, depth, withEmployees)
    decreases Remaining(depth), 0
  {
    var e := NextEmployees(log, at, row.id, withEmployees);
    if withEmployees {
      assert Answers(db, log[at].query, log[at].answer);
    }
    if depth > 0 {
      var c := NextChildren(log, e.next, row.id);
      assert Answers(db, log[e.next].query, log[e.next].answer);
      BuiltForestRepresents(db, log, c.next, c.value, depth - 1, withEmployees);
      var trees := BuildForest(log, c.next, c.value, depth - 1, withEmployees).value;
      assert TreeIds(trees) == DepartmentIds(c.value);
    }
  }

  lemma {:induction false} BuiltForestRepresents(db: Database, log: seq<Read>, at: nat, rows: seq<DepartmentRow>,
                                                 depth: int, withEmployees: bool)
    requires at <= |log| && AllFrom(db, log)
    requires forall i :: 0 <= i < |rows| ==>
               rows[i].id in db.departments && db.departments[rows[i].id] == rows[i].fields
    requires BuildForest(log, at, rows, depth, withEmployees).Built?
    ensures var trees := BuildForest(log, at, rows, depth, withEmployees).value;
            && |trees| == |rows|
            && (forall i :: 0 <= i < |rows| ==> trees[i].id == rows[i].id)
            && (forall i :: 0 <= i < |rows| ==> Represents(db, trees[i], depth, withEmployees))
    decreases Remaining(depth), |rows| + 1
  {
    if rows != [] {
      var t := BuildTree(log, at, rows[0], depth, withEmployees);
      BuiltTreeRepresents(db, log, at, rows[0], depth, withEmployees);
      BuiltForestRepresents(db, log, t.next, rows[1..], depth, withEmployees);
    }
  }

  /** A load all of whose queries saw one database returns a tree of it, or rightly reports the department missing. */
  lemma LoadOnFixedDatabase(db: Database, log: seq<Read>, id: Id, depth: int, withEmployees: bool)
    requires AllFrom(db, log)
    ensures var p := Load(log, id, depth, withEmployees);
            && (p.Built? ==> p.value.id == id && Represents(db, p.value, depth, withEmployees))
            && (p == Stopped(DepartmentMissing) ==> id !in db.departments)
  {
    var p := Load(log, id, depth, withEmployees);
    if |log| > 0 && log[0].query == GetDepartment(id) {
      assert Answers(db, log[0].query, log[0].answer);
      if p.Built? {
        BuiltTreeRepresents(db, log, 1, log[0].answer.department, depth, withEmployees);
      } else if p.Stopped? && log[0].answer.Found? {
        OnlyFailureStopsATree(log, 1, log[0].answer.department, depth, withEmployees);
      }
    }
  }

  // ---- a tree is right exactly as long as its answers are ----

  ghost predicate TrueBetween(db: Database, log: seq<Read>, from: nat, to: nat)
    requires from <= to <= |log|
  {
    forall i :: from <= i < to ==> Answers(db, log[i].query, log[i].answer)
  }

  lemma {:induction false} RepresentedTreeAnswers(db: Database, log: seq<Read>, at: nat, row: DepartmentRow, depth: int,
                                                  withEmployees: bool)
    requires at <= |log| && BuildTree(log, at, row, depth, withEmployees).Built?
    requires Represents(db, BuildTree(log, at, row, depth, withEmployees).value, depth, withEmployees)
    ensures TrueBetween(db, log, at, BuildTree(log, at, row, depth, withEmployees).next)
    decreases Remaining(depth), 0
  {
    var tree := BuildTree(log, at, row, depth, withEmployees).value;
    var e := NextEmployees(log, at, row.id, withEmployees);
    StaffAnswerTrue(db, log, at, tree, withEmployees);
    if depth > 0 {
      var c := NextChildren(log, e.next, row.id);
      var trees := BuildForest(log, c.next, c.value, depth - 1, withEmployees);
      assert tree.children.items == trees.value;
      ForestKeepsOrder(log, c.next, c.value, depth - 1, withEmployees);
      RowsOfRepresented(db, row.id, c.value, trees.value, depth - 1, withEmployees);
      RowsAnswerTrue(db, log, e.next, row.id);
      RepresentedForestAnswers(db, log, c.next, c.value, depth - 1, withEmployees);
      JoinTrue(db, log, at, e.next, c.next);
      JoinTrue(db, log, at, c.next, trees.next);
    }
  }

  lemma StaffAnswerTrue(db: Database, log: seq<Read>, at: nat, tree: Tree, withEmployees: bool)
    requires at <= |log| && NextEmployees(log, at, tree.id, withEmployees).Built?
    requires NextEmployees(log, at, tree.id, withEmployees).value == tree.employees && Shows(db, tree, withEmployees)
    ensures TrueBetween(db, log, at, NextEmployees(log, at, tree.id, withEmployees).next)
  {
  }

  lemma RowsAnswerTrue(db: Database, log: seq<Read>, at: nat, parent: Id)
    requires at <= |log| && NextChildren(log, at, parent).Built?
    requires ListsChildren(db.departments, parent, NextChildren(log, at, parent).value)
    ensures TrueBetween(db, log, at, NextChildren(log, at, parent).next)
  {
  }

  lemma JoinTrue(db: Database, log: seq<Read>, from: nat, mid: nat, to: nat)
    requires from <= mid <= to <= |log| && TrueBetween(db, log, from, mid) && TrueBetween(db, log, mid, to)
    ensures TrueBetween(db, log, from, to)
  {
  }

  /** The rows of all children of `parent`, each of whose trees is one of `db`, are what `db` would answer. */
  lemma RowsOfRepresented(db: Database, parent: Id, rows: seq<DepartmentRow>, trees: seq<Tree>, depth: int, withEmployees: bool)
    requires rows == RowsOf(trees) && Enumerates(TreeIds(trees), Children(db.departments, parent))
    requires forall i :: 0 <= i < |trees| ==> Represents(db, trees[i], depth, withEmployees)
    ensures ListsChildren(db.departments, parent, rows)
  {
    assert DepartmentIds(rows) == TreeIds(trees);
    forall i | 0 <= i < |rows| ensures rows[i].id in db.departments && db.departments[rows[i].id] == rows[i].fields {
      assert Shows(db, trees[i], withEmployees);
    }
  }

  lemma {:induction false} RepresentedForestAnswers(db: Database, log: seq<Read>, at: nat, rows: seq<DepartmentRow>,
                                                    depth: int, withEmployees: bool)
    requires at <= |log| && BuildForest(log, at, rows, depth, withEmployees).Built?
    requires var trees := BuildForest(log, at, rows, depth, withEmployees).value;
             forall i :: 0 <= i < |trees| ==> Represents(db, trees[i], depth, withEmployees)
    ensures TrueBetween(db, log, at, BuildForest(log, at, rows, depth, withEmployees).next)
    decreases Remaining(depth), |rows| + 1
  {
    if rows != [] {
      var trees := BuildForest(log, at, rows, depth, withEmployees).value;
      var t := BuildTree(log, at, rows[0], depth, withEmployees);
      assert trees[0] == t.value;
      RepresentedTreeAnswers(db, log, at, rows[0], depth, withEmployees);
      var rest := BuildForest(log, t.next, rows[1..], depth, withEmployees);
      assert forall i :: 0 <= i < |rest.value| ==> rest.value[i] == trees[i + 1];
      RepresentedForestAnswers(db, log, t.next, rows[1..], depth, withEmployees);
    }
  }

  /** Whatever databases answered its queries, a load built a tree of `db` exactly when each of its answers
      is also the answer `db` gives. */
  lemma LoadRightExact(db: Database, log: seq<Read>, id: Id, depth: int, withEmployees: bool)
    requires AllPlausible(log) && Load(log, id, depth, withEmployees).Built?
    requires Load(log, id, depth, withEmployees).next == |log|
    ensures Represents(db, Load(log, id, depth, withEmployees).value, depth, withEmployees) <==> AllFrom(db, log)
  {
    var tree := Load(log, id, depth, withEmployees).value;
    if AllFrom(db, log) {
      LoadOnFixedDatabase(db, log, id, depth, withEmployees);
    }
    if Represents(db, tree, depth, withEmployees) {
      var row := log[0].answer.department;
      assert Plausible(log[0].query, log[0].answer);
      RepresentedTreeAnswers(db, log, 1, row, depth, withEmployees);
      assert RowOf(tree) == row;
    }
  }

  /** What loads can build from one well-formed database is exactly what represents it. */
  lemma RepresentsExact(db: Database, tree: Tree, depth: int, withEmployees: bool)
    requires WellFormed(db)
    ensures Represents(db, tree, depth, withEmployees) <==>
            exists log :: AllFrom(db, log) && Load(log, tree.id, depth, withEmployees) == Built(tree, |log|)
  {
    if Represents(db, tree, depth, withEmployees) {
      RepresentedIsValid(db, tree, depth, withEmployees);
      var log := ReplayLoad(tree, depth, withEmployees);
      LoadRightExact(db, log, tree.id, depth, withEmployees);
    }
    if log :| AllFrom(db, log) && Load(log, tree.id, depth, withEmployees) == Built(tree, |log|) {
      LoadOnFixedDatabase(db, log, tree.id, depth, withEmployees);
    }
  }

  // ---- why a load stops ----

  lemma {:induction false} OnlyFailureStopsATree(log: seq<Read>, at: nat, row: DepartmentRow, depth: int,
                                                 withEmployees: bool)
    requires at <= |log| && BuildTree(log, at, row, depth, withEmployees).Stopped?
    ensures BuildTree(log, at, row, depth, withEmployees) == Stopped(RepositoryFailure)
    ensures exists i :: 0 <= i < |log| && log[i].answer.Failed?
    decreases Remaining(depth), 0
  {
    var e := NextEmployees(log, at, row.id, withEmployees);
    if e.Built? {
      var c := NextChildren(log, e.next, row.id);
      if c.Built? {
        OnlyFailureStopsAForest(log, c.next, c.value, depth - 1, withEmployees);
      } else {
        assert log[e.next].answer.Failed?;
      }
    } else {
      assert log[at].answer.Failed?;
    }
  }

  lemma {:induction false} OnlyFailureStopsAForest(log: seq<Read>, at: nat, rows: seq<DepartmentRow>, depth: int,
                                                   withEmployees: bool)
    requires at <= |log| && BuildForest(log, at, rows, depth, withEmployees).Stopped?
    ensures BuildForest(log, at, rows, depth, withEmployees) == Stopped(RepositoryFailure)
    ensures exists i :: 0 <= i < |log| && log[i].answer.Failed?
    decreases Remaining(depth), |rows| + 1
  {
    var t := BuildTree(log, at, rows[0], depth, withEmployees);
    if t.Built? {
      OnlyFailureStopsAForest(log, t.next, rows[1..], depth, withEmployees);
    } else {
      OnlyFailureStopsATree(log, at, rows[0], depth, withEmployees);
    }
  }

  /** A load stops with an error only on a query that failed, or on a root the database did not have. */
  lemma LoadStopsOnlyOnQueries(log: seq<Read>, id: Id, depth: int, withEmployees: bool)
    requires Load(log, id, depth, withEmployees).Stopped?
    ensures Load(log, id, depth, withEmployees).error == RepositoryFailure ==>
              exists i :: 0 <= i < |log| && log[i].answer.Failed?
    ensures Load(log, id, depth, withEmployees).error == DepartmentMissing ==>
              |log| > 0 && log[0].query == GetDepartment(id) && log[0].answer.Missing?
  {
    if log[0].answer.Found? {
      OnlyFailureStopsATree(log, 1, log[0].answer.department, depth, withEmployees);
    } else if log[0].answer.Failed? {
      assert exists i :: 0 <= i < |log| && log[i].answer.Failed?;
    }
  }

  // ---- the validator accepts exactly what loads can build ----

  /** What one answer promises on its own: positive ids, and children that name the parent asked for. */
  predicate Plausible(query: Query, answer: Answer) {
    match answer
    case Found(row) => query == GetDepartment(row.id) && row.id != 0
    case Rows(rows) =>
      query.ListChildren? &&
      forall i :: 0 <= i < |rows| ==> rows[i].id != 0 && rows[i].fields.parent == Some(query.id)
    case _ => true
  }

  predicate AllPlausible(log: seq<Read>) {
    forall i :: 0 <= i < |log| ==> Plausible(log[i].query, log[i].answer)
  }

  /** Each answer of a well-formed database is plausible, whichever database it came from. */
  lemma AnswersArePlausible(db: Database, query: Query, answer: Answer)
    requires WellFormed(db) && Answers(db, query, answer)
    ensures Plausible(query, answer) && Fits(query, answer)
  {
    if answer.Rows? {
      var rows := answer.departments;
      forall i | 0 <= i < |rows| ensures rows[i].id != 0 && rows[i].fields.parent == Some(query.id) {
        assert DepartmentIds(rows)[i] in DepartmentIds(rows);
        assert rows[i].id in Children(db.departments, query.id);
      }
    }
  }

  lemma {:induction false} BuiltTreeIsValid(log: seq<Read>, at: nat, row: DepartmentRow, depth: int, withEmployees: bool)
    requires at <= |log| && AllPlausible(log) && row.id != 0
    requires BuildTree(log, at, row, depth, withEmployees).Built?
    ensures var tree := BuildTree(log, at, row, depth, withEmployees).value;
            && ValidNode(tree, depth, withEmployees)
            && tree.id == row.id && tree.parentId == row.fields.parent
    decreases Remaining(depth), 0
  {
    var e := NextEmployees(log, at, row.id, withEmployees);
    if depth > 0 {
      var c := NextChildren(log, e.next, row.id);
      assert Plausible(log[e.next].query, log[e.next].answer);
      BuiltForestIsValid(log, c.next, c.value, depth - 1, withEmployees);
    }
  }

  lemma {:induction false} BuiltForestIsValid(log: seq<Read>, at: nat, rows: seq<DepartmentRow>, depth: int,
                                              withEmployees: bool)
    requires at <= |log| && AllPlausible(log)
    requires forall i :: 0 <= i < |rows| ==> rows[i].id != 0
    requires BuildForest(log, at, rows, depth, withEmployees).Built?
    ensures var trees := BuildForest(log, at, rows, depth, withEmployees).value;
            && |trees| == |rows|
            && (forall i :: 0 <= i < |rows| ==> trees[i].parentId == rows[i].fields.parent)
            && (forall i :: 0 <= i < |rows| ==> ValidNode(trees[i], depth, withEmployees))
    decreases Remaining(depth), |rows| + 1
  {
    if rows != [] {
      var t := BuildTree(log, at, rows[0], depth, withEmployees);
      BuiltTreeIsValid(log, at, rows[0], depth, withEmployees);
      BuiltForestIsValid(log, t.next, rows[1..], depth, withEmployees);
    }
  }

  /** Whatever database each separate query saw, the tree it builds passes the check. */
  lemma LoadIsValid(log: seq<Read>, id: Id, depth: int, withEmployees: bool)
    requires AllPlausible(log) && Load(log, id, depth, withEmployees).Built?
    ensures Valid(Load(log, id, depth, withEmployees).value, id, depth, withEmployees)
  {
    assert Plausible(log[0].query, log[0].answer);
    BuiltTreeIsValid(log, 1, log[0].answer.department, depth, withEmployees);
  }

  function RowOf(tree: Tree): DepartmentRow {
    DepartmentRow(tree.id, Department(tree.name, tree.parentId, tree.createdAt))
  }

  function RowsOf(trees: seq<Tree>): (rows: seq<DepartmentRow>)
    ensures |rows| == |trees| && forall i :: 0 <= i < |trees| ==> rows[i] == RowOf(trees[i])
  {
    seq(|trees|, i requires 0 <= i < |trees| => RowOf(trees[i]))
  }

  /** The children of a node are the rows of the answer, in its order, with their own fields. */
  lemma {:induction false} ForestKeepsOrder(log: seq<Read>, at: nat, rows: seq<DepartmentRow>, depth: int,
                                            withEmployees: bool)
    requires at <= |log| && BuildForest(log, at, rows, depth, withEmployees).Built?
    ensures RowsOf(BuildForest(log, at, rows, depth, withEmployees).value) == rows
    decreases |rows|
  {
    if rows != [] {
      var first := BuildTree(log, at, rows[0], depth, withEmployees);
      ForestKeepsOrder(log, first.next, rows[1..], depth, withEmployees);
      var rest := BuildForest(log, first.next, rows[1..], depth, withEmployees).value;
      assert RowOf(first.value) == rows[0];
      assert RowsOf([first.value] + rest) == [rows[0]] + rows[1..];
    }
  }

  /** The answers from which a load would build the given tree. */
  function Script(tree: Tree, depth: int, withEmployees: bool): seq<Read>
    requires ValidNode(tree, depth, withEmployees)
    decreases tree, 1
  {
    (if withEmployees then [Read(ListEmployees(tree.id), Staff(tree.employees.value.items), 0)] else [])
    + (if depth <= 0 then []
       else [Read(ListChildren(tree.id), Rows(RowsOf(tree.children.items)), 0)]
            + ScriptAll(tree.children.items, depth - 1, withEmployees))
  }

  function ScriptAll(trees: seq<Tree>, depth: int, withEmployees: bool): seq<Read>
    requires forall i :: 0 <= i < |trees| ==> ValidNode(trees[i], depth, withEmployees)
    decreases trees, 0
  {
    if trees == [] then []
    else Script(trees[0], depth, withEmployees) + ScriptAll(trees[1..], depth, withEmployees)
  }

  ghost predicate HoldsAt(log: seq<Read>, at: nat, script: seq<Read>) {
    at + |script| <= |log| && forall i :: 0 <= i < |script| ==> log[at + i] == script[i]
  }

  lemma HoldsAtParts(log: seq<Read>, at: nat, first: seq<Read>, rest: seq<Read>)
    requires HoldsAt(log, at, first + rest)
    ensures HoldsAt(log, at, first) && HoldsAt(log, at + |first|, rest)
    ensures first != [] ==> log[at] == first[0]
    ensures |first| > 1 ==> log[at + 1] == first[1]
  {
    var all := first + rest;
    forall i | 0 <= i < |first| ensures log[at + i] == first[i] {
      assert log[at + i] == all[i];
    }
    forall i | 0 <= i < |rest| ensures log[at + |first| + i] == rest[i] {
      assert log[at + (|first| + i)] == all[|first| + i];
    }
  }

  ghost predicate Rebuilds(log: seq<Read>, at: nat, tree: Tree, depth: int, withEmployees: bool, next: nat) {
    at <= next <= |log| && BuildTree(log, at, RowOf(tree), depth, withEmployees) == Built(tree, next)
  }

  ghost predicate RebuildsAll(log: seq<Read>, at: nat, trees: seq<Tree>, depth: int, withEmployees: bool, next: nat) {
    at <= next <= |log| && BuildForest(log, at, RowsOf(trees), depth, withEmployees) == Built(trees, next)
  }

  lemma RebuildsCons(log: seq<Read>, at: nat, tree: Tree, mid: nat, others: seq<Tree>, next: nat, depth: int,
                     withEmployees: bool)
    requires Rebuilds(log, at, tree, depth, withEmployees, mid)
    requires RebuildsAll(log, mid, others, depth, withEmployees, next)
    ensures RebuildsAll(log, at, [tree] + others, depth, withEmployees, next)
  {
    assert RowsOf([tree] + others)[1..] == RowsOf(others);
  }

  lemma {:induction false} ReplayTree(log: seq<Read>, at: nat, tree: Tree, depth: int, withEmployees: bool)
    requires ValidNode(tree, depth, withEmployees)
    requires HoldsAt(log, at, Script(tree, depth, withEmployees))
    ensures Rebuilds(log, at, tree, depth, withEmployees, at + |Script(tree, depth, withEmployees)|)
    decreases tree, 1
  {
    var script := Script(tree, depth, withEmployees);
    var staff := if withEmployees then [Read(ListEmployees(tree.id), Staff(tree.employees.value.items), 0)] else [];
    if depth > 0 {
      var items := tree.children.items;
      var head := staff + [Read(ListChildren(tree.id), Rows(RowsOf(items)), 0)];
      var rest := ScriptAll(items, depth - 1, withEmployees);
      assert script == head + rest;
      HoldsAtParts(log, at, head, rest);
      ReplayForest(log, at + |head|, items, depth - 1, withEmployees);
    } else {
      assert script == staff + [];
      HoldsAtParts(log, at, staff, []);
    }
  }

  lemma {:induction false} ReplayForest(log: seq<Read>, at: nat, trees: seq<Tree>, depth: int,
                                        withEmployees: bool)
    requires forall i :: 0 <= i < |trees| ==> ValidNode(trees[i], depth, withEmployees)
    requires HoldsAt(log, at, ScriptAll(trees, depth, withEmployees))
    ensures RebuildsAll(log, at, trees, depth, withEmployees, at + |ScriptAll(trees, depth, withEmployees)|)
    decreases trees, 0
  {
    if trees != [] {
      var tree, others := trees[0], trees[1..];
      var first := Script(tree, depth, withEmployees);
      var rest := ScriptAll(others, depth, withEmployees);
      HoldsAtParts(log, at, first, rest);
      ReplayTree(log, at, tree, depth, withEmployees);
      ReplayForest(log, at + |first|, others, depth, withEmployees);
      RebuildsCons(log, at, tree, at + |first|, others, at + |first| + |rest|, depth, withEmployees);
      assert [tree] + others == trees;
    }
  }

  lemma {:induction false} ScriptIsPlausible(tree: Tree, depth: int, withEmployees: bool)
    requires ValidNode(tree, depth, withEmployees)
    ensures AllPlausible(Script(tree, depth, withEmployees))
    decreases tree, 1
  {
    if depth > 0 {
      ScriptAllIsPlausible(tree.children.items, depth - 1, withEmployees);
    }
  }

  lemma {:induction false} ScriptAllIsPlausible(trees: seq<Tree>, depth: int, withEmployees: bool)
    requires forall i :: 0 <= i < |trees| ==> ValidNode(trees[i], depth, withEmployees)
    ensures AllPlausible(ScriptAll(trees, depth, withEmployees))
    decreases trees, 0
  {
    if trees != [] {
      ScriptIsPlausible(trees[0], depth, withEmployees);
      ScriptAllIsPlausible(trees[1..], depth, withEmployees);
    }
  }

  /** The check passes exactly the trees that some load could have built from individually plausible answers. */
  lemma ValidatorExact(tree: Tree, id: Id, depth: int, withEmployees: bool)
    ensures Valid(tree, id, depth, withEmployees) <==>
            exists log :: AllPlausible(log) && Load(log, id, depth, withEmployees) == Built(tree, |log|)
  {
    if Valid(tree, id, depth, withEmployees) {
      var log := ReplayLoad(tree, depth, withEmployees);
    }
    if log :| AllPlausible(log) && Load(log, id, depth, withEmployees) == Built(tree, |log|) {
      LoadIsValid(log, id, depth, withEmployees);
    }
  }

  lemma ReplayLoad(tree: Tree, depth: int, withEmployees: bool) returns (log: seq<Read>)
    requires ValidNode(tree, depth, withEmployees)
    ensures AllPlausible(log) && Load(log, tree.id, depth, withEmployees) == Built(tree, |log|)
  {
    var script := Script(tree, depth, withEmployees);
    var root := [Read(GetDepartment(tree.id), Found(RowOf(tree)), 0)];
    log := root + script;
    ScriptIsPlausible(tree, depth, withEmployees);
    HoldsAtParts(log, 0, root, script);
    ReplayTree(log, 1, tree, depth, withEmployees);
  }
}
