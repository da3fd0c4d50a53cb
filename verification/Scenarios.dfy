/** One run in full: a read fills the cache, a rename commits, and until its increment the cache is stale. */
module Scenarios {
  import opened Wrappers
  import opened Forest
  import opened Storage
  import opened Mutations
  import opened Trees
  import opened Loading
  import opened Entries
  import opened Protocol
  import opened Guarantees

  function Row(name: string): Department {
    Department(name, None, 0)
  }

  /** A single department. */
  function Single(name: string): Database {
    Database(map[1 := Row(name)], map[], 1, 0)
  }

  const QUESTION := Request(0, true, 1, 1, false)
  const ASKED := Params(0, 1, 1, false)
  const FOUND := Read(GetDepartment(1), Found(DepartmentRow(1, Department("a", None, 0))), 0)
  const CHILDLESS := Read(ListChildren(1), Rows([]), 0)
  const RENAME := DoPatchDepartment(PatchDepartmentInput(1, Some("b"), None, false))

  lemma SingleIsWellFormed(name: string)
    requires |name| <= MAX_TEXT
    ensures WellFormed(Single(name))
  {
  }

  /** The first flight of a run that has stored nothing yet stands here. */
  ghost predicate Stage(s: State, pc: FlightPc) {
    && Reachable(s)
    && s.history == [Single("a")] && s.bumpedAt == [0] && s.store == map[] && s.writers == map[]
    && s.flights.Keys == {0} && s.flights[0] == Flight(0, ASKED, pc)
  }

  lemma Starts() returns (s: State)
    ensures Reachable(s) && s.history == [Single("a")] && s.bumpedAt == [0]
    ensures s.store == map[] && s.writers == map[] && s.flights == map[] && s.active == map[]
    ensures s.readers == map[0 := Reader(QUESTION, 0, None, Begin)]
  {
    SingleIsWellFormed("a");
    var s0 := State([Single("a")], [0], map[], map[], map[], map[], map[], map[]);
    var none: seq<Step> := [];
    assert Run([s0], none) && [s0][|none|] == s0;
    var step := Start(0, QUESTION);
    ReachableStep(s0, step);
    s := Next(s0, step);
    assert s.readers == map[0 := Reader(QUESTION, 0, None, Begin)];
  }

  lemma FetchesEpoch() returns (s: State)
    ensures Reachable(s) && s.history == [Single("a")] && s.bumpedAt == [0]
    ensures s.store == map[] && s.writers == map[] && s.flights == map[] && s.active == map[]
    ensures s.readers == map[0 := Reader(QUESTION, 0, Some(0), GotEpoch(0))]
  {
    s := Starts();
    ReachableStep(s, FetchEpoch(0, Miss));
    s := Next(s, FetchEpoch(0, Miss));
    assert s.readers == map[0 := Reader(QUESTION, 0, Some(0), GotEpoch(0))];
  }

  lemma Misses() returns (s: State)
    ensures Stage(s, Recheck)
  {
    s := FetchesEpoch();
    ReachableStep(s, Lookup(0, Miss));
    s := Next(s, Lookup(0, Miss));
    assert s.readers == map[0 := Reader(QUESTION, 0, Some(0), Missed(0))];
    ReachableStep(s, Enter(0, 0));
    s := Next(s, Enter(0, 0));
  }

  lemma Loads() returns (s: State)
    ensures Stage(s, Loading([FOUND], true))
  {
    s := Misses();
    ReachableStep(s, CheckAgain(0, Miss));
    s := Next(s, CheckAgain(0, Miss));
    assert Stage(s, Loading([], true));
    var answer := FOUND.answer;
    assert Answers(Single("a"), GetDepartment(1), answer);
    assert LoadOf([], ASKED) == Ask(GetDepartment(1));
    assert LoadOf([FOUND], ASKED) == Ask(ListChildren(1));
    assert [] + [FOUND] == [FOUND];
    ReachableStep(s, QueryInFlight(0, answer));
    s := Next(s, QueryInFlight(0, answer));
  }

  function Cached(): Tree {
    Tree(1, "a", None, 0, None, Items([]))
  }

  lemma Finishes() returns (s: State)
    ensures Stage(s, Storing(Cached(), [FOUND, CHILDLESS]))
  {
    s := Loads();
    NoChildren();
    BothAnswered();
    var step := QueryInFlight(0, CHILDLESS.answer);
    assert Enabled(s, step);
    ReachableStep(s, step);
    s := Next(s, step);
  }

  lemma NoChildren()
    ensures LoadOf([FOUND], ASKED) == Ask(ListChildren(1))
    ensures Answers(Single("a"), ListChildren(1), CHILDLESS.answer)
  {
    assert DepartmentIds([]) == [];
  }

  lemma BothAnswered()
    ensures LoadOf([FOUND] + [CHILDLESS], ASKED) == Built(Cached(), 2)
    ensures [FOUND] + [CHILDLESS] == [FOUND, CHILDLESS]
  {
  }

  lemma Stores() returns (s: State)
    ensures Reachable(s) && Quiet(s) && s.history == [Single("a")] && s.writers == map[]
    ensures Epoch(s) == ASKED.epoch && KeyOf(ASKED) in s.store
  {
    s := Finishes();
    ReachableStep(s, StoreTree(0, true, true));
    s := Next(s, StoreTree(0, true, true));
  }

  lemma RenameCommits()
    ensures Perform(Single("a"), RENAME) == (Single("b"), true)
  {
    assert TrimLeft("b") == "b" && TrimRight("b") == "b";
    assert RequiredString("b") == Ok("b");
    var db := Single("a");
    assert !NameTaken(db.departments, 1, "b", None);
    assert PatchDepartmentChecks(db, RENAME.patchDepartment) == Ok(Row("b"));
    assert db.departments[1 := Row("b")] == Single("b").departments;
  }

  lemma RenameShows()
    ensures !SameView(Single("a"), Single("b"), ASKED.id, ASKED.depth, ASKED.withEmployees)
  {
    assert "a"[0] != "b"[0];
  }

  /** Agreement needs quiet: here the cache accepts a tree that is not the database's. */
  lemma StaleEntryHappens() returns (s: State)
    ensures Reachable(s) && |s.history| == 2 && !Quiet(s) && ASKED.epoch == Epoch(s) && KeyOf(ASKED) in s.store
    ensures Accept(s.store[KeyOf(ASKED)], ASKED).Some?
    ensures !Represents(s.history[1], Accept(s.store[KeyOf(ASKED)], ASKED).value, ASKED.depth, ASKED.withEmployees)
  {
    var quiet := Stores();
    RenameCommits();
    RenameShows();
    assert Current(quiet) == Single("a");
    var step := Commit(0, RENAME, Single("b"));
    assert Enabled(quiet, step);
    ReachableStep(quiet, step);
    s := CommitsStale(quiet, ASKED, RENAME, Single("b"));
  }

  lemma CommitsStale(quiet: State, p: Params, mutation: Mutation, result: Database) returns (s: State)
    requires Reachable(quiet) && Quiet(quiet) && p.epoch == Epoch(quiet) && KeyOf(p) in quiet.store
    requires Enabled(quiet, Commit(0, mutation, result)) && Reachable(Next(quiet, Commit(0, mutation, result)))
    requires !SameView(Current(quiet), result, p.id, p.depth, p.withEmployees)
    ensures Reachable(s) && s.history == quiet.history + [result] && s.bumpedAt == quiet.bumpedAt
    ensures !Quiet(s) && p.epoch == Epoch(s) && KeyOf(p) in s.store && Accept(s.store[KeyOf(p)], p).Some?
    ensures !Represents(result, Accept(s.store[KeyOf(p)], p).value, p.depth, p.withEmployees)
  {
    StaleUntilBumped(quiet, p, 0, mutation, result);
    s := Next(quiet, Commit(0, mutation, result));
  }
}
