/** Departments with optional parent pointers: ancestor chains, and what a pointer rewrite does to them. */
module Forest {
  import opened Wrappers

  /** A Go `uint` on a 64-bit platform. */
  type Id = x: int | 0 <= x < 0x1_0000_0000_0000_0000

  /** An opaque instant. */
  type Timestamp = int

  datatype Department = Department(name: string, parent: Option<Id>, createdAt: Timestamp)

  type Departments = map<Id, Department>

  function ParentOf(ds: Departments, id: Id): Option<Id> {
    if id in ds then ds[id].parent else None
  }

  /** The department `n` parent pointers above `id`. */
  function Up(ds: Departments, id: Id, n: nat): Option<Id> {
    if n == 0 then Some(id)
    else match Up(ds, id, n - 1)
      case None => None
      case Some(below) => ParentOf(ds, below)
  }

  /** `ancestor` lies on the reflexive parent chain of `id`. */
  ghost predicate Reaches(ds: Departments, id: Id, ancestor: Id) {
    exists n: nat :: Up(ds, id, n) == Some(ancestor)
  }

  /** The same for a parent pointer: nothing lies above nil. */
  ghost predicate Above(ds: Departments, parent: Option<Id>, ancestor: Id) {
    parent.Some? && Reaches(ds, parent.value, ancestor)
  }

  ghost predicate Acyclic(ds: Departments) {
    forall id: Id, n: nat :: n > 0 ==> Up(ds, id, n) != Some(id)
  }

  /** The departments that have `ancestor` on their reflexive parent chain. */
  ghost function Subtree(ds: Departments, ancestor: Id): set<Id> {
    set id | id in ds && Reaches(ds, id, ancestor)
  }

  function ChildrenOf(ds: Departments, parents: set<Id>): set<Id> {
    set id | id in ds && ds[id].parent.Some? && ds[id].parent.value in parents
  }

  /** Point every department of `moved` at `parent`; everything else stays. */
  function Reparent(ds: Departments, moved: set<Id>, parent: Option<Id>): Departments {
    map id | id in ds :: if id in moved then ds[id].(parent := parent) else ds[id]
  }

  // ---- chains ----

  lemma {:induction false} UpAdd(ds: Departments, id: Id, m: nat, mid: Id, n: nat)
    requires Up(ds, id, m) == Some(mid)
    ensures Up(ds, id, m + n) == Up(ds, mid, n)
  {
    if n > 0 {
      UpAdd(ds, id, m, mid, n - 1);
      assert m + n - 1 == m + (n - 1);
    }
  }

  lemma {:induction false} UpShorter(ds: Departments, id: Id, m: nat, n: nat)
    requires m <= n && Up(ds, id, n).Some?
    ensures Up(ds, id, m).Some?
  {
    if m < n {
      UpShorter(ds, id, m, n - 1);
    }
  }

  lemma EmptyIsAcyclic()
    ensures Acyclic(map[])
  {
  }

  lemma ReachesSelf(ds: Departments, id: Id)
    ensures Reaches(ds, id, id)
  {
    assert Up(ds, id, 0) == Some(id);
  }

  lemma ReachesTransitive(ds: Departments, a: Id, b: Id, c: Id)
    requires Reaches(ds, a, b) && Reaches(ds, b, c)
    ensures Reaches(ds, a, c)
  {
    var m: nat :| Up(ds, a, m) == Some(b);
    var n: nat :| Up(ds, b, n) == Some(c);
    UpAdd(ds, a, m, b, n);
  }

  lemma ReachesParent(ds: Departments, id: Id)
    requires ParentOf(ds, id).Some?
    ensures Reaches(ds, id, ParentOf(ds, id).value)
  {
    assert Up(ds, id, 0) == Some(id);
    assert Up(ds, id, 1) == ParentOf(ds, id);
  }

  /** A chain either stays at its start or goes through its parent. */
  lemma ReachesStep(ds: Departments, id: Id, ancestor: Id)
    ensures Reaches(ds, id, ancestor) <==> id == ancestor || Above(ds, ParentOf(ds, id), ancestor)
  {
    assert Up(ds, id, 0) == Some(id);
    assert Up(ds, id, 1) == ParentOf(ds, id);
    if Reaches(ds, id, ancestor) && id != ancestor {
      var n: nat :| Up(ds, id, n) == Some(ancestor);
      UpShorter(ds, id, 1, n);
      UpAdd(ds, id, 1, ParentOf(ds, id).value, n - 1);
    }
    if Above(ds, ParentOf(ds, id), ancestor) {
      ReachesParent(ds, id);
      ReachesTransitive(ds, id, ParentOf(ds, id).value, ancestor);
    }
  }

  /** An acyclic chain never comes back to where it was. */
  lemma NoReturn(ds: Departments, id: Id, m: nat, n: nat)
    requires Acyclic(ds) && m < n && Up(ds, id, m).Some?
    ensures Up(ds, id, m) != Up(ds, id, n)
  {
    UpAdd(ds, id, m, Up(ds, id, m).value, n - m);
  }

  /** In an acyclic forest an ancestor occurs at one distance only. */
  lemma DistanceUnique(ds: Departments, id: Id, m: nat, n: nat)
    requires Acyclic(ds)
    requires Up(ds, id, m).Some? && Up(ds, id, m) == Up(ds, id, n)
    ensures m == n
  {
    if m < n {
      NoReturn(ds, id, m, n);
    } else if n < m {
      NoReturn(ds, id, n, m);
    }
  }

  /** Chains depend on the parent pointers alone. */
  lemma {:induction false} UpFrame(ds: Departments, ds': Departments, id: Id, n: nat)
    requires forall x: Id :: ParentOf(ds, x) == ParentOf(ds', x)
    ensures Up(ds, id, n) == Up(ds', id, n)
  {
    if n > 0 {
      UpFrame(ds, ds', id, n - 1);
    }
  }

  lemma ReachesFrame(ds: Departments, ds': Departments)
    requires forall x: Id :: ParentOf(ds, x) == ParentOf(ds', x)
    ensures forall id: Id, ancestor: Id :: Reaches(ds, id, ancestor) <==> Reaches(ds', id, ancestor)
    ensures Acyclic(ds) <==> Acyclic(ds')
  {
    forall id: Id, n: nat ensures Up(ds, id, n) == Up(ds', id, n) {
      UpFrame(ds, ds', id, n);
    }
  }

  // ---- re-parenting ----

  ghost predicate Hits(at: Option<Id>, moved: set<Id>) {
    at.Some? && at.value in moved
  }

  /** The chain is unchanged up to the first moved department on it. */
  lemma {:induction false} UpBeforeHit(ds: Departments, moved: set<Id>, parent: Option<Id>, id: Id, n: nat)
    requires forall i: nat :: i < n ==> !Hits(Up(ds, id, i), moved)
    ensures Up(Reparent(ds, moved, parent), id, n) == Up(ds, id, n)
  {
    if n > 0 {
      UpBeforeHit(ds, moved, parent, id, n - 1);
      assert !Hits(Up(ds, id, n - 1), moved);
    }
  }

  /** The first moved department on a chain that meets one. */
  lemma {:induction false} FirstHit(ds: Departments, moved: set<Id>, id: Id, n: nat) returns (k: nat)
    requires Hits(Up(ds, id, n), moved)
    ensures k <= n && Hits(Up(ds, id, k), moved)
    ensures forall i: nat :: i < k ==> !Hits(Up(ds, id, i), moved)
  {
    if i: nat :| i < n && Hits(Up(ds, id, i), moved) {
      k := FirstHit(ds, moved, id, i);
    } else {
      k := n;
    }
  }

  /** A chain that meets no moved department keeps all its ancestors. */
  lemma ReparentFar(ds: Departments, moved: set<Id>, parent: Option<Id>, id: Id, ancestor: Id)
    requires forall s :: s in moved ==> !Reaches(ds, id, s)
    ensures Reaches(Reparent(ds, moved, parent), id, ancestor) <==> Reaches(ds, id, ancestor)
  {
    forall n: nat ensures Up(Reparent(ds, moved, parent), id, n) == Up(ds, id, n) {
      forall i: nat | i < n ensures !Hits(Up(ds, id, i), moved) {
        if Hits(Up(ds, id, i), moved) {
          assert Reaches(ds, id, Up(ds, id, i).value);
        }
      }
      UpBeforeHit(ds, moved, parent, id, n);
    }
  }

  /** Below a moved department `s` a chain runs up to `s`, then continues with the chain of the new parent. */
  lemma ReparentNear(ds: Departments, moved: set<Id>, parent: Option<Id>, s: Id, id: Id, ancestor: Id)
    requires Acyclic(ds) && moved <= ds.Keys
    requires forall t :: t in moved ==> !Above(ds, parent, t)
    requires s in moved && Reaches(ds, id, s)
    requires forall t :: t in moved && Reaches(ds, id, t) ==> t == s
    ensures Reaches(Reparent(ds, moved, parent), id, ancestor) <==>
            (Reaches(ds, id, ancestor) && Reaches(ds, ancestor, s)) || Above(ds, parent, ancestor)
  {
    var ds' := Reparent(ds, moved, parent);
    var n: nat :| Up(ds, id, n) == Some(s);
    var k := FirstHit(ds, moved, id, n);
    var top := Up(ds, id, k).value;
    assert Reaches(ds, id, top);
    assert top == s;
    forall i: nat | i <= k ensures Up(ds', id, i) == Up(ds, id, i) {
      UpBeforeHit(ds, moved, parent, id, i);
    }
    assert ParentOf(ds', s) == parent;
    if parent.Some? {
      forall t | t in moved ensures !Reaches(ds, parent.value, t) {
        assert !Above(ds, parent, t);
      }
      ReparentFar(ds, moved, parent, parent.value, ancestor);
    }
    ReachesStep(ds', s, ancestor);
    assert Above(ds', parent, ancestor) <==> Above(ds, parent, ancestor);
    assert Up(ds', id, k) == Some(s);
    if Reaches(ds', id, ancestor) {
      var j: nat :| Up(ds', id, j) == Some(ancestor);
      if j <= k {
        UpShorter(ds, id, j, k);
        UpAdd(ds, id, j, ancestor, k - j);
        assert Reaches(ds, id, ancestor) && Reaches(ds, ancestor, s);
      } else {
        UpAdd(ds', id, k, s, j - k);
        assert Up(ds', s, j - k) == Some(ancestor);
        UpAdd(ds', s, 1, UpOne(ds', s, j - k), j - k - 1);
        assert Above(ds', parent, ancestor);
      }
    }
    if Reaches(ds, id, ancestor) && Reaches(ds, ancestor, s) {
      var i: nat :| Up(ds, id, i) == Some(ancestor);
      var j: nat :| Up(ds, ancestor, j) == Some(s);
      UpAdd(ds, id, i, ancestor, j);
      DistanceUnique(ds, id, i + j, k);
      assert Up(ds', id, i) == Some(ancestor);
    }
    if Above(ds, parent, ancestor) {
      ReachesTransitive(ds', id, s, ancestor);
    }
  }

  /** The first step of a chain that is at least one step long. */
  lemma UpOneIsParent(ds: Departments, id: Id, n: nat)
    requires n > 0 && Up(ds, id, n).Some?
    ensures Up(ds, id, 1).Some? && Up(ds, id, 1) == ParentOf(ds, id)
  {
  }

  ghost function UpOne(ds: Departments, id: Id, n: nat): (above: Id)
    requires n > 0 && Up(ds, id, n).Some?
    ensures Up(ds, id, 1) == Some(above) && ParentOf(ds, id) == Some(above)
  {
    UpOneIsParent(ds, id, n);
    ParentOf(ds, id).value
  }

  /** Re-parenting creates a cycle exactly when a moved department lies above the new parent. */
  lemma ReparentAcyclic(ds: Departments, moved: set<Id>, parent: Option<Id>)
    requires Acyclic(ds) && moved <= ds.Keys
    ensures Acyclic(Reparent(ds, moved, parent)) <==> forall s :: s in moved ==> !Above(ds, parent, s)
  {
    var ds' := Reparent(ds, moved, parent);
    if s :| s in moved && Above(ds, parent, s) {
      var n: nat :| Up(ds, parent.value, n) == Some(s);
      var k := FirstHit(ds, moved, parent.value, n);
      var t := Up(ds, parent.value, k).value;
      UpBeforeHit(ds, moved, parent, parent.value, k);
      assert Up(ds', t, 0) == Some(t);
      assert Up(ds', t, 1) == parent;
      UpAdd(ds', t, 1, parent.value, k);
      assert Up(ds', t, 1 + k) == Some(t);
    } else {
      forall id: Id, n: nat | n > 0 ensures Up(ds', id, n) != Some(id) {
        if Up(ds', id, n) == Some(id) {
          LoopMeetsMoved(ds, moved, parent, id, n);
        }
      }
    }
  }

  /** A loop after re-parenting runs through the new parent and a moved department above it. */
  lemma LoopMeetsMoved(ds: Departments, moved: set<Id>, parent: Option<Id>, id: Id, n: nat)
    requires Acyclic(ds) && moved <= ds.Keys
    requires n > 0 && Up(Reparent(ds, moved, parent), id, n) == Some(id)
    ensures exists s :: s in moved && Above(ds, parent, s)
  {
    var ds' := Reparent(ds, moved, parent);
    if i: nat :| i < n && Hits(Up(ds, id, i), moved) {
      var k := FirstHit(ds, moved, id, i);
      var s := Up(ds, id, k).value;
      UpBeforeHit(ds, moved, parent, id, k);
      // rotate the loop so that it starts at s: s, parent, ..., s
      UpAdd(ds', id, k, s, n - k);
      UpAdd(ds', s, n - k, id, k);
      var p := UpOne(ds', s, n);
      UpAdd(ds', s, 1, p, n - 1);
      assert parent == Some(p) && Reaches(ds', p, s);
      if t :| t in moved && Reaches(ds, p, t) {
        assert Above(ds, parent, t);
      } else {
        ReparentFar(ds, moved, parent, p, s);
      }
    } else {
      UpBeforeHit(ds, moved, parent, id, n);
    }
  }

  // ---- removal ----

  /** Removing a set that is closed under children leaves the other chains alone. */
  lemma {:induction false} UpAfterRemoval(ds: Departments, gone: set<Id>, id: Id, n: nat)
    requires ChildrenOf(ds, gone) <= gone
    requires id !in gone
    ensures Up(ds - gone, id, n) == Up(ds, id, n)
    ensures !Hits(Up(ds, id, n), gone)
  {
    if n > 0 {
      UpAfterRemoval(ds, gone, id, n - 1);
      var below := Up(ds, id, n - 1);
      if below.Some? {
        assert below.value !in ChildrenOf(ds, gone);
      }
    }
  }

  lemma RemovalKeepsChains(ds: Departments, gone: set<Id>)
    requires ChildrenOf(ds, gone) <= gone
    ensures forall id: Id, ancestor: Id :: id !in gone ==>
              (Reaches(ds - gone, id, ancestor) <==> Reaches(ds, id, ancestor))
    ensures Acyclic(ds) ==> Acyclic(ds - gone)
  {
    forall id: Id, n: nat | id !in gone ensures Up(ds - gone, id, n) == Up(ds, id, n) {
      UpAfterRemoval(ds, gone, id, n);
    }
    forall id: Id, n: nat | Acyclic(ds) && n > 0 && Up(ds - gone, id, n) == Some(id)
      ensures false
    {
      var _ := UpOne(ds - gone, id, n);
    }
  }

  /** The foreign-key rule iterated to its fixpoint: delete the children of what is deleted. */
  function Cascade(ds: Departments, doomed: set<Id>): (all: set<Id>)
    requires doomed <= ds.Keys
    ensures doomed <= all <= ds.Keys
    ensures ChildrenOf(ds, all) <= all
    decreases ds.Keys - doomed
  {
    var next := doomed + ChildrenOf(ds, doomed);
    if next == doomed then
      doomed
    else
      assert ds.Keys - next < ds.Keys - doomed;
      Cascade(ds, next)
  }

  /** The departments with a member of `tops` on their reflexive parent chain. */
  ghost function Below(ds: Departments, tops: set<Id>): set<Id> {
    set id | id in ds && exists a :: a in tops && Reaches(ds, id, a)
  }

  lemma ClosedIsBelow(ds: Departments, tops: set<Id>)
    requires tops <= ds.Keys && ChildrenOf(ds, tops) <= tops
    ensures Below(ds, tops) == tops
  {
    forall id | id in tops ensures id in Below(ds, tops) {
      ReachesSelf(ds, id);
    }
    forall id | id in Below(ds, tops) ensures id in tops {
      var a :| a in tops && Reaches(ds, id, a);
      var n: nat :| Up(ds, id, n) == Some(a);
      if id !in tops {
        UpAfterRemoval(ds, tops, id, n);
      }
    }
  }

  lemma BelowChildren(ds: Departments, tops: set<Id>)
    requires tops <= ds.Keys
    ensures Below(ds, tops + ChildrenOf(ds, tops)) == Below(ds, tops)
  {
    var next := tops + ChildrenOf(ds, tops);
    forall id | id in Below(ds, next) ensures id in Below(ds, tops) {
      var a :| a in next && Reaches(ds, id, a);
      if a !in tops {
        ReachesParent(ds, a);
        ReachesTransitive(ds, id, a, ds[a].parent.value);
      }
    }
  }

  /** The fixpoint is reachability. */
  lemma {:induction false} CascadeIsReachability(ds: Departments, doomed: set<Id>)
    requires doomed <= ds.Keys
    ensures Cascade(ds, doomed) == Below(ds, doomed)
    decreases ds.Keys - doomed
  {
    var next := doomed + ChildrenOf(ds, doomed);
    if next == doomed {
      ClosedIsBelow(ds, doomed);
    } else {
      assert ds.Keys - next < ds.Keys - doomed;
      CascadeIsReachability(ds, next);
      BelowChildren(ds, doomed);
    }
  }

  lemma CascadeIsSubtree(ds: Departments, id: Id)
    requires id in ds
    ensures Cascade(ds, {id}) == Subtree(ds, id)
  {
    CascadeIsReachability(ds, {id});
    assert forall x :: x in Below(ds, {id}) <==> x in Subtree(ds, id);
  }
}
