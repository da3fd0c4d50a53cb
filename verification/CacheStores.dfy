/** The key-value store behind the cache: any call may fail, any tree may have expired. */
module CacheStores {
  import opened Wrappers
  import opened Storage
  import opened Trees
  import opened Json
  import opened CacheKeys
  import opened Entries
  import opened Ttl

  type Contents = map<string, Blob>

  /** The number an increment finds under a key: an absent key counts from zero. */
  function CounterAt(entries: Contents, key: string): Option<int> {
    if key !in entries then Some(0)
    else if entries[key].Text? then ParseInt(entries[key].text)
    else None
  }

  predicate Incremented(before: Contents, after: Contents, key: string) {
    && CounterAt(before, key).Some? && CounterAt(before, key).value < MAX_INT64
    && after == before[key := Text(Decimal(CounterAt(before, key).value + 1))]
  }

  class CacheStore {
    var entries: Contents
    /** How many increments the clients asked for. */
    ghost var asked: nat
    /** How many calls did not do, or did not see, what a store that always works would. */
    ghost var faults: nat
    /** How many Gets returned an error. */
    ghost var errors: nat

    constructor ()
      ensures entries == map[] && asked == 0
    {
      entries, asked, faults, errors := map[], 0, 0, 0;
    }

    /** A Get may fail, see corrupted bytes, or miss an entry that expires; the counter does not expire. */
    method Get(key: string) returns (got: GetResult)
      modifies `faults, `errors
      ensures errors == old(errors) + (if got.GetFailed? then 1 else 0)
      ensures faults == old(faults) + (if got == (if key in entries then Hit(entries[key]) else Miss) then 0 else 1)
      ensures || got.GetFailed? || got == Hit(Garbage)
              || (got.Miss? && key != EPOCH_KEY)
              || got == (if key in entries then Hit(entries[key]) else Miss)
    {
      var fails: bool, corrupted: bool, expired: bool := *, *, *;
      if fails {
        got := GetFailed;
        errors := errors + 1;
      } else if key !in entries || (expired && key != EPOCH_KEY) {
        got := Miss;
      } else {
        got := Hit(if corrupted then Garbage else entries[key]);
      }
      if got != (if key in entries then Hit(entries[key]) else Miss) {
        faults := faults + 1;
      }
    }

    /** A Set may fail, and refuses a time to live that is not positive. */
    method Set(key: string, blob: Blob, ttl: Duration) returns (stored: bool)
      modifies `entries, `faults
      ensures faults == old(faults) + (if stored then 0 else 1)
      ensures entries == if stored then old(entries)[key := blob] else old(entries)
      ensures stored ==> ttl > 0
    {
      var fails: bool := *;
      if fails || ttl <= 0 {
        faults := faults + 1;
        return false;
      }
      entries := entries[key := blob];
      return true;
    }

    /** An increment may fail, and leaves what is no counter alone. */
    method Increment(key: string) returns (reached: bool)
      modifies `entries, `asked, `faults
      ensures asked == old(asked) + 1
      ensures faults == old(faults) + (if reached then 0 else 1)
      ensures if reached then Incremented(old(entries), entries, key) else entries == old(entries)
    {
      asked := asked + 1;
      var fails: bool := *;
      var n := CounterAt(entries, key);
      if fails || n.None? || n.value >= MAX_INT64 {
        faults := faults + 1;
        return false;
      }
      entries := entries[key := Text(Decimal(n.value + 1))];
      return true;
    }
  }

  // ---- the store and the tables ----

  /** The stored value is accepted for these parameters, and is the tree of these tables. */
  ghost predicate ShowsForest(db: Database, blob: Blob, p: Params) {
    && Accept(blob, p).Some?
    && Represents(db, Accept(blob, p).value, p.depth, p.withEmployees)
  }

  /** Whatever lies under the current epoch is the tree of these tables, and nothing lies under a later one. */
  ghost predicate Agrees(entries: Contents, db: Database) {
    var epoch := CounterAt(entries, EPOCH_KEY);
    epoch.Some? ==>
      forall p: Params :: KeyOf(p) in entries ==>
        p.epoch <= epoch.value && (p.epoch == epoch.value ==> ShowsForest(db, entries[KeyOf(p)], p))
  }

  lemma CounterInRange(entries: Contents, key: string)
    ensures CounterAt(entries, key).Some? ==> MIN_INT64 <= CounterAt(entries, key).value <= MAX_INT64
  {
  }

  /** An increment makes the store agree with any tables at all: no entry lies under the new epoch. */
  lemma IncrementAgrees(before: Contents, after: Contents, stale: Database, db: Database)
    requires Agrees(before, stale) && Incremented(before, after, EPOCH_KEY)
    ensures Agrees(after, db)
  {
    var n := CounterAt(before, EPOCH_KEY).value;
    CounterInRange(before, EPOCH_KEY);
    ParseDecimal(n + 1);
    forall p: Params | KeyOf(p) in after ensures p.epoch <= n {
      TreeKeyIsNotEpochKey(p.epoch, p.id, p.depth, p.withEmployees);
      assert KeyOf(p) in before;
    }
  }

  /** Storing a tree under the current epoch keeps the store in agreement if it is a tree of the tables,
      and storing any tree under an earlier one keeps it in any case. */
  lemma PutAgrees(entries: Contents, db: Database, p: Params, tree: Tree)
    requires WellFormed(db) && Agrees(entries, db)
    requires CounterAt(entries, EPOCH_KEY).Some? ==> p.epoch <= CounterAt(entries, EPOCH_KEY).value
    requires CounterAt(entries, EPOCH_KEY) == Some(p.epoch) ==>
               tree.id == p.id && Represents(db, tree, p.depth, p.withEmployees)
    ensures CounterAt(entries[KeyOf(p) := Document(EncodeTree(tree))], EPOCH_KEY) == CounterAt(entries, EPOCH_KEY)
    ensures Agrees(entries[KeyOf(p) := Document(EncodeTree(tree))], db)
  {
    var after := entries[KeyOf(p) := Document(EncodeTree(tree))];
    var epoch := CounterAt(entries, EPOCH_KEY);
    TreeKeyIsNotEpochKey(p.epoch, p.id, p.depth, p.withEmployees);
    if epoch == Some(p.epoch) {
      RepresentedIsAccepted(db, tree, p);
    }
    forall q: Params | epoch.Some? && KeyOf(q) in after
      ensures q.epoch <= epoch.value && (q.epoch == epoch.value ==> ShowsForest(db, after[KeyOf(q)], q))
    {
      if KeyOf(q) == KeyOf(p) {
        KeyOfInjective(q, p);
      }
    }
  }
}
