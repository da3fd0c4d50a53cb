/** How long a flight answers for its key, what a hit saves, and how cache errors are bypassed, over whole runs. */
module Flights {
  import opened Entries
  import opened Protocol

  // ---- a flight is forgotten when its call returns ----

  /** The flight exists and no slot of any process holds it. */
  ghost predicate Forgotten(s: State, f: nat) {
    f in s.flights && forall slot :: slot in s.active ==> s.active[slot] != f
  }

  ghost predicate WaitsFor(s: State, r: nat, f: nat) {
    r in s.readers && s.readers[r].pc.Waiting? && s.readers[r].pc.flight == f
  }

  lemma ReleaseForgets(s: State, f: nat)
    requires Inv(s) && Enabled(s, Release(f))
    ensures Forgotten(Next(s, Release(f)), f)
  {
  }

  lemma StaysForgotten(s: State, step: Step, f: nat)
    requires Enabled(s, step) && Forgotten(s, f)
    ensures Forgotten(Next(s, step), f)
  {
  }

  lemma NobodyJoinsForgotten(s: State, step: Step, f: nat, r: nat)
    requires Enabled(s, step) && Forgotten(s, f) && r in s.readers && !WaitsFor(s, r, f)
    ensures r in Next(s, step).readers && !WaitsFor(Next(s, step), r, f)
  {
  }

  lemma {:induction false} ForgottenForGood(states: seq<State>, steps: seq<Step>, i: nat, k: nat, f: nat)
    requires Run(states, steps) && i < k <= |steps| && steps[i] == Release(f)
    ensures Forgotten(states[k], f)
  {
    RunKeepsInv(states, steps, i);
    assert Moves(states[k - 1], steps[k - 1], states[k - 1 + 1]);
    if k == i + 1 {
      ReleaseForgets(states[i], f);
    } else {
      ForgottenForGood(states, steps, i, k - 1, f);
      StaysForgotten(states[k - 1], steps[k - 1], f);
    }
  }

  /** Once a flight has been released, no reader that has yet to enter will ever wait for it: what the flight
      landed with, a failure say, answers only those who joined before. */
  lemma {:induction false} ReleasedIsNotJoined(states: seq<State>, steps: seq<Step>, i: nat, j: nat, k: nat, f: nat, r: nat)
    requires Run(states, steps) && i < j <= k <= |steps| && steps[i] == Release(f)
    requires r in states[j].readers && states[j].readers[r].pc.Missed?
    ensures r in states[k].readers && !WaitsFor(states[k], r, f)
    decreases k
  {
    if k > j {
      ReleasedIsNotJoined(states, steps, i, j, k - 1, f, r);
      ForgottenForGood(states, steps, i, k - 1, f);
      StillNotJoined(states, steps, k - 1, f, r);
    }
  }

  lemma StillNotJoined(states: seq<State>, steps: seq<Step>, k: nat, f: nat, r: nat)
    requires Run(states, steps) && k < |steps| && Forgotten(states[k], f)
    requires r in states[k].readers && !WaitsFor(states[k], r, f)
    ensures r in states[k + 1].readers && !WaitsFor(states[k + 1], r, f)
  {
    assert Moves(states[k], steps[k], states[k + 1]);
    NobodyJoinsForgotten(states[k], steps[k], f, r);
  }

  /** A landed flight need not hold its key: some enabled step frees the slot. */
  lemma LandedCanBeForgotten(s: State, slot: (nat, string)) returns (step: Step)
    requires Reachable(s) && slot in s.active
    requires s.active[slot] in s.flights && s.flights[s.active[slot]].pc.Landed?
    ensures Enabled(s, step) && slot !in Next(s, step).active
    ensures Next(s, step).readers == s.readers && Next(s, step).flights == s.flights && Next(s, step).store == s.store
  {
    ReachableKeepsInv(s);
    step := Release(s.active[slot]);
  }

  /** A reader that misses while nobody holds its key leads a flight of its own, which has loaded nothing yet. */
  lemma FreeKeyIsLed(s: State, r: nat, f: nat)
    requires Reachable(s) && Enabled(s, Enter(r, f))
    requires (s.readers[r].request.process, KeyOf(ParamsOf(s.readers[r].pc.epoch, s.readers[r].request))) !in s.active
    ensures var s' := Next(s, Enter(r, f));
            && f !in s.flights && WaitsFor(s', r, f) && f in s'.flights && s'.flights[f].pc.Recheck?
            && s'.flights[f].params == ParamsOf(FloorEpoch(s.readers[r]), s.readers[r].request)
            && ActiveKey(s'.flights[f]) in s'.active && s'.active[ActiveKey(s'.flights[f])] == f
  {
    ReachableKeepsInv(s);
    assert ReaderOk(s.history, s.bumpedAt, s.flights, s.readers[r]);
  }

  // ---- what is stored is served ----

  /** A tree that a flight has stored answers the next lookup of its key at once, without a query. */
  lemma StoredTreeIsServed(s: State, f: nat, r: nat)
    requires Reachable(s) && Enabled(s, StoreTree(f, true, true))
    requires r in s.readers && s.readers[r].pc.GotEpoch?
    requires ParamsOf(s.readers[r].pc.epoch, s.readers[r].request) == s.flights[f].params
    ensures var s' := Next(s, StoreTree(f, true, true));
            var key := KeyOf(s.flights[f].params);
            && key in s'.store && Enabled(s', Lookup(r, Hit(s'.store[key])))
            && Next(s', Lookup(r, Hit(s'.store[key]))).readers[r].pc ==
                 Done(TreeReply(s.flights[f].pc.tree), s.flights[f].pc.log)
  {
    var s' := Next(s, StoreTree(f, true, true));
    ReachableStep(s, StoreTree(f, true, true));
    StoredAnswers(s', r);
  }

  /** Whatever is stored under the key of a reader's captured epoch answers its lookup. */
  lemma StoredAnswers(s: State, r: nat)
    requires Reachable(s) && r in s.readers && s.readers[r].pc.GotEpoch?
    requires KeyOf(ParamsOf(s.readers[r].pc.epoch, s.readers[r].request)) in s.store
    ensures var key := KeyOf(ParamsOf(s.readers[r].pc.epoch, s.readers[r].request));
            var step := Lookup(r, Hit(s.store[key]));
            && key in s.origin && Enabled(s, step)
            && Next(s, step).readers[r].pc == Done(TreeReply(s.origin[key].tree), s.origin[key].log)
  {
    ReachableKeepsInv(s);
    EntryUnderKey(s, ParamsOf(s.readers[r].pc.epoch, s.readers[r].request));
  }

  // ---- a cache error is bypassed ----

  ghost predicate LoadsAlone(s: State, r: nat) {
    r in s.readers && (s.readers[r].pc.Direct? || s.readers[r].pc.Done?)
  }

  lemma StaysAlone(s: State, step: Step, r: nat)
    requires Enabled(s, step) && LoadsAlone(s, r)
    ensures LoadsAlone(Next(s, step), r)
  {
  }

  /** The reader's read of the counter or of the cache fails, or its process has no cache. */
  predicate MissesTheCache(step: Step, r: nat) {
    || step == FetchEpoch(r, GetFailed) || step == Lookup(r, GetFailed)
    || (step.Start? && step.reader == r && !step.request.hasCache)
  }

  lemma ErrorSendsAlone(s: State, step: Step, r: nat)
    requires Enabled(s, step) && MissesTheCache(step, r)
    ensures LoadsAlone(Next(s, step), r)
  {
  }

  /** A reader that misses the cache loads on its own, and never waits for a flight. */
  lemma {:induction false} ErrorBypassesFlights(states: seq<State>, steps: seq<Step>, i: nat, k: nat, r: nat)
    requires Run(states, steps) && i < k <= |steps| && MissesTheCache(steps[i], r)
    ensures LoadsAlone(states[k], r)
  {
    assert Moves(states[k - 1], steps[k - 1], states[k - 1 + 1]);
    if k == i + 1 {
      ErrorSendsAlone(states[i], steps[i], r);
    } else {
      ErrorBypassesFlights(states, steps, i, k - 1, r);
      StaysAlone(states[k - 1], steps[k - 1], r);
    }
  }

  /** The flight will not store what it loads. */
  ghost predicate KeepsToItself(s: State, f: nat) {
    f in s.flights && ((s.flights[f].pc.Loading? && !s.flights[f].pc.store) || s.flights[f].pc.Landed?)
  }

  lemma StaysToItself(s: State, step: Step, f: nat)
    requires Enabled(s, step) && KeepsToItself(s, f)
    ensures KeepsToItself(Next(s, step), f) && !(step.StoreTree? && step.flight == f)
  {
  }

  lemma ErrorKeepsToItself(s: State, f: nat)
    requires Enabled(s, CheckAgain(f, GetFailed))
    ensures KeepsToItself(Next(s, CheckAgain(f, GetFailed)), f)
  {
  }

  lemma {:induction false} KeepsToItselfForGood(states: seq<State>, steps: seq<Step>, i: nat, k: nat, f: nat)
    requires Run(states, steps) && i < k <= |steps| && steps[i] == CheckAgain(f, GetFailed)
    ensures KeepsToItself(states[k], f)
  {
    assert Moves(states[k - 1], steps[k - 1], states[k - 1 + 1]);
    if k == i + 1 {
      ErrorKeepsToItself(states[i], f);
    } else {
      KeepsToItselfForGood(states, steps, i, k - 1, f);
      StaysToItself(states[k - 1], steps[k - 1], f);
    }
  }

  /** A flight whose second look at the cache fails answers its readers and stores nothing. */
  lemma ErrorStoresNothing(states: seq<State>, steps: seq<Step>, i: nat, k: nat, f: nat)
    requires Run(states, steps) && i < k < |steps| && steps[i] == CheckAgain(f, GetFailed)
    ensures !(steps[k].StoreTree? && steps[k].flight == f)
  {
    KeepsToItselfForGood(states, steps, i, k, f);
    assert Moves(states[k], steps[k], states[k + 1]);
    StaysToItself(states[k], steps[k], f);
  }
}
