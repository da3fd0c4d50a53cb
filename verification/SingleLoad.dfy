/** One process loads each tree of an epoch from the database at most once, as long as its own cache
    operations work; what other processes do, and what happens to their operations, does not matter. */
module SingleLoad {
  import opened Wrappers
  import opened Storage
  import opened CacheKeys
  import opened Entries
  import opened Protocol

  function StoredAt(s: State, key: string): GetResult {
    if key in s.store then Hit(s.store[key]) else Miss
  }

  /** If the step is one of this process, its cache operations see and change the store as it is:
      no failure, no expiry, no lost Set, no oversized tree. */
  ghost predicate Steady(s: State, process: nat, step: Step) {
    match step
    case Start(_, request) => request.process == process ==> request.hasCache
    case FetchEpoch(r, got) =>
      r in s.readers && s.readers[r].request.process == process ==> got == StoredAt(s, EPOCH_KEY)
    case Lookup(r, got) =>
      r in s.readers && s.readers[r].request.process == process && s.readers[r].pc.GotEpoch? ==>
        got == StoredAt(s, KeyOf(ParamsOf(s.readers[r].pc.epoch, s.readers[r].request)))
    case CheckAgain(f, got) =>
      f in s.flights && s.flights[f].process == process ==> got == StoredAt(s, KeyOf(s.flights[f].params))
    case StoreTree(f, fits, applied) => f in s.flights && s.flights[f].process == process ==> fits && applied
    case _ => true
  }

  /** The flight's own repository load has succeeded. */
  predicate HasLoaded(flight: Flight) {
    flight.pc.Storing? || (flight.pc.Landed? && flight.pc.loaded)
  }

  predicate Busy(flight: Flight) {
    flight.pc.Loading? || HasLoaded(flight)
  }

  ghost predicate Serial(s: State, process: nat, f: nat)
    requires f in s.flights
  {
    var flight := s.flights[f];
    && (!flight.pc.Landed? ==> ActiveKey(flight) in s.active && s.active[ActiveKey(flight)] == f)
    && (flight.pc.Loading? ==> flight.pc.store)
    && (flight.pc.Landed? && flight.pc.loaded ==> KeyOf(flight.params) in s.store)
  }

  /** While one flight is busy with a key, no other flight of that key has loaded. */
  ghost predicate Exclusive(a: Flight, b: Flight) {
    ActiveKey(a) == ActiveKey(b) ==> !(Busy(a) && HasLoaded(b))
  }

  ghost predicate ReaderUsesCache(reader: Reader) {
    !reader.pc.Direct?
  }

  ghost predicate OnceInv(s: State, process: nat) {
    && (forall r :: r in s.readers && s.readers[r].request.process == process ==> ReaderUsesCache(s.readers[r]))
    && (forall f :: f in s.flights && s.flights[f].process == process ==> Serial(s, process, f))
    && (forall f, g :: f in s.flights && g in s.flights && f != g && s.flights[f].process == process ==>
          Exclusive(s.flights[f], s.flights[g]))
  }

  /** The exact counter is always readable. */
  lemma SteadyEpochWorks(s: State)
    requires Inv(s)
    ensures ReadEpoch(StoredAt(s, EPOCH_KEY)) == Some(Epoch(s))
  {
    ParseDecimal(Epoch(s));
  }

  /** The exact entry is always accepted. */
  lemma SteadyReadsWork(s: State, p: Params)
    requires Inv(s)
    ensures KeyOf(p) in s.store ==> ReadCached(StoredAt(s, KeyOf(p)), p).Cached?
    ensures KeyOf(p) !in s.store ==> ReadCached(StoredAt(s, KeyOf(p)), p).NotCached?
  {
    if KeyOf(p) in s.store {
      EntryUnderKey(s, p);
    }
  }

  lemma ReaderStepKeepsOnce(s: State, process: nat, r: nat, reader: Reader)
    requires OnceInv(s, process) && r in s.readers && reader.request == s.readers[r].request
    requires reader.request.process == process ==> !reader.pc.Direct?
    ensures OnceInv(s.(readers := s.readers[r := reader]), process)
  {
  }

  /** A flight of this process that is not yet landed is the only such flight of its key. */
  lemma OnlyOneUnderway(s: State, process: nat, f: nat, g: nat)
    requires OnceInv(s, process) && f in s.flights && g in s.flights
    requires s.flights[f].process == process && ActiveKey(s.flights[f]) == ActiveKey(s.flights[g])
    requires !s.flights[f].pc.Landed? && !s.flights[g].pc.Landed?
    ensures f == g
  {
    assert Serial(s, process, f) && Serial(s, process, g);
  }

  /** Moving one flight on: what the move must respect. */
  lemma FlightStepKeepsOnce(s: State, process: nat, f: nat, pc: FlightPc)
    requires OnceInv(s, process) && f in s.flights
    requires s.flights[f].process == process ==>
               && (!pc.Landed? ==> !s.flights[f].pc.Landed?)
               && (pc.Loading? ==> pc.store)
               && (pc.Landed? && pc.loaded ==> KeyOf(s.flights[f].params) in s.store)
               && forall g :: g in s.flights && g != f && ActiveKey(s.flights[g]) == ActiveKey(s.flights[f]) ==>
                    && (Busy(s.flights[f].(pc := pc)) ==> !HasLoaded(s.flights[g]))
                    && (HasLoaded(s.flights[f].(pc := pc)) ==> !Busy(s.flights[g]))
    ensures OnceInv(SetFlight(s, f, pc), process)
  {
  }

  /** As long as a key is not stored, no other flight can have loaded it while this one is underway. */
  lemma NoneLoadedYet(s: State, process: nat, f: nat, g: nat)
    requires OnceInv(s, process) && f in s.flights && g in s.flights && f != g
    requires s.flights[f].process == process && ActiveKey(s.flights[f]) == ActiveKey(s.flights[g])
    requires !s.flights[f].pc.Landed? && KeyOf(s.flights[f].params) !in s.store
    ensures !HasLoaded(s.flights[g])
  {
  }

  /** An exact second look lands the flight if its tree is stored, and else sends it loading for the store. */
  lemma SteadyCheckAgain(s: State, p: Params)
    requires Inv(s)
    ensures var pc := AfterCheckAgain(s, p, StoredAt(s, KeyOf(p)));
            if KeyOf(p) in s.store then pc.Landed? && !pc.loaded else pc == Loading([], true)
  {
    SteadyReadsWork(s, p);
  }

  lemma CheckAgainKeepsOnce(s: State, process: nat, f: nat, got: GetResult)
    requires Inv(s) && OnceInv(s, process)
    requires f in s.flights && s.flights[f].pc.Recheck?
    requires s.flights[f].process == process ==> got == StoredAt(s, KeyOf(s.flights[f].params))
    ensures OnceInv(SetFlight(s, f, AfterCheckAgain(s, s.flights[f].params, got)), process)
  {
    SteadyCheckAgain(s, s.flights[f].params);
    RecheckKeepsOnce(s, process, f, AfterCheckAgain(s, s.flights[f].params, got));
  }

  lemma RecheckKeepsOnce(s: State, process: nat, f: nat, pc: FlightPc)
    requires OnceInv(s, process) && f in s.flights && s.flights[f].pc.Recheck?
    requires s.flights[f].process == process ==>
               if KeyOf(s.flights[f].params) in s.store then pc.Landed? && !pc.loaded else pc.Loading? && pc.store
    ensures OnceInv(SetFlight(s, f, pc), process)
  {
    var flight := s.flights[f];
    forall g | g in s.flights && g != f && ActiveKey(s.flights[g]) == ActiveKey(flight) && flight.process == process
      ensures KeyOf(flight.params) !in s.store ==> !HasLoaded(s.flights[g])
    {
      if KeyOf(flight.params) !in s.store {
        NoneLoadedYet(s, process, f, g);
      }
    }
    FlightStepKeepsOnce(s, process, f, pc);
  }

  lemma QueryInFlightKeepsOnce(s: State, process: nat, f: nat, pc: FlightPc)
    requires OnceInv(s, process) && f in s.flights && s.flights[f].pc.Loading?
    requires pc.Loading? || pc.Storing? || (pc.Landed? && (pc.loaded ==> !s.flights[f].pc.store))
    requires pc.Loading? ==> pc.store == s.flights[f].pc.store
    ensures OnceInv(SetFlight(s, f, pc), process)
  {
    var flight := s.flights[f];
    forall g | g in s.flights && g != f && ActiveKey(s.flights[g]) == ActiveKey(flight) && flight.process == process
      ensures !HasLoaded(s.flights[g]) && !Busy(s.flights[g])
    {
      assert Exclusive(flight, s.flights[g]);
      if !s.flights[g].pc.Landed? {
        OnlyOneUnderway(s, process, f, g);
      }
    }
    if flight.process == process {
      assert Serial(s, process, f);
    }
    FlightStepKeepsOnce(s, process, f, pc);
  }

  lemma StoreTreeKeepsOnce(s: State, process: nat, f: nat, fits: bool, applied: bool)
    requires OnceInv(s, process)
    requires f in s.flights && s.flights[f].pc.Storing?
    requires s.flights[f].process == process ==> fits && applied
    ensures OnceInv(AfterStore(s, f, fits, applied), process)
  {
  }

  lemma EnterKeepsOnce(s: State, process: nat, r: nat, f: nat)
    requires Inv(s) && OnceInv(s, process)
    requires r in s.readers && s.readers[r].pc.Missed? && f !in s.flights
    ensures OnceInv(AfterEnter(s, r, f), process)
  {
    var reader := s.readers[r];
    var p := ParamsOf(reader.pc.epoch, reader.request);
    var slot := (reader.request.process, KeyOf(p));
    if slot in s.active {
      ReaderStepKeepsOnce(s, process, r, s.readers[r].(pc := Waiting(p.epoch, s.active[slot])));
    } else {
      var flight := Flight(reader.request.process, p, Recheck);
      NewFlightKeepsOnce(s, process, f, flight);
      ReaderStepKeepsOnce(s.(flights := s.flights[f := flight], active := s.active[slot := f]), process, r,
                          s.readers[r].(pc := Waiting(p.epoch, f)));
    }
  }

  lemma NewFlightKeepsOnce(s: State, process: nat, f: nat, flight: Flight)
    requires OnceInv(s, process) && f !in s.flights && flight.pc.Recheck? && ActiveKey(flight) !in s.active
    ensures OnceInv(s.(flights := s.flights[f := flight], active := s.active[ActiveKey(flight) := f]), process)
  {
    var s' := s.(flights := s.flights[f := flight], active := s.active[ActiveKey(flight) := f]);
    forall g | g in s'.flights && s'.flights[g].process == process ensures Serial(s', process, g) {
      if g != f {
        assert Serial(s, process, g);
      }
    }
  }

  lemma ReleaseKeepsOnce(s: State, process: nat, f: nat)
    requires OnceInv(s, process) && f in s.flights && s.flights[f].pc.Landed?
    requires ActiveKey(s.flights[f]) in s.active && s.active[ActiveKey(s.flights[f])] == f
    ensures OnceInv(s.(active := s.active - {ActiveKey(s.flights[f])}), process)
  {
  }

  lemma WriterStepKeepsOnce(s: State, process: nat, history: seq<Database>, bumpedAt: seq<nat>,
                            store: map<string, Blob>, writers: map<nat, Writer>)
    requires OnceInv(s, process) && s.store.Keys <= store.Keys
    ensures OnceInv(s.(history := history, bumpedAt := bumpedAt, store := store, writers := writers), process)
  {
  }

  lemma ReadersKeepOnce(s: State, process: nat, step: Step)
    requires Inv(s) && OnceInv(s, process) && Enabled(s, step) && Steady(s, process, step)
    requires step.Start? || step.FetchEpoch? || step.Lookup? || step.Deliver? || step.QueryDirectly?
    ensures OnceInv(Next(s, step), process)
  {
    match step
    case Start(r, request) =>
      var s' := Next(s, step);
      forall f | f in s'.flights && s'.flights[f].process == process ensures Serial(s', process, f) {
        assert Serial(s, process, f);
      }
    case FetchEpoch(r, got) =>
      SteadyEpochWorks(s);
      ReaderStepKeepsOnce(s, process, r, AfterFetchEpoch(s.readers[r], got));
    case Lookup(r, got) =>
      var p := ParamsOf(s.readers[r].pc.epoch, s.readers[r].request);
      SteadyReadsWork(s, p);
      ReaderStepKeepsOnce(s, process, r, s.readers[r].(pc := AfterLookup(s, p, got)));
    case Deliver(r) =>
      var landed := s.flights[s.readers[r].pc.flight].pc;
      ReaderStepKeepsOnce(s, process, r, s.readers[r].(pc := Done(landed.reply, landed.evidence)));
    case QueryDirectly(r, answer) =>
      assert s.readers[r].request.process == process ==> ReaderUsesCache(s.readers[r]);
      var log := s.readers[r].pc.log;
      var asked := LoadOf(log, ParamsOf(0, s.readers[r].request)).query;
      var pc := DirectPc(log + [CurrentRead(s, asked, answer)], s.readers[r].request);
      ReaderStepKeepsOnce(s, process, r, s.readers[r].(pc := pc));
  }

  lemma FlightsKeepOnce(s: State, process: nat, step: Step)
    requires Inv(s) && OnceInv(s, process) && Enabled(s, step) && Steady(s, process, step)
    requires step.CheckAgain? || step.QueryInFlight? || step.StoreTree? || step.Release?
    ensures OnceInv(Next(s, step), process)
  {
    match step
    case CheckAgain(f, got) => CheckAgainKeepsOnce(s, process, f, got);
    case QueryInFlight(f, answer) =>
      var flight := s.flights[f];
      var asked := LoadOf(flight.pc.log, flight.params).query;
      QueryInFlightKeepsOnce(s, process, f,
        FlightPcAfter(flight.pc.log + [CurrentRead(s, asked, answer)], flight.pc.store, flight.params));
    case StoreTree(f, fits, applied) => StoreTreeKeepsOnce(s, process, f, fits, applied);
    case Release(f) => ReleaseKeepsOnce(s, process, f);
  }

  lemma StepKeepsOnce(s: State, process: nat, step: Step)
    requires Inv(s) && OnceInv(s, process) && Enabled(s, step) && Steady(s, process, step)
    ensures OnceInv(Next(s, step), process)
  {
    match step
    case Enter(r, f) => EnterKeepsOnce(s, process, r, f);
    case Commit(w, _, result) =>
      WriterStepKeepsOnce(s, process, s.history + [result], s.bumpedAt, s.store,
                          s.writers[w := Committed(|s.history|)]);
    case Bump(w, applied) =>
      var s' := AfterBump(s, w, applied);
      WriterStepKeepsOnce(s, process, s.history, s'.bumpedAt, s'.store, s'.writers);
    case CheckAgain(_, _) => FlightsKeepOnce(s, process, step);
    case QueryInFlight(_, _) => FlightsKeepOnce(s, process, step);
    case StoreTree(_, _, _) => FlightsKeepOnce(s, process, step);
    case Release(_) => FlightsKeepOnce(s, process, step);
    case Start(_, _) => ReadersKeepOnce(s, process, step);
    case FetchEpoch(_, _) => ReadersKeepOnce(s, process, step);
    case Lookup(_, _) => ReadersKeepOnce(s, process, step);
    case Deliver(_) => ReadersKeepOnce(s, process, step);
    case QueryDirectly(_, _) => ReadersKeepOnce(s, process, step);
  }

  lemma {:induction false} RunKeepsOnce(states: seq<State>, steps: seq<Step>, process: nat, i: nat)
    requires Run(states, steps) && i <= |steps|
    requires forall j :: 0 <= j < |steps| ==> Steady(states[j], process, steps[j])
    ensures OnceInv(states[i], process)
  {
    if i > 0 {
      RunKeepsOnce(states, steps, process, i - 1);
      RunKeepsInv(states, steps, i - 1);
      assert Moves(states[i - 1], steps[i - 1], states[i - 1 + 1]);
      StepKeepsOnce(states[i - 1], process, steps[i - 1]);
    }
  }

  lemma LoadedOnce(s: State, process: nat, f: nat, g: nat)
    requires OnceInv(s, process) && f in s.flights && g in s.flights && s.flights[f].process == process
    requires ActiveKey(s.flights[f]) == ActiveKey(s.flights[g])
    ensures f == g || !HasLoaded(s.flights[f]) || !HasLoaded(s.flights[g])
  {
  }

  /** Over a whole run in which the process's own cache operations work, any two of its flights for the same
      epoch, department, depth and employee flag that both loaded from the database are one flight. */
  lemma OneLoadPerKey(states: seq<State>, steps: seq<Step>, process: nat, i: nat, f: nat, g: nat)
    requires Run(states, steps) && i <= |steps|
    requires forall j :: 0 <= j < |steps| ==> Steady(states[j], process, steps[j])
    requires f in states[i].flights && g in states[i].flights
    requires states[i].flights[f].process == process && states[i].flights[g].process == process
    requires states[i].flights[f].params == states[i].flights[g].params
    ensures HasLoaded(states[i].flights[f]) && HasLoaded(states[i].flights[g]) ==> f == g
  {
    RunKeepsOnce(states, steps, process, i);
    LoadedOnce(states[i], process, f, g);
  }

  /** In such a run no reader of the process ever loads on its own: every load is a flight's. */
  lemma LoadsOnlyInFlights(states: seq<State>, steps: seq<Step>, process: nat, i: nat, r: nat)
    requires Run(states, steps) && i <= |steps|
    requires forall j :: 0 <= j < |steps| ==> Steady(states[j], process, steps[j])
    requires r in states[i].readers && states[i].readers[r].request.process == process
    ensures !states[i].readers[r].pc.Direct?
  {
    RunKeepsOnce(states, steps, process, i);
    assert ReaderUsesCache(states[i].readers[r]);
  }
}
