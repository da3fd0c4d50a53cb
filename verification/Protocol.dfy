/** The epoch-versioned cache-aside protocol as a transition system: any number of processes, readers and writers,
    an append-only history of database versions, one shared store, one flight group per process. */
module Protocol {
  import opened Wrappers
  import opened Forest
  import opened Storage
  import opened Mutations
  import opened Trees
  import opened Loading
  import opened Json
  import opened CacheKeys
  import opened Entries

  // ---- states ----

  /** One read request, the process that serves it, and whether that process has a cache at all. */
  datatype Request = Request(process: nat, hasCache: bool, id: Id, depth: int, withEmployees: bool)

  datatype Reply = TreeReply(tree: Tree) | RejectedId | RejectedDepth | LoadFailed(error: LoadError)

  /** `evidence` is the log of the load that produced the reply. */
  datatype ReaderPc =
    | Begin
    | GotEpoch(epoch: int)
    | Missed(epoch: int)
    | Waiting(epoch: int, flight: nat)
    | Direct(log: seq<Read>)
    | Done(reply: Reply, evidence: seq<Read>)

  /** `startEpoch` is the counter when the request arrived, `captured` the epoch its read of the counter
      returned, if it returned one. */
  datatype Reader = Reader(request: Request, startEpoch: int, captured: Option<int>, pc: ReaderPc)

  /** `loaded` records that the flight's own repository load built the tree. */
  datatype FlightPc =
    | Recheck
    | Loading(log: seq<Read>, store: bool)
    | Storing(tree: Tree, log: seq<Read>)
    | Landed(reply: Reply, evidence: seq<Read>, loaded: bool)

  datatype Flight = Flight(process: nat, params: Params, pc: FlightPc)

  /** A mutation that committed as database version `version`, and what became of its epoch increment. */
  datatype Writer = Committed(version: nat) | Bumped(version: nat, epoch: nat) | Unbumped(version: nat)

  /** Where a stored tree came from. */
  datatype Origin = Origin(params: Params, tree: Tree, log: seq<Read>)

  /** `bumpedAt[e]` is the database version current when the counter reached `e`. */
  datatype State = State(
    history: seq<Database>, bumpedAt: seq<nat>,
    store: map<string, Blob>, origin: map<string, Origin>,
    readers: map<nat, Reader>, flights: map<nat, Flight>, active: map<(nat, string), nat>,
    writers: map<nat, Writer>)

  function Now(s: State): int {
    |s.history| - 1
  }

  function Epoch(s: State): int {
    |s.bumpedAt| - 1
  }

  /** The epoch a reader goes by: the one it captured, or else the counter as it arrived. */
  function FloorEpoch(reader: Reader): int {
    if reader.captured.Some? then reader.captured.value else reader.startEpoch
  }

  function ParamsOf(epoch: int, request: Request): Params {
    Params(epoch, request.id, request.depth, request.withEmployees)
  }

  // ---- steps ----

  datatype Step =
    | Start(reader: nat, request: Request)
    | FetchEpoch(reader: nat, got: GetResult)
    | Lookup(reader: nat, got: GetResult)
    | Enter(reader: nat, newFlight: nat)
    | Deliver(reader: nat)
    | QueryDirectly(reader: nat, answer: Answer)
    | CheckAgain(flight: nat, got: GetResult)
    | QueryInFlight(flight: nat, answer: Answer)
    | StoreTree(flight: nat, fits: bool, applied: bool)
    | Release(flight: nat)
    | Commit(writer: nat, mutation: Mutation, result: Database)
    | Bump(writer: nat, applied: bool)

  /** A tree key's Get may fail, miss (the entry may have expired), see the stored value,
      or see bytes that cannot be accepted. */
  predicate MayGet(s: State, p: Params, got: GetResult) {
    || got.GetFailed? || got.Miss?
    || (KeyOf(p) in s.store && got == Hit(s.store[KeyOf(p)]))
    || (got.Hit? && Accept(got.blob, p).None?)
  }

  /** The epoch key's Get may fail, see a text that is no counter, or see the counter, which is never lost. */
  predicate MayGetEpoch(s: State, got: GetResult) {
    || got.GetFailed?
    || (got.Hit? && ReadEpoch(got).None?)
    || got == (if EPOCH_KEY in s.store then Hit(s.store[EPOCH_KEY]) else Miss)
  }

  function StartPc(request: Request): ReaderPc {
    if request.id == 0 then Done(RejectedId, [])
    else if request.depth < 1 || request.depth > 5 then Done(RejectedDepth, [])
    else if !request.hasCache then Direct([])
    else Begin
  }

  function LoadOf(log: seq<Read>, p: Params): Progress<Tree> {
    Load(log, p.id, p.depth, p.withEmployees)
  }

  function DirectPc(log: seq<Read>, request: Request): ReaderPc {
    match LoadOf(log, ParamsOf(0, request))
    case Built(tree, _) => Done(TreeReply(tree), log)
    case Stopped(error) => Done(LoadFailed(error), log)
    case _ => Direct(log)
  }

  function FlightPcAfter(log: seq<Read>, store: bool, p: Params): FlightPc {
    match LoadOf(log, p)
    case Built(tree, _) => if store then Storing(tree, log) else Landed(TreeReply(tree), log, true)
    case Stopped(error) => Landed(LoadFailed(error), log, false)
    case _ => Loading(log, store)
  }

  function EvidenceOf(s: State, p: Params): seq<Read> {
    if KeyOf(p) in s.origin then s.origin[KeyOf(p)].log else []
  }

  function CurrentRead(s: State, query: Query, answer: Answer): Read
    requires |s.history| > 0
  {
    Read(query, answer, |s.history| - 1)
  }

  ghost predicate Enabled(s: State, step: Step) {
    && |s.history| > 0
    && match step
       case Start(r, _) => r !in s.readers
       case FetchEpoch(r, got) => r in s.readers && s.readers[r].pc.Begin? && MayGetEpoch(s, got)
       case Lookup(r, got) =>
         r in s.readers && s.readers[r].pc.GotEpoch?
         && MayGet(s, ParamsOf(s.readers[r].pc.epoch, s.readers[r].request), got)
       case Enter(r, f) => r in s.readers && s.readers[r].pc.Missed? && f !in s.flights
       case Deliver(r) =>
         r in s.readers && s.readers[r].pc.Waiting?
         && s.readers[r].pc.flight in s.flights && s.flights[s.readers[r].pc.flight].pc.Landed?
       case QueryDirectly(r, answer) =>
         && r in s.readers && s.readers[r].pc.Direct?
         && var asked := LoadOf(s.readers[r].pc.log, ParamsOf(0, s.readers[r].request));
         asked.Ask? && Answers(s.history[|s.history| - 1], asked.query, answer)
       case CheckAgain(f, got) => f in s.flights && s.flights[f].pc.Recheck? && MayGet(s, s.flights[f].params, got)
       case QueryInFlight(f, answer) =>
         && f in s.flights && s.flights[f].pc.Loading?
         && var asked := LoadOf(s.flights[f].pc.log, s.flights[f].params);
         asked.Ask? && Answers(s.history[|s.history| - 1], asked.query, answer)
       case StoreTree(f, _, _) => f in s.flights && s.flights[f].pc.Storing?
       case Release(f) =>
         f in s.flights && s.flights[f].pc.Landed?
         && ActiveKey(s.flights[f]) in s.active && s.active[ActiveKey(s.flights[f])] == f
       case Commit(w, mutation, result) =>
         w !in s.writers && Perform(s.history[|s.history| - 1], mutation) == (result, true)
       case Bump(w, applied) =>
         w in s.writers && s.writers[w].Committed? && (applied ==> Epoch(s) < MAX_INT64)
  }

  function ActiveKey(flight: Flight): (nat, string) {
    (flight.process, KeyOf(flight.params))
  }

  function SetReader(s: State, r: nat, pc: ReaderPc): State
    requires r in s.readers
  {
    s.(readers := s.readers[r := s.readers[r].(pc := pc)])
  }

  function SetFlight(s: State, f: nat, pc: FlightPc): State
    requires f in s.flights
  {
    s.(flights := s.flights[f := s.flights[f].(pc := pc)])
  }

  function AfterFetchEpoch(reader: Reader, got: GetResult): Reader {
    var epoch := ReadEpoch(got);
    reader.(captured := epoch, pc := if epoch.None? then Direct([]) else GotEpoch(epoch.value))
  }

  function AfterLookup(s: State, p: Params, got: GetResult): ReaderPc {
    match ReadCached(got, p)
    case ReadError => Direct([])
    case Cached(tree) => Done(TreeReply(tree), EvidenceOf(s, p))
    case NotCached => Missed(p.epoch)
  }

  function AfterCheckAgain(s: State, p: Params, got: GetResult): FlightPc {
    match ReadCached(got, p)
    case ReadError => Loading([], false)
    case Cached(tree) => Landed(TreeReply(tree), EvidenceOf(s, p), false)
    case NotCached => Loading([], true)
  }

  /** Join the active call of this key in this process, or lead a new one. */
  function AfterEnter(s: State, r: nat, newFlight: nat): State
    requires r in s.readers && s.readers[r].pc.Missed?
  {
    var reader := s.readers[r];
    var p := ParamsOf(reader.pc.epoch, reader.request);
    var slot := (reader.request.process, KeyOf(p));
    if slot in s.active then SetReader(s, r, Waiting(p.epoch, s.active[slot]))
    else
      SetReader(s, r, Waiting(p.epoch, newFlight))
        .(flights := s.flights[newFlight := Flight(reader.request.process, p, Recheck)],
          active := s.active[slot := newFlight])
  }

  /** A tree that does not marshal or is too long is not stored; a Set may be lost. */
  function AfterStore(s: State, f: nat, fits: bool, applied: bool): State
    requires f in s.flights && s.flights[f].pc.Storing?
  {
    var flight := s.flights[f];
    var key := KeyOf(flight.params);
    var landed := SetFlight(s, f, Landed(TreeReply(flight.pc.tree), flight.pc.log, true));
    if fits && applied then
      landed.(store := s.store[key := Document(EncodeTree(flight.pc.tree))],
              origin := s.origin[key := Origin(flight.params, flight.pc.tree, flight.pc.log)])
    else landed
  }

  function AfterCommit(s: State, w: nat, result: Database): State {
    s.(history := s.history + [result], writers := s.writers[w := Committed(|s.history|)])
  }

  function AfterBump(s: State, w: nat, applied: bool): State
    requires w in s.writers && |s.history| > 0
  {
    if applied then
      s.(store := s.store[EPOCH_KEY := Text(Decimal(|s.bumpedAt|))],
         bumpedAt := s.bumpedAt + [|s.history| - 1],
         writers := s.writers[w := Bumped(s.writers[w].version, |s.bumpedAt|)])
    else s.(writers := s.writers[w := Unbumped(s.writers[w].version)])
  }

  ghost function Next(s: State, step: Step): State
    requires Enabled(s, step)
  {
    match step
    case Start(r, request) =>
      s.(readers := s.readers[r := Reader(request, Epoch(s), None, StartPc(request))])
    case FetchEpoch(r, got) => s.(readers := s.readers[r := AfterFetchEpoch(s.readers[r], got)])
    case Lookup(r, got) =>
      SetReader(s, r, AfterLookup(s, ParamsOf(s.readers[r].pc.epoch, s.readers[r].request), got))
    case Enter(r, f) => AfterEnter(s, r, f)
    case Deliver(r) =>
      var landed := s.flights[s.readers[r].pc.flight].pc;
      SetReader(s, r, Done(landed.reply, landed.evidence))
    case QueryDirectly(r, answer) =>
      var log := s.readers[r].pc.log;
      var asked := LoadOf(log, ParamsOf(0, s.readers[r].request)).query;
      SetReader(s, r, DirectPc(log + [CurrentRead(s, asked, answer)], s.readers[r].request))
    case CheckAgain(f, got) => SetFlight(s, f, AfterCheckAgain(s, s.flights[f].params, got))
    case QueryInFlight(f, answer) =>
      var flight := s.flights[f];
      var asked := LoadOf(flight.pc.log, flight.params).query;
      SetFlight(s, f, FlightPcAfter(flight.pc.log + [CurrentRead(s, asked, answer)], flight.pc.store, flight.params))
    case StoreTree(f, fits, applied) => AfterStore(s, f, fits, applied)
    case Release(f) => s.(active := s.active - {ActiveKey(s.flights[f])})
    case Commit(w, _, result) => AfterCommit(s, w, result)
    case Bump(w, applied) => AfterBump(s, w, applied)
  }

  /** An empty store, counter zero, any well-formed database, nobody at work. */
  ghost predicate Init(s: State) {
    && |s.history| == 1 && WellFormed(s.history[0])
    && s.bumpedAt == [0]
    && s.store == map[] && s.origin == map[]
    && s.readers == map[] && s.flights == map[] && s.active == map[] && s.writers == map[]
  }

  /** A run: its states and the steps between them. */
  ghost predicate Run(states: seq<State>, steps: seq<Step>) {
    && |states| == |steps| + 1
    && Init(states[0])
    && forall i :: 0 <= i < |steps| ==> Moves(states[i], steps[i], states[i + 1])
  }

  ghost predicate Moves(s: State, step: Step, s': State) {
    Enabled(s, step) && s' == Next(s, step)
  }

  ghost predicate Reachable(s: State) {
    exists states, steps :: Run(states, steps) && states[|steps|] == s
  }

  lemma ReachableStep(s: State, step: Step)
    requires Reachable(s) && Enabled(s, step)
    ensures Reachable(Next(s, step))
  {
    var states, steps :| Run(states, steps) && states[|steps|] == s;
    RunExtends(states, steps, step, Next(s, step));
    assert (states + [Next(s, step)])[|steps + [step]|] == Next(s, step);
  }

  lemma RunExtends(states: seq<State>, steps: seq<Step>, step: Step, next: State)
    requires Run(states, steps) && Moves(states[|steps|], step, next)
    ensures Run(states + [next], steps + [step])
  {
  }

  // ---- the invariant ----

  /** Every read of the log is a true answer of the version it names, none older than `floor`. */
  ghost predicate Sound(history: seq<Database>, floor: nat, log: seq<Read>) {
    forall i :: 0 <= i < |log| ==>
      floor <= log[i].version < |history| && Answers(history[log[i].version], log[i].query, log[i].answer)
  }

  /** The log is that of a load that ended in this reply, and nothing else. */
  ghost predicate Explains(log: seq<Read>, p: Params, reply: Reply) {
    || (reply.TreeReply? && LoadOf(log, p) == Built(reply.tree, |log|))
    || (reply.LoadFailed? && LoadOf(log, p) == Stopped(reply.error))
  }

  /** A reply and its evidence, no read of which is older than the version at which the counter reached `epoch`. */
  ghost predicate Backed(history: seq<Database>, bumpedAt: seq<nat>, epoch: int, p: Params, reply: Reply, log: seq<Read>) {
    && 0 <= epoch < |bumpedAt|
    && Explains(log, p, reply)
    && Sound(history, bumpedAt[epoch], log)
  }

  ghost predicate HistoryOk(history: seq<Database>) {
    |history| > 0 && forall v :: 0 <= v < |history| ==> WellFormed(history[v])
  }

  ghost predicate EpochOk(history: seq<Database>, bumpedAt: seq<nat>, store: map<string, Blob>) {
    && 0 < |bumpedAt| && |bumpedAt| - 1 <= MAX_INT64
    && (forall i, j :: 0 <= i <= j < |bumpedAt| ==> bumpedAt[i] <= bumpedAt[j])
    && (forall i :: 0 <= i < |bumpedAt| ==> bumpedAt[i] < |history|)
    && (if |bumpedAt| == 1 then EPOCH_KEY !in store
        else EPOCH_KEY in store && store[EPOCH_KEY] == Text(Decimal(|bumpedAt| - 1)))
  }

  ghost predicate EntryOk(history: seq<Database>, bumpedAt: seq<nat>, key: string, blob: Blob, o: Origin) {
    && key == KeyOf(o.params)
    && blob == Document(EncodeTree(o.tree))
    && Backed(history, bumpedAt, o.params.epoch, o.params, TreeReply(o.tree), o.log)
  }

  ghost predicate StoreOk(s: State) {
    forall key :: key in s.store && key != EPOCH_KEY ==>
      key in s.origin && EntryOk(s.history, s.bumpedAt, key, s.store[key], s.origin[key])
  }

  predicate Served(request: Request) {
    request.id != 0 && 1 <= request.depth <= 5
  }

  ghost predicate ReaderOk(history: seq<Database>, bumpedAt: seq<nat>, flights: map<nat, Flight>, reader: Reader) {
    && 0 <= reader.startEpoch <= FloorEpoch(reader) < |bumpedAt|
    && match reader.pc
       case Begin => Served(reader.request) && reader.captured.None?
       case GotEpoch(epoch) => Served(reader.request) && reader.captured == Some(epoch)
       case Missed(epoch) => Served(reader.request) && reader.captured == Some(epoch)
       case Waiting(epoch, f) =>
         && Served(reader.request) && reader.captured == Some(epoch)
         && f in flights && flights[f].process == reader.request.process
         && flights[f].params == ParamsOf(epoch, reader.request)
       case Direct(log) =>
         && Served(reader.request)
         && LoadOf(log, ParamsOf(0, reader.request)).Ask? && Sound(history, bumpedAt[FloorEpoch(reader)], log)
       case Done(RejectedId, _) => reader.request.id == 0
       case Done(RejectedDepth, _) => reader.request.depth < 1 || reader.request.depth > 5
       case Done(reply, evidence) =>
         Served(reader.request)
         && Backed(history, bumpedAt, FloorEpoch(reader), ParamsOf(0, reader.request), reply, evidence)
  }

  ghost predicate FlightOk(history: seq<Database>, bumpedAt: seq<nat>, flight: Flight) {
    && 0 <= flight.params.epoch < |bumpedAt|
    && match flight.pc
       case Recheck => true
       case Loading(log, _) => LoadOf(log, flight.params).Ask? && Sound(history, bumpedAt[flight.params.epoch], log)
       case Storing(tree, log) =>
         Backed(history, bumpedAt, flight.params.epoch, flight.params, TreeReply(tree), log)
       case Landed(reply, evidence, _) =>
         Backed(history, bumpedAt, flight.params.epoch, flight.params, reply, evidence)
  }

  ghost predicate ActiveOk(flights: map<nat, Flight>, active: map<(nat, string), nat>) {
    forall slot :: slot in active ==> active[slot] in flights && ActiveKey(flights[active[slot]]) == slot
  }

  /** An increment that reached `epoch` did so no earlier than the mutation's own version. */
  ghost predicate WriterOk(history: seq<Database>, bumpedAt: seq<nat>, writer: Writer) {
    && writer.version < |history|
    && (writer.Bumped? ==> writer.epoch < |bumpedAt| && writer.version <= bumpedAt[writer.epoch])
  }

  ghost predicate Inv(s: State) {
    && HistoryOk(s.history)
    && EpochOk(s.history, s.bumpedAt, s.store)
    && StoreOk(s)
    && (forall r :: r in s.readers ==> ReaderOk(s.history, s.bumpedAt, s.flights, s.readers[r]))
    && (forall f :: f in s.flights ==> FlightOk(s.history, s.bumpedAt, s.flights[f]))
    && ActiveOk(s.flights, s.active)
    && (forall w :: w in s.writers ==> WriterOk(s.history, s.bumpedAt, s.writers[w]))
  }

  // ---- nothing that was true of the past stops being true ----

  lemma SoundLater(history: seq<Database>, later: seq<Database>, floor: nat, lower: nat, log: seq<Read>)
    requires Sound(history, floor, log) && history <= later && lower <= floor
    ensures Sound(later, lower, log)
  {
  }

  // ---- what the store holds is accepted, and is what it claims to be ----

  lemma SoundIsPlausible(history: seq<Database>, floor: nat, log: seq<Read>)
    requires HistoryOk(history) && Sound(history, floor, log)
    ensures AllPlausible(log)
  {
    forall i | 0 <= i < |log| ensures Plausible(log[i].query, log[i].answer) {
      AnswersArePlausible(history[log[i].version], log[i].query, log[i].answer);
    }
  }

  /** A stored tree is never rejected as corrupt. */
  lemma EntryAccepted(history: seq<Database>, bumpedAt: seq<nat>, key: string, blob: Blob, o: Origin)
    requires HistoryOk(history) && EntryOk(history, bumpedAt, key, blob, o)
    ensures Accept(blob, o.params) == Some(o.tree)
  {
    SoundIsPlausible(history, bumpedAt[o.params.epoch], o.log);
    LoadIsValid(o.log, o.params.id, o.params.depth, o.params.withEmployees);
    ValidRoundTrip(o.tree, o.params.id, o.params.depth, o.params.withEmployees);
  }

  /** The entry under a request's key was loaded for exactly that request. */
  lemma EntryUnderKey(s: State, p: Params)
    requires Inv(s) && KeyOf(p) in s.store
    ensures KeyOf(p) in s.origin && s.origin[KeyOf(p)].params == p
    ensures Accept(s.store[KeyOf(p)], p) == Some(s.origin[KeyOf(p)].tree)
    ensures Backed(s.history, s.bumpedAt, p.epoch, p, TreeReply(s.origin[KeyOf(p)].tree), s.origin[KeyOf(p)].log)
  {
    TreeKeyIsNotEpochKey(p.epoch, p.id, p.depth, p.withEmployees);
    var key := KeyOf(p);
    var o := s.origin[key];
    assert EntryOk(s.history, s.bumpedAt, key, s.store[key], o);
    KeyOfInjective(p, o.params);
    EntryAccepted(s.history, s.bumpedAt, key, s.store[key], o);
  }

  /** Whatever a Get sees, a tree accepted from it is the stored entry. */
  lemma AcceptedIsStored(s: State, p: Params, got: GetResult)
    requires Inv(s) && MayGet(s, p, got) && ReadCached(got, p).Cached?
    ensures KeyOf(p) in s.store
    ensures Backed(s.history, s.bumpedAt, p.epoch, p, TreeReply(ReadCached(got, p).tree), EvidenceOf(s, p))
  {
    EntryUnderKey(s, p);
  }

  // ---- every step keeps the invariant ----

  lemma ReaderStepKeepsInv(s: State, r: nat, pc: ReaderPc)
    requires Inv(s) && r in s.readers
    requires ReaderOk(s.history, s.bumpedAt, s.flights, s.readers[r].(pc := pc))
    ensures Inv(SetReader(s, r, pc))
  {
  }

  lemma EmptyLogAsks(p: Params)
    ensures LoadOf([], p) == Ask(GetDepartment(p.id))
  {
  }

  lemma StartKeepsInv(s: State, r: nat, request: Request)
    requires Inv(s) && Enabled(s, Start(r, request))
    ensures Inv(Next(s, Start(r, request)))
  {
    EmptyLogAsks(ParamsOf(0, request));
  }

  /** The counter a reader gets, if it gets one, is the number of increments so far. */
  lemma EpochReadIsCount(s: State, got: GetResult)
    requires Inv(s) && MayGetEpoch(s, got)
    ensures ReadEpoch(got).None? || ReadEpoch(got) == Some(Epoch(s))
  {
    ParseDecimal(Epoch(s));
  }

  lemma FetchEpochKeepsInv(s: State, r: nat, got: GetResult)
    requires Inv(s) && Enabled(s, FetchEpoch(r, got))
    ensures Inv(Next(s, FetchEpoch(r, got)))
  {
    EpochReadIsCount(s, got);
    EmptyLogAsks(ParamsOf(0, s.readers[r].request));
    assert ReaderOk(s.history, s.bumpedAt, s.flights, s.readers[r]);
    assert ReaderOk(s.history, s.bumpedAt, s.flights, AfterFetchEpoch(s.readers[r], got));
  }

  lemma LookupKeepsInv(s: State, r: nat, got: GetResult)
    requires Inv(s) && Enabled(s, Lookup(r, got))
    ensures Inv(Next(s, Lookup(r, got)))
  {
    LookedUpOk(s, r, got);
    ReaderStepKeepsInv(s, r, AfterLookup(s, ParamsOf(s.readers[r].pc.epoch, s.readers[r].request), got));
  }

  lemma LookedUpOk(s: State, r: nat, got: GetResult)
    requires Inv(s) && r in s.readers && s.readers[r].pc.GotEpoch?
    requires MayGet(s, ParamsOf(s.readers[r].pc.epoch, s.readers[r].request), got)
    ensures ReaderOk(s.history, s.bumpedAt, s.flights, s.readers[r].(
              pc := AfterLookup(s, ParamsOf(s.readers[r].pc.epoch, s.readers[r].request), got)))
  {
    var reader := s.readers[r];
    var p := ParamsOf(reader.pc.epoch, reader.request);
    assert ReaderOk(s.history, s.bumpedAt, s.flights, reader);
    EmptyLogAsks(ParamsOf(0, reader.request));
    if ReadCached(got, p).Cached? {
      AcceptedIsStored(s, p, got);
    }
  }

  lemma EnterKeepsInv(s: State, r: nat, f: nat)
    requires Inv(s) && r in s.readers && s.readers[r].pc.Missed? && f !in s.flights
    ensures Inv(AfterEnter(s, r, f))
  {
    var reader := s.readers[r];
    var p := ParamsOf(reader.pc.epoch, reader.request);
    var slot := (reader.request.process, KeyOf(p));
    assert ReaderOk(s.history, s.bumpedAt, s.flights, reader);
    if slot in s.active {
      KeyOfInjective(p, s.flights[s.active[slot]].params);
      ReaderStepKeepsInv(s, r, Waiting(p.epoch, s.active[slot]));
    } else {
      LeadKeepsInv(s, r, p, f);
    }
  }

  lemma LeadKeepsInv(s: State, r: nat, p: Params, f: nat)
    requires Inv(s) && r in s.readers && s.readers[r].pc.Missed? && f !in s.flights
    requires p == ParamsOf(s.readers[r].pc.epoch, s.readers[r].request)
    ensures var process := s.readers[r].request.process;
            Inv(SetReader(s, r, Waiting(p.epoch, f))
                  .(flights := s.flights[f := Flight(process, p, Recheck)],
                    active := s.active[(process, KeyOf(p)) := f]))
  {
    var reader := s.readers[r];
    var flight := Flight(reader.request.process, p, Recheck);
    var led := s.(flights := s.flights[f := flight], active := s.active[ActiveKey(flight) := f]);
    assert ReaderOk(s.history, s.bumpedAt, s.flights, reader);
    NewFlightKeepsInv(s, f, flight);
    ReaderStepKeepsInv(led, r, Waiting(p.epoch, f));
  }

  lemma NewFlightKeepsInv(s: State, f: nat, flight: Flight)
    requires Inv(s) && f !in s.flights && FlightOk(s.history, s.bumpedAt, flight)
    ensures Inv(s.(flights := s.flights[f := flight], active := s.active[ActiveKey(flight) := f]))
  {
  }

  lemma DeliverKeepsInv(s: State, r: nat)
    requires Inv(s) && Enabled(s, Deliver(r))
    ensures Inv(Next(s, Deliver(r)))
  {
    var reader := s.readers[r];
    var flight := s.flights[reader.pc.flight];
    assert FlightOk(s.history, s.bumpedAt, flight);
    ReaderStepKeepsInv(s, r, Done(flight.pc.reply, flight.pc.evidence));
  }

  /** The load is done with all of the log used, failed, or knows what to ask next. */
  ghost predicate Proceeds(log: seq<Read>, p: Params) {
    !LoadOf(log, p).Misfit? && (LoadOf(log, p).Built? ==> LoadOf(log, p).next == |log|)
  }

  /** One more true answer keeps a log sound, and the load has a next move. */
  lemma AnsweredLog(s: State, db: Database, floor: nat, log: seq<Read>, p: Params, read: Read)
    requires WellFormed(db) && |s.history| > 0 && s.history[|s.history| - 1] == db
    requires floor < |s.history| && Sound(s.history, floor, log)
    requires LoadOf(log, p) == Ask(read.query) && Answers(db, read.query, read.answer)
    requires read.version == |s.history| - 1
    ensures Sound(s.history, floor, log + [read])
    ensures Proceeds(log + [read], p)
  {
    SoundAppend(s.history, db, floor, log, read);
    AnsweredLoadMovesOn(db, log, read, p);
  }

  lemma SoundAppend(history: seq<Database>, db: Database, floor: nat, log: seq<Read>, read: Read)
    requires Sound(history, floor, log)
    requires floor <= read.version < |history| && history[read.version] == db
    requires Answers(db, read.query, read.answer)
    ensures Sound(history, floor, log + [read])
  {
  }

  lemma AnsweredLoadMovesOn(db: Database, log: seq<Read>, read: Read, p: Params)
    requires WellFormed(db) && LoadOf(log, p) == Ask(read.query) && Answers(db, read.query, read.answer)
    ensures Proceeds(log + [read], p)
  {
    AnswersArePlausible(db, read.query, read.answer);
    LoadMovesOn(log, read, p.id, p.depth, p.withEmployees);
  }

  lemma QueryDirectlyKeepsInv(s: State, r: nat, answer: Answer)
    requires Inv(s) && Enabled(s, QueryDirectly(r, answer))
    ensures Inv(Next(s, QueryDirectly(r, answer)))
  {
    var reader := s.readers[r];
    var p := ParamsOf(0, reader.request);
    var log := reader.pc.log;
    assert ReaderOk(s.history, s.bumpedAt, s.flights, reader);
    var query := LoadOf(log, p).query;
    var read := CurrentRead(s, query, answer);
    AnsweredLog(s, s.history[|s.history| - 1], s.bumpedAt[FloorEpoch(reader)], log, p, read);
    ReaderStepKeepsInv(s, r, DirectPc(log + [read], reader.request));
  }

  lemma FlightStepKeepsInv(s: State, f: nat, pc: FlightPc)
    requires Inv(s) && f in s.flights
    requires FlightOk(s.history, s.bumpedAt, s.flights[f].(pc := pc))
    ensures Inv(SetFlight(s, f, pc))
  {
  }

  lemma CheckedAgainOk(s: State, f: nat, got: GetResult)
    requires Inv(s) && f in s.flights && s.flights[f].pc.Recheck? && MayGet(s, s.flights[f].params, got)
    ensures FlightOk(s.history, s.bumpedAt, s.flights[f].(pc := AfterCheckAgain(s, s.flights[f].params, got)))
  {
    var p := s.flights[f].params;
    assert FlightOk(s.history, s.bumpedAt, s.flights[f]);
    match ReadCached(got, p)
    case ReadError => EmptyLogAsks(p);
    case NotCached => EmptyLogAsks(p);
    case Cached(tree) => AcceptedIsStored(s, p, got);
  }

  lemma QueryInFlightKeepsInv(s: State, f: nat, answer: Answer)
    requires Inv(s) && Enabled(s, QueryInFlight(f, answer))
    ensures Inv(Next(s, QueryInFlight(f, answer)))
  {
    var flight := s.flights[f];
    var log := flight.pc.log;
    assert FlightOk(s.history, s.bumpedAt, flight);
    var query := LoadOf(log, flight.params).query;
    var read := CurrentRead(s, query, answer);
    AnsweredLog(s, s.history[|s.history| - 1], s.bumpedAt[flight.params.epoch], log, flight.params, read);
    FlightStepKeepsInv(s, f, FlightPcAfter(log + [read], flight.pc.store, flight.params));
  }

  lemma StoreTreeKeepsInv(s: State, f: nat, fits: bool, applied: bool)
    requires Inv(s) && Enabled(s, StoreTree(f, fits, applied))
    ensures Inv(Next(s, StoreTree(f, fits, applied)))
  {
    var flight := s.flights[f];
    var p := flight.params;
    assert FlightOk(s.history, s.bumpedAt, flight);
    FlightStepKeepsInv(s, f, Landed(TreeReply(flight.pc.tree), flight.pc.log, true));
    if fits && applied {
      PutKeepsInv(SetFlight(s, f, Landed(TreeReply(flight.pc.tree), flight.pc.log, true)), p, flight.pc.tree, flight.pc.log);
    }
  }

  lemma PutKeepsInv(s: State, p: Params, tree: Tree, log: seq<Read>)
    requires Inv(s) && Backed(s.history, s.bumpedAt, p.epoch, p, TreeReply(tree), log)
    ensures Inv(s.(store := s.store[KeyOf(p) := Document(EncodeTree(tree))],
                   origin := s.origin[KeyOf(p) := Origin(p, tree, log)]))
  {
  }

  lemma NewVersionKeepsInv(s: State, w: nat, db: Database)
    requires Inv(s) && w !in s.writers && WellFormed(db)
    ensures Inv(AfterCommit(s, w, db))
  {
  }

  lemma CommittedIsWellFormed(db: Database, mutation: Mutation, result: Database)
    requires WellFormed(db) && Perform(db, mutation) == (result, true)
    ensures WellFormed(result)
  {
    PerformKeepsWellFormed(db, mutation);
  }

  lemma IncrementKeepsInv(s: State, w: nat)
    requires Inv(s) && w in s.writers && Epoch(s) < MAX_INT64
    ensures Inv(AfterBump(s, w, true))
  {
  }

  lemma LostIncrementKeepsInv(s: State, w: nat)
    requires Inv(s) && w in s.writers
    ensures Inv(AfterBump(s, w, false))
  {
  }

  lemma StepKeepsInv(s: State, step: Step)
    requires Inv(s) && Enabled(s, step)
    ensures Inv(Next(s, step))
  {
    match step
    case Start(r, request) => StartKeepsInv(s, r, request);
    case FetchEpoch(r, got) => FetchEpochKeepsInv(s, r, got);
    case Lookup(r, got) => LookupKeepsInv(s, r, got);
    case Enter(r, f) => EnterKeepsInv(s, r, f);
    case Deliver(r) => DeliverKeepsInv(s, r);
    case QueryDirectly(r, answer) => QueryDirectlyKeepsInv(s, r, answer);
    case CheckAgain(f, got) =>
      CheckedAgainOk(s, f, got);
      FlightStepKeepsInv(s, f, AfterCheckAgain(s, s.flights[f].params, got));
    case QueryInFlight(f, answer) => QueryInFlightKeepsInv(s, f, answer);
    case StoreTree(f, fits, applied) => StoreTreeKeepsInv(s, f, fits, applied);
    case Release(f) =>
    case Commit(w, mutation, result) =>
      CommittedIsWellFormed(s.history[|s.history| - 1], mutation, result);
      NewVersionKeepsInv(s, w, result);
    case Bump(w, true) => IncrementKeepsInv(s, w);
    case Bump(w, false) => LostIncrementKeepsInv(s, w);
  }

  lemma {:induction false} RunKeepsInv(states: seq<State>, steps: seq<Step>, i: nat)
    requires Run(states, steps) && i <= |steps|
    ensures Inv(states[i])
  {
    if i > 0 {
      RunKeepsInv(states, steps, i - 1);
      assert Moves(states[i - 1], steps[i - 1], states[i - 1 + 1]);
      StepKeepsInv(states[i - 1], steps[i - 1]);
    }
  }

  lemma ReachableKeepsInv(s: State)
    requires Reachable(s)
    ensures Inv(s)
  {
    var states, steps :| Run(states, steps) && states[|steps|] == s;
    RunKeepsInv(states, steps, |steps|);
  }
}
