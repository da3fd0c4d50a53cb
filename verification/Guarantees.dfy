/** What the cache promises its callers, for every run of the protocol over the department forest. */
module Guarantees {
  import opened Wrappers
  import opened Forest
  import opened Storage
  import opened Mutations
  import opened Trees
  import opened Loading
  import opened CacheKeys
  import opened Entries
  import opened Protocol

  /** No commit has happened since the last increment that reached the counter. */
  ghost predicate Quiet(s: State) {
    |s.bumpedAt| > 0 && s.bumpedAt[|s.bumpedAt| - 1] == Now(s)
  }

  function Current(s: State): Database
    requires |s.history| > 0
  {
    s.history[|s.history| - 1]
  }

  // ---- the cache agrees with the database ----

  /** Evidence that is no older than the newest version was read from the newest version alone. */
  lemma EvidenceOfNow(s: State, epoch: int, p: Params, reply: Reply, log: seq<Read>)
    requires Inv(s) && Backed(s.history, s.bumpedAt, epoch, p, reply, log)
    requires s.bumpedAt[epoch] == Now(s)
    ensures AllFrom(Current(s), log)
    ensures reply.TreeReply? ==>
              reply.tree.id == p.id && Represents(Current(s), reply.tree, p.depth, p.withEmployees)
    ensures reply == LoadFailed(DepartmentMissing) ==> p.id !in Current(s).departments
  {
    forall i | 0 <= i < |log| ensures Answers(Current(s), log[i].query, log[i].answer) {
      assert log[i].version == |s.history| - 1;
    }
    LoadOnFixedDatabase(Current(s), log, p.id, p.depth, p.withEmployees);
  }

  /** In every reachable quiet state, whatever is stored under the current epoch is accepted, and is the tree
      of the current database, although each of its queries was a step of its own. */
  lemma CacheAgreesWithDatabase(s: State, p: Params)
    requires Reachable(s) && Quiet(s)
    requires p.epoch == Epoch(s) && KeyOf(p) in s.store
    ensures |s.history| > 0 && Accept(s.store[KeyOf(p)], p).Some?
    ensures var tree := Accept(s.store[KeyOf(p)], p).value;
            tree.id == p.id && Represents(Current(s), tree, p.depth, p.withEmployees)
  {
    ReachableKeepsInv(s);
    EntryUnderKey(s, p);
    EvidenceOfNow(s, p.epoch, p, TreeReply(s.origin[KeyOf(p)].tree), s.origin[KeyOf(p)].log);
  }

  /** The same, said of the forest: a cached tree holds each department once, at its distance below the root,
      if that is within the depth asked for, and nothing else. */
  lemma CachedTreeIsTheForest(s: State, p: Params, id: Id, level: nat)
    requires Reachable(s) && Quiet(s)
    requires p.epoch == Epoch(s) && p.depth >= 0 && KeyOf(p) in s.store
    ensures |s.history| > 0 && Accept(s.store[KeyOf(p)], p).Some? && Acyclic(Current(s).departments)
    ensures Occurrences(Accept(s.store[KeyOf(p)], p).value, id, level) ==
            if level <= p.depth && Up(Current(s).departments, id, level) == Some(p.id) then 1 else 0
  {
    ReachableKeepsInv(s);
    CacheAgreesWithDatabase(s, p);
    OccursByDistance(Current(s), Accept(s.store[KeyOf(p)], p).value, p.depth, p.withEmployees, id, level);
  }

  /** In any reachable state, quiet or not, a stored tree is right exactly as long as the current database would
      still give every answer its load got. */
  lemma EntryRightExact(s: State, p: Params)
    requires Reachable(s) && KeyOf(p) in s.store
    ensures |s.history| > 0 && Accept(s.store[KeyOf(p)], p).Some? && KeyOf(p) in s.origin
    ensures Represents(Current(s), Accept(s.store[KeyOf(p)], p).value, p.depth, p.withEmployees) <==>
            AllFrom(Current(s), s.origin[KeyOf(p)].log)
  {
    ReachableKeepsInv(s);
    EntryUnderKey(s, p);
    SoundIsPlausible(s.history, s.bumpedAt[p.epoch], s.origin[KeyOf(p)].log);
    LoadRightExact(Current(s), s.origin[KeyOf(p)].log, p.id, p.depth, p.withEmployees);
  }

  /** A commit leaves the entries of the epoch in place and accepted. One that was the tree of the database
      stays right exactly when the commit changed nothing the tree shows. */
  lemma StaleUntilBumped(s: State, p: Params, w: nat, mutation: Mutation, result: Database)
    requires Reachable(s) && Quiet(s) && p.epoch == Epoch(s) && KeyOf(p) in s.store
    requires Enabled(s, Commit(w, mutation, result))
    ensures var s' := Next(s, Commit(w, mutation, result));
            Epoch(s') == p.epoch && s'.store == s.store && Current(s') == result
    ensures Accept(s.store[KeyOf(p)], p).Some?
    ensures Represents(result, Accept(s.store[KeyOf(p)], p).value, p.depth, p.withEmployees) <==>
            SameView(Current(s), result, p.id, p.depth, p.withEmployees)
  {
    CacheAgreesWithDatabase(s, p);
    RepresentsIffSameView(Current(s), result, Accept(s.store[KeyOf(p)], p).value, p.depth, p.withEmployees);
  }

  /** However many commits later: as long as the entry of a quiet state has not been replaced, it is right
      exactly when the database again looks, from its root, as it did then. */
  lemma StaleIffViewChanged(states: seq<State>, steps: seq<Step>, i: nat, k: nat, p: Params)
    requires Run(states, steps) && i <= k <= |steps|
    requires Quiet(states[i]) && p.epoch == Epoch(states[i]) && KeyOf(p) in states[i].store
    requires KeyOf(p) in states[k].store && states[k].store[KeyOf(p)] == states[i].store[KeyOf(p)]
    ensures |states[i].history| > 0 && |states[k].history| > 0 && Accept(states[k].store[KeyOf(p)], p).Some?
    ensures Represents(Current(states[k]), Accept(states[k].store[KeyOf(p)], p).value, p.depth, p.withEmployees) <==>
            SameView(Current(states[i]), Current(states[k]), p.id, p.depth, p.withEmployees)
  {
    PrefixIsReachable(states, steps, i);
    RunKeepsInv(states, steps, k);
    CacheAgreesWithDatabase(states[i], p);
    RepresentsIffSameView(Current(states[i]), Current(states[k]), Accept(states[i].store[KeyOf(p)], p).value,
                          p.depth, p.withEmployees);
  }

  lemma PrefixIsReachable(states: seq<State>, steps: seq<Step>, i: nat)
    requires Run(states, steps) && i <= |steps|
    ensures Reachable(states[i])
  {
    var states', steps' := states[..i + 1], steps[..i];
    forall j | 0 <= j < |steps'| ensures Moves(states'[j], steps'[j], states'[j + 1]) {
      assert Moves(states[j], steps[j], states[j + 1]);
    }
    assert Run(states', steps') && states'[|steps'|] == states[i];
  }

  /** The increment itself empties the new epoch: no tree is stored under it yet. */
  lemma BumpInvalidates(s: State, w: nat, p: Params)
    requires Reachable(s) && Enabled(s, Bump(w, true))
    requires p.epoch == Epoch(Next(s, Bump(w, true)))
    ensures KeyOf(p) !in Next(s, Bump(w, true)).store
  {
    ReachableKeepsInv(s);
    TreeKeyIsNotEpochKey(p.epoch, p.id, p.depth, p.withEmployees);
    if KeyOf(p) in s.store {
      EntryUnderKey(s, p);
    }
  }

  // ---- freshness ----

  /** The reply a load ended in: a tree, or the load's error. */
  predicate Answered(reader: Reader) {
    reader.pc.Done? && (reader.pc.reply.TreeReply? || reader.pc.reply.LoadFailed?)
  }

  /** Every read behind a reply, a tree or an error, saw a version no older than the one at which the counter
      reached the epoch the reader captured, or stood as the request arrived if it captured none. */
  lemma FreshnessFloor(s: State, r: nat)
    requires Reachable(s) && r in s.readers && Answered(s.readers[r])
    ensures var reader := s.readers[r];
            && 0 <= reader.startEpoch <= FloorEpoch(reader) < |s.bumpedAt|
            && Sound(s.history, s.bumpedAt[FloorEpoch(reader)], reader.pc.evidence)
            && Explains(reader.pc.evidence, ParamsOf(0, reader.request), reader.pc.reply)
  {
    ReachableKeepsInv(s);
    assert ReaderOk(s.history, s.bumpedAt, s.flights, s.readers[r]);
  }

  /** A reply to a request whose epoch is the current one, with no commit since the counter reached it, is exact:
      the tree of the current database, or the news that the department does not exist. */
  lemma QuietReadIsExact(s: State, r: nat)
    requires Reachable(s) && r in s.readers && s.readers[r].pc.Done? && Quiet(s)
    requires FloorEpoch(s.readers[r]) == Epoch(s)
    ensures |s.history| > 0
    ensures var q := s.readers[r].request;
            var reply := s.readers[r].pc.reply;
            && (reply.TreeReply? ==>
                  reply.tree.id == q.id && Represents(Current(s), reply.tree, q.depth, q.withEmployees))
            && (reply == LoadFailed(DepartmentMissing) ==> q.id !in Current(s).departments)
  {
    ReachableKeepsInv(s);
    var reader := s.readers[r];
    if Answered(reader) {
      FreshnessFloor(s, r);
      EvidenceOfNow(s, FloorEpoch(reader), ParamsOf(0, reader.request), reader.pc.reply, reader.pc.evidence);
    }
  }

  /** Data read for one epoch is never stored under a newer one, however late the Set. */
  lemma StoredUnderItsEpoch(s: State, p: Params)
    requires Reachable(s) && KeyOf(p) in s.store
    ensures 0 <= p.epoch < |s.bumpedAt|
    ensures KeyOf(p) in s.origin && s.origin[KeyOf(p)].params == p
    ensures Sound(s.history, s.bumpedAt[p.epoch], s.origin[KeyOf(p)].log)
    ensures LoadOf(s.origin[KeyOf(p)].log, p).Built?
    ensures Accept(s.store[KeyOf(p)], p) == Some(LoadOf(s.origin[KeyOf(p)].log, p).value)
  {
    ReachableKeepsInv(s);
    EntryUnderKey(s, p);
  }

  /** History and counter only grow, announcements and captured epochs stay, and a reader that was not there
      before started at the earlier epoch or later. */
  ghost predicate Grows(s: State, s': State) {
    && s.history <= s'.history && s.bumpedAt <= s'.bumpedAt
    && (forall w :: w in s.writers && s.writers[w].Bumped? ==> w in s'.writers && s'.writers[w] == s.writers[w])
    && (forall r :: r in s.readers ==> r in s'.readers && s'.readers[r].startEpoch == s.readers[r].startEpoch)
    && (forall r :: r in s.readers && s.readers[r].captured.Some? ==>
          r in s'.readers && s'.readers[r].captured == s.readers[r].captured)
    && (forall r :: r in s'.readers && r !in s.readers ==> s'.readers[r].startEpoch >= Epoch(s))
  }

  /** A reader that has not read the counter has captured nothing. */
  ghost predicate BeginsWithout(s: State) {
    forall r :: r in s.readers && s.readers[r].pc.Begin? ==> s.readers[r].captured.None?
  }

  lemma InvBeginsWithout(s: State)
    requires Inv(s)
    ensures BeginsWithout(s)
  {
    forall r | r in s.readers && s.readers[r].pc.Begin? ensures s.readers[r].captured.None? {
      assert ReaderOk(s.history, s.bumpedAt, s.flights, s.readers[r]);
    }
  }

  lemma ReaderStepGrows(s: State, r: nat, pc: ReaderPc)
    requires r in s.readers
    ensures Grows(s, SetReader(s, r, pc))
  {
  }

  lemma WriterStepGrows(s: State, w: nat, result: Database, applied: bool)
    ensures w !in s.writers ==> Grows(s, AfterCommit(s, w, result))
    ensures |s.history| > 0 && w in s.writers && s.writers[w].Committed? ==> Grows(s, AfterBump(s, w, applied))
  {
  }

  lemma ReadersMoveGrows(s: State, step: Step)
    requires Enabled(s, step) && BeginsWithout(s)
    requires step.Start? || step.FetchEpoch? || step.Lookup? || step.Enter? || step.Deliver? || step.QueryDirectly?
    ensures Grows(s, Next(s, step))
  {
    match step
    case Start(_, _) =>
    case FetchEpoch(_, _) =>
    case Lookup(r, got) =>
      ReaderStepGrows(s, r, AfterLookup(s, ParamsOf(s.readers[r].pc.epoch, s.readers[r].request), got));
    case Enter(r, f) => ReaderStepGrows(s, r, AfterEnter(s, r, f).readers[r].pc);
    case Deliver(r) =>
      var landed := s.flights[s.readers[r].pc.flight].pc;
      ReaderStepGrows(s, r, Done(landed.reply, landed.evidence));
    case QueryDirectly(r, _) => ReaderStepGrows(s, r, Next(s, step).readers[r].pc);
  }

  lemma StepGrows(s: State, step: Step)
    requires Enabled(s, step) && BeginsWithout(s)
    ensures Grows(s, Next(s, step))
  {
    match step
    case CheckAgain(_, _) =>
    case QueryInFlight(_, _) =>
    case StoreTree(_, _, _) =>
    case Release(_) =>
    case Commit(w, _, result) => WriterStepGrows(s, w, result, false);
    case Bump(w, applied) => WriterStepGrows(s, w, s.history[0], applied);
    case _ => ReadersMoveGrows(s, step);
  }

  lemma GrowsTransitive(s1: State, s2: State, s3: State)
    requires Grows(s1, s2) && Grows(s2, s3)
    ensures Grows(s1, s3)
  {
  }

  lemma {:induction false} ChainGrows(states: seq<State>, i: nat, k: nat)
    requires i <= k < |states|
    requires forall j :: i <= j < k ==> Grows(states[j], states[j + 1])
    ensures Grows(states[i], states[k])
  {
    if i < k {
      ChainGrows(states, i, k - 1);
      assert Grows(states[k - 1], states[k - 1 + 1]);
      GrowsTransitive(states[i], states[k - 1], states[k]);
    }
  }

  lemma RunGrows(states: seq<State>, steps: seq<Step>, i: nat, k: nat)
    requires Run(states, steps) && i <= k <= |steps|
    ensures Grows(states[i], states[k])
  {
    forall j | i <= j < k ensures Grows(states[j], states[j + 1]) {
      assert Moves(states[j], steps[j], states[j + 1]);
      RunKeepsInv(states, steps, j);
      InvBeginsWithout(states[j]);
      StepGrows(states[j], steps[j]);
    }
    ChainGrows(states, i, k);
  }

  /** A request whose read of the counter returned `epoch` is answered only from versions at or after the one
      current when the counter reached it, however the reply comes about. */
  lemma CapturedEpochHolds(states: seq<State>, steps: seq<Step>, i: nat, k: nat, r: nat, epoch: int)
    requires Run(states, steps) && i <= k <= |steps|
    requires r in states[i].readers && states[i].readers[r].pc == GotEpoch(epoch)
    ensures r in states[k].readers && 0 <= epoch < |states[k].bumpedAt|
    ensures states[i].bumpedAt <= states[k].bumpedAt
    ensures var reader := states[k].readers[r];
            Answered(reader) ==>
              && Sound(states[k].history, states[k].bumpedAt[epoch], reader.pc.evidence)
              && Explains(reader.pc.evidence, ParamsOf(0, reader.request), reader.pc.reply)
  {
    RunGrows(states, steps, i, k);
    RunKeepsInv(states, steps, i);
    assert ReaderOk(states[i].history, states[i].bumpedAt, states[i].flights, states[i].readers[r]);
    if Answered(states[k].readers[r]) {
      PrefixIsReachable(states, steps, k);
      FreshnessFloor(states[k], r);
    }
  }

  /** A load that reports its department missing asked a version that lacks it. */
  lemma MissingWasSeen(history: seq<Database>, floor: nat, p: Params, log: seq<Read>)
    requires Sound(history, floor, log) && LoadOf(log, p) == Stopped(DepartmentMissing)
    ensures |log| > 0 && log[0].query == GetDepartment(p.id) && log[0].answer.Missing?
    ensures floor <= log[0].version < |history| && p.id !in history[log[0].version].departments
  {
    LoadStopsOnlyOnQueries(log, p.id, p.depth, p.withEmployees);
    assert Answers(history[log[0].version], log[0].query, log[0].answer);
  }

  /** A request that arrives after a mutation's increment succeeded sees that mutation: every read behind its
      reply, tree or error, from cache hit, flight or direct load, saw the version the mutation committed or a
      later one; a department reported missing is missing from one of these. */
  lemma AnnouncedMutationIsSeen(states: seq<State>, steps: seq<Step>, i: nat, j: nat, k: nat, w: nat, r: nat)
    requires Run(states, steps) && i <= j <= k <= |steps|
    requires w in states[i].writers && states[i].writers[w].Bumped?
    requires r !in states[j].readers
    requires r in states[k].readers && Answered(states[k].readers[r])
    ensures var reader := states[k].readers[r];
            && Sound(states[k].history, states[i].writers[w].version, reader.pc.evidence)
            && Explains(reader.pc.evidence, ParamsOf(0, reader.request), reader.pc.reply)
            && (reader.pc.reply == LoadFailed(DepartmentMissing) ==>
                  exists v :: states[i].writers[w].version <= v < |states[k].history|
                              && reader.request.id !in states[k].history[v].departments)
  {
    RunGrows(states, steps, i, j);
    RunGrows(states, steps, j, k);
    PrefixIsReachable(states, steps, k);
    FreshnessFloor(states[k], r);
    AnnouncedFloor(states, steps, j, k, w, r);
    var reader := states[k].readers[r];
    var version := states[i].writers[w].version;
    SoundLater(states[k].history, states[k].history, states[k].bumpedAt[FloorEpoch(reader)], version, reader.pc.evidence);
    if reader.pc.reply == LoadFailed(DepartmentMissing) {
      MissingWasSeen(states[k].history, version, ParamsOf(0, reader.request), reader.pc.evidence);
    }
  }

  lemma AnnouncedFloor(states: seq<State>, steps: seq<Step>, j: nat, k: nat, w: nat, r: nat)
    requires Run(states, steps) && j <= k <= |steps| && Grows(states[j], states[k])
    requires w in states[j].writers && states[j].writers[w].Bumped?
    requires r !in states[j].readers && r in states[k].readers
    requires 0 <= states[k].readers[r].startEpoch <= FloorEpoch(states[k].readers[r]) < |states[k].bumpedAt|
    ensures states[j].writers[w].version <= states[k].bumpedAt[FloorEpoch(states[k].readers[r])]
  {
    RunKeepsInv(states, steps, j);
    RunKeepsInv(states, steps, k);
    assert WriterOk(states[j].history, states[j].bumpedAt, states[j].writers[w]);
    var epoch := states[j].writers[w].epoch;
    assert states[k].bumpedAt[epoch] == states[j].bumpedAt[epoch];
  }

  // ---- the cache is optional ----

  /** A read fails only on its arguments or on a repository query: no failure of the cache, no malformed counter
      and no malformed payload ever shows. Behind every other reply stands a log of true answers to the queries
      of a load for this very request, ending in this reply. */
  lemma FailOpen(s: State, r: nat)
    requires Reachable(s) && r in s.readers && s.readers[r].pc.Done?
    ensures var reader := s.readers[r];
            Answered(reader) ==>
              && 0 <= FloorEpoch(reader) < |s.bumpedAt|
              && Sound(s.history, s.bumpedAt[FloorEpoch(reader)], reader.pc.evidence)
              && Explains(reader.pc.evidence, ParamsOf(0, reader.request), reader.pc.reply)
    ensures s.readers[r].pc.reply.RejectedId? ==> s.readers[r].request.id == 0
    ensures s.readers[r].pc.reply.RejectedDepth? ==> !(1 <= s.readers[r].request.depth <= 5)
    ensures Answered(s.readers[r]) ==>
              AnswerStands(s.history, ParamsOf(0, s.readers[r].request), s.readers[r].pc.reply, s.readers[r].pc.evidence)
  {
    var reader := s.readers[r];
    RejectionsAreRight(s, r);
    if Answered(reader) {
      FreshnessFloor(s, r);
      AnswerIsLoaded(s.history, s.bumpedAt[FloorEpoch(reader)], ParamsOf(0, reader.request), reader.pc.reply,
                     reader.pc.evidence);
    }
  }

  lemma RejectionsAreRight(s: State, r: nat)
    requires Reachable(s) && r in s.readers && s.readers[r].pc.Done?
    ensures HistoryOk(s.history)
    ensures s.readers[r].pc.reply.RejectedId? ==> s.readers[r].request.id == 0
    ensures s.readers[r].pc.reply.RejectedDepth? ==> !(1 <= s.readers[r].request.depth <= 5)
  {
    ReachableKeepsInv(s);
    assert ReaderOk(s.history, s.bumpedAt, s.flights, s.readers[r]);
  }

  /** The reply is a failure that a query met, the absence of the department from the version asked,
      or a tree that passes the check. */
  ghost predicate AnswerStands(history: seq<Database>, p: Params, reply: Reply, log: seq<Read>) {
    && (reply == LoadFailed(RepositoryFailure) ==> exists i :: 0 <= i < |log| && log[i].answer.Failed?)
    && (reply == LoadFailed(DepartmentMissing) ==>
          && |log| > 0 && log[0].query == GetDepartment(p.id) && log[0].answer.Missing?
          && log[0].version < |history| && p.id !in history[log[0].version].departments)
    && (reply.TreeReply? ==> Valid(reply.tree, p.id, p.depth, p.withEmployees))
  }

  lemma AnswerIsLoaded(history: seq<Database>, floor: nat, p: Params, reply: Reply, log: seq<Read>)
    requires HistoryOk(history) && Sound(history, floor, log) && Explains(log, p, reply)
    ensures AnswerStands(history, p, reply, log)
  {
    match reply
    case LoadFailed(RepositoryFailure) => LoadStopsOnlyOnQueries(log, p.id, p.depth, p.withEmployees);
    case LoadFailed(DepartmentMissing) => MissingWasSeen(history, floor, p, log);
    case TreeReply(_) =>
      SoundIsPlausible(history, floor, log);
      LoadIsValid(log, p.id, p.depth, p.withEmployees);
  }

  /** The reply and its evidence are those of the entry stored under this key. */
  predicate FromStore(s: State, p: Params, reply: Reply, log: seq<Read>) {
    && KeyOf(p) in s.store && KeyOf(p) in s.origin && log == s.origin[KeyOf(p)].log
    && Accept(s.store[KeyOf(p)], p).Some? && reply == TreeReply(Accept(s.store[KeyOf(p)], p).value)
  }

  /** The reply and its evidence are those of the reader's flight, which is one for this very request. */
  predicate FromFlight(s: State, reader: Reader, reply: Reply, log: seq<Read>) {
    && reader.pc.Waiting? && reader.pc.flight in s.flights
    && var flight := s.flights[reader.pc.flight];
    && flight.process == reader.request.process && flight.params == ParamsOf(FloorEpoch(reader), reader.request)
    && flight.pc.Landed? && flight.pc.reply == reply && flight.pc.evidence == log
  }

  /** The log is one's own, and one read longer than before. */
  predicate OneMore(before: seq<Read>, log: seq<Read>) {
    before <= log && |log| == |before| + 1
  }

  /** A waiting reader gets its reply in one of three ways: from the last query of its own load, from its
      flight, or as the tree stored under the key of the captured epoch. */
  lemma ReplyProvenance(s: State, step: Step, r: nat)
    requires Reachable(s) && Enabled(s, step) && r in s.readers && !s.readers[r].pc.Done?
    requires r in Next(s, step).readers && Next(s, step).readers[r].pc.Done?
    ensures var reader := s.readers[r];
            var done := Next(s, step).readers[r].pc;
            || (step.QueryDirectly? && reader.pc.Direct? && OneMore(reader.pc.log, done.evidence))
            || (step.Deliver? && FromFlight(s, reader, done.reply, done.evidence))
            || (step.Lookup? && FromStore(s, ParamsOf(FloorEpoch(reader), reader.request), done.reply, done.evidence))
  {
    EpochOfReader(s, r);
    WhoFinishes(s, step, r);
    if step.Lookup? {
      StoredProvenance(s, ParamsOf(FloorEpoch(s.readers[r]), s.readers[r].request), step.got);
    }
  }

  lemma WhoFinishes(s: State, step: Step, r: nat)
    requires Enabled(s, step) && r in s.readers && !s.readers[r].pc.Done?
    requires r in Next(s, step).readers && Next(s, step).readers[r].pc.Done?
    ensures (step.QueryDirectly? || step.Deliver? || step.Lookup?) && step.reader == r
    ensures step.Lookup? ==> ReadCached(step.got, ParamsOf(s.readers[r].pc.epoch, s.readers[r].request)).Cached?
  {
  }

  lemma EpochOfReader(s: State, r: nat)
    requires Reachable(s) && r in s.readers
    ensures var reader := s.readers[r];
            && (reader.pc.GotEpoch? ==> reader.pc.epoch == FloorEpoch(reader))
            && (reader.pc.Waiting? ==>
                  && reader.pc.flight in s.flights && s.flights[reader.pc.flight].process == reader.request.process
                  && s.flights[reader.pc.flight].params == ParamsOf(FloorEpoch(reader), reader.request))
  {
    ReachableKeepsInv(s);
    assert ReaderOk(s.history, s.bumpedAt, s.flights, s.readers[r]);
  }

  /** A flight lands with the tree stored under its key, or after the last query or the Set of its own load. */
  lemma FlightProvenance(s: State, step: Step, f: nat)
    requires Reachable(s) && Enabled(s, step) && f in s.flights && !s.flights[f].pc.Landed?
    requires Next(s, step).flights[f].pc.Landed?
    ensures var flight := s.flights[f];
            var landed := Next(s, step).flights[f].pc;
            || (step.CheckAgain? && FromStore(s, flight.params, landed.reply, landed.evidence))
            || (step.QueryInFlight? && flight.pc.Loading? && OneMore(flight.pc.log, landed.evidence))
            || (step.StoreTree? && flight.pc.Storing? && landed.reply == TreeReply(flight.pc.tree)
                && landed.evidence == flight.pc.log)
  {
    WhoLands(s, step, f);
    if step.CheckAgain? {
      StoredProvenance(s, s.flights[f].params, step.got);
    }
  }

  lemma WhoLands(s: State, step: Step, f: nat)
    requires Enabled(s, step) && f in s.flights && !s.flights[f].pc.Landed?
    requires Next(s, step).flights[f].pc.Landed?
    ensures (step.CheckAgain? || step.QueryInFlight? || step.StoreTree?) && step.flight == f
    ensures step.CheckAgain? ==> ReadCached(step.got, s.flights[f].params).Cached?
  {
  }

  lemma StoredProvenance(s: State, p: Params, got: GetResult)
    requires Reachable(s) && MayGet(s, p, got) && ReadCached(got, p).Cached?
    ensures FromStore(s, p, TreeReply(ReadCached(got, p).tree), EvidenceOf(s, p))
  {
    ReachableKeepsInv(s);
    EntryUnderKey(s, p);
  }

  /** Only a flight that has loaded a tree for this very key puts it there. */
  lemma EntryProvenance(s: State, step: Step, p: Params)
    requires Enabled(s, step)
    requires KeyOf(p) in Next(s, step).store
    requires KeyOf(p) !in s.store || Next(s, step).store[KeyOf(p)] != s.store[KeyOf(p)]
    ensures step.StoreTree? && step.fits && step.applied
    ensures step.flight in s.flights && s.flights[step.flight].params == p && s.flights[step.flight].pc.Storing?
    ensures Next(s, step).origin[KeyOf(p)] == Origin(p, s.flights[step.flight].pc.tree, s.flights[step.flight].pc.log)
  {
    TreeKeyIsNotEpochKey(p.epoch, p.id, p.depth, p.withEmployees);
    if step.StoreTree? && step.fits && step.applied {
      if KeyOf(s.flights[step.flight].params) == KeyOf(p) {
        KeyOfInjective(s.flights[step.flight].params, p);
      }
    }
  }

  /** Every cache operation of the step fails. */
  predicate WithoutCache(step: Step) {
    match step
    case FetchEpoch(_, got) => got.GetFailed?
    case Lookup(_, got) => got.GetFailed?
    case CheckAgain(_, got) => got.GetFailed?
    case StoreTree(_, _, applied) => !applied
    case _ => true
  }

  /** The step is one of the reader's own, or of the flight it waits for. */
  predicate MovesOn(s: State, step: Step, r: nat) {
    match step
    case FetchEpoch(x, _) => x == r
    case Lookup(x, _) => x == r
    case Enter(x, _) => x == r
    case Deliver(x) => x == r
    case QueryDirectly(x, _) => x == r
    case CheckAgain(f, _) => r in s.readers && s.readers[r].pc.Waiting? && s.readers[r].pc.flight == f
    case QueryInFlight(f, _) => r in s.readers && s.readers[r].pc.Waiting? && s.readers[r].pc.flight == f
    case StoreTree(f, _, _) => r in s.readers && s.readers[r].pc.Waiting? && s.readers[r].pc.flight == f
    case _ => false
  }

  lemma {:induction false} FreshName(used: set<nat>) returns (n: nat)
    ensures forall x :: x in used ==> x < n
    decreases used
  {
    n := 0;
    if used != {} {
      var x :| x in used;
      var m := FreshName(used - {x});
      assert forall y :: y in used ==> y == x || y in used - {x};
      n := if m > x then m else x + 1;
    }
  }

  /** A repository query of the step does not fail. */
  predicate RepositoryAnswers(step: Step) {
    match step
    case QueryDirectly(_, answer) => !answer.Failed?
    case QueryInFlight(_, answer) => !answer.Failed?
    case _ => true
  }

  /** No reader is ever stuck, even if from now on every cache operation fails; and while the repository answers,
      it need not meet a failed query either. */
  lemma NeverBlocked(s: State, r: nat) returns (step: Step)
    requires Reachable(s) && r in s.readers && !s.readers[r].pc.Done?
    ensures Enabled(s, step) && MovesOn(s, step, r) && WithoutCache(step) && RepositoryAnswers(step)
  {
    ReachableKeepsInv(s);
    var reader := s.readers[r];
    assert ReaderOk(s.history, s.bumpedAt, s.flights, reader);
    match reader.pc
    case Begin => step := FetchEpoch(r, GetFailed);
    case GotEpoch(_) => step := Lookup(r, GetFailed);
    case Missed(_) =>
      var f := FreshName(s.flights.Keys);
      step := Enter(r, f);
    case Direct(log) =>
      var answer := EveryQueryHasAnAnswer(Current(s), LoadOf(log, ParamsOf(0, reader.request)).query);
      step := QueryDirectly(r, answer);
    case Waiting(_, f) =>
      assert FlightOk(s.history, s.bumpedAt, s.flights[f]);
      match s.flights[f].pc {
        case Recheck => step := CheckAgain(f, GetFailed);
        case Loading(log, _) =>
          var answer := EveryQueryHasAnAnswer(Current(s), LoadOf(log, s.flights[f].params).query);
          step := QueryInFlight(f, answer);
        case Storing(_, _) => step := StoreTree(f, false, false);
        case Landed(_, _, _) => step := Deliver(r);
      }
  }
}
