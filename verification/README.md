# Department forest and tree cache: verified model

The service keeps an organisation as a forest of departments with employees, in PostgreSQL, and answers
"give me the tree below department X, N levels deep" through an optional Redis cache. The cache is
cache-aside with versioned keys: every key carries a global epoch, a mutation increments the epoch after it
has committed, and a missing tree is loaded by one flight per key and process, query by query and without a
transaction. This project models both halves and proves what holds when they meet: the cache agrees with the
forest it speeds up.

**The forest.** `Forest` gives chains of parents (`Up`, `Reaches`), re-parenting and the cascade as a
fixpoint. `Storage` is the schema: both tables, both foreign keys with ON DELETE CASCADE, the two partial
unique indexes (roots count as one parent), key sequences, text lengths, and the reassign transaction row by
row in any order. `WellFormed` collects the invariant: parent pointers are acyclic, every parent and every
employee's department exists, names are unique per parent. `Reassignment` says what the two re-parenting
operations do to every chain, `Mutations` is each service operation with its checks in order, its one write
and its reply, `Effects` says what each does to the tables and replies, and what each refusal means, without
naming those functions. `Repositories` and `Services` are the Go structs as classes over shared, mutable tables, each
method proved against those functions.

**The tree.** `Trees` defines what it means that a response is a tree of the forest (`Represents`), the check
on cached trees, and truncation. `Loading` is the builder as a function of the log of answers its separate
queries got, so that each query can be a step of its own. `Json`, `CacheKeys`, `Entries` and `Ttl` are the
payload, the key and epoch text, what a read makes of stored bytes, and the jittered time to live in 64 bits.

**The protocol.** `Protocol` is a transition system: any number of processes, readers and writers with program
counters, an append-only history of database versions, the shared store, one flight group per process. Reading
the epoch, looking up, entering a flight, looking again, every single query, the Set, the release of the
flight, the commit and the increment are separate steps; any cache call may fail, any tree entry may be gone
or corrupted. The state remembers the version at which the counter reached each epoch, the version each query
saw, and which load an entry came from. `Guarantees` draws the conclusions over all reachable states,
`SingleLoad` the one about a single load per key, `Flights` says how long a flight answers for its key, what a
hit saves and how cache errors are bypassed, `Scenarios` spells out one stale run. `CacheStores` and the read
methods in `Services` are the same cache code as objects, for callers one at a time. Any query and any cache
call of these objects may fail; ghost counters of queries, failures and faults let every contract say that an
error is answered exactly when a query failed.

Three things the proofs make visible:

- Between a commit and its increment the cache may serve the old tree (`StaleEntryHappens`). Agreement is
  guaranteed in quiet states, where no commit has followed the last increment that reached the counter. Outside
  them an entry is right exactly when the database still gives every answer its load got (`EntryRightExact`);
  after commits in a quiet state that means exactly when nothing the tree shows has changed
  (`StaleUntilBumped`, `StaleIffViewChanged`).
- Reassign moves the children before it deletes the source. If the source is a child of the target and one of
  its own children bears its name, the move meets the source itself and rolls back, although the finished
  tables would break no constraint. `SpuriousConflictExact` says when, `SpuriousConflictHappens` shows it.
- A pointer to a nil employee list is the one shape the payload does not keep (`RoundTripExact`); the check on
  cached trees rejects it (`NilListRejected`).

## Model

| member | source | states |
|---|---|---|
| `Guarantees.CacheAgreesWithDatabase` | internal/service/department_tree_cache.go:37-96 | In every reachable state with no commit since the last increment that reached the counter, whatever is stored under the current epoch is accepted and is the tree of the current database for that id, depth and employee flag, though each query of its load was a separate step |
| `Guarantees.CachedTreeIsTheForest` | internal/service/department_tree_cache.go:37-96 | In such a state a department occurs at a level of the accepted tree once if it lies that many steps below the root and within the depth asked for, and otherwise never |
| `Guarantees.EvidenceOfNow` | internal/service/department_service.go:143-155 | A load none of whose queries saw a version older than the newest read that version alone: its tree is the tree of the current database, and its "not found" is true of it |
| `Guarantees.QuietReadIsExact` | internal/service/department_tree_cache.go:37-66 | In a quiet state a finished read whose epoch is the current one, by hit, flight or direct load, has the tree of the current database, or reports a department that does not exist |
| `Guarantees.FreshnessFloor` | internal/service/department_tree_cache.go:38-65 | Behind every reply, tree or error, stands a load for this very request, no query of which saw a version older than the one current when the counter reached the epoch the reader captured, or stood as the request arrived if it captured none |
| `Guarantees.CapturedEpochHolds` | internal/service/department_tree_cache.go:38-65 | In any run, once a reader's read of the counter has returned an epoch, whatever it is answered later, by hit, leading a flight, joining one or a direct load, comes only from versions at or after the one current when the counter reached that epoch |
| `Guarantees.AnnouncedMutationIsSeen` | internal/service/department_tree_cache.go:179-185 | In any run, a request that arrives after a mutation's increment succeeded is answered, with a tree or an error, from that mutation's version or later ones only; a department reported missing is missing from one of these versions |
| `Guarantees.StoredUnderItsEpoch` | internal/service/department_tree_cache.go:93-93 | An entry was loaded for exactly the parameters in its key, from versions no older than the one at which its epoch began: a slow old reader never puts its data under a newer epoch |
| `Guarantees.BumpInvalidates` | internal/service/department_tree_cache.go:179-185 | An increment that reaches the counter leaves no tree stored under the new epoch |
| `Guarantees.StaleUntilBumped` | internal/service/department_service.go:79-83 | A commit in a quiet state leaves every entry of the epoch in place and accepted; the entry is still the tree of the database if and only if, from its root and within its depth, the commit changed no row, no child set and (with employees) no employee |
| `Guarantees.StaleIffViewChanged` | internal/service/department_service.go:79-83 | However many commits and steps later, as long as that entry has not been replaced, it is the tree of the database if and only if the database looks from its root as it did in the quiet state |
| `Guarantees.EntryRightExact` | internal/service/department_tree_cache.go:68-95 | In every reachable state, quiet or not, a stored tree is the tree of the current database if and only if the current database would still give every answer its load got |
| `Guarantees.FailOpen` | internal/service/department_tree_cache.go:37-111 | A finished read was refused for its own arguments, or ended a load for this very request made of true answers: in a failure only if a query of it failed, in "not found" only if its first query asked for this department in a version that lacks it, in a tree only if that passes the check. No failing or malformed cache answer shows |
| `Guarantees.ReplyProvenance` | internal/service/department_tree_cache.go:37-66 | A waiting reader gets its reply from the last query of its own load, from its flight, which is one for this very request, or as the tree stored under the key of the epoch it captured |
| `Guarantees.FlightProvenance` | internal/service/department_tree_cache.go:68-96 | A flight lands with the tree stored under its key, after the last query of its own load, or after the Set of the tree it loaded |
| `Guarantees.EntryProvenance` | internal/service/department_tree_cache.go:93-93 | Only a flight that has loaded a tree for this very key puts it there |
| `Guarantees.NeverBlocked` | internal/service/department_tree_cache.go:37-66 | A reader that is not finished can always move, or its flight can, even if every cache operation fails from now on, and without any repository query failing. How long a flight answers for its key is stated in Flights |
| `Guarantees.RunGrows` | internal/service/department_tree_cache.go:179-185 | Over any stretch of a run the history and the counter only grow, announced mutations stay announced, and new readers start at the epoch reached or later |
| `Flights.ReleasedIsNotJoined` | internal/service/department_tree_cache.go:58-65 | In any run, once a flight has been released, no reader that had yet to enter ever waits for it: what it landed with, a failure say, answers only those who joined before |
| `Flights.ForgottenForGood` | internal/service/department_tree_cache.go:58-65 | A released flight never holds a key again |
| `Flights.LandedCanBeForgotten` | internal/service/department_tree_cache.go:58-65 | In every reachable state with a landed flight in its slot, some enabled step frees that slot and changes no reader, flight or entry |
| `Flights.FreeKeyIsLed` | internal/service/department_tree_cache.go:58-65 | A reader that misses while nobody holds its key leads a flight of its own, for its own request, which has loaded nothing yet |
| `Flights.StoredTreeIsServed` | internal/service/department_tree_cache.go:88-95 | A tree that a flight has stored answers the next lookup of its key at once, without a query |
| `Flights.StoredAnswers` | internal/service/department_tree_cache.go:43-56 | Whatever is stored under the key of a reader's captured epoch answers its lookup |
| `Flights.ErrorBypassesFlights` | internal/service/department_tree_cache.go:38-53 | In any run, a reader whose process has no cache, or whose read of the counter or of the cache fails, loads on its own and never waits for a flight |
| `Flights.ErrorStoresNothing` | internal/service/department_tree_cache.go:69-78 | In any run, a flight whose second look at the cache fails never stores what it loads |
| `SingleLoad.OneLoadPerKey` | internal/service/department_tree_cache.go:58-95 | Over a whole run in which a process's own cache calls work and its trees fit, any two of its flights for the same key that both loaded from the repository are the same flight, whatever other processes do |
| `SingleLoad.LoadsOnlyInFlights` | internal/service/department_tree_cache.go:38-60 | In such a run none of the process's readers loads outside a flight, so the previous row counts every load |
| `SingleLoad.StepKeepsOnce` | internal/service/department_tree_cache.go:68-95 | Every step of such a run keeps: one unfinished flight per key, and while one is busy or the key is not stored, no other has loaded it |
| `SingleLoad.SteadyReadsWork` | internal/service/department_tree_cache.go:98-111 | A lookup that sees the store as it is accepts the entry if there is one and misses otherwise: a stored tree is never rejected and reloaded |
| `Scenarios.StaleEntryHappens` | internal/service/department_service.go:294-298 | A complete run: a read fills the cache, a rename commits, and the cache accepts a tree that is not the database's |
| `Protocol.StepKeepsInv` | internal/service/department_tree_cache.go:37-111 | Every step, of any reader, flight or writer, keeps the protocol invariant: all versions well formed, the counter text equals the number of increments, every entry and reply is backed by a log of true answers no older than its epoch |
| `Protocol.RunKeepsInv` | internal/service/department_tree_cache.go:37-111 | The invariant holds in every state of every run |
| `Protocol.EpochReadIsCount` | internal/service/department_tree_cache.go:151-167 | A reader that gets an epoch gets the number of increments that have reached the counter |
| `Protocol.EntryAccepted` | internal/service/department_tree_cache.go:113-149 | Whatever versions the separate queries of its load saw, a stored tree decodes to itself and passes the check for its key |
| `Protocol.EntryUnderKey` | internal/service/department_tree_cache.go:43-56 | The entry under a request's key was loaded for exactly that epoch, id, depth and flag |
| `Protocol.AcceptedIsStored` | internal/service/department_tree_cache.go:98-111 | A tree accepted from any Get is the stored entry, with its evidence |
| `Protocol.EnterKeepsInv` | internal/service/department_tree_cache.go:58-65 | Joining the active call of a key, or leading a new one, keeps the invariant: a joiner waits for a flight of its own parameters |
| `Protocol.QueryInFlightKeepsInv` | internal/service/department_service.go:143-155 | One more answered query of a flight's load keeps the invariant, and the load has a next move |
| `Protocol.StoreTreeKeepsInv` | internal/service/department_tree_cache.go:88-95 | Storing a tree under the captured epoch, or dropping it because it is too big or the Set fails, keeps the invariant |
| `Protocol.NewVersionKeepsInv` | internal/service/department_service.go:79-83 | A commit keeps the invariant: evidence, entries and replies stay true of the longer history |
| `Protocol.IncrementKeepsInv` | internal/service/department_tree_cache.go:179-185 | An increment that reaches the counter keeps the invariant, and records that the mutation is no newer than the new epoch |
| `Protocol.CommittedIsWellFormed` | internal/service/department_service.go:49-86 | The version a mutation commits is well formed if the one before it was |
| `Effects.CreateDepartmentEffect` | internal/service/department_service.go:49-86 | A create adds one row under the next key, made of the trimmed name, the parent asked for and the time, and replies with it, nothing else changing; or it changes nothing, and the error names the first condition that failed |
| `Effects.PatchDepartmentEffect` | internal/service/department_service.go:226-301 | A patch writes one row, with the name and parent asked for and everything else as it was, every other row, every employee and both sequences staying, and replies with the row as written; or it changes nothing, and the error names the first condition that failed |
| `Effects.PatchDepartmentExact` | internal/service/department_service.go:226-301 | A patch with a proper name commits if and only if the row it asks for leaves the tables well formed, and then stores and replies exactly that row |
| `Effects.RemoveDepartmentEffect` | internal/service/department_service.go:157-224 | A delete in mode "cascade" removes exactly the subtree and its employees; in mode "reassign" it commits if and only if its arguments are good and no child name is shared, and then exactly the source is gone, its children and employees and only they pass to the target, and every chain runs as before or through the target. The reply carries message, id, mode and, for reassign, the target. Otherwise nothing changes, and the error names the first condition that failed |
| `Effects.PassingOnEffect` | internal/repository/department_repository.go:82-122 | The same of the transaction: a duplicate key if and only if a child name is shared, and otherwise the hand-over of children, employees and chains |
| `Effects.CreateEmployeeEffect` | internal/service/employee_service.go:56-100 | Creating an employee adds one row under the next key, each field from the input meant for it, and replies with it, nothing else changing; or it changes nothing, and the error names the first condition that failed |
| `Effects.PatchEmployeeEffect` | internal/service/employee_service.go:141-220 | Patching an employee writes one row, every field that is set from the input meant for it and every other as it was, and replies with the row as written, nothing else changing; or it changes nothing, and the error names the first condition that failed |
| `Effects.RemoveEmployeeEffect` | internal/service/employee_service.go:125-137 | Deleting an employee removes that row alone; a missing one is reported and nothing changes |
| `Effects.RequiredStringExact` | internal/validator/validation.go:9-21 | A text is accepted if and only if what is left without the white space around it has between 1 and 200 characters, and exactly that is stored |
| `Mutations.RunKeepsWellFormed` | internal/service/department_service.go:49-301 | Every database along any sequence of create, patch, cascade, reassign and employee operations, each taken as atomic, is well formed if the first is: acyclic, referentially intact, names unique per parent and among roots |
| `Mutations.PerformKeepsWellFormed` | internal/service/department_service.go:49-301 | Each single mutation, accepted or refused, keeps the tables well formed |
| `Mutations.RefusedChangesNothing` | internal/service/department_service.go:49-301 | A mutation that does not commit leaves the tables exactly as they were |
| `Mutations.PatchChecksExact` | internal/service/department_service.go:226-296 | The checks of a patch with a proper name, if it has one, accept if and only if writing the row it asks for leaves the tables well formed, and yield that row: simultaneous rename and move, move to root and the excluded own id included |
| `Mutations.CreateChecksExact` | internal/service/department_service.go:49-86 | A create with a proper name is accepted if and only if adding the row leaves the tables well formed |
| `Mutations.CreateChecksSuffice` | internal/service/department_service.go:50-81 | A create that passes its checks can fail in the database only because the key sequence is exhausted |
| `Mutations.PatchChecksSuffice` | internal/service/department_service.go:280-296 | A patch that passes its checks violates no foreign key, no length and neither unique index |
| `Mutations.CreateEmployeeChecksSuffice` | internal/service/employee_service.go:57-95 | An employee create that passes its checks can fail in the database only because the key sequence is exhausted |
| `Mutations.PatchEmployeeChecksSuffice` | internal/service/employee_service.go:142-215 | An employee patch that passes its checks violates neither the foreign key nor a length |
| `Mutations.PatchReaches` | internal/service/department_service.go:249-278 | What an accepted patch does to every chain: departments below the moved one keep their chain up to it and continue along the new parent's chain, all others keep theirs |
| `Mutations.CreateAddsALeaf` | internal/service/department_service.go:74-81 | A created department hangs below its parent's chain; every other row and chain, and every employee, is as before |
| `Mutations.RemoveKeepsWellFormed` | internal/service/department_service.go:157-224 | Both delete modes keep the tables well formed |
| `Mutations.CreateKeepsWellFormed` | internal/service/department_service.go:49-86 | Create keeps the tables well formed |
| `Mutations.PatchKeepsWellFormed` | internal/service/department_service.go:226-301 | Patch keeps the tables well formed |
| `Mutations.CreateEmployeeKeepsWellFormed` | internal/service/employee_service.go:56-100 | Creating an employee keeps the tables well formed |
| `Mutations.PatchEmployeeKeepsWellFormed` | internal/service/employee_service.go:141-220 | Patching an employee keeps the tables well formed |
| `Mutations.RemoveEmployeeKeepsWellFormed` | internal/service/employee_service.go:125-137 | Deleting an employee keeps the tables well formed |
| `Reassignment.MoveCheckExact` | internal/service/department_service.go:267-274 | The cycle check refuses a move if and only if the raw move would create a cycle |
| `Reassignment.ReassignCheckExact` | internal/service/department_service.go:199-206 | The cycle check refuses a reassign if and only if handing all children of the source to the target would create a cycle |
| `Reassignment.MoveReaches` | internal/service/department_service.go:276-276 | The reachability relation after one department gets a new parent, in terms of the one before |
| `Reassignment.BulkMoveReaches` | internal/repository/department_repository.go:88-92 | The reachability relation after all children of the source get the target as parent, in terms of the one before |
| `Reassignment.ReassignEffect` | internal/repository/department_repository.go:82-105 | On success exactly the source's row disappears, every employee survives, only the source's employees are redirected and only in their department, and every remaining chain is the predicted one |
| `Reassignment.ReassignSubtree` | internal/repository/department_repository.go:82-105 | The target's new subtree is its old one plus the source's, minus the source |
| `Reassignment.OnlyTheSourceGoes` | internal/repository/department_repository.go:100-102 | Once children and employees are moved, deleting the source cascades to nothing else |
| `Reassignment.ReassignKeepsWellFormed` | internal/repository/department_repository.go:82-105 | A reassign without conflict succeeds and keeps the tables well formed |
| `Reassignment.ReassignConflictExact` | internal/repository/department_repository.go:87-112 | In whatever order the child rows are visited, the transaction fails, always with a duplicate key, if and only if a child of the source and a current child of the target share a name; a source that is still a child of the target counts |
| `Reassignment.HandedOverExact` | migrations/02_add_indexes_and_constraints.sql:9-15 | The tables a reassign aims at break no constraint if and only if no child of the source shares its name with a child of the target other than the source |
| `Reassignment.SpuriousConflictExact` | internal/repository/department_repository.go:87-112 | Reassign refuses a hand-over the finished tables would allow if and only if the source is a child of the target, one of its children has its name, and no other name is shared |
| `Reassignment.SpuriousConflictHappens` | internal/repository/department_repository.go:87-112 | A concrete well-formed forest of three departments on which that happens |
| `Storage.ReassignOrderIrrelevant` | internal/repository/department_repository.go:87-105 | The row-by-row transaction has the same outcome for every order in which the engine visits the rows |
| `Storage.MoveRowsExact` | internal/repository/department_repository.go:88-92 | Moving rows one by one, each checked at once against the unique index, fails if and only if one of them meets a name already below the target, and otherwise moves them all |
| `Storage.DeleteExact` | migrations/01_create_departments_and_employees.sql:8-11 | Deleting a department removes exactly the departments with it on their reflexive ancestor chain and exactly their employees, and leaves every other chain as it was |
| `Storage.DeleteKeepsWellFormed` | migrations/01_create_departments_and_employees.sql:22-25 | A cascade delete leaves no dangling reference and no broken constraint |
| `Storage.FreshRowKeepsAcyclic` | internal/service/department_service.go:74-79 | A new row below an existing parent, or none, closes no cycle |
| `Forest.CascadeIsReachability` | migrations/01_create_departments_and_employees.sql:8-11 | Iterating the foreign-key rule to its fixpoint, which terminates, deletes exactly the departments that reach a seed |
| `Forest.CascadeIsSubtree` | migrations/01_create_departments_and_employees.sql:8-11 | From one department the cascade is its subtree |
| `Forest.ReparentAcyclic` | internal/service/department_service.go:267-276 | On an acyclic forest, giving a set of departments a common new parent keeps it acyclic if and only if none of them lies on the new parent's chain |
| `Forest.RemovalKeepsChains` | migrations/01_create_departments_and_employees.sql:8-11 | Removing a set closed under children changes no remaining chain |
| `Forest.DistanceUnique` | internal/repository/department_repository.go:189-216 | In an acyclic forest an ancestor lies at one distance only |
| `Repositories.DepartmentRepository.WouldCreateCycle` | internal/repository/department_repository.go:189-216 | The walk ends on every acyclic forest, after at most as many successful fetches as there are departments; it answers true if and only if the department is on the reflexive chain of the proposed parent, "not found" only if that parent does not exist, and an error exactly if one of its queries failed |
| `Repositories.WalkIsShort` | internal/repository/department_repository.go:194-215 | The walk never revisits an ancestor: its steps are bounded by the number of departments |
| `Repositories.DistinctAncestors` | internal/repository/department_repository.go:194-215 | The first n departments of an acyclic chain are n different rows |
| `Repositories.DepartmentRepository.ReassignAndDelete` | internal/repository/department_repository.go:82-122 | The transaction commits as a whole or leaves the identical state, for any row order; it ends in an unexplained error exactly if a query failed |
| `Repositories.DepartmentRepository.GetChildren` | internal/repository/department_repository.go:126-134 | Unless the query fails: each child of the department once, with its row, in an order of the engine's choosing |
| `Repositories.DepartmentRepository.ExistsByNameAndParent` | internal/repository/department_repository.go:138-158 | Unless the query fails: true if and only if a row has this name under this parent, a nil parent meaning the roots |
| `Repositories.DepartmentRepository.ExistsByNameAndParentExceptID` | internal/repository/department_repository.go:162-185 | The same, not counting one id |
| `Repositories.EmployeeRepository.ListByDepartmentID` | internal/repository/employee_repository.go:66-76 | Unless the query fails: each employee of the department once, with its row |
| `Services.DepartmentService.CreateDepartment` | internal/service/department_service.go:49-86 | Tables and reply are those of the specification function, whose effect is stated in Effects, unless a query of this call failed: then that error is returned and nothing has changed; one increment is asked for exactly when it committed, and lost only if the store is at fault |
| `Services.DepartmentService.PatchDepartment` | internal/service/department_service.go:226-301 | Tables and reply are those of the specification function, whose effect is stated in Effects, unless a query of this call failed: then that error is returned and nothing has changed; one increment is asked for exactly when it committed, and lost only if the store is at fault |
| `Services.DepartmentService.DeleteDepartment` | internal/service/department_service.go:157-224 | Tables and reply are those of the specification function, whose effect is stated in Effects, unless a query of this call failed: then that error is returned and nothing has changed; one increment is asked for exactly when it committed, and lost only if the store is at fault |
| `Services.DepartmentService.BuildDepartmentTree` | internal/service/department_service.go:104-141 | On fixed tables the result is a tree of the forest to the depth asked for, with exactly each node's own employees, if no query of this call failed, and that error if one did |
| `Services.DepartmentService.LoadDepartmentTree` | internal/service/department_service.go:143-155 | If no query of this call failed, a tree of the forest, or not found exactly if the department does not exist; otherwise that error |
| `Services.DepartmentService.LoadOrCacheDepartmentTree` | internal/service/department_tree_cache.go:68-96 | For any captured epoch: the answer was stored under this key and cost no query, or is the tables' own. Only the answer is written, only under this key, only if it fits and the look at the cache returned no error. While the store works, a stored tree is the answer and a fitting one is stored afterwards. A store that agreed with the tables still does if the epoch is the counter's or an older one |
| `Services.DepartmentService.GetDepartmentTreeCached` | internal/service/department_tree_cache.go:37-66 | The same for a whole read under the counter's epoch, whichever cache calls fail |
| `Services.DepartmentService.GetDepartmentTree` | internal/service/department_service.go:88-102 | Bad arguments are refused; while the store agrees with the tables, or without a cache, the answer is exactly what the tables give if no query of this call failed; while the store works, a stored tree is answered without a query and a fitting one is stored afterwards; the read asks for no increment and keeps the agreement |
| `Services.ReadCachedDepartmentTree` | internal/service/department_tree_cache.go:98-111 | A tree read from the cache is the one stored under this key, decoded and checked; unless the store is at fault, one that is there and passes is read |
| `Services.ReadDepartmentTreeEpoch` | internal/service/department_tree_cache.go:151-167 | An epoch, if one can be read, is the non-negative number in the counter, absent counting as zero; one cannot be read only if the store is at fault or holds no such number |
| `Services.BumpDepartmentTreeEpoch` | internal/service/department_tree_cache.go:179-185 | Without a cache nothing; with one, exactly one increment is asked for, which reaches the counter unless the store is at fault |
| `Services.EmployeeService.CreateEmployee` | internal/service/employee_service.go:56-100 | Tables and reply are those of the specification function, whose effect is stated in Effects, unless a query of this call failed: then that error is returned and nothing has changed; one increment is asked for exactly when it committed, and lost only if the store is at fault |
| `Services.EmployeeService.PatchEmployee` | internal/service/employee_service.go:141-220 | Tables and reply are those of the specification function, whose effect is stated in Effects, unless a query of this call failed: then that error is returned and nothing has changed; one increment is asked for exactly when it committed, and lost only if the store is at fault |
| `Services.EmployeeService.DeleteEmployee` | internal/service/employee_service.go:125-137 | Tables and reply are those of the specification function, whose effect is stated in Effects, unless a query of this call failed: then that error is returned and nothing has changed; one increment is asked for exactly when it committed, and lost only if the store is at fault |
| `Services.Application.Execute` | internal/service/department_service.go:49-301 | Any mutation commits exactly when its specification does unless a query of it failed, keeps the tables well formed, is announced exactly when it committed, and unless the store is at fault a store that agreed with the old tables agrees with the new |
| `CacheStores.CacheStore.Get` | internal/cache/redis.go:61-75 | A Get fails, misses an entry that expires, sees corrupted bytes or the stored value; the counter is never lost |
| `CacheStores.CacheStore.Set` | internal/cache/redis.go:77-90 | A Set stores exactly this value or nothing, and never with a time to live that is not positive |
| `CacheStores.CacheStore.Increment` | internal/cache/redis.go:92-102 | An increment writes the decimal text of the next number, from zero if absent, or changes nothing |
| `CacheStores.IncrementAgrees` | internal/service/department_tree_cache.go:179-185 | After an increment the store agrees with any tables at all, since no entry lies under the new epoch |
| `CacheStores.PutAgrees` | internal/service/department_tree_cache.go:88-93 | Storing a tree of the tables under the current epoch keeps the store in agreement |
| `Trees.OccursByDistance` | internal/service/department_service.go:104-141 | In a tree of the forest a department occurs at a level once if it lies that many steps below the root and in range, and otherwise never |
| `Trees.OccursOnce` | internal/service/department_service.go:104-141 | No department occurs at two levels of a tree of an acyclic forest |
| `Trees.EveryNodeIsARow` | internal/service/department_service.go:105-120 | Every node carries its department's row and exactly its own employees, at a level equal to its distance from the root |
| `Trees.TruncateRepresents` | internal/service/department_service.go:122-137 | Cutting a tree of the forest to a smaller depth gives a tree of the forest of that depth |
| `Trees.RepresentsIffSameView` | internal/service/department_service.go:104-141 | A tree of one database is a tree of another if and only if both hold the same rows, child sets and (with employees) employees from its root down to its depth |
| `Trees.RepresentedIsValid` | internal/service/department_tree_cache.go:121-149 | Every tree of the forest passes the check on cached trees |
| `Trees.CheckNode` | internal/service/department_tree_cache.go:121-149 | The recursive check with its loop over the children decides exactly the predicate the other results use |
| `Loading.LoadOnFixedDatabase` | internal/service/department_service.go:143-155 | A load all of whose queries saw one database gives a tree of it, or reports a department it does not have |
| `Loading.RepresentsExact` | internal/service/department_service.go:143-155 | On a well-formed database, the trees that represent it are exactly those some load can build from its answers |
| `Loading.LoadRightExact` | internal/service/department_service.go:143-155 | Whatever databases answered its queries, a load has built a tree of a given database if and only if each of its answers is one that database gives |
| `Loading.ForestKeepsOrder` | internal/service/department_service.go:126-138 | The children of a built node are exactly the rows of the answer, in the repository's order, each with its own fields |
| `Loading.LoadIsValid` | internal/service/department_tree_cache.go:113-149 | Whatever database state each separate query saw, the tree a load builds passes the check for its id, depth and flag |
| `Loading.ValidatorExact` | internal/service/department_tree_cache.go:113-149 | The check passes a tree if and only if some load could have built it from individually plausible answers |
| `Loading.LoadStopsOnlyOnQueries` | internal/service/department_service.go:143-155 | A load ends in an error only on a query that failed or on a missing root |
| `Loading.LoadMovesOn` | internal/service/department_service.go:104-141 | After any fitting answer to the query it asked, a load is done with every answer used, failed, or knows its next query |
| `Loading.AnswersArePlausible` | internal/repository/department_repository.go:126-134 | Any answer of a well-formed database has positive ids and children that name the parent asked for |
| `Loading.ReplayLoad` | internal/service/department_service.go:104-141 | For every tree that passes the check there is a log from which a load builds exactly it |
| `Json.RoundTripExact` | internal/dto/department.go:9-16 | Decoding what was encoded gives the same tree if and only if no node points at a nil list: omitted and empty employees stay apart |
| `Json.TreeRoundTrip` | internal/service/department_tree_cache.go:88-108 | For every tree, at any depth, decoding what was encoded gives the tree with such pointers dropped |
| `Json.TreeFields` | internal/dto/department.go:9-16 | The payload has the six fields under their names, employees absent for a nil pointer, null for nil lists |
| `Json.ValidRoundTrip` | internal/service/department_tree_cache.go:104-110 | A tree that passes the check survives the cache unchanged |
| `Json.NilListRejected` | internal/service/department_tree_cache.go:126-132 | A tree with a pointer to a nil list, encoded and decoded, fails the check that wants employees |
| `Json.EmployeeRoundTrip` | internal/model/employee.go:5-12 | Decoding an encoded employee gives the same row |
| `CacheKeys.TreeKeyInjective` | internal/service/department_tree_cache.go:169-177 | Two keys are equal only if epoch, id, depth and flag all are, for all integers |
| `CacheKeys.TreeKeyText` | internal/service/department_tree_cache_test.go:377-377 | The text of the key for one set of arguments, as the project's own expectations spell it |
| `CacheKeys.TreeKeyIsNotEpochKey` | internal/service/department_tree_cache.go:17-17 | No tree key is the epoch key |
| `CacheKeys.ParseDecimal` | internal/service/department_tree_cache.go:161-166 | Parsing the decimal text of any 64-bit integer gives that integer back |
| `Entries.KeyOfInjective` | internal/service/department_tree_cache.go:43-43 | Requests share a key only if they ask for the same tree of the same epoch |
| `Entries.RepresentedIsAccepted` | internal/service/department_tree_cache.go:98-111 | A tree of a well-formed database, stored and read back, is accepted and unchanged |
| `Ttl.MaxJitter` | internal/service/department_tree_cache.go:196-200 | The largest jitter is a tenth of the base, or less only where base and jitter together reach the largest duration; no step leaves 64 bits |
| `Ttl.Jitter.Apply` | internal/service/department_tree_cache.go:191-211 | A base that is not positive comes back as it is; a positive one gives the base plus one draw among all jitters up to a tenth, without overflow |

## Left out

- HTTP handlers, middleware, health check, start-up, nginx and compose files: plumbing around the operations modelled here.
- The list and get-by-id endpoints for employees: a single query each.
- Non-nil employee lists: that a query without rows gives an empty list, not a nil one, is taken from GORM's Find and not proved; it is why the builder makes no pointer to a nil list.
- PostgreSQL and GORM internals: taken as contracts. A query reads the latest committed version, a transaction is atomic, unique indexes are checked row by row, deletes cascade at once. The insert that a Save falls back to when its row is gone needs another writer in between and is not modelled.
- Redis internals: a Get, Set or increment takes effect at one step or not at all; an increment reported as failed may still have reached the counter. A Set that takes effect later than its step is not modelled.
- Loss or reset of the epoch counter: it is stored without a time to live and only keys with one are evictable, so it never decreases. A malformed counter is modelled as something a Get sees, not as something stored in its place.
- A corrupted payload that decodes, passes the check and yet was never stored under its key.
- The internals of the flight group: at most one active call per key and process, and every joiner gets that call's result; panics and exits inside a call are not modelled.
- Interleaving inside one mutation: its checks and its write are taken as one step, so the forest invariant is stated for atomic mutations. Two concurrent moves that each pass their cycle check are not covered.
- A write that commits although its reply is lost: in the classes a failing query changes nothing. In the protocol it is a commit whose increment is lost.
- Context deadlines and cancellation: at most a failing repository query.
- Monotonic reads between a commit and its increment, freshness after a failed increment, and one consistent snapshot for a load that overlaps commits: the code promises none of them.
- Services.DepartmentService.LoadOrCacheDepartmentTree: for one caller at a time; other steps between its cache calls and queries are in Protocol.
- Services.DepartmentService.GetDepartmentTreeCached: for one caller at a time, for whom the flight group only calls the body; joining and leading flights is in Protocol.
- Services.DepartmentService.GetDepartmentTree: for one caller at a time; what concurrent readers and writers see is covered by Guarantees.
- Loading.LoadOnFixedDatabase: leaves the order of siblings and of employees free, because the queries name none; the builder keeps whatever order the answers have (Loading.ForestKeepsOrder).
- The size limit of the payload and marshalling errors: which trees fit is a given predicate in the classes, and left open at every Set in the protocol.
- JSON as text: payloads are JSON values. Duplicate and case-insensitive field names, number syntax and the text of instants are not modelled; instants are opaque.
- Dates sent by callers: parsed or not a date, with an opaque instant; wall-clock creation times are an input.
- Ttl.Generator.Int63n: which number a draw gives is left open; that the mutex lets one draw happen at a time is taken as given.
- Trimming of texts follows the White_Space characters; other Unicode rules (normalisation, invalid bytes) are not modelled.
- Logging wrappers around the store, and configuration apart from the positive time to live.
