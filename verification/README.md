# do-harness: a verified model

This project models the protocols and algorithms that do-harness relies on and proves what they promise, in
Dafny. Every statement is for all inputs, all runs or all interleavings. `dafny verify dfyconfig.toml` checks it.

How the system is modelled:

- The event log is a sequence of rows with unique indexes. Writers, auditors and the backfill work on it; SHA-256
  and JSON canonicalisation are parameters. A lemma that detects tampering assumes no collision among the finitely
  many strings hashed in the logs at hand, and nothing else about the hash but its hexadecimal alphabet.
- A transaction holds the write lock from its start, so it is one atomic step that commits or rolls back. `Retry` is
  the replay of such a step while the database is busy, with anything committed by others between two attempts;
  `Callers` is any number of such calls with their attempts interleaved. Task commands (`Tasks`,
  `TaskHistory`, `TaskCalls`, `ClosedGates`, `UpgradedTasks`) and strike counters (`Strikes`, `StrikeHistory`,
  `BeatHistory`) use both. Storage faults are parameters, so a statement about all of them covers every failure. In
  `TaskLog` a command's transaction also appends its event to the hash chain.
- Concurrent writers and migrators are state machines that take one statement at a time; a schedule picks who
  moves and how the storage answers. Statements quantify over schedules.
- The remaining modules follow one source file each: the YAML cycle search, the artifact walk, the Cargo resolver
  and the policy that consumes it, the calendar functions, LIKE prefixes, heading slugs and sections, drafted shell
  lines, git records and change-aware selection, and diagnostic escaping.

State that the source updates in place is a class whose methods are proved against a function of the old state;
the lemmas are about those functions.

What the proofs show the code does differently from its own documentation or from what a reader would expect:

- `struck_signatures` documents a literal prefix match, but SQLite's LIKE folds ASCII case. `Like.LiteralIff` gives
  the exact condition; `Like.StruckMeansThreeInARow` shows that the caller, which compares names itself, is right.
- A heading whose anchor is `top` shares the identifier `#top` with the preamble, and one of the two sections is then
  lost. `Sections.NothingLostIff` gives the exact condition.
- The `applied_max == known_max` shortcut of `migrate_with_retry` looks at versions only. Any failure but MigrationDiverged
  and FutureDatabase reaches it, contention once the retries are used up, and the call can then answer Ok over a
  checksum that disagrees. `MigrationOutcomes.OkHidesAMismatchIff` says exactly when.
- A call may end in FutureDatabase after it applied migrations in an earlier attempt. `NewerBuilds.FutureAfterApplyingIff`
  says exactly from which starts, and `NewerBuilds.OvertakingRun` gives the run.
- A gated command may commit although its gate was closed when it was called, if the gate opens between two attempts
  (`ClosedGates.GateMayOpenBetweenAttempts`); the guard holds for the attempt that commits. `ClosedGates.MayCommitIff`
  says exactly which calls can commit at all: those on a live task, or on an id not given out yet.
- The count of tasks without an Added event is documented to prove an out-of-band write when it is not zero, but the
  migration that introduced the log gives tasks already begun another event. `UpgradedTasks.CountedForeverIff` says
  exactly which tasks an upgraded database counts.
- An artifact pattern whose directory text holds a backslash is walked by that text but matched by its unescaped form, so
  its files can be lost without a marker, and only then (`EscapedPatterns.LosesFilesIff`). Patterns without one are
  complete (`EscapedPatterns.NoBackslashesMeansLiteral`); for a list, `EscapedPatterns.ListLosesFilesIff` is exact.
- The branch scope with the empty name has a key that never parses back, so its first failure cannot be recorded and
  loses the whole batch (`StrikeHistory.EmptyBranchLosesTheBatch`); `--task ""` selects that scope.
- `TaskAdded` carries no subtask index, so replay rebuilds a row's index only under the condition of
  `TaskHistory.ReplayRebuildsRows`.
- Deleting the last row of the event log is not noticed by the audit (`EventLog.DeletedRowIsReported`).

## Model

| member | source | states |
|---|---|---|
| EventLog.AuditChain | crates/do-harness/src/audit.rs:47-60 | The audit loop answers `Intact(n)` when every listed row carries the expected `seq` and the recomputed hash, else names the `seq` of the first row that does not; a payload that is not JSON fails the listing |
| EventLog.AuditDecidesIntact | crates/do-harness/src/audit.rs:47-60 | The auditor answers Intact over the whole log if and only if row i carries seq i and the chain hash of the payloads up to it |
| EventLog.ReportsFirstBad | crates/do-harness/src/audit.rs:47-60 | Whichever row disagrees first is the one the report names, by its stored `seq` |
| EventLog.PreimageIsInjective | crates/types/src/chain.rs:45-51 | The hashed text, previous hash or GENESIS, bar, payload, determines both of its parts |
| EventLog.ChainIsInjective | crates/types/src/chain.rs:45-51 | Equal chain values mean equal payload histories unless two strings hashed on the way collide |
| EventLog.LastHashPinsTheLog | crates/do-harness/src/audit.rs:47-60 | Two intact logs with the same last hash hold the same canonical payloads |
| EventLog.EditedPayloadIsReported | crates/do-harness/src/audit.rs:47-60 | Rewriting the payload of any one row of an intact log is reported at that row; an unreadable payload fails the audit |
| EventLog.RehashedRowIsReported | crates/do-harness/src/audit.rs:47-60 | Rewriting a row and recomputing its own hash is reported at its successor |
| EventLog.DeletedRowIsReported | crates/do-harness/src/audit.rs:47-60 | Deleting any row but the last of an intact log is reported at its successor; deleting the last row leaves an intact log |
| EventWriters.IntactTailIsLast | crates/db/src/repo_workflow.rs:318-328 | In an intact log the row with the highest `seq` is the last one and its hash is the chain value of the whole log |
| EventWriters.StaleSnapshotLoses | crates/db/src/repo_workflow.rs:311-361 | A row built from a stale tail is always rejected by the unique index on `seq` |
| EventWriters.FreshHashIsUnique | crates/db/migrations/0011_schema_hardening.sql:11-19 | The unique index on `chain_hash` never rejects a row built from the current tail unless two hashed strings collide |
| EventWriters.StepKeepsInv | crates/db/src/repo_workflow.rs:311-361 | One statement of one writer keeps the log a chain, every held row linked to a prefix of it, and the authorship of every row |
| EventWriters.EveryInterleavingKeepsTheChain | crates/db/src/repo_workflow.rs:311-361 | For every number of writers and every interleaving of reads, inserts and storage failures: the audit answers Intact, earlier rows stay, each writer that returned Ok authored exactly one row holding its canonical event, every other writer none |
| EventWriters.GivingUpTakesFiveRivals | crates/db/src/repo_workflow.rs:311-361 | A writer runs out of retries only after five rows were committed by others, so with at most five writers nobody gives up |
| EventWriters.EndsAreDeserved | crates/db/src/repo_workflow.rs:311-361 | In every run a writer ends in an invalid payload exactly when its event is no valid JSON, in a foreign key error only when its task is missing, and in a storage error only when the storage failed it |
| EventWriters.FailureEndsTheWriter | crates/db/src/repo_workflow.rs:311-361 | A storage failure ends the writer it strikes, and nothing is appended |
| EventWriters.UndisturbedWriterLands | crates/db/src/repo_workflow.rs:311-361 | From every reachable state a writer whose read and insert run without a rival between them and without a storage failure lands its event, for a valid event of a known task, unless two hashed strings collide |
| EventWriters.EventStore.AppendEventOn | crates/db/src/repo_workflow.rs:311-361 | The retry loop with rivals committing inside each attempt: the log ends as the rivals seen plus, on Ok, the event once at the end; the attempt that lands it met no rival row, the retries run out only when, hash collisions aside, every attempt met one, and a failing read or insert ends the loop at once, with nothing appended |
| Backfill.EventTable.BackfillWorkflowEventChain | crates/db/src/migrate.rs:444-483 | The loop chains every row without a `seq` in id order, or changes nothing when a payload is not JSON |
| Backfill.FillShape | crates/db/src/migrate.rs:444-483 | Rows that already carry a `seq` are left alone; every other row keeps its task and kind, gets the canonical form of its payload and a hash, and is numbered on from the chain in key order |
| Backfill.FillExtendsTheChain | crates/db/src/migrate.rs:444-483 | Chaining unchained rows onto an intact log yields an intact log, and the loop's last number and hash are those of the result |
| Backfill.ChainThenRestIsIntact | crates/db/src/migrate.rs:444-483 | A chained prefix followed by unchained rows comes out fully chained and intact, the prefix unchanged |
| Backfill.BackfilledLogIsIntact | crates/db/src/migrate.rs:444-483 | The auditor accepts the whole backfilled log if and only if the rows that carried a `seq` were a chain and came before all others |
| Retry.OneAttemptDecides | crates/db/src/error.rs:249-273 | With anything committed by others between attempts, one attempt decides: the result is what that attempt made of the state it saw, which holds the others' commits and nothing else; every attempt before it was busy, and it is the first that is not or the last allowed |
| Tasks.CheckGates | crates/db/src/repo_workflow.rs:192-223 | The gate check passes if and only if the latest sensor beat of the task is ok for every required sensor; otherwise it answers for the first that is not, by name or by its unknown status |
| Tasks.LatestBeatIsLast | crates/db/src/repo_workflow.rs:192-223 | The status that decides a gate is that of a sensor beat of the task and sensor after which no other comes |
| Tasks.Store.InsertTaskWithEventOnce | crates/db/src/repo_workflow.rs:74-95 | One transaction: the new row and its TaskAdded event are committed together, or nothing is |
| Tasks.Store.AdvanceSubtaskWithEventOnce | crates/db/src/repo_workflow.rs:121-140 | Gate, guarded update and TaskAdvanced event commit together; refusals in the source's order |
| Tasks.Store.UpdateTaskStatusWithEventOnce | crates/db/src/repo_workflow.rs:163-187 | Terminal-state check, gates, guarded update and terminal event commit together; refusals in the source's order |
| Callers.EveryInterleavingIsSerial | crates/db/src/error.rs:249-273 | For any number of retried calls whose attempts interleave under any faults: the state is that of the committed calls run one after another in commit order, each permitted where it took effect; a caller that returned Ok committed exactly once, every other not at all |
| Callers.AttemptsAreTurns | crates/db/src/error.rs:249-273 | A call still being retried has used one attempt per turn, so it returns after its allowed attempts |
| Callers.GivingUpTakesAllAttempts | crates/db/src/error.rs:249-273 | A call ends as busy only after it has used all its attempts |
| Tasks.Store.RetryOnBusy | crates/db/src/repo_workflow.rs:61-187 | The retry loop, with other connections committing between attempts, leaves exactly the state and answer of the retry specification |
| TaskHistory.CallsAreAllOrNothing | crates/db/src/repo_workflow.rs:61-187 | Whatever faults its attempts meet and whatever others commit between them, a command that succeeds applied its effect once, to the state its deciding attempt saw and with every guard passed there; one that fails left only the others' commits |
| TaskHistory.OnlyBusyIsRetried | crates/db/src/error.rs:249-273 | A command whose first attempt meets no contention gets that attempt's answer; gate and transition errors are never retried |
| TaskHistory.CommitsIffGatesAreOpen | crates/db/src/repo_workflow.rs:121-223 | An undisturbed advance or completion commits if and only if the task exists, is not terminal and every required sensor's latest beat is ok |
| TaskHistory.RefusedIff | crates/db/src/repo_workflow.rs:121-223 | Each refusal of an undisturbed command, not found, already terminal, no terminal status, missing parent, closed gate, is answered exactly in its own state of affairs |
| TaskHistory.FaultedAttempt | crates/db/src/repo_workflow.rs:61-187 | An attempt that meets a storage error answers it and changes nothing, unless its terminal-state argument is refused before the transaction begins |
| TaskHistory.CommandsGetThreeAttempts | crates/db/src/repo_workflow.rs:66-72 | A command ends as busy only after three attempts and is tried no more than three times |
| TaskHistory.ClosedGateBlocksTheAttempt | crates/db/src/repo_workflow.rs:121-223 | In any run, an attempt of a gated command changes nothing while a required sensor's latest beat is missing or not ok |
| TaskHistory.CommitsSawOpenGates | crates/db/src/repo_workflow.rs:121-223 | However attempts interleave, every committed command passed all its guards, with all its gates open, in the very state it took effect in |
| ClosedGates.MayCommitIff | crates/db/src/repo_workflow.rs:121-223 | Under some faults and some commands of other connections an advance or completion commits if and only if a completion asks for a terminal status and the task is live or its id is still to be given out; what the beats say when it is called decides nothing |
| ClosedGates.MayLiveBelowTheCounter | crates/db/src/repo_workflow.rs:121-187 | With all task ids below the next one to be given out, that condition is: the task is there and not terminal, or is not there and its id is still to come |
| ClosedGates.GateMayOpenBetweenAttempts | crates/db/src/repo_workflow.rs:149-187 | A completion whose gate is closed at its first, busy attempt still commits when another connection records an ok beat before the next: the guard belongs to the attempt, not to the call |
| TaskHistory.EffectOnOneTask | crates/db/src/repo.rs:106-148 | A command extends the life of the one task it names, touches no other, and never changes the index a task was added with |
| TaskHistory.TasksLiveByTheirEvents | crates/db/src/repo_workflow.rs:74-187 | In every run from the empty database of any number of calls with interleaved attempts, failures and retries, each task's events are one Added, Advanced with consecutive indices, then at most one terminal event with nothing after; the row is what they say and no event belongs to a missing task |
| TaskHistory.NoTaskWithoutAddedEvent | crates/db/src/repo_workflow.rs:234-248 | In every run from the empty database the count of tasks without an Added event stays zero |
| UpgradedTasks.UnaddedNeverChanges | crates/db/src/repo_workflow.rs:234-248 | From any database and however calls interleave, the tasks without an Added event never grow in number, and those there at the start stay counted |
| UpgradedTasks.CountedForeverIff | crates/db/migrations/0009_workflow_events.sql:18-44 | After an upgrade that writes one synthetic event per task, every later count is of exactly the tasks that were no longer pending then |
| UpgradedTasks.LaterTasksLiveByTheirEvents | crates/db/src/repo_workflow.rs:74-187 | In every run after an upgrade, tasks that were pending and tasks added later live by their events as in a database without a past |
| TaskHistory.BoardIsTheTable | crates/types/src/workflow.rs:285-303 | The board folded from the log shows exactly the tasks of the table, each in the state of its row |
| TaskHistory.ReplayIsIdempotent | crates/types/src/workflow.rs:225-233 | Replaying a stream that was already folded leaves the board as it was |
| TaskHistory.FoldOfALife | crates/types/src/workflow.rs:122-206 | Folding the events of one life gives title, method, state and the last advanced index |
| TaskHistory.ReplayRebuildsRows | crates/types/src/workflow.rs:122-206 | Replay rebuilds title, method and state of every row, and its index if and only if the task was advanced or was added at index 0, since TaskAdded carries no index |
| TaskHistory.ReplayMissesTheIndex | crates/types/src/workflow.rs:122-138 | A task added at another index and not advanced is rebuilt at index 0 |
| TaskHistory.ReplayInventsNoTask | crates/types/src/workflow.rs:285-303 | Replay yields no task that is not in the table |
| TaskHistory.AdvancesFollowTheAdd | crates/db/src/repo.rs:135-148 | In every run the advances of a task count on from the index of the committed Add call that created it |
| TaskCalls.TablesAreTheirCalls | crates/db/src/repo_workflow.rs:61-187 | In every run the tables are read off the committed calls alone: task n is there exactly when at least n Add calls committed, with the title, method, parent and precondition of the n-th; its index counts on once for each Advance that names it; it is terminal exactly when a Finish names it, in the status that call asked for; events tell of the calls one by one in commit order; beats are those recorded |
| TaskCalls.FinishedAsAsked | crates/db/src/repo_workflow.rs:142-187 | The status of a terminal task is that of exactly one committed Finish call naming it |
| TaskHistory.TasksAddedAtZeroAreRebuilt | crates/db/src/repo_workflow.rs:74-187 | When every task is added at index 0, as the command line does, replaying the log gives every row exactly |
| TaskLog.LogFollowsTheRun | crates/db/src/repo_workflow.rs:61-187 | With every event appended inside its command's transaction, the log changes no table and no answer of any run, and at every moment it holds exactly the committed events |
| TaskLog.TaskRunsAuditIntact | crates/do-harness/src/audit.rs:47-60 | From any tables with an intact log and after any run of task calls: earlier rows stay, the audit answers Intact, and the new rows are exactly the committed events in order, each in its canonical form |
| Migration.HighestStandsForAll | crates/db/src/migrate.rs:303-331 | In a prefix of the catalog the highest version stands for all: why the `applied_max == known_max` shortcut may answer Ok |
| Migration.StepPhaseKeepsInv | crates/db/src/migrate.rs:214-331 | One statement of one process keeps the table a prefix, the commits distinct, and what every other process already verified |
| Migration.AppliedStaysAPrefix | crates/db/src/migrate.rs:214-250 | For every number of processes, catalog lengths, interleavings and failures: the applied versions stay a prefix, no migration commits twice, the commits are exactly the new versions, each with the catalog's checksum |
| Migration.OkMeansComplete | crates/db/src/migrate.rs:303-331 | A process that returned Ok, by walking or by the shortcut, left every migration it knows applied |
| Migration.RefusalsApplyNothing | crates/db/src/migrate.rs:303-331 | A call that ends in MigrationDiverged applied nothing; one that ends in FutureDatabase applied nothing unless a newer build committed meanwhile, which `NewerBuilds.FutureAfterApplyingIff` turns into an exact condition on the start |
| MigrationOutcomes.SharedCatalogRefusesCleanly | crates/db/src/migrate.rs:303-331 | When all processes share one catalog a call that ends in FutureDatabase applied nothing at all |
| NewerBuilds.FutureAfterApplyingIff | crates/db/src/migrate.rs:214-331 | Some run ends in FutureDatabase for a process that had applied migrations if and only if, at the start, no recorded checksum disagrees, that process has at least two migrations to apply, and another process knows more |
| NewerBuilds.OvertakingRun | crates/db/src/migrate.rs:214-331 | Such a run from every such start: the older process applies all but its last migration and is stopped by contention, the newer one passes it, and the older one retries |
| MigrationOutcomes.OkHidesAMismatchIff | crates/db/src/migrate.rs:303-331 | Some run ends in Ok over a checksum that disagrees with the catalog if and only if the table started at the process's highest version with such a checksum: the shortcut looks at versions only |
| MigrationOutcomes.ShortcutRun | crates/db/src/migrate.rs:303-331 | The two statements of such a run: a first read that fails without contention, then the look at the versions |
| MigrationOutcomes.Database.Migrate | crates/db/src/migrate.rs:214-250 | `migrate` alone: Ok if and only if no newer version and no disagreeing checksum is recorded and the storage works for both reads and for every pending migration; the table is always the old one with the first migrations and their checksums recorded, all of them on Ok; MigrationDiverged names the first that disagrees, FutureDatabase changes nothing, a storage error is one that the storage gave |
| LoneMigrator.AloneAppliesAll | crates/db/src/migrate.rs:214-331 | A process among others that starts on a table with no newer version and no disagreeing checksum, and is then left alone, applies everything it knows and returns Ok |
| YamlCycles.CheckCycles | scripts/action_pins/structure.py:74-110 | One finding for each of a list of distinct edges, in order and with the edge's line: every such edge leads back to an ancestor, and every reachable cycle uses one of them, so there is a finding if and only if the reachable graph has a cycle; no node is completed twice and exactly the reachable ones are; the loop terminates |
| YamlCycles.SearchIsExact | scripts/action_pins/structure.py:74-110 | With nothing pending, exactly the reachable nodes are complete, and the reported edges cut every reachable cycle |
| YamlCycles.ExitKeepsInv | scripts/action_pins/structure.py:84-92 | An exit marker removes exactly the end of the ancestor path from the active set and completes it, all of its edges being reported or leading to completed nodes |
| YamlCycles.ExpandKeepsInv | scripts/action_pins/structure.py:102-110 | Expanding a node appends it to the ancestor path and leaves its marker with one frame for each of its edges above it, the first on top |
| YamlCycles.AncestorMetAgain | scripts/action_pins/structure.py:93-101 | A node met while active is the end of an edge back along the ancestor path that was not reported before |
| YamlCycles.RouteDescends | scripts/action_pins/structure.py:74-110 | Along a route that uses no reported edge the completion index falls strictly, so the route never comes back |
| Artifacts.Collector.Unverified | crates/do-harness/src/artifacts.rs:95-106 | The list holds the marker afterwards: as it was if it held it before, else with the marker at the end, in the place of the last entry when it was full |
| Artifacts.Collector.Walk | crates/do-harness/src/artifacts.rs:108-178 | After walking a directory every matching regular file below it outside `.git` is listed or the marker is; the marker is set whenever the directory or anything below it cannot be verified; within the budgets exactly the verified matches are added, in the order of the walk, and the marker only when something could not be verified; nothing collected before is lost but the last entry of a full list |
| WalkFinds.FoundIff | crates/do-harness/src/artifacts.rs:108-178 | The verified matches of a walk are exactly the matching files that are regular, within bounds and named by a text, behind readable directories within bounds and depth outside `.git` |
| WalkStarts.PrefixIs | crates/do-harness/src/artifacts.rs:83-93 | The prefix of a pattern holds no wildcard, ends at a slash of the pattern, and every later slash comes behind the first wildcard |
| WalkStarts.PlaceIs | crates/do-harness/src/managed_path.rs:15-26 | A relative prefix lies where it says; an absolute one lies below the root if and only if it names the root's own path first |
| WalkStarts.LocatedIff | crates/do-harness/src/managed_path.rs:20-46 | A walk starts at a directory exactly when that lies there behind readable folders within bounds, and nowhere exactly when the way breaks off at a missing name; in every other case it is refused |
| Artifacts.MatchesLieBelowThePrefix | crates/do-harness/src/artifacts.rs:72-93 | A path that starts with the directory text of a pattern lies below its literal prefix |
| EscapedPatterns.LiteralIff | crates/do-harness/src/artifacts.rs:83-93 | When globs read a backslash as an escape: what a pattern matches starts with its directory as written if and only if that directory holds no backslash |
| EscapedPatterns.NoBackslashesMeansLiteral | crates/do-harness/src/artifacts.rs:83-93 | So patterns without a backslash in their directories meet the premise of completeness |
| EscapedPatterns.LosesFilesIff | crates/do-harness/src/artifacts.rs:72-178 | For any path a pattern matches: some tree holds that file while the pattern is walked nowhere, if and only if the directory of the pattern holds a backslash |
| EscapedPatterns.ListLosesFilesIff | crates/do-harness/src/artifacts.rs:32-178 | For a list of patterns, however they match: some tree holds the file while the walks of all prefixes list neither it nor the marker if and only if every prefix stays below the root without stepping up and turns off the file's path; then the tree with just that file is one where nothing is walked |
| EscapedPatterns.LossIsSilent | crates/do-harness/src/artifacts.rs:32-53 | In such a tree no prefix exists, so nothing is listed, and that is not complete: there is no marker |
| EscapedPatterns.BackslashLosesTheFile | crates/do-harness/src/artifacts.rs:32-53 | The pattern `\src/*.rs` loses `src/a.rs`: the walk finds no such directory and lists nothing although the pattern matches the file |
| Artifacts.PrefixesSuffice | crates/do-harness/src/artifacts.rs:72-93 | Walking only the literal prefixes misses no match of any pattern |
| Artifacts.FinishKeepsPaths | crates/do-harness/src/artifacts.rs:49-52 | Sorting, dropping repeated paths and truncating leave at most 200 entries, strictly sorted, with every path kept |
| Artifacts.FinishKeepsFirst | crates/do-harness/src/artifacts.rs:49-52 | Of several entries for one path the one listed first survives |
| Artifacts.Resolve | crates/do-harness/src/artifacts.rs:32-53 | At most 200 entries strictly sorted by path, each the marker or a matching regular file; the marker is there whenever something below a walked prefix cannot be verified and, within the budgets, only then, the rest being exactly the verified matches; when the given patterns build and match by their directory text, either the marker is there or every matching file outside `.git` is; nothing when the root or the set of patterns fails or no prefix exists |
| Resolver.BuildDependents | scripts/selection-impact/cargo-resolver.py:121-129 | The map sends every known package to exactly the packages that depend on it |
| Resolver.FindOwner | scripts/selection-impact/cargo-resolver.py:135-149 | A file goes to a member whose root contains it such that no longer containing root exists; it is unmatched only if no root contains it |
| Resolver.LongestRootIsUnique | scripts/selection-impact/cargo-resolver.py:118-149 | Two longest containing roots of one file are the same root |
| Resolver.AttributeFiles | scripts/selection-impact/cargo-resolver.py:131-150 | Exactly the owners of changed files are modified; exactly the non-global files without an owner are unmapped |
| Resolver.Closure.Visit | scripts/selection-impact/cargo-resolver.py:154-158 | Everything the recursion adds is explored when it returns, and it terminates although the graph may have cycles |
| Resolver.Closure.Close | scripts/selection-impact/cargo-resolver.py:151-161 | The collected set is exactly the unmodified workspace members reachable from a modified one along depended-on-by edges through workspace members |
| Resolver.ReachedIsReachedFrom | scripts/selection-impact/cargo-resolver.py:121-161 | Reachability in the dependents map is reachability in the resolved dependency graph itself |
| Resolver.Resolve | scripts/selection-impact/cargo-resolver.py:46-193 | The facts list exactly the roots of owners, exactly the roots of members reached from them, and flag a global change or unmapped file if and only if there is one |
| Policy.Evaluate | scripts/selection-impact/evaluate-policy.py:43-90 | The loop's lists are the kept and dropped sensors of the baseline; it falls back exactly when the facts are unresolved, global or carry warnings |
| Policy.ListsPartitionTheBaseline | scripts/selection-impact/evaluate-policy.py:62-90 | The two lists interleave to the baseline in order |
| Policy.MoreAffectedDropsNoMore | scripts/selection-impact/evaluate-policy.py:43-90 | Enlarging the active components or falling back never drops more sensors |
| Policy.DroppedSensorsAreUntouched | scripts/selection-impact/evaluate-policy.py:54-90 | End to end from changed files: a dropped sensor's scopes neither equal, contain nor lie under the root of any member that owns a changed file or is reached from one, and every changed file is owned and none is global |
| Policy.DroppedIff | scripts/selection-impact/evaluate-policy.py:43-90 | End to end and both ways: a sensor of the baseline is dropped if and only if it is scoped and not exempt, no changed file is global or unmapped, and no member that owns a changed file or is reached from one touches its scopes |
| Policy.TouchesIff | scripts/selection-impact/evaluate-policy.py:68-72 | For paths given by their components, touching means that one list of components starts the other |
| Calendar.ErasAreFloors | crates/do-harness/src/events.rs:168-178 | The truncating division by 400 with its bias is a floor: the era form has no seam at year 0 |
| Calendar.YearOfEra | crates/do-harness/src/events.rs:180-198 | The correction terms turn a day of the era into the one year that contains it |
| Calendar.MarchYear | crates/do-harness/src/events.rs:180-198 | Day 365 of a March-based year occurs only when the year ends in a leap year |
| Calendar.NextDayIsOneDayLater | crates/do-harness/src/events.rs:168-178 | The calendar's next day, by month lengths and the 4/100/400 rule, is valid and one day number later |
| Calendar.DaysFromCivilIsMonotone | crates/do-harness/src/events.rs:168-178 | Day numbers order valid dates as the calendar does |
| Calendar.DaysRoundTrip | crates/do-harness/src/events.rs:168-198 | Every day number gives a valid date that counts back to it |
| Calendar.CivilRoundTrip | crates/do-harness/src/events.rs:168-198 | Every valid date survives the trip through its day number |
| Calendar.UnixSecondsFallInTheirDay | crates/do-harness/src/events.rs:180-198 | For every second count the date is valid and its day number is the floor of seconds over 86400 |
| Calendar.CivilFollowsTheCalendar | crates/do-harness/src/events.rs:180-198 | Consecutive day numbers are consecutive calendar days, before and after the epoch |
| Calendar.CivilCountsDays | crates/do-harness/src/events.rs:168-198 | Both conversions agree with counting days one by one from 1 January 1970 |
| Calendar.CivilFromUnixIsMonotone | crates/do-harness/src/events.rs:180-198 | Seconds of one day share its date, and seconds of a later day have a later date |
| Scopes.KeyRoundTrip | crates/types/src/scope.rs:75-81 | A scope key parses back to its scope, except that of the branch with the empty name, which never parses |
| Scopes.KeyIsInjective | crates/types/src/scope.rs:75-81 | Different workstreams never share a key |
| Scopes.ParsedIsKey | crates/types/src/scope.rs:132-153 | Nothing but keys parses: the global scope and branches only from their own keys, a task only from the task prefix before a number |
| Scopes.ParseI64Signed | crates/types/src/scope.rs:135-144 | The decimal form of every 64-bit id parses back to it |
| Strikes.StrikeTable.BumpErrorSignatureOn | crates/db/src/repo_exec.rs:43-81 | UPDATE or else INSERT: the count grows by one or starts at 1, a missing message keeps the old one, and only the INSERT can fail on the scope key |
| Strikes.StrikeTable.ResetErrorSignature | crates/db/src/repo_scope.rs:16-28 | The row of the pair is gone and the answer says whether there was one |
| Strikes.StrikeTable.RecordSensorOutcome | crates/db/src/repo_exec.rs:93-111 | Beat and strike commit together or neither does; the answer is 0 on a pass and the stored count on a failure |
| Strikes.StrikeTable.RecordVerifyBatchOnce | crates/db/src/repo_exec.rs:147-161 | The loop over a batch is one transaction: any refused outcome or storage fault leaves every table as it was |
| Strikes.StrikeTable.RecordVerifyBatch | crates/db/src/repo_exec.rs:135-144 | The retried batch, with other connections committing between attempts, leaves exactly the state and answer of the retry specification |
| Strikes.StrikeTable.ClearErrorSignatures | crates/db/src/repo_scope.rs:80-112 | Each of the four DELETE statements removes exactly the rows its filters select, and counts them |
| StrikeHistory.BatchesAreAllOrNothing | crates/db/src/repo_exec.rs:135-161 | A batch that succeeds applied all its outcomes exactly once, to the tables its deciding attempt saw; one that fails left only what others committed between its attempts |
| StrikeHistory.BatchIsItsOutcomes | crates/db/src/repo_exec.rs:147-161 | An undisturbed batch succeeds if and only if its outcomes recorded one by one all would, and ends in the same tables |
| StrikeHistory.TransactIff | crates/db/src/repo_exec.rs:147-161 | A transaction commits if and only if no fault strikes it and no outcome is refused; otherwise it answers the first of the two and changes nothing |
| StrikeHistory.BatchesGetThreeAttempts | crates/db/src/repo_exec.rs:135-144 | Only a batch is tried again, and it ends as busy only after three attempts |
| StrikeHistory.StrikesCountTheStreak | crates/db/src/repo_exec.rs:43-161 | However the attempts of outcomes, batches, bumps, resets and clears interleave, and for every pair: a row exists exactly when failures came since the last committed pass or clear, its count is their number, its message the latest given among them |
| BeatHistory.BeatsAreTheOutcomes | crates/db/src/repo_exec/beats.rs:58-83 | However attempts interleave, the stored beats are exactly those of the committed outcomes and batches in commit order, each with its task, scope key, kind, sensor and status: a batch adds a row for each of its outcomes or none |
| BeatHistory.StoredBeatsAreConsistent | crates/db/src/repo_exec/beats.rs:85-113 | In every run a stored beat names a known task or none, and its scope key is the one that goes with that task |
| BeatHistory.StrikeAndBeatAgree | crates/db/src/repo_exec.rs:93-111 | The strike row of an outcome is that of its sensor and of the scope its beat is stored under |
| StrikeHistory.ScopesNeverInterfere | crates/db/src/repo_exec/beats.rs:99-113 | Outcomes of one workstream say nothing about another, whatever the sensor |
| StrikeHistory.OutcomeIsRefusedIff | crates/db/src/repo_exec.rs:93-111 | On any reachable table an outcome is refused if and only if scope and task disagree, the task is unknown, a sensor beat is unnamed, or it fails on the branch with the empty name |
| StrikeHistory.OutcomeErrors | crates/db/src/repo_exec/beats.rs:58-113 | Which error refuses an outcome on a reachable table: a scope that disagrees, then an unknown task, then an unnamed sensor beat, and last the key of the empty branch |
| StrikeHistory.EmptyBranchLosesTheBatch | crates/db/src/repo_exec.rs:147-161 | A batch with one failure on the branch with the empty name never commits, however its attempts interleave with others |
| Like.EscapedFirst | crates/db/src/repo_exec.rs:213-216 | The three whole-string replacements together escape each character once: no pass touches what another wrote |
| Like.EscapedPrefixMatches | crates/db/src/repo_exec.rs:213-223 | For every prefix and text the escaped pattern matches exactly the texts that start with the prefix up to the case of ASCII letters |
| Like.LiteralIff | crates/db/src/repo_exec.rs:200-216 | The match is literal, as documented, if and only if the prefix holds no ASCII letter |
| Like.StruckSignatures | crates/db/src/repo_exec.rs:207-230 | Exactly the signatures of the scope at or over the threshold that match the prefix, each once, in order |
| Like.StruckSensors | crates/do-harness/src/telemetry.rs:28-43 | The configured sensors whose own signature is struck, in configured order |
| Like.KeptInOrder | crates/do-harness/src/telemetry.rs:28-43 | The struck sensors are exactly those at an ascending list of positions of the configured ones |
| Like.StruckMeansThreeInARow | crates/do-harness/src/telemetry.rs:28-43 | However calls interleave, a configured sensor is halted in a workstream if and only if at least its last three marks there are failures |
| Slugger.BisectionIsMembership | scripts/doc_tools/github_slugger.py:171-174 | One bisection decides membership in the whole table, for every ordered disjoint range table and code point |
| Slugger.SlugsAreClean | scripts/doc_tools/github_slugger.py:177-180 | A slug holds no space and no code point of the table |
| Slugger.SlugIs | scripts/doc_tools/github_slugger.py:177-180 | A slug is the lowered heading text without the characters of the table, in order, each space a hyphen |
| Slugger.SuffixesFit | scripts/doc_tools/github_slugger.py:189-196 | A document uses no more suffixes of a slug than it has slugs: why the search terminates |
| Slugger.SlugForIs | scripts/doc_tools/github_slugger.py:183-196 | A free slug stays bare; a taken one gets the least number from 1 on that is free |
| Slugger.GithubSlugger.Slug | scripts/doc_tools/github_slugger.py:189-196 | The per-slug counter finds what a naive search from 1 finds: the bare slug when unused, else the least unused suffix |
| Slugger.GithubSlugger.SlugAll | scripts/doc_tools/sections.py:58-68 | All headings of a document slugged in order, as the specification's naive searches one after another |
| Slugger.SlugsAreDistinct | scripts/doc_tools/github_slugger.py:183-196 | All slugs of a document are distinct |
| Sections.ExtractSections | scripts/doc_tools/sections.py:54-97 | The ranges are those of the specification: each heading to the next one at or above its level, plus the preamble or the whole document as `#top` |
| Sections.SectionHoldsIff | scripts/doc_tools/sections.py:74-97 | A line belongs to the section of a heading if and only if it comes at or after the heading and every heading between the two is deeper |
| Sections.SectionsAreLaminar | scripts/doc_tools/sections.py:74-97 | Two sections start on different lines and are nested or apart, for any levels and increasing positions |
| Sections.ChosenIsInnermost | scripts/doc_tools/sections.py:114-126 | The section chosen for a line covers it, lies inside every other section that does, and starts after all of them |
| Sections.ChosenIsLastHeading | scripts/doc_tools/sections.py:54-126 | The section chosen for a line is that of the last heading at or before it; before the first heading it is the preamble, if a line there is not blank |
| Sections.DeepestSectionsForLines | scripts/doc_tools/sections.py:114-126 | Over the lines in the order visited, the result is the dictionary of last-chosen sections per identifier, in strict identifier order |
| Sections.SelectedIff | scripts/doc_tools/sections.py:114-126 | A section is returned if and only if some line chose it and no later line chose one with its identifier |
| Sections.NothingLostIff | scripts/doc_tools/sections.py:54-126 | Every changed line in some section is covered by a returned one, whatever lines change, if and only if no heading anchor takes the preamble's identifier `#top` |
| Sections.CollisionLosesThePreamble | scripts/doc_tools/sections.py:54-126 | When a heading does take it, changing the first line of each returns that heading's section alone |
| Sections.SluggedAnchorsAreDistinct | scripts/doc_tools/sections.py:58-68 | Anchors made by the slug generator are distinct, so only the preamble can collide |
| Shell.ShellQuoteIsLiteral | crates/do-harness/src/learn.rs:166-168 | A quoted value, whatever quotes or control characters it holds, is read as itself, joined to the word in progress |
| Shell.LineSplits | crates/do-harness/src/learn.rs:189-207 | A line of quoted and plain arguments splits into exactly their values |
| Shell.DraftedLinesSplit | crates/do-harness/src/learn.rs:189-204 | For every sensor name the drafted trace and distill lines are read as those two commands, word by word, each placeholder one literal word that holds the name as shown |
| Shell.ScaffoldLineSplits | crates/do-harness/src/learn.rs:205-207 | For every sensor name the unquoted scaffold line is read as the script, the skill name and its path |
| Shell.DisplayNameIsOneLine | crates/do-harness/src/learn.rs:170-175 | A display name keeps every character but the control characters, which become spaces |
| Shell.MakeSkillName | crates/do-harness/src/learn.rs:223-246 | The push, pop and truncate loops compute the name of the specification |
| Shell.SkillNameIsValid | crates/do-harness/src/learn.rs:223-246 | Every sensor name yields 1 to 64 characters of a-z, 0-9 and hyphen with no leading, trailing or doubled hyphen |
| Shell.SkillNameIs | crates/do-harness/src/learn.rs:223-246 | A skill is named after the stretches of letters and digits of its sensor, in lower case and joined by single hyphens, or `sensor` when there are none, with the suffix; a longer name is cut at 64 characters and loses a hyphen left at the end |
| Shell.LoweredIs | crates/do-harness/src/learn.rs:223-246 | Lowering maps each of the 26 capital letters to its small letter and leaves every other character |
| Shell.SlugsKeepTheirName | crates/do-harness/src/learn.rs:223-246 | A sensor name that is already a short slug keeps it before the suffix, so different ones get different skills |
| NameStatus.ParseNameStatus | crates/do-harness/src/changes.rs:232-299 | The loop reads exactly the files of the specification or its first error |
| NameStatus.ParseChanges | scripts/doc_tools/git_helpers.py:50-75 | The loop reads exactly the changes of the specification or its first error |
| NameStatus.ParsedRecords | crates/do-harness/src/changes.rs:232-299 | Any record list is read back from its NUL-delimited form with every path, both ends of renames and copies, unless some field is not UTF-8, which fails the list |
| NameStatus.ChangesReadBack | scripts/doc_tools/git_helpers.py:50-75 | The documentation tools read back one change per record |
| NameStatus.RecordIsTold | crates/do-harness/src/changes.rs:232-299 | What both parsers say of one record: the kind of its status letter, both ends of a rename or copy, and which side of the change is missing |
| NameStatus.BrokenRecordsAreRefused | crates/do-harness/src/changes.rs:232-299 | Output that breaks off within a record is refused, whatever came before, naming the status and the missing end |
| NameStatus.BrokenChangesAreRefused | scripts/doc_tools/git_helpers.py:50-75 | By the documentation tools as well, with their own errors; they also refuse a status that they do not know |
| NameStatus.ParsersAgreeOnPaths | scripts/doc_tools/git_helpers.py:50-75 | Both parsers report exactly the paths of the records, up to the leading `./` that one of them drops |
| NameStatus.ParsedPathList | crates/do-harness/src/changes.rs:309-327 | Plain NUL-delimited paths are read back one for one |
| NameStatus.InvalidPathsAreRefused | crates/do-harness/src/changes.rs:309-327 | A path list with a path that is not UTF-8 is refused as a whole |
| NameStatus.NormalizeIs | crates/do-harness/src/changes.rs:329-337 | Normalising drops one leading `./` and nothing else |
| Applicability.MergedKeepsPaths | crates/do-harness/src/changes.rs:408-410 | Sorting and dropping repeats leave a strictly sorted list with the same paths |
| Applicability.MergedKeepsFirst | crates/do-harness/src/changes.rs:408-410 | Of several entries for one path the first survives, so tracked ones go before untracked ones |
| Applicability.DiscoverInner | crates/do-harness/src/changes.rs:399-412 | Tracked and untracked queries are merged, or the first error is returned |
| Applicability.Select | crates/do-harness/src/applicability.rs:62-127 | The loop's two lists are the kept and skipped sensors with their reasons |
| Applicability.ListsPartitionTheCandidates | crates/do-harness/src/applicability.rs:62-127 | The two lists interleave to the candidates in order |
| Applicability.SkippedIff | crates/do-harness/src/applicability.rs:62-127 | A sensor is skipped if and only if discovery worked, it has patterns, all compile and none matches a changed path |
| Applicability.KeptBecause | crates/do-harness/src/applicability.rs:62-127 | The reason of a kept sensor: the failed discovery with its error, no constraint, a pattern that does not compile, or the first of its patterns that matches a changed path |
| Applicability.SkippedFromGitOutput | crates/do-harness/src/applicability.rs:62-127 | End to end from git's output: skipped if and only if its patterns compile and match neither end of any record nor any untracked path |
| Applicability.SkippedFromIndex | crates/do-harness/src/changes.rs:213-222 | The same in a repository without commits, where git lists the index: skipped if and only if its patterns compile and match no path of the index and no untracked one |
| Applicability.FailedDiscoveryKeepsAll | crates/do-harness/src/applicability.rs:68-77 | A failed discovery keeps every candidate in order |
| Applicability.UnreadableOutputKeepsAll | crates/do-harness/src/changes.rs:380-412 | Discovery fails exactly when one of the two queries cannot be read, with the error of the first that cannot, and every sensor is then kept |
| Escape.EscapeText | scripts/action_pins/findings.py:12-42 | The loop computes the per-character escape of the whole text |
| Escape.EscapeRoundTrip | scripts/action_pins/findings.py:12-42 | A reader of the escape forms recovers every text |
| Escape.EscapeIsInjective | scripts/action_pins/findings.py:12-42 | Distinct texts give distinct diagnostics |
| Escape.EscapeIsPrintable | scripts/action_pins/findings.py:12-42 | The output holds only characters 0x20 to 0x7E |
| Escape.QuotedReadsBack | scripts/action_pins/findings.py:12-42 | Between single quotes an escaped text ends exactly where it was closed, whatever it holds and whatever follows |
| Escape.ShortestForm | scripts/action_pins/findings.py:12-42 | No shorter printable form is read as the character: printable ones stay themselves, the named ones take two, the rest the narrowest hexadecimal form |

## Left out

- libSQL, pragmas, connection handling, file-system calls, git and cargo subprocesses, clocks: their answers are parameters.
- SHA-256, JSON canonicalisation, glob compilation and matching, UTF-8 decoding, Unicode lowercasing: parameters, with the
  assumptions named in the modules.
- 64-bit overflow of day numbers, `seq`, subtask indices and strike counts: integers are unbounded.
- Timestamps, row ids and the other columns that no modelled decision reads.
- Back-off times of `retry_on_busy`: only the sequence of answers matters.
- Artifacts.Resolve: assumes that no real file is named `@unverified`; the tree does not change during the walk; prefixes are
  ordered as text; the size of a file only shows in its digest. A set of patterns that fails to build yields nothing and no marker.
- Resolver.Resolve: Cargo's metadata is well formed: one member per directory, and workspace members with package data.
- Policy.Evaluate: the facts carry a number of warnings, not their text.
- Slugger.BisectionIsMembership: the table of removed ranges itself is not transcribed; the lemma is for every ordered disjoint table.
- Sections.ExtractSections: starts from parsed headings and a blank flag per line; section text and generated regions are not modelled.
- Sections.DeepestSectionsForLines: takes the changed lines already in the order of Python's `sorted`; no statement depends on that order.
- Like.EscapedPrefixMatches: texts hold no NUL character, and SQLite's limit on pattern length is not modelled.
- Shell.LineSplits: the word splitter refuses whatever a shell would expand or redirect instead of modelling it.
- Shell.DraftedLinesSplit: the drafted lines are given as their words; the format strings separate them by single spaces.
- NameStatus.ParsersAgreeOnPaths: for statuses that the Python parser accepts; it rejects any other, which the Rust parser reads as modified.
- Strikes.StrikeTable.RecordVerifyBatch: deleting tasks, which clears the task column of strike rows, is not modelled.
- Tasks.Store.InsertTaskWithEventOnce: a command answers Ok or its error; the id, index and event that the source hands back
  on success are those of the tables.
- MigrationOutcomes.Database.Migrate: FutureDatabase carries the highest known version, not the newer one it met.
- TaskHistory.TasksLiveByTheirEvents: starts from the empty database, as do the replay lemmas; `UpgradedTasks` treats an upgraded
  one, but not the replay of its synthetic events.
- TaskLog.LogFollowsTheRun: a transaction holds the write lock, so its insert meets no rival; the race inside the append is that of `EventWriters`.
- Migration.AppliedStaysAPrefix: leaves out the SQL of a migration, `ensure_checksum_column`, and a pre-existing table that is not a prefix of the catalog.
- `transition_with_freshness`, `prune`, `backup.rs`, `baselines.rs`, `repo_eval/bars.rs` and `changes/range.rs`: not modelled.
- Insert-and-list repositories, report printing, templates and floating-point statistics: only easy members, or rounding is the point.
