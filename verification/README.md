# Modulex verification

A Dafny model of the parts of Modulex whose correctness rests on ordering, undo and interleaving, with proofs
about all inputs, all runs and all interleavings.

- **Patch application** (`Paths`, `FileTree`, `PatchApply`, `PatchTheorems`, `PatchOutcome`, `RollbackHeals`,
  `PatchOps`, `BatchScopes`): a batch of writes and deletes with a journal that is replayed backwards. The
  disk is a mutable object over a tree of files with modes and directories; any os call of any forward step
  may fail.
- **Approval broker** (`Approval`, `ApprovalHistory`): single-use, scoped, expiring grants, refined against a
  broker that never prunes and characterised on its calls alone.
- **Module manager** (`TopoSort`, `Managers`, `ManagerOutcomes`, `AppRun`, `Supervisor`, `SupervisorHistory`,
  `ManagedTasks`): the depth-first sort, the lifecycle with its three teardown paths, the app runner, the task
  supervisor as a transition system over its critical sections, and the two together.
- **Worker pool and RabbitMQ consumer** (`WorkerPool`, `PoolHistory`, `RabbitConsumer`, `RabbitHistory`):
  transition systems whose events are single atomic actions; every pooled consumer holds a whole pool state.
- **Review gates** (`DiffText`, `ProtectedPaths`, `RetractSyntax`, `Changelog`, `EditGates`, `Globs`,
  `ProtectedGate`, `AddedLines`): edits, the zero-context diffs printed for them (section "Diff -u or -U
  Output Format" of the `diff` utility in POSIX.1-2017), and what the scanners' verdicts on hunk ranges imply
  for the whole file.
- **Durable consumption** (`Durable`) and **diagram identifiers** (`Mermaid`).

Each imperative part of the source is a class or a method with its loops, proved against a specification
function; the theorems are about those functions, and for each main operation some of them say what it does
without naming that function: on the tree, the log, the calls or the events of the run. `dafny verify
dfyconfig.toml` checks the whole project.

## Where the code and its documentation differ

The model follows the code. Each point below is stated by a lemma; where a promise fails, the lemma gives the
exact condition or bound.

- A file whose mode was 0 is restored with mode 0644, so a failed `Apply` and a `Rollback` restore modes
  exactly when no rewritten file had mode 0 (`AllOrNothing`, `RollbackInverts`).
- `Rollback` refuses a journal in which a delete that did nothing lies below a file the batch wrote
  (`BuriedDeleteRefuses`), and reports errors when such a delete is tangled with an earlier write, although
  the tree is restored (`TangledDeleteReports`). The undo of a failed batch reports errors in the same case
  and when the failed write itself clashes with an earlier one (`ClashingWriteReports`).
- The pool increments `accepted` after the send, so a snapshot can show more completed than accepted tasks,
  by at most the submissions in between; they agree once the pool is done.
- After a failed Init or Start a task can be registered after the wait took its snapshot and can still be
  running at the first module Stop, from every such snapshot; under `StopModules` it cannot
  (`SnapshotDecides`).
- A failed Start does not stop initialised modules whose turn had not come (`FailedStartLeavesNothingIff`).
- The go.mod exception needs both files to close their retract blocks; the CHANGELOG exception keeps the
  text around the section only if no second unreleased header is put above the surviving one.
- The added-line scan misses the last line of a hunk that replaces a last line without a final newline,
  because the marker line is not counted in the header, and it reports the wrong name for a file whose name
  git ends with a tab (it holds a space) or quotes (`ScanExact`).
- A message without delivery metadata is never dead-lettered for being refused, however often.
- The nak delay stops doubling after 20 attempts, which shows only for ack waits below about 0.3 ms.

## Model

| member | source | states |
|---|---|---|
| `PatchTheorems.AllOrNothing` | patchapply/patchapply.go:586-628 | a batch that fails, at any change and in any of the os calls (including a write that fails after its directories were created), leaves directories, file names and contents as before; modes too, if and only if no existing file the undo rewrote had mode 0; and the undo reports no error if and only if no undone change names a missing path above or below an earlier write |
| `PatchTheorems.ZeroModeIsNotRestored` | patchapply/patchapply.go:923-961 | the mode condition is needed: a concrete failing batch turns a mode-0 file into 0644 |
| `PatchTheorems.BuriedDeleteRefuses` | patchapply/patchapply.go:838-858 | a concrete batch that succeeds and that Rollback then refuses: write a, delete the missing a/b |
| `PatchTheorems.TangledDeleteReports` | patchapply/patchapply.go:905-961 | a concrete batch whose rollback restores the tree and reports an error: write a/b, delete the missing a |
| `PatchTheorems.ClashingWriteReports` | patchapply/patchapply.go:586-628 | a concrete failing batch whose undo restores the tree and reports an error: write a, write a/b |
| `PatchTheorems.PlainPath` | patchapply/path.go:57-128 | every relative path of plain names resolves to itself below the target, unless a file lies above it |
| `PatchTheorems.RollbackInverts` | patchapply/patchapply.go:838-866 | rolling back a successful batch gives back the tree from before it, created directory chains shared by several entries included; the call refuses exactly when a delete that did nothing lies below a file the batch wrote, and reports no error exactly when no such delete is tangled with an earlier write |
| `PatchTheorems.RollbackIdempotent` | patchapply/patchapply.go:905-961 | a second rollback of the same journal changes nothing and reports nothing |
| `PatchTheorems.RollbackFrame` | patchapply/patchapply.go:905-1023 | on any later tree and for any journal, genuine or not: no file outside the journal changes, directories appear or disappear only on the way from the target to a journal path, and no directory that still holds something is removed |
| `PatchTheorems.UndoFrame` | patchapply/patchapply.go:923-1023 | the same confinement for one undo step on an arbitrary tree and entry |
| `RollbackHeals.RollbackHealsAnyTree` | patchapply/patchapply.go:905-961 | whatever others did to the tree since: a rollback that reports no error leaves every path of the batch as it was before, existence, content and nonzero mode |
| `RollbackHeals.UnrestorableIsReported` | patchapply/patchapply.go:938-945 | a journal entry without its original content makes every rollback report an error |
| `RollbackHeals.UnrestorableIsRefused` | patchapply/patchapply.go:938-945 | such an entry touches nothing |
| `PatchTheorems.VerifyExact` | patchapply/patchapply.go:1035-1071 | on any later tree, verification passes an entry if and only if the tree agrees with the original there: existence, content, and mode unless it was 0 |
| `PatchTheorems.RollbackVerifies` | patchapply/patchapply.go:1035-1071 | after a rollback every entry verifies |
| `PatchTheorems.ResolvesAfter` | patchapply/patchapply.go:838-858 | after a successful batch an entry path still resolves, unless it is a delete that did nothing below a file the batch wrote |
| `PatchApply.UndoRun` | patchapply/patchapply.go:905-919 | undoing any number of successful steps, last to first, restores the tree up to zero modes, with no error exactly when nothing is tangled |
| `PatchApply.UndoStep` | patchapply/patchapply.go:923-961 | undoing one step undoes exactly that step; the exact case in which it reports an error |
| `PatchApply.TangledExact` | patchapply/patchapply.go:666-674 | the undo of a delete of a missing path is obstructed exactly when an earlier change of the batch writes a file above or below that path |
| `PatchApply.ClashExact` | patchapply/patchapply.go:666-715 | a path missing before the batch is obstructed when its change runs exactly when an earlier change writes a file above or below it |
| `PatchApply.ClashingWriteFails` | patchapply/patchapply.go:705-715 | such a change, if a write, cannot succeed |
| `PatchApply.FailureRestores` | patchapply/patchapply.go:586-628 | whichever step fails, replaying the journal gives the tree from before the batch up to zero modes, with no error if and only if no undone change clashes with an earlier write |
| `PatchApply.FailedWriteRestores` | patchapply/patchapply.go:586-628 | a failed write whose directories were already created is undone through its own entry; the exact case in which that undo reports an error |
| `PatchApply.StepKeepsBetween` | patchapply/patchapply.go:586-628 | every successful step keeps the invariant that ties the current tree to the tree before the batch |
| `PatchApply.ValidatedPaths` | patchapply/patchapply.go:503-518 | accepted changes resolve to pairwise distinct paths |
| `PatchApply.CapturedEntries` | patchapply/patchapply.go:562-581 | the captured entries record each file as it was before the batch |
| `PatchApply.AnchoredExact` | patchapply/path.go:104-128 | the upward walk accepts a path inside an existing target exactly when no file lies above it |
| `PatchOps.Apply` | patchapply/patchapply.go:445-481 | the whole call. It is refused for a reason if and only if that reason is the first check to fail (target, paths, approval, prior content, with the index), and then nothing has changed. Otherwise it is applied if and only if no change is blocked; then every write is at its resolved path with the new content and the old mode (0644 for a new file or a zero mode), every deleted path is no file, every other file is as before, the only new directories are those above a write, and the journal records each change. If a change is blocked the call fails at the first such change and the tree is unchanged (given nonzero modes). The gate is asked for exactly this batch, once |
| `PatchOutcome.SuccessPatches` | patchapply/patchapply.go:586-628 | a batch whose steps all succeed leaves exactly the tree its changes ask for: contents, modes, deletions, untouched files, and directories |
| `PatchOutcome.PatchedIsUnique` | patchapply/patchapply.go:586-628 | only one tree is the one the changes ask for |
| `PatchOutcome.StopsAtFirstBlocked` | patchapply/patchapply.go:586-628 | a batch stops at the first change that is blocked, and nowhere else: a removal, write or directory creation it needs fails, or an earlier write is in the way of a new file |
| `PatchOutcome.StepOkExact` | patchapply/patchapply.go:666-715 | one step goes through if and only if its change is not blocked |
| `PatchOutcome.StepFiles` | patchapply/patchapply.go:666-715 | the files one successful step leaves |
| `PatchOutcome.JournalRecords` | patchapply/patchapply.go:562-628 | each journal entry records path, prior existence, content and mode, what was done, and the topmost directory that had to be created |
| `PatchOutcome.ValidateExact` | patchapply/patchapply.go:503-518 | path validation accepts a batch if and only if every path resolves and none repeats, and otherwise names the first offender and why |
| `PatchOutcome.CaptureExact` | patchapply/patchapply.go:562-581 | the capture accepts if and only if every path can be read and every expected content matches the bytes on disk, none for a missing file; otherwise it names the first offender and why |
| `PatchOutcome.ResolveExact` | patchapply/path.go:57-128 | a path resolves if and only if its walk stays inside the target and no file lies above its end |
| `PatchOutcome.OneReason` | patchapply/patchapply.go:445-481 | a batch is refused for at most one reason, and not at all when it is admitted |
| `PatchOps.ApplyAll` | patchapply/patchapply.go:586-628 | the loop with its journal and its undo on failure; PatchOutcome says which tree, which failing change and which journal that is |
| `PatchOps.ApplyOne` | patchapply/patchapply.go:666-715 | one forward write or delete on the disk, with whichever os call fails; PatchOutcome.StepFiles and PatchOutcome.StepOkExact say what it leaves and when it succeeds |
| `PatchOps.ValidateChangePaths` | patchapply/patchapply.go:503-518 | every path is resolved and duplicates are refused, first offender reported (PatchOutcome.ValidateExact) |
| `PatchOps.CaptureCurrentState` | patchapply/patchapply.go:562-581 | reads every file before anything is touched, and refuses a prior-content mismatch (PatchOutcome.CaptureExact) |
| `PatchOps.CheckApproval` | patchapply/patchapply.go:525-545 | a delete needs a broker; a configured broker is asked for exactly the scope of this batch |
| `PatchOps.CheckBrokerScope` | patchapply/patchapply.go:551-556 | asks by token if there is one and by scope otherwise, with the answer and effect of that broker call |
| `PatchOps.Rollback` | patchapply/patchapply.go:838-866 | touches nothing unless the target exists, the journal fits, every path resolves and the deletions are approved, and says which of these failed; otherwise it is the rollback the theorems speak of; the broker is asked only when something is deleted |
| `PatchOps.CheckRollbackApproval` | patchapply/patchapply.go:874-894 | asks for approval exactly for the paths the rollback deletes |
| `PatchOps.DeletePathsExact` | patchapply/patchapply.go:874-881 | a path is listed once for every entry that did not exist before, and for no other |
| `PatchOps.RollbackEntries` | patchapply/patchapply.go:905-919 | last entry first, continuing past errors |
| `PatchOps.UndoEntry` | patchapply/patchapply.go:905-919 | one iteration of that loop |
| `PatchOps.RestoreEntry` | patchapply/patchapply.go:923-961 | rewrites or removes one file and then its created directories |
| `PatchOps.Verify` | patchapply/patchapply.go:1035-1071 | names exactly the entries that do not match, in order |
| `PatchOps.NoZeroModesSuffices` | patchapply/patchapply.go:445-481 | a condition on the inputs alone under which a failed batch restores everything |
| `PatchOps.ResolvedPath` | patchapply/path.go:57-83 | lexical resolution, then the upward walk |
| `PatchOps.VerifyNoSymlinkEscape` | patchapply/path.go:104-128 | the upward walk to the nearest existing ancestor |
| `FileTree.RemoveChainUndoes` | patchapply/patchapply.go:983-1023 | removing a freshly created chain that is still empty gives back the tree without it |
| `FileTree.RemoveChainFrame` | patchapply/patchapply.go:983-1023 | on any tree the walk leaves files alone and removes only empty directories between the created one and the file |
| `FileTree.EnsureDirEffect` | patchapply/patchapply.go:758-787 | creating a directory adds exactly the missing chain and names its topmost member |
| `FileTree.Disk.EnsureDir` | patchapply/patchapply.go:758-787 | the upward search for the topmost missing ancestor and the creation of the chain |
| `FileTree.Disk.RemoveCreatedDir` | patchapply/patchapply.go:983-1023 | the upward removal loop, stopping at the first directory that is not empty |
| `FileTree.Disk.WriteViaRename` | patchapply/patchapply.go:721-746 | an atomic replacement of one file |
| `FileTree.Disk.Remove` | patchapply/patchapply.go:666-674 | one removal with its error cases |
| `Paths.IsWithinIsAncestry` | patchapply/path.go:87-92 | the string-prefix test is the segment-ancestor test for all clean absolute paths |
| `Paths.CleanIsWalk` | patchapply/path.go:57-83 | cleaning a path is walking it; leaving the start shows as a leading parent segment |
| `Paths.ResolveLexicalExact` | patchapply/path.go:57-83 | a relative path is accepted if and only if walking it never leaves the target and does not end on it; the result lies strictly inside |
| `BatchScopes.BatchScopeExact` | patchapply/patchapply.go:284-308 | two batches need the same approval if and only if they ask for the same action and name the same paths equally often |
| `BatchScopes.SortSorts` | patchapply/patchapply.go:284-289 | the sort used for the resource text returns a sorted permutation |
| `BatchScopes.SortedUnique` | patchapply/patchapply.go:284-289 | a sorted list is determined by its elements, so order cannot matter |
| `Approval.BrokerRefines` | approval/broker.go:66-244 | pruning is unobservable: in every history under a non-decreasing clock each call gets the answer of a broker that never prunes |
| `Approval.StepRefines` | approval/broker.go:66-244 | one call keeps the two brokers in agreement and gives the same answer |
| `Approval.EveryPassIsCharged` | approval/broker.go:140-172 | every pass is charged to an earlier, unexpired grant of exactly that scope (and token), and no grant is charged twice in a history |
| `ApprovalHistory.PassExactly` | approval/broker.go:140-201 | on the calls alone: a check or a dry run, by scope or by token, passes if and only if some earlier accepted grant of that scope (and token) has not run out by then and has paid for no earlier check |
| `ApprovalHistory.ChargeExactly` | approval/broker.go:220-244 | what a check consumes is, of the grants open to it, the one made first, ties broken by digest |
| `ApprovalHistory.GrantExactly` | approval/broker.go:84-125 | a grant call is answered with exactly the grant asked for, living from now for its lifetime, or with the first thing wrong with it |
| `ApprovalHistory.DryRunForetells` | approval/broker.go:178-201 | a dry run answers what the check would answer in its place |
| `ApprovalHistory.StateReflects` | approval/broker.go:66-244 | after any history the grants are those the calls made, used exactly if one paid for a check |
| `Approval.ChargedStaysUsed` | approval/broker.go:140-172 | a charged grant stays used for the rest of the history |
| `Approval.InsertionInvisible` | approval/broker.go:178-201 | inserting a dry run or a save and reload anywhere changes no later answer |
| `Approval.Broker.Prune` | approval/broker.go:66-72 | deletes exactly the used and expired grants, in whatever order; ApprovalHistory.PassExactly says when a grant has expired |
| `Approval.Broker.FindMatch` | approval/broker.go:220-244 | the grant found does not depend on iteration order; ApprovalHistory.ChargeExactly says which one it is |
| `Approval.BestIs` | approval/broker.go:220-244 | the best match is unique, which is what makes the search deterministic |
| `Approval.Broker.GrantFor` | approval/broker.go:84-125 | issues a grant; refuses an empty action, an empty approver or a non-positive lifetime |
| `Approval.Broker.CheckScope` | approval/broker.go:140-150 | passes and consumes, as in the transition the theorems speak of; ApprovalHistory.PassExactly says exactly when |
| `Approval.Broker.CheckWithToken` | approval/broker.go:159-172 | the same for one token |
| `Approval.Broker.DryRunScope` | approval/broker.go:178-186 | answers without consuming |
| `Approval.Broker.DryRunWithToken` | approval/broker.go:190-201 | answers for one token without consuming |
| `Approval.FileStore.Save` | approval/store.go:65-97 | whatever order the grants are listed in, reading the list gives them back |
| `Approval.FileStore.Load` | approval/store.go:106-137 | a fresh broker with the stored grants, empty when there is no file |
| `Approval.SaveThenLoad` | approval/store.go:65-137 | the round trip is a broker with the same grants |
| `TopoSort.SortModules` | modulex.go:1781-1794 | succeeds if and only if every trimmed dependency is non-empty, registered and not the module itself and there is no cycle; the order lists each module once, dependencies first, ties broken by registration; an error names a real defect |
| `Text.TrimSpaceExact` | modulex.go:1860-1868 | trimming cuts off exactly the space at both ends of a name |
| `TopoSort.TopoSorter.Visit` | modulex.go:1829-1857 | terminates, leaves the path as it was, and appends only what is reachable |
| `TopoSort.TopoSorter.VisitDependency` | modulex.go:1860-1868 | refuses empty names and self-dependencies, otherwise visits |
| `TopoSort.TopoSorter.CycleError` | modulex.go:1816-1826 | the reported cycle is a real cycle of declared edges |
| `TopoSort.TopologicalIsSortable` | modulex.go:1781-1794 | a complete topological order exists only for a sortable graph |
| `TopoSort.RealErrorIsNotSortable` | modulex.go:1816-1868 | a reported defect excludes every order |
| `TopoSort.BlocksBreakTies` | modulex.go:1781-1794 | if b precedes a although a was registered first, b is a transitive dependency of a module registered no later than a |
| `Managers.RunOnlyMovesForward` | modulex.go:1410-1773 | over any run of calls the state rank never falls, the call log only grows, and a stopped manager never changes |
| `Managers.EveryTeardownIsOrderly` | modulex.go:1471-1544 | in every run that ends stopped: tasks are waited for once and before the first Stop, the event bus is closed exactly once and after the last, no module is stopped twice, and none before a started module that depends on it, directly or through any chain |
| `Managers.TornDownIsOrderly` | modulex.go:1535-1544 | the same for any log of the torn-down shape, the invariant behind it |
| `Managers.FailedInitStopsExactly` | modulex.go:1410-1466 | a failed Init stops exactly the stoppable modules whose Init was called and did not fail |
| `Managers.FailedStartStopsExactly` | modulex.go:1492-1530 | a failed Start stops exactly the stoppable modules that got their turn: no module before them failed to start and the context was not cancelled before them; the failing one included |
| `Managers.StopStopsExactly` | modulex.go:1690-1773 | StopModules stops exactly the initialised stoppable modules |
| `Managers.PhaseIs` | modulex.go:1368-1403 | a phase ends at the first module that is not called or whose call fails |
| `Managers.TeardownReportsAll` | modulex.go:1471-1486 | every teardown reports exactly the failed Stop calls it made, a failed bus close and a failed wait for tasks; an expired context is reported exactly by StopModules |
| `Managers.FailedStartLeavesNothingIff` | modulex.go:1492-1530 | after a failed Start every initialised module has been stopped if and only if every stoppable module got its turn: no earlier module fails to start and the context is not cancelled before it |
| `Managers.FailedStartCanLeak` | modulex.go:1492-1530 | a concrete failed Start that leaves an initialised module unstopped |
| `Managers.StepKeepsSound` | modulex.go:1410-1773 | every manager call keeps the lifecycle invariant: once initialised, the order lists every registered module once, after its dependencies, and the log holds their Init calls and, once running, the Start calls |
| `ManagerOutcomes.InitOutcome` | modulex.go:1410-1466 | InitModules returns nil if and only if the manager is configuring, the modules can be sorted and none fails or finds the context cancelled; then every registered module has been initialised exactly once, after all its dependencies, and the order lists each once; otherwise the first error names the sort, the first failing module or the cancellation |
| `ManagerOutcomes.StartOutcome` | modulex.go:1492-1530 | StartModules returns nil if and only if the manager is initialised and no starter fails or finds the context cancelled; then every starter has been started exactly once, after its dependencies and after every Init |
| `ManagerOutcomes.StopOutcome` | modulex.go:1690-1773 | StopModules ends stopped; it returns nil if and only if the manager was stopped before or nothing was answered with an error; every stoppable module of an initialised or running manager is stopped once, before its dependencies |
| `ManagerOutcomes.InitCallsExactly` | modulex.go:1368-1403 | whether Init succeeds or fails it calls exactly the modules that get their turn, once each |
| `ManagerOutcomes.StartCallsExactly` | modulex.go:1368-1403 | whether Start succeeds or fails it calls exactly the starters that get their turn, once each |
| `ManagerOutcomes.RegisterOutcome` | modulex.go:898-923 | a module is accepted if and only if the manager is configuring and its trimmed name is neither blank nor taken; then it is known with its dependencies and nothing else changes |
| `Managers.Manager.RegisterModule` | modulex.go:898-923 | registration and its refusals; ManagerOutcomes.RegisterOutcome says which |
| `Managers.Manager.RunPhase` | modulex.go:1368-1403 | calls the modules in order up to the first failure or cancellation |
| `Managers.Manager.StopAll` | modulex.go:1535-1544 | last module first, past errors, keeping every error |
| `Managers.Manager.CloseEventBus` | modulex.go:1039-1052 | closes the bus if there is one |
| `Managers.Manager.FinalizeFailure` | modulex.go:1471-1486 | waits for tasks, stops what was reached, closes the bus, ends in Stopped, and joins all errors to the first |
| `Managers.Manager.InitModules` | modulex.go:1410-1466 | sort, Init phase, and teardown of the initialised prefix on failure; ManagerOutcomes.InitOutcome says what that achieves |
| `Managers.Manager.StartModules` | modulex.go:1492-1530 | Start phase, and teardown of the reached prefix on failure; ManagerOutcomes.StartOutcome says what that achieves |
| `Managers.Manager.StopModules` | modulex.go:1690-1773 | stops all modules once, or does nothing if already stopped; joins the errors of the wait, an expired context, the Stop calls and the bus |
| `AppRun.RunApp` | app/app.go:119-179 | whatever the setup hook does with the manager and however registration, Init, Start and shutdown turn out: the manager ends stopped, the bus is closed exactly once, every hook runs exactly once, and the result joins the error of the start with every error of the shutdown. The start succeeds if and only if the hook and the names are in order, the modules can be sorted and none fails; then every module is initialised, started and stopped exactly once, in dependency order, with the pre-stop hooks before and the post-stop hooks after the shutdown |
| `AppRun.RunStopCloses` | app/app.go:199-218 | from any reachable state one shutdown leaves exactly one bus close and one call of each hook in the whole log |
| `AppRun.RunStop` | app/app.go:199-218 | pre-stop hooks, stop, post-stop hooks, in that order, whichever fail, with every error joined |
| `AppRun.RunStopReports` | app/app.go:199-218 | the result names exactly the failing hooks, and is nil if and only if no hook and no part of the stop failed |
| `AppRun.RunHooks` | app/app.go:199-218 | every hook runs, failing or not, and every failure is kept |
| `AppRun.StartAll` | app/app.go:222-245 | the setup hook, then registration, Init and Start up to the first error: the state it leaves, the error it returns, no error if and only if it can start, and then every module initialised and every starter started |
| `AppRun.StartedOutcome` | app/app.go:222-245 | the start succeeds if and only if setup succeeds, the manager is still configuring, the names fit, the modules sort and no module fails; then all are initialised and started in order |
| `AppRun.RegistrationsOutcome` | app/app.go:229-236 | registration goes through if and only if the manager is configuring and no name is blank, taken or repeated |
| `AppRun.MergedIs` | app/app.go:229-236 | then exactly the declared modules are added, each with its dependencies |
| `AppRun.WholeLife` | app/app.go:119-218 | the log of an application that started: each module initialised, started and stopped once in dependency order, hooks around the shutdown |
| `AppRun.RunSetup` | app/app.go:222-227 | whatever calls the setup hook makes form a legal run of the manager |
| `AppRun.RegisterAll` | app/app.go:229-236 | registers in order up to the first refusal |
| `Supervisor.SupervisorIsSafe` | modulex.go:1057-1160 | in every interleaving a handle is registered exactly while it is not done, no done channel is closed twice, the state never goes back, a finished handle never changes, and nothing is registered once the state is Stopping |
| `Supervisor.AllTasksDoneBeforeFirstStop` | modulex.go:1690-1773 | StopModules calls no module Stop before every handle ever returned is done, unless the caller deadline passed; from its first step all task contexts are cancelled |
| `Supervisor.ErrorsAreReportedOnce` | modulex.go:1579-1663 | recorded task errors equal returned plus pending ones at every step; a StopModules that did not time out returned each failed task exactly once |
| `SupervisorHistory.HandlesTellTheTruth` | modulex.go:1057-1160 | in every run each handle comes from a call of Go under its name, is done if and only if its task ended in the run, with the error it ended with, and the recorded errors are exactly those, once each |
| `SupervisorHistory.GoExactly` | modulex.go:1057-1110 | Go registers a handle if and only if the trimmed name is non-empty and not in use, the state is neither stopping nor stopped and the current context is not cancelled; otherwise nothing changes |
| `SupervisorHistory.TasksAreToldToStop` | modulex.go:1579-1670 | on every teardown path, from the wait on every task registered before it has a cancelled context, and once modules are being stopped the current context is a fresh one |
| `Supervisor.SnapshotDecides` | modulex.go:1579-1670 | once the wait has taken its snapshot, every continuation that reaches the module stops without a timeout has all tasks done if and only if it is StopModules that tears down |
| `Supervisor.LateTaskRunsOn` | modulex.go:1457-1486 | from every snapshot of a failure path, a run to the module stops with a task still running |
| `Supervisor.NoLateCallNoLateTask` | modulex.go:1579-1670 | with no Go call after the snapshot all tasks are done at the module stops, on every teardown path |
| `Supervisor.OnlyLateTasksRemain` | modulex.go:1579-1670 | a task that still runs at the module stops, without a timeout, was registered after the snapshot; StopModules lets none in |
| `Supervisor.FailurePathCanLeaveTasks` | modulex.go:1457-1486 | on the failure path a task can still run at the first module Stop: a concrete run |
| `Supervisor.StepKeepsInv` | modulex.go:1057-1670 | every critical section keeps the invariant |
| `ManagedTasks.TasksFollowTheManager` | modulex.go:1579-1663 | however tasks start and end around a run of manager calls, the supervisor reaches the lifecycle state of the manager, and its waits and module stops are those of the call log, in order |
| `ManagedTasks.StopModulesWaitsForTasks` | modulex.go:1690-1773 | for StopModules on a manager not torn down before, in every interleaving with tasks: from its first module Stop on every task ever started is done, unless the deadline cut the wait short |
| `ManagedTasks.EveryManagerRunHasOne` | modulex.go:1410-1773 | every run of manager calls is the control part of some supervisor run |
| `WorkerPool.PoolIsSafe` | workerpool/workerpool.go:134-197 | in every interleaving: no send on a closed channel, whether its buffer has room or not, no handle set twice, no task run twice, running at most Workers, queued at most the capacity |
| `WorkerPool.DrainedWhenDone` | workerpool/workerpool.go:171-197 | when the pool is done the queue is empty, exactly the accepted tasks have run, once each with their handles set once, accepted equals completed, and accepted and rejected add up to the submissions |
| `PoolHistory.HandlesTellTheTruth` | workerpool/workerpool.go:213-224 | in every interleaving a set handle says how the one run of its task ended: that worker, that task, that error |
| `PoolHistory.CountersCountRuns` | workerpool/workerpool.go:213-224 | when the pool is done completed is the number of runs, failed the number of those that ended in an error, and the handles are exactly their outcomes |
| `PoolHistory.PoolIsFifo` | workerpool/workerpool.go:134-224 | in every interleaving tasks are taken in the order in which they were sent, and what is left is in the queue |
| `WorkerPool.CloseDrains` | workerpool/workerpool.go:171-224 | after Close begins the pool takes a bounded number of steps and only stops when drained |
| `WorkerPool.NeverStuck` | workerpool/workerpool.go:171-224 | a closed pool that is not drained always has a step |
| `WorkerPool.InternalStepDecreases` | workerpool/workerpool.go:134-224 | every internal step decreases the measure that bounds the drain |
| `WorkerPool.AcceptedLagsBehind` | workerpool/workerpool.go:134-166 | in every interleaving completed is at most accepted if and only if the completed tasks not yet counted by their submitter are no more than the counted ones still to complete; always so when no submitter is between send and count, and otherwise off by no more than those submitters |
| `WorkerPool.CompletedCanExceedAccepted` | workerpool/workerpool.go:134-166 | a concrete run in which a snapshot shows more completed than accepted tasks |
| `WorkerPool.StepKeepsInv` | workerpool/workerpool.go:134-224 | every atomic action keeps the invariant |
| `RabbitConsumer.DeliveriesResolvedOnce` | rabbitmq/rabbitmq.go:425-592 | in every interleaving, pooled or not, with panics and pool rejection: no delivery is resolved twice, every taken delivery is resolved once before its loop decrements active, no channel is closed twice, and the current stopped channel is closed exactly when active is 0 |
| `RabbitConsumer.ResolutionsAreHonest` | rabbitmq/rabbitmq.go:498-592 | acked if and only if the handler ran and succeeded; requeued if and only if no handler ran or its context ended |
| `RabbitHistory.ResolvedAsHandled` | rabbitmq/rabbitmq.go:498-592 | in every run no handler runs twice on one delivery, and a delivery is acked, dropped or requeued according to what its handler did in the run |
| `RabbitHistory.HandlesShowHandlers` | rabbitmq/rabbitmq.go:498-592 | the pool handle of a delivery shows an error if and only if its handler did not succeed |
| `RabbitConsumer.NilCloseMeansStopped` | rabbitmq/rabbitmq.go:606-637 | if the first Close returned nil no consumer is left and every delivery ever taken is resolved |
| `RabbitConsumer.LeftLoopResolvesAll` | rabbitmq/rabbitmq.go:440-484 | once a consume loop has left, in every interleaving: it, its pool and its handlers take a bounded number of further steps, it is never stuck before it has exited, and then every delivery it took is resolved exactly once |
| `RabbitConsumer.LeftStepFalls` | rabbitmq/rabbitmq.go:440-546 | every event of a loop that has left, or of its pool, decreases what it still has to do |
| `RabbitConsumer.StepKeepsInv` | rabbitmq/rabbitmq.go:425-637 | every step of a loop, its pool or Close keeps the invariant |
| `ProtectedPaths.RetractionsKept` | review/protectedpaths.go:548-553 | an accepted go.mod edit leaves the sequence of retract-directive lines identical, for every edit between two files that close their blocks |
| `EditGates.GoModAcceptsExactly` | review/protectedpaths.go:532-553 | the go.mod exception lets an edit through if and only if every line of a closed retract directive survives and none is new |
| `RetractSyntax.DirectiveExact` | review/protectedpaths.go:494-505 | a line is a directive if and only if it is space and then retract, followed by nothing but space, or by a blank, a tab or a parenthesis |
| `RetractSyntax.OpensExact` | review/protectedpaths.go:507-517 | a line opens a block if and only if after the keyword there is space, one parenthesis and nothing more than a comment |
| `RetractSyntax.ClosesExact` | review/protectedpaths.go:519-528 | a line closes a block if and only if it is space, one parenthesis and nothing more than a comment |
| `RetractSyntax.BlockExact` | review/protectedpaths.go:464-492 | a block is open after some lines if and only if one of them opened it and none since closed it |
| `RetractSyntax.SplitLinesExact` | review/protectedpaths.go:379-385 | the lines of a file hold no newline, and joined, with or without a final one, they are the file |
| `ProtectedPaths.RetractionsKeptExactly` | review/protectedpaths.go:464-553 | that holds for all accepted edits of a file if and only if the file leaves no retract block open, on the base side and on the head side |
| `ProtectedPaths.OpenBlockIsLost` | review/protectedpaths.go:464-492 | for every base file with an open block, an accepted edit that loses it |
| `ProtectedPaths.OpenBlockIsGained` | review/protectedpaths.go:464-492 | for every head file with an open block, an accepted edit that gains it |
| `ProtectedPaths.AcceptedGoModDiff` | review/protectedpaths.go:429-449 | the same promise stated on the text of the diff and the two files |
| `ProtectedPaths.DiffRoundTrip` | review/protectedpaths.go:351-374 | parsing the printed zero-context diff of any edit gives back its hunks, whatever the lines hold |
| `ProtectedPaths.ParseHunks` | review/protectedpaths.go:351-374 | the loop over the lines of a diff |
| `ProtectedPaths.RetractLineRanges` | review/protectedpaths.go:464-492 | the ranges cover exactly the lines of directives that are closed |
| `ProtectedPaths.RangeIntersectsAny` | review/protectedpaths.go:532-543 | true if and only if some line of the span is covered |
| `ProtectedPaths.GoModEditTouchesOnlyNonRetractLines` | review/protectedpaths.go:548-553 | accepts if and only if both files and the diff are available and no changed line belongs to a closed directive |
| `DiffText.HeaderRoundTrip` | review/protectedpaths.go:348-374 | the hunk-header pattern undoes the header printer, with omitted counts and trailing context |
| `DiffText.HunksComplete` | review/protectedpaths.go:341-346 | every change of an edit has its hunk at its position |
| `Changelog.OutsideSurvives` | review/protectedpaths.go:454-459 | every base line outside the unreleased section survives an accepted edit, and every head line outside its section is a surviving base line |
| `EditGates.ChangelogAcceptsExactly` | review/protectedpaths.go:393-459 | the changelog exception lets an edit through if and only if every line outside the unreleased section survives and none is new |
| `Changelog.SurvivorsInOrder` | review/protectedpaths.go:454-459 | surviving lines are unchanged and keep their order |
| `Changelog.SameAroundExactly` | review/protectedpaths.go:454-459 | the text around the section is unchanged if and only if the section starts at the same line and as many lines follow it |
| `Changelog.HeaderDecides` | review/protectedpaths.go:393-459 | when the section header survives, the text around the section is unchanged if and only if it is the header the head section starts with |
| `Changelog.SecondHeaderAccepted` | review/protectedpaths.go:393-459 | for every file that starts with its section, putting a second header above it is accepted and leaves the old section outside the new one |
| `Changelog.SecondHeaderMovesText` | review/protectedpaths.go:393-459 | a concrete such edit with its one hunk, after which the released text is no longer all that follows the section |
| `Changelog.UnreleasedSectionRange` | review/protectedpaths.go:393-408 | the first unreleased header up to the next version header, the zero range if there is none |
| `Changelog.WithinExact` | review/protectedpaths.go:413-422 | the range test is membership in the section |
| `Changelog.ChangelogEditIsWithinUnreleased` | review/protectedpaths.go:454-459 | accepts if and only if everything is available and every hunk lies in the section on both sides |
| `Globs.MatchPathSegments` | review/protectedpaths.go:291-318 | an answer is true if and only if the name can be cut into pieces, one per pattern segment, a double star taking any number; an error only for a malformed segment |
| `Globs.MatchProtectedPath` | review/protectedpaths.go:287-289 | a pattern that compiles never gives an error and is matched exactly |
| `Globs.PartitionGlobs` | review/protectedpaths.go:260-279 | the compiling and the other patterns, each in order |
| `Globs.SelectPartitions` | review/protectedpaths.go:260-279 | the two lists are a partition of the input |
| `Globs.CheckSegments` | review/protectedpaths.go:260-279 | a pattern is kept if and only if every segment is a double star or well formed |
| `ProtectedGate.CheckProtectedPaths` | review/protectedpaths.go:183-254 | passes if and only if nothing is protected, or every pattern compiles and every changed file that a pattern protects is excused; a failed diff is neither pass nor fail; a fail names every malformed pattern and one hit per offending file, in order |
| `ProtectedGate.CheckFile` | review/protectedpaths.go:218-233 | the first pattern that protects a file decides about it |
| `ProtectedGate.IsExcused` | review/protectedpaths.go:224-229 | the two file-scoped exceptions and no other |
| `ProtectedGate.PassMeans` | review/protectedpaths.go:183-254 | a pass means every changed file that a pattern protects is go.mod with its retract directives unchanged (both versions closing their blocks) or CHANGELOG.md with every line outside its unreleased section surviving |
| `ProtectedGate.AllowedExactly` | review/protectedpaths.go:183-254 | on the text git prints the gate passes if and only if every pattern compiles and every changed file that one protects is go.mod or CHANGELOG.md with a harmless edit |
| `ProtectedGate.HitsExactly` | review/protectedpaths.go:218-233 | the hits are exactly the changed files that are protected and not excused, each with the first pattern that protects it |
| `ProtectedGate.HitsAre` | review/protectedpaths.go:218-233 | there is no hit if and only if every changed file that a pattern protects is excused |
| `AddedLines.ScanExact` | review/secrets.go:246-269 | for every multi-file edit printed as headers and counted hunks the scan returns exactly the added lines with file and new line number, whatever they contain, if and only if no hunk replaces a last line that had no final newline and no file whose name holds a space or is quoted has an added line |
| `AddedLines.LastLineIsMissed` | review/secrets.go:246-269 | the smallest diff with a replaced last line without a final newline |
| `AddedLines.SpacedNameIsMisreported` | review/secrets.go:252-255 | the smallest diff with a space in the name of a file |
| `AddedLines.ReportedExact` | review/secrets.go:252-255 | the scan has the right name if and only if the name is shown as it is, neither quoted nor ended by a tab |
| `AddedLines.AddsAreHeadLines` | review/secrets.go:246-269 | every expected line is the line of the new file that carries its number |
| `AddedLines.CollectAddedLines` | review/secrets.go:246-269 | the scan with its index and current file |
| `AddedLines.AppendHunkAdds` | review/secrets.go:295-307 | the added lines of one hunk body, numbered |
| `AddedLines.ScanHeader` | review/secrets.go:274-289 | a header makes the scan consume exactly the declared number of lines |
| `Durable.ConsumeLoop` | nats/jetstream.go:489-515 | every fetch but the last is dealt with completely, all messages resolved in order, before the next; a failure is waited out for the backoff its run of failures calls for; the loop ends only on the context, a terminal error or the end of input |
| `Durable.HandleBatch` | nats/jetstream.go:572-580 | messages are handled in order, cut short only by the first check that finds the context done |
| `Durable.HandleFetchError` | nats/jetstream.go:523-555 | stop, reset, or wait and double; it stops at the first check that finds the context done |
| `Durable.HandleMessage` | nats/jetstream.go:690-744 | acked, by that one call, if and only if the decision is ack; terminated, after the copy is published if one is configured, if and only if the decision is dead-letter or it is a refusal that shows MaxDeliver or more deliveries; every other refusal is one nak with the delay of its count |
| `Durable.SendDeadLetter` | nats/jetstream.go:781-805 | the copy is published, if configured, and the delivery is terminated either way |
| `Durable.LifeEnds` | nats/jetstream.go:690-744 | a message is delivered until it is not refused, at most MaxDeliver times; it ends acknowledged if and only if that delivery is acknowledged, and terminated otherwise; every delivery before is a nak with its delay |
| `Durable.AlwaysNacked` | nats/jetstream.go:690-744 | an always refused message is nacked MaxDeliver - 1 times, with the scheduled delay each time, and then terminated |
| `Durable.NackedUntilCounted` | nats/jetstream.go:690-744 | a message refused at every delivery goes on being nacked, for any number of deliveries, if and only if no delivery shows a count of MaxDeliver or more |
| `Durable.NoMetadataNeverDeadLetters` | nats/jetstream.go:690-744 | with the delivery count always missing a refused message is nacked at every one of any number of deliveries, always with the same delay, so no bound on its deliveries holds |
| `Durable.SeenIsLife` | nats/jetstream.go:690-744 | with true delivery counts this is the bounded life of the message |
| `Durable.NakDelay` | nats/jetstream.go:753-774 | the loop in int64 arithmetic computes the closed form and never overflows |
| `Durable.DelayGrows` | nats/jetstream.go:753-774 | later deliveries never wait less, and never more than five minutes |
| `Durable.DelayDoubles` | nats/jetstream.go:753-774 | the delay starts at the ack wait, doubles with each of the next 20 deliveries and stays there, never above five minutes |
| `Durable.ScheduleExact` | nats/jetstream.go:753-774 | the documented doubling schedule is met for every delivery count if and only if 20 doublings of the ack wait reach the cap |
| `Durable.NextFetchBackoff` | nats/jetstream.go:606-612 | positive and at most 30 s for every input, wrap-around included |
| `Durable.BackoffStep` | nats/jetstream.go:606-612 | repeated doubling from 100 ms is the capped power of two |
| `Mermaid.NodeIDs` | modulex.go:1196-1223 | every name gets an identifier of safe characters, safe names keep themselves, and no two names share one |
| `Mermaid.NextFree` | modulex.go:1196-1223 | the skip loop ends on the first free identifier, all before it reserved |
| `Mermaid.AheadShrinks` | modulex.go:1196-1223 | each blocked identifier uses up one reserved name, which is why the skip loop ends |

## Left out

- Symbolic links, hard links, temporary file names and a directory creation that fails half-way: the tree has no links, and creation and replacement are atomic steps that may fail.
- SHA-256, random tokens, JSON and YAML: hashing is an injective function, tokens are fresh parameters, encoding is lossless.
- ApprovalHistory.PassExactly: for histories under a clock that does not go back and with fresh tokens, which the source takes from the system clock and a random source.
- Running git, and the difference between a ref and its merge base: the single-file diff is taken from the merge base while the base content is read at the ref, so the exceptions are stated for a base that is the merge base.
- ProtectedGate.CheckProtectedPaths: the list of changed files is taken as git prints it; its quoting of unusual names is not undone by the source either.
- ManagedTasks.TasksFollowTheManager: manager calls come one after the other; a second `StopModules` at the same time returns at once, which `Supervisor` covers.
- `path.Match` on one segment: a parameter whose error depends on the pattern alone.
- DiffText.HeaderRoundTrip: counts are unbounded integers, so the overflow of `strconv.Atoi` on a header no file can have is not modelled.
- AddedLines.ScanExact: which names git quotes, and the escapes it writes, are parameters; the one fact used is that escaping never shortens a name.
- Changelog.SameAroundExactly: stated for files that both have a section; without one every non-empty hunk on that side is rejected, which OutsideSurvives covers.
- RabbitConsumer.NilCloseMeansStopped: about the first `Close`; a later one returns nil at once, whatever still runs.
- Managers.Manager.InitModules: the sort result is a ghost output, so its contract is read together with SortModules.
- The worker pool, the RabbitMQ consumer and the task supervisor are modelled on values, as transition systems over interleaved atomic actions, not as objects updated in place.
- Panics of Init, Start and Stop and the propagating panic policy: only returned errors and recovered task and handler panics are modelled.
- RabbitMQ connection, QoS and publishing, NATS publishing and consumer creation, HTTP and gRPC servers, telemetry: foreign calls.
- Classification of fetch errors by type and text in `isTerminalFetchErrorMatch`: a fetch result is already one of batch, timeout, terminal and other failure.
- Secret patterns, `discovery/classify.go` and `tools/modboundary`: their content is the semantics of regular expressions.
- The service registry and health checks (maps with a lock), lifecycle timings, diagram labels, diagnostics, contract and provenance rendering (text assembly), `verify.PlanFor` (a rule table), mocks, examples and scaffolding.
- `NewManager` refusing its options: `Run` then returns before there is a manager to stop.
