# Agenda-V2 deploy control plane: a verified model

Agenda-V2 deploys applications: it drives pipeline runs that can be paused, resumed
and retried, guards them with a Redis lock, rolls the results of an environment-wide
deploy up into one batch, runs commands on remote nodes, and has a set of smaller
components that each stand for something simpler (a bounded output buffer for a whole
stream, three counters for a slot table, a quoted line for an argument list). This
project models those components in Dafny and proves what each of them keeps over
every input, every run or every interleaving.

Code that changes state is modelled by classes and loops; each of those methods is
proved equal to (or a run of) a specification, and the theorems are lemmas about that
specification. A protocol is a state machine over its steps: theorems quantify over
all its runs.

| module | component |
|---|---|
| `Pipeline` | pipeline runs over the step rows and the deploy log of one release |
| `NodeJobs` | the node's job store and the control plane's dispatch-and-poll client |
| `Releases` | the release state machine and the environment rollback plan |
| `EnvDeploy` | the environment deploy batch and its reconcile |
| `DeployLock` | the per-instance deploy lock |
| `Targets` | synchronising deploy targets, machine ports kept exclusive |
| `TunnelRegistry` | the WebSocket tunnel registry with its three count indexes |
| `RateLimit` | the handshake token bucket |
| `SqlGuard`, `SqlPieces`, `SchemaOutline` | the read-only statement gate, the grammar it is judged by, and the one statement quoted by hand |
| `Utf8`, `OutputTail` | the bounded output tail |
| `RedisReply` | rendering nested Redis replies under caps |
| `EnvBackfill` | moving legacy variables into the prod environment row |
| `ShellQuote` | remote command lines |
| `Health` | the stored health record against the probe history |
| `Common` | options, results and sequence facts |

Some properties one might expect do not hold of the code. Each is stated with an input
or a run on which it fails and with the exact condition under which it does hold:

- The guard changes a statement it returned earlier if and only if that statement
  holds an unquoted `--` followed by whitespace or the end (`DashCommentGuarded`,
  `GuardIsIdempotentIff`).
- `Tail` is idempotent exactly for byte limits other than the marker's length, 18
  (`TailTwiceLosesMarkerText`, `TailIdempotentIff`).
- A Redis result can be marked truncated although nothing is missing, exactly when the
  reply ends in an empty array and its last leaf is the one that meets a cap
  (`EmptyArrayExample`, `TruncatedIff`).
- A run that starts from a log loaded before the lock was taken records the right
  commit exactly when its git_pull row is still unfinished as it begins or the loaded
  log still carries the stored commit (`StaleResumeLosesCommit`, `StaleLoadCommitIff`).
- A reconcile that writes late, when every child has finished and no deployed child was
  failed in between, is exact if and only if, when it read, every child had been drafted,
  none was in flight, and none that had failed has deployed since
  (`OverlappingReconcileExample`, `RetriedChildExample`, `LateWriteExactIff`); in general,
  if and only if the counts are those it read (`StaleResumeExample`, `LateWriteCountsIff`).
  The comment above `Reconcile` (internal/service/env_deployment_service.go:64-68) calls it
  race-free; the code reads and then writes without a transaction, and the model follows
  the code.
- Two accepted calls of `syncTargets` that overlap keep machine ports exclusive if and
  only if the targets that survive both claim no port in common (`OneApplicationCollides`,
  `ConcurrentSyncsExclusiveIff`); for different applications that is if and only if the
  requests claim none (`ConcurrentSyncsCollide`, `TwoApplicationsExclusiveIff`).
- Runs that keep to their deadline are kept apart by the lock if and only if the time
  between acquiring and starting, and the time over the deadline, fit into the thirty
  seconds that lockTTL adds (`ClashTooLate`, `ScheduledRunsNeverOverlapIff`).
- Variable names are not quoted in a remote line: it is read as intended exactly for
  valid variable names (`DottedNameExample`, `RemoteReadsBackIff`).

Where documentation and code disagree otherwise, the model follows the code: comments
speak of transitions such as `deploying -> pending_verify`, but every `Mark…` function
except `MarkDeploying` writes its status whatever the current one is, and `Rollback`
accepts releases in any status other than rolling back or rolled back.

## Model

| member | source | states |
|---|---|---|
| `Pipeline.RowsAlwaysOrdered` | internal/pipeline/runner.go:52-106 | after any sequence of runs, pauses, resumes and retries from any index the rows read success…success, at most one running or failed, then pending, and agree with where the run is |
| `Pipeline.StartNeedsEarlierSuccess` | internal/pipeline/runner.go:76-95 | a step starts only when every earlier row is success and its own is not |
| `Pipeline.SuccessMeansEveryStep` | internal/pipeline/runner.go:97-105 | a run reports success only over rows that are all success |
| `Pipeline.RerunNeedsReset` | internal/repository/pipeline_step_repository.go:69-93 | a step that succeeded starts again only if a reset in between covered its index |
| `Pipeline.AttemptsCountRetries` | internal/repository/pipeline_step_repository.go:66-85 | over any sequence of events a row's attempt counter grows by the number of retries from exactly that row |
| `Pipeline.ResetClears` | internal/repository/pipeline_step_repository.go:69-93 | behind any history, a reset leaves every row from its index on pending with empty texts, one attempt more on the first of them, and the rows before it and the log as they were |
| `Pipeline.RecordedCommit` | internal/repository/deploylog_repository.go:96-114 | when a run reports success the recorded commit is the one the last git_pull resolved, across pauses, failures and retries, or the pin if none ran (loading and beginning taken as one step) |
| `Pipeline.SuccessRecords` | internal/pipeline/runner.go:96-103 | over any history, stale loads, pauses, failures and retries included, a success records the last commit its own run pulled, else the one on the log it was begun with |
| `Pipeline.StaleLoadCommitIff` | internal/application/release_app.go:262-283 | without that reading, and with git_pull as the first and only step that resolves a commit (internal/pipeline/builder.go:105-107), a run that succeeds records the right commit if and only if the git_pull row is unfinished when it begins or the loaded log still carries the stored commit |
| `Pipeline.StaleResumeLosesCommit` | internal/application/release_app.go:268-281 | for a pipeline of any length, a history in which a second resume with an earlier loaded log finds every step done and overwrites the resolved commit with the pin |
| `Pipeline.DeployStore.ResetSteps` | internal/repository/pipeline_step_repository.go:69-93 | every row from the index on is pending with empty texts afterwards, only the first counts one more attempt, earlier rows are untouched |
| `Pipeline.RunOne` | internal/pipeline/runner.go:110-161 | one step is exactly the protocol's start and end of that step on the stored rows, the in-memory log taking a resolved commit |
| `Pipeline.StepWrites` | internal/pipeline/runner.go:110-161 | what the start and the end of a step write: running, failed or success with the texts of each case, on that row alone |
| `Pipeline.RunWrites` | internal/repository/deploylog_repository.go:73-114 | what beginning, rejecting, pausing, failing and succeeding write on the log, and that they touch no row |
| `Pipeline.RunIteration` | internal/pipeline/runner.go:76-94 | one pass of the loop (skip, pause at the boundary, run the step) is a run of the protocol, with its exact effect on rows, pause flag and in-memory log; where the loop goes on, it has started its own step exactly if the row was unfinished, and no other |
| `Pipeline.Run` | internal/pipeline/runner.go:52-106 | the call is one begin followed by protocol events and a terminal write that matches the in-memory status; it goes through the unfinished steps up to the first that fails or meets a pause, and the rows, status, texts and commit it leaves follow from the rows and the outcomes alone; a refused run changes no row |
| `Pipeline.OutcomeIsDetermined` | internal/pipeline/runner.go:76-105 | where a run stops and what it leaves is unique, and it succeeds exactly when no unfinished step fails or meets a pause |
| `Pipeline.Resume` | internal/application/release_app.go:262-283 | starts exactly for a paused log whose lock is free, refuses without touching the store otherwise, and continues the run from the stored rows and commit |
| `Pipeline.Retry` | internal/application/release_app.go:208-240 | starts exactly for a failed log, an index in range, a free lock and a deployable release; resets first and then runs over the reset rows; if the run succeeds, every step from the index on was started again and a step before it exactly when it had not been done; a release that is not deployable leaves exactly the reset and an unchanged log, any other refusal nothing |
| `NodeJobs.NilMeansOwnSuccess` | internal/runner/agent_runner.go:56-120 | with lost, late and repeated messages, failed polls, sweeps and restarts, a run returns nil only if the command it posted under its own id ended in success on the node |
| `NodeJobs.TerminalStatusIsFinal` | internal/node/jobstore.go:74-85 | once a job's record is terminal it never changes in any later state |
| `NodeJobs.SweepKeepsUnfinished` | internal/node/jobstore.go:141-153 | a sweep leaves the table entry of a running job alone |
| `NodeJobs.SecondStartNeedsDrop` | internal/node/jobstore.go:60-68 | a second command for one id starts only after a restart, a delete of that id, or a sweep after its command had finished |
| `NodeJobs.EntryStays` | internal/node/jobstore.go:63-118 | an id keeps its table entry, and the same record, until one of those |
| `NodeJobs.RunKeepsInv` | internal/node/jobstore.go:63-153 | in every reachable state records, table, messages and clients agree (status, finish time and outcome tell the same, a record is a success exactly if its command ended in one, ids have one owner, every success reply is backed by a command) |
| `NodeJobs.NodeSteps` | internal/node/jobstore.go:63-118 | what a dispatch, a finished command, a delete and a restart do to records and table, by value |
| `NodeJobs.SweepAndPoll` | internal/node/jobstore.go:87-153 | a sweep drops exactly the entries finished longer ago than the retention, and a poll answers with the record of the entry or with not found |
| `NodeJobs.ClientSteps` | internal/runner/agent_runner.go:56-120 | a client goes on polling exactly on undecided ticks and is otherwise done with the result that tick stands for |
| `NodeJobs.JobStore.Dispatch` | internal/node/jobstore.go:63-73 | starts a command exactly for an id not in the table |
| `NodeJobs.JobStore.Delete` | internal/node/jobstore.go:104-118 | removes the entry and reports whether it was known |
| `NodeJobs.JobStore.Sweep` | internal/node/jobstore.go:141-153 | removes exactly the entries finished longer ago than the retention |
| `NodeJobs.PollLoop` | internal/runner/agent_runner.go:86-119 | every tick before the last one consumed is a failed poll, an unclear reply or a running one, and the last is none of these unless the ticks ran out; nil, lost, failed with the reply's or the default text, and deadline each exactly on its own kind of tick; the output kept is that of the last tick that brought any, the final snapshot included on expiry |
| `NodeJobs.WithSnapshot` | internal/runner/agent_runner.go:64-82 | the fetch on expiry replaces the kept output unless it fails or is empty |
| `Releases.DeployedMeansRan` | internal/application/release_app.go:577-599 | in every interleaving a release awaiting verification or verified has had a run of its own end in success |
| `Releases.RollbackHasReplacement` | internal/application/release_app.go:298-325 | rolling back appears only where a newer release pointing back was started, rolled back only where such a release succeeded |
| `Releases.RollbackPinsARunCommit` | internal/service/application_release_service.go:217-243 | a rollback draft, made with the target as it was loaded when it was verified, pins a commit that a successful run of that target had recorded by then, for the bad release's own place, whatever happened to the target since |
| `Releases.StatusIsLastWrite` | internal/service/application_release_service.go:295-348 | in every run a release has the status its last write stands for, written out for each of the six, draft before any, and the commit of its last success unless empty |
| `Releases.WritesBecomeDue` | internal/application/release_app.go:298-325 | which step makes which status write due, and what it has checked |
| `Releases.WholeLife` | internal/application/release_app.go:577-618 | a run in which one release goes through draft, deploying, pending verify, verified, rolling back and rolled back |
| `Releases.LinksTerminate` | internal/service/application_release_service.go:234-239 | previous-release links strictly decrease in every reachable table, so following them ends and meets no release twice |
| `Releases.HistoryDecreases` | internal/service/application_release_service.go:234-239 | in a table whose links decrease, the chain of links from a release is strictly decreasing and no longer than its id |
| `Releases.RunKeepsInv` | internal/service/application_release_service.go:295-348 | every status and every write still to be made is justified by the history, in every interleaving of reads and writes; `Releases.StatusIsLastWrite` is the converse |
| `Releases.PreviousVerified` | internal/repository/application_release_repository.go:114-131 | the newest verified release of a place below an id, if there is any |
| `Releases.PlanEnvRollback` | internal/service/application_release_service.go:274-293 | all or nothing: a plan exists exactly when no child is deploying, none that needs a rollback lacks an earlier verified release and some child needs one; it then pairs every child awaiting verification, verified or rolling back, in order, with its newest earlier verified release, and names the child that blocks otherwise |
| `EnvDeploy.BatchStore.Reconcile` | internal/service/env_deployment_service.go:75-123 | the row becomes the exact roll-up of the children: counts, finished mark, and success, failed or partial by what all of them are |
| `EnvDeploy.SettledBatchIsExact` | internal/application/release_app.go:577-618 | in every run of the batch, once all children are terminal and no reconcile is owed, the stored row is the exact roll-up and its counts add up |
| `EnvDeploy.RollupIsUnique` | internal/service/env_deployment_service.go:83-111 | the children determine the row |
| `EnvDeploy.RollupMeans` | internal/service/env_deployment_service.go:83-111 | the counts of a roll-up by status: deployed and since rolled back children are successes, failed ones failures, and it is finished once none is draft or deploying |
| `EnvDeploy.ChildIsLastWrite` | internal/application/release_app.go:134-159 | in every run a child has the status of the last event about it, written out for each event |
| `EnvDeploy.LateWriteExactIff` | internal/service/env_deployment_service.go:75-113 | in every run in which a reconcile reads at one step and writes at a later one, when every child has finished and no deployed child was failed in between: the row is exact if and only if at the read all children had been drafted, none was in flight, and none that had failed has deployed since |
| `EnvDeploy.LateWriteCountsIff` | internal/service/env_deployment_service.go:75-113 | whatever happens in between, the late row is exact if and only if the number of children and the two counts are those at the read |
| `EnvDeploy.LateWriteWithoutRestarts` | internal/service/env_deployment_service.go:75-113 | if no child is drafted, marked or, once finished, run again between read and write, the row written when every child has finished is exact if and only if no child was in flight at the read |
| `EnvDeploy.OverlappingReconcileExample` | internal/application/release_app.go:155-159 | a run in which two overlapping reconciles leave a finished batch recorded as running, with nothing owed any more |
| `EnvDeploy.RetriedChildExample` | internal/application/release_app.go:155-159 | a run in which DeployEnv's own reconcile reads a failed child with nothing in flight, the child is retried and deploys, and the late write records the deployed batch as failed |
| `EnvDeploy.StaleResumeExample` | internal/application/release_app.go:262-283 | a run in which DeployEnv's reconcile reads a deployed child, a resume with a stale log runs it again and fails it, and the late write records the failed batch as a success |
| `EnvDeploy.SingleRollbackExactIff` | internal/application/release_app.go:298-325 | a single-instance rollback keeps the batch row exact if and only if the child had deployed |
| `DeployLock.AtMostOneHolder` | internal/service/deploy_lock_service.go:27-50 | in every interleaving at most one operation holds an unexpired lock on a key |
| `DeployLock.GrantedIff` | internal/service/deploy_lock_service.go:27-50 | in every interleaving a call gets the lock exactly when no earlier grant of the key is still neither given back with its own token nor out of time |
| `DeployLock.ReleaseSparesHolders` | internal/service/deploy_lock_service.go:39-50 | a release with any other token never takes the lock from its holder |
| `DeployLock.TimelyRunsNeverOverlap` | internal/application/release_app.go:168-204 | runs on one key that end within the lock's time limit of their acquisition never overlap |
| `DeployLock.ScheduledRunsNeverOverlapIff` | internal/application/release_app.go:556-565 | for runs locked for lockTTL that start within a delay of their acquisition and are over within a grace of the deadline runAsync counts from the start: over all interleavings none overlap on one key if and only if delay and grace together are at most thirty seconds |
| `DeployLock.ClashTooLate` | internal/application/release_app.go:658-664 | for every longer delay and grace, an interleaving in which two runs that kept to them overlap |
| `DeployLock.LockTTL` | internal/application/release_app.go:658-664 | the lock lives thirty seconds longer than the configured timeout, 1230 seconds for none |
| `DeployLock.KeysIdentifyInstances` | internal/service/deploy_lock_service.go:58-60 | two lock keys are equal exactly for the same application, environment and instance |
| `DeployLock.LockService.AcquireKey` | internal/service/deploy_lock_service.go:27-37 | set-if-absent with a fresh token: refuses exactly while an unexpired lock is stored |
| `DeployLock.LockService.ReleaseKey` | internal/service/deploy_lock_service.go:41-50 | deletes the lock exactly when the caller's token is the stored one |
| `Targets.EveryWriteIsExclusive` | internal/service/application_service.go:381-521 | for an accepted request no two enabled targets share a machine port after any prefix of its upserts, nor after deleting any rows from there |
| `Targets.UpsertsStayExclusive` | internal/service/application_service.go:463-467 | each upsert also keeps every later one free of conflicts |
| `Targets.UpsertKeeps` | internal/repository/application_target_repository.go:143-193 | one conflict-free upsert keeps ports exclusive and keys unique |
| `Targets.WritesExclusiveIff` | internal/repository/application_target_repository.go:143-234 | upserts, each free of conflicts on some table before it, and deletes, of any keys, repeatedly and in any order, leave an exclusive table if and only if no two puts that are the last write for their key claim one machine port |
| `Targets.ConcurrentSyncsExclusiveIff` | internal/service/application_service.go:381-521 | two calls, for one application or two, each accepted on the table its validation read, at whatever moment, their upserts and deletes interleaved in any order, leave it exclusive if and only if no surviving target of one claims a machine port of a surviving target of the other |
| `Targets.TwoApplicationsExclusiveIff` | internal/service/application_service.go:381-521 | for two applications, if and only if the two requests claim no machine port in common |
| `Targets.SavedTwiceIsExclusive` | internal/service/application_service.go:381-521 | one request saved twice, at whatever moments, always leaves the table exclusive |
| `Targets.ConcurrentSyncsCollide` | internal/service/application_service.go:768-778 | two applications that ask for one port, both accepted on the empty table, share it however their writes interleave |
| `Targets.OneApplicationCollides` | internal/service/application_service.go:768-778 | so do two instances of one application saved by two requests at once |
| `Targets.ValidateTarget` | internal/service/application_service.go:739-780 | accepts exactly the targets that are disabled, or have a port in range and, on a machine, a known machine of the right type whose port only the target's own row may hold; otherwise reports the first fault in that order |
| `Targets.ValidateAll` | internal/service/application_service.go:381-461 | accepts exactly the requests whose targets are all acceptable and pairwise distinct in key and machine port; otherwise reports the first fault of the first request that cannot be accepted |
| `Targets.UpsertAll` | internal/service/application_service.go:463-467 | a failure at any write leaves the table exclusive, other applications untouched and exactly the items before it stored; it completes exactly when no write fails, with every item stored |
| `Targets.DeleteOthers` | internal/service/application_service.go:508-521 | deletes only the application's rows that were not requested, all of them unless a write fails, and changes no row it keeps |
| `Targets.WriteItems` | internal/service/application_service.go:463-521 | the two write loops together: completes exactly when the routes and all writes do, leaving exactly the items |
| `Targets.SyncTargets` | internal/service/application_service.go:350-523 | a request that is not accepted writes nothing and gets its first fault, a failure part way keeps the table exclusive with the upserts made so far stored, and the call completes exactly when the request is accepted and no write fails: then the application has one row per request with that request's environment, instance, machine, port, enabled mark and details, and no other, under the ids they had |
| `Targets.TargetTable.Upsert` | internal/repository/application_target_repository.go:143-193 | writes the row with the target's key, or a new one if there is none, and keeps the table valid |
| `Targets.TargetTable.Delete` | internal/repository/application_target_repository.go:221-234 | removes exactly the rows with the key |
| `TunnelRegistry.IndexesAlwaysCount` | internal/wstunnel/registry.go:116-191 | in every interleaving, releases split in two and repeated included, the three indexes are the counts of the slot table without zero entries and add up to the slot counts |
| `TunnelRegistry.LimitsNeverExceeded` | internal/wstunnel/registry.go:116-130 | fixed non-zero limits (total, per route, per client) are never exceeded by the slot table |
| `TunnelRegistry.RefusedIff` | internal/wstunnel/registry.go:116-130 | a request is refused for the drain, the total, the route or the client exactly when the slots in the table say so and no earlier reason applies; a client without an address is never over its limit |
| `TunnelRegistry.StepEffect` | internal/wstunnel/registry.go:116-199 | what each step does to the slots and to the releases under way, by value, the indexes staying their counts |
| `TunnelRegistry.DrainNeverGrows` | internal/wstunnel/registry.go:193-199 | after BeginDrain the slot table only ever shrinks |
| `TunnelRegistry.SecondReleaseDoesNothing` | internal/wstunnel/registry.go:153-158 | releasing a released slot changes nothing |
| `TunnelRegistry.IndexTotal` | internal/wstunnel/registry.go:225-239 | the entries of a count index add up to the number of slots counted |
| `TunnelRegistry.Registry.Admit` | internal/wstunnel/registry.go:116-140 | refuses for the first reason that applies and changes nothing, else reserves a slot under the next id |
| `TunnelRegistry.Registry.Attach` | internal/wstunnel/registry.go:144-151 | marks the slot as established and changes nothing else |
| `TunnelRegistry.Registry.Release` | internal/wstunnel/registry.go:155-171 | both halves of a release in sequence, a second call being neither |
| `TunnelRegistry.Registry.CloseAll` | internal/wstunnel/registry.go:268-282 | flags exactly the established slots and returns their number |
| `TunnelRegistry.Registry.Stats` | internal/wstunnel/registry.go:225-239 | one entry per live (route, instance) with its count, strictly ordered by route and then instance, adding up to the number of slots |
| `RateLimit.WindowBound` | internal/wstunnel/ratelimit.go:41-60 | of any run of consecutive calls, at most burst + rate·(t − s) are allowed while the clock reads between s and t, whatever came before and however the clock jumps |
| `RateLimit.IntervalBound` | internal/wstunnel/ratelimit.go:41-60 | of all calls that read the clock between s and t at most as many are allowed, if the clock never goes back |
| `RateLimit.ReturningClockExample` | internal/wstunnel/ratelimit.go:41-60 | the arithmetic alone, on a clock that leaves the interval and comes back, allows one call more than that bound |
| `RateLimit.TokensStayInRange` | internal/wstunnel/ratelimit.go:41-60 | tokens stay within [0, burst] over any sequence of clock readings |
| `RateLimit.BackwardsClockAddsNothing` | internal/wstunnel/ratelimit.go:47-54 | a clock that went back adds no token and moves no reference time |
| `RateLimit.CallsArePaidFor` | internal/wstunnel/ratelimit.go:47-59 | allowed calls plus tokens left never exceed the tokens at hand plus what the elapsed time is worth |
| `RateLimit.BooksBalance` | internal/wstunnel/ratelimit.go:47-59 | as long as no refill overflows, allowed calls plus tokens left equal the tokens at hand plus what the elapsed time is worth |
| `RateLimit.TokensAreEnough` | internal/wstunnel/ratelimit.go:47-59 | as many calls as there are tokens are all allowed, whatever the clock does |
| `RateLimit.RefusedThenAllowed` | internal/wstunnel/ratelimit.go:47-59 | a refused call is allowed once the time for one token has passed |
| `RateLimit.NewLimiter` | internal/wstunnel/ratelimit.go:26-38 | no limiter exactly for a non-positive rate, else a full bucket of at least one token: the given burst when positive, otherwise one second's worth |
| `RateLimit.RateLimiter.Allow` | internal/wstunnel/ratelimit.go:41-60 | the in-place update is one refill and, when it is allowed, one token spent |
| `SqlGuard.GuardIsIdempotentIff` | internal/sqlguard/sqlguard.go:46-81 | re-scanning a returned statement gives the same code and mask, and the guard returns it unchanged, if and only if it holds no unquoted `--` followed by whitespace or the end |
| `SqlGuard.DashCommentGuarded` | internal/sqlguard/sqlguard.go:138-144 | an accepted statement on which that fails: a block comment's blank turns two dashes into a comment |
| `SqlGuard.ScanAligned` | internal/sqlguard/sqlguard.go:83-174 | code and mask stay aligned: same length, equal outside literals, blank inside them, and no comment left except possibly a dash comment |
| `SqlGuard.ScanFixpoint` | internal/sqlguard/sqlguard.go:89-174 | an aligned pair scans to itself exactly when its mask holds no dash comment; otherwise a scan fails or shortens it |
| `SqlGuard.BodyLenLocal` | internal/sqlguard/sqlguard.go:108-133 | where a literal ends depends on what follows it only through the next character |
| `SqlGuard.TrimAligned` | internal/sqlguard/sqlguard.go:176-188 | trimming never cuts into a literal |
| `SqlGuard.TrimTwice` | internal/sqlguard/sqlguard.go:178-188 | trimming a trimmed statement changes nothing |
| `SqlGuard.ScanLiteral` | internal/sqlguard/sqlguard.go:103-136 | the inner loop finds the extent of a literal under escapes and doubled quotes, copying it and blanking its mask |
| `SqlGuard.ScanStatement` | internal/sqlguard/sqlguard.go:89-174 | the index loop equals the specification on suffixes, errors included; `SqlPieces.ScanReadsPieces` and `SqlPieces.ScanFailsAt` say what that is |
| `SqlGuard.TrimStatement` | internal/sqlguard/sqlguard.go:178-188 | the two loops equal the specification of trimming |
| `SqlGuard.FindVerb` | internal/sqlguard/sqlguard.go:193-203 | the two loops find the first keyword behind blanks and opening parentheses |
| `SqlGuard.EnsureReadOnly` | internal/sqlguard/sqlguard.go:50-81 | the assembled gate equals the specification, each rejection in its order; `SqlPieces.GuardJudges` says what it accepts |
| `SqlPieces.PiecesScan` | internal/sqlguard/sqlguard.go:89-174 | text made of code characters, closed literals, line comments up to their newline and block comments up to their first end is scanned as the code and the literals, nothing for a line comment and one blank for a block comment, followed by the scan of whatever comes behind |
| `SqlPieces.ScanReadsPieces` | internal/sqlguard/sqlguard.go:89-174 | every scan that succeeds has read such pieces of the whole text, and kept exactly that of them |
| `SqlPieces.ScansIff` | internal/sqlguard/sqlguard.go:89-174 | a text scans if and only if it falls into such pieces |
| `SqlPieces.ScanFailsAt` | internal/sqlguard/sqlguard.go:103-174 | a scan that fails does so behind pieces, at a literal or comment that never ends or an executable comment, with that rejection |
| `SqlPieces.GuardJudges` | internal/sqlguard/sqlguard.go:31-81 | the gate on every statement that scans: blanks and trailing semicolons cut, then refused if empty, if a semicolon is left, if no word comes first, if the upper-cased first word is none of SELECT, WITH, SHOW, DESC, DESCRIBE and EXPLAIN, or if into and outfile or dumpfile stand as words with only blanks between, each with its own rejection, and returned otherwise |
| `SqlPieces.WritesFileIff` | internal/sqlguard/sqlguard.go:44 | the pattern is found exactly where the two words stand, letters in either case, word boundaries around them |
| `SchemaOutline.OutlineStatementIsGuarded` | internal/service/database_query_service.go:286-292 | every name without NUL and line breaks gives a statement that scans as one closed literal with a blank mask, that the guard returns unchanged, and whose literal reads back as the name |
| `SchemaOutline.StatementFailsIff` | internal/service/database_query_service.go:319-322 | a name is refused exactly if it holds a NUL or a line break |
| `SchemaOutline.EscapedBody` | internal/service/database_query_service.go:319-326 | an escaped name is exactly one closed literal body and MySQL's reading of it is the name |
| `SchemaOutline.EscapeCons` | internal/service/database_query_service.go:323-324 | the two successive replacements act on each character separately |
| `OutputTail.Buffer.Write` | internal/outputtail/buffer.go:28-49 | after any writes the buffer holds exactly the last bytes of everything written and `truncated` says exactly whether something was dropped |
| `OutputTail.Buffer.String` | internal/outputtail/buffer.go:51-55 | renders the retained bytes with the truncation mark exactly when something was dropped |
| `OutputTail.TailFromIsLongestFit` | internal/outputtail/buffer.go:65-105 | the shown text is the longest suffix of the repaired input that starts at a character and fits both limits: all of it when it fits and nothing was cut before, else what fits beside the marker of 18 bytes, or without it for limits up to 18; nothing for limits below one |
| `OutputTail.TailIsLongestFit` | internal/outputtail/buffer.go:60-105 | the same of Tail, for the text behind a leading marker, which counts as cut before |
| `OutputTail.TailIsBoundedUtf8` | internal/outputtail/buffer.go:57-63 | the result is valid UTF-8 (section 3 of RFC 3629) of at most maxBytes bytes |
| `OutputTail.TailIdempotentIff` | internal/outputtail/buffer.go:60-105 | applying Tail twice changes nothing on every text if and only if the byte limit is not the marker's length, 18 |
| `OutputTail.TailTwice` | internal/outputtail/buffer.go:60-105 | for every other byte limit a second Tail with the same limits changes nothing |
| `OutputTail.TailTwiceLosesMarkerText` | internal/outputtail/buffer.go:91-95 | at exactly 18 bytes a text that ends in the marker is lost by the second call |
| `OutputTail.LineStartExact` | internal/outputtail/buffer.go:73-86 | the line loop cuts behind the newline that would be one line too many, and nowhere else |
| `OutputTail.LinesAre` | internal/outputtail/buffer.go:73-86 | the lines that are counted are one more than the newlines before the last byte |
| `OutputTail.ComputeTail` | internal/outputtail/buffer.go:65-105 | the index loops compute the specified tail |
| `Utf8.RepairedIsValid` | internal/outputtail/buffer.go:69-71 | repairing any bytes gives valid UTF-8 |
| `Utf8.RepairKeepsValid` | internal/outputtail/buffer.go:69-71 | valid UTF-8 is left as it is |
| `Utf8.ValidIff` | internal/outputtail/buffer.go:69-71 | the bytes taken for valid are exactly the encodings of sequences of Unicode scalar values by the table in section 3 of RFC 3629 |
| `Utf8.RepairRun` | internal/outputtail/buffer.go:69-71 | behind valid text a whole run of ill-formed bytes becomes one "?", and what follows it is repaired as if it stood alone |
| `Utf8.FirstRun` | internal/outputtail/buffer.go:69-71 | every text that is not valid splits into valid text, such a run and a rest that is empty or starts with a character |
| `Utf8.RepairBetween` | internal/outputtail/buffer.go:69-71 | a run between valid texts becomes one "?" and both texts stay |
| `RedisReply.CappedIsPrefix` | internal/node/redis.go:208-259 | for every nested reply and caps the scalars taken are a prefix of its scalars in depth-first order, each taken while the ones before it met neither the leaf cap nor, with the lengths of their strings, the byte cap, and all of them when not marked truncated |
| `RedisReply.TruncatedIff` | internal/node/redis.go:212-259 | the mark is set exactly when scalars are missing, or all of them meet a cap and the reply ends in an empty array |
| `RedisReply.EmptyArrayExample` | internal/node/redis.go:216-225 | a complete result marked truncated |
| `RedisReply.VisitsHoldFlattening` | internal/node/redis.go:215-254 | the scalars among the visited nodes are the depth-first flattening |
| `RedisReply.Walker.Walk` | internal/node/redis.go:215-255 | the recursion over shared leaves and byte count goes along the visited nodes and stops at the first cap; each leaf shows its scalar (nil as no value, text as itself, other bytes as flagged base64, anything else as printed) and the count is that of the strings shown |
| `RedisReply.FlattenReply` | internal/node/redis.go:212-259 | leaf by leaf, the reply's scalars in depth-first order are shown so, as far as the caps allow |
| `RedisReply.ScalarRow` | internal/node/redis.go:144-161 | one row with the leaf's value, type and flag, or an empty nil row |
| `RedisReply.IndexedRows` | internal/node/redis.go:163-185 | one numbered row per leaf, the columns named and typed, the value column exactly when all leaves share a type |
| `RedisReply.PairRows` | internal/node/redis.go:187-206 | leaves two by two in order, an odd one dropped and marked |
| `RedisReply.RenderReply` | internal/node/redis.go:105-124 | rows never exceed maxRows for every positive maxRows (exact condition for the others); a scalar reply is one cell with its type (text as text, other bytes as base64 in a binary column, nil as no cell), an array one numbered row per scalar in depth-first order, a pair reply two scalars a row; columns are binary exactly if a shown scalar is not text, and the mark is set exactly when the walk was cut or a pair was |
| `EnvBackfill.ProdIsPreserved` | internal/service/application_environment_backfill.go:63-106 | for string-valued variables the merged prod environment of every instance is the same before, between the two writes, and after |
| `EnvBackfill.ProdIsPreservedIff` | internal/service/application_environment_backfill.go:63-106 | for arbitrary values the move is invisible to every prod instance if and only if each is a string, or a null that the prod row overrides |
| `EnvBackfill.OtherEnvsLoseBaseline` | internal/service/application_environment_backfill.go:108-113 | stage and test lose exactly the application-level layer |
| `EnvBackfill.RerunCompletes` | internal/service/application_environment_backfill.go:32-35 | a second run after an interruption ends where an uninterrupted one would have, and after a complete one changes nothing |
| `EnvBackfill.Tables.Backfill` | internal/service/application_environment_backfill.go:39-119 | wherever it stops, a prefix of the applications is migrated, at most one is between its writes, the rest and the other environments are untouched; it completes exactly when no write fails and no needed prod row is undecodable, counts the applications moved, and changes nothing without legacy keys |
| `EnvBackfill.Tables.MigrateOne` | internal/service/application_environment_backfill.go:50-106 | one application: existing prod values win, the row's other columns stay, the legacy key goes last; where it stops short, why, and whether that is between the two writes |
| `EnvBackfill.MigratedMeans` | internal/service/application_environment_backfill.go:50-106 | a migrated Docker application has lost its "env" field and nothing else, and its prod row has gained each string of it that it did not have, kept the values it had, and nothing else |
| `EnvBackfill.MergeEnv` | internal/pipeline/builder.go:467-491 | three layers, each variable from the last one that has it |
| `ShellQuote.RemoteReadsBack` | internal/runner/runner.go:111-129 | with valid variable names in the entries that are kept, a shell reads the remote line as exactly the directory change and the command with its assignments, name and arguments (sections 2.2.1, 2.2.2, 2.9.1 and 2.10.2 of the POSIX.1-2017 Shell Command Language) |
| `ShellQuote.RemoteReadsBackIff` | internal/runner/runner.go:111-129 | for every directory, name, argument list and environment without NUL, that holds if and only if the names of the kept entries are valid variable names, whatever characters they are made of; entries that are skipped do not matter |
| `ShellQuote.DottedNameExample` | internal/runner/runner.go:113-119 | an entry with a dot in its name is run as the command |
| `ShellQuote.OnlyValidNamesAssigned` | internal/runner/runner.go:113-119 | whatever the line, a shell assigns only to valid variable names |
| `ShellQuote.AssignmentReadsAs` | internal/runner/runner.go:113-119 | a kept entry whose name is made of ordinary characters reads back as itself, and as an assignment exactly when the name is a valid variable name |
| `ShellQuote.QuoteReads` | internal/runner/runner.go:190-193 | a quoted string is one word, or part of one, with exactly its text, and never a name or an assignment |
| `ShellQuote.ShQuote` | internal/pipeline/compose_override.go:254-266 | the byte-by-byte quoter agrees with the other one on every string |
| `ShellQuote.RemoteLine` | internal/runner/runner.go:111-129 | the loops and the join build the specified line |
| `ShellQuote.AssignmentParts` | internal/runner/runner.go:113-119 | keeps, in order, exactly the entries with a name before "=" and quotes their values |
| `ShellQuote.PairsOf` | internal/runner/runner.go:113-119 | the assignments asked for are the entries with a name before their first "=", in order, split there |
| `Health.CountersAreRuns` | internal/service/application_health_service.go:279-295 | over every probe history the counters are the lengths of the trailing success and failure runs, exactly one of them zero |
| `Health.StatusIsLastReached` | internal/service/application_health_service.go:259-311 | the status is the one set at the most recent point where a run reached its threshold, unknown exactly if there was none |
| `Health.TimesAreLatest` | internal/service/application_health_service.go:279-292 | the two timestamps are those of the latest success and failure, and the message that of the last probe |
| `Health.BuildResult` | internal/service/application_health_service.go:259-311 | the local updates compute the record the history lemmas are about |

## Left out

- HTTP handlers, routing, login and tokens, the web console, alerts and Prometheus: plumbing around libraries.
- GORM and MySQL behaviour, including column defaults: a repository is a table with the written columns; Redis is an atomic set-if-absent and compare-and-delete.
- git, docker, compose and ssh execution: a step is an action that fails, succeeds, or succeeds and resolves a commit; a remote command is opaque.
- Crypto, file storage, edge TLS, gateway route building other than `mergeEnv`, monitors and tickers.
- Timestamps and durations of step and log rows, and the cutting of their texts to the storage budget (the cut itself is `OutputTail`).
- Failing store writes inside a pipeline run, and a process that dies during one: `Pipeline` takes one run at a time with writes that succeed.
- Pipeline.RecordedCommit: takes loading the log and beginning the run as one step; the code loads before it locks, and `Pipeline.StaleLoadCommitIff` says exactly what then remains.
- EnvDeploy.SettledBatchIsExact: takes each reconcile and each verify as one step and leaves out the single-instance rollback of a failed child; `EnvDeploy.LateWriteCountsIff` and `EnvDeploy.SingleRollbackExactIff` say exactly what the first and the last exclude.
- Targets.SyncTargets: alone on the table; the request checks that involve no port (names, health settings, gateway routes) are one flag per request, and the route writes between the loops one outcome.
- EnvDeploy.LateWriteExactIff: leaves out steps that fail a deployed child between read and write, namely DeployEnv marking a child that somebody else deployed between its draft and its start, and a run resumed with a stale log that ends in failure; `EnvDeploy.LateWriteCountsIff` covers both.
- `Drain` of the tunnel registry, being a wait followed by `CloseAll`.
- NodeJobs.TerminalStatusIsFinal: the output a command prints while it runs is not part of the record in the protocol.
- RateLimit.WindowBound: exact reals, so rounding of floating-point numbers is not modelled. Clock readings that go back are covered although the code reads a monotonic clock; `RateLimit.IntervalBound` is what holds of the code for all calls of an interval.
- SqlGuard.EnsureReadOnly: works on characters, as after the conversion to runes, so statements that are not valid UTF-8 are outside the model; the Unicode tables behind IsLetter and ToUpper are parameters, and upper-casing maps one character to one.
- SchemaOutline.OutlineStatementIsGuarded: starts from the trimmed name; permission checks and the relay are left out.
- RedisReply.RenderReply: whether a command answers in pairs is a parameter, and map replies, which the pinned protocol version never sends, are left out.
- ShellQuote.RemoteReadsBack: needs valid variable names in the entries that are kept, because the code quotes only values; its callers pass `APP_PORT` and `APP_METRICS_PORT` (internal/pipeline/step_compose.go:17-33). What a shell does with a line that holds special characters in a name is not modelled beyond that it is not what was asked.
- EnvBackfill.Tables.Backfill: JSON text is modelled after decoding, and map iteration picks keys in any order.
- `DeployEnv`, `RollbackEnv`, `VerifyEnv` and `rollbackBatchPin` as calls: their writes appear as events of `Releases` and `EnvDeploy`, the fan-out loops would only add easy members.
- Instance-name normalisation (trimming and lower-casing): names are as after it.
