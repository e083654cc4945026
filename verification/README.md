# Verified model of the workflow runner

A Dafny model of the parts of the runner in which correctness spans many steps: the durable
job queue and its workers, the path from a workflow bundle to provisioned services, crash and
resume of a scenario, synchronization by version, revision numbers, session deletion, the
request limiter, and the payment settlement of the fixture application.
`dafny verify dfyconfig.toml` checks everything.

## How it is laid out

| modules | what they hold |
|---|---|
| `Jobs`, `JobStores`, `JobProtocol`, `JobAccounting`, `JobOutcomes` | rows and guarded writes of the queue; the transactions as methods of a class; all runs of queue and workers as a state machine; quantities over whole runs; which event brings about what |
| `FixedWindow`, `RateLimiting` | the fixed-window counter that the queue and the MCP server share; the sweeping limiter |
| `Graphs`, `GraphSearch`, `DependencyGraphs` | dependency graphs; the depth-first searches of the bundle; the start order |
| `Text`, `References`, `ServiceOrder`, `Bundles`, `BundleChecks`, `Diversions`, `TestPlans` | service names, `${service.field}` references, what a valid bundle is, the loops that decide it, accepted graphs that divert a reference, the order of tests |
| `Provisioning`, `Interpolation`, `Pipeline` | provisioning level by level, filling in the environment, and the composition of all stages |
| `Resume`, `ResumeRuns` | the loops over stored results; all series of interrupted attempts |
| `Sync`, `Revisions`, `Sessions`, `Payments` | one protocol each |

Loops, methods that change fields, and SQL transactions are Dafny methods, proved against
specification functions. A protocol whose steps interleave is a set of events with `Enabled`
(who may do what) and `Apply` (what it changes); a run is any sequence of enabled events, and
the main results hold for every run. In the queue, the class `JobStore` and the state machine
`JobProtocol` use the same `...Write` functions, so what is proved of runs is proved of the
methods.

## What the proofs assume

- Every SQL transaction or guarded statement is one atomic step, and the unique keys of the
  schema hold.
- Live workers have distinct owner ids and a worker runs one job at a time. Heartbeats may come
  late, from any worker and for any job; a worker may stop anywhere.
- Of the times stamped on claims and heartbeats the lease results ask only this: heartbeats that
  renew the job after it was secured at t are stamped at or after t, and, for a claim after the
  next one, earlier claims of the same job are not stamped later. The next claim needs no order
  among claims at all (`NextTakeoverIsLate`).
- Attempts of one scenario run follow one another.
- What a test, a provider or a cleanup returns is arbitrary. In a sync batch each read, each
  write, the metadata row and the commit may fail on its own.

## Where the code does less than one might expect

- A released job goes back to pending without a look at the queue limits, so pending jobs as
  a whole can exceed them (`ReleaseOverfillsQueue`). That is the only way: a step overfills a
  queue iff it is a release into a full one (`OverfillsExactly`), and the excess is at most the
  number of such releases (`QueueExceedsByReleases`). Jobs that never started stay within the
  limits in any case (`LimitsHold`).
- A fixed window lets up to twice the limit through in one window length. A limit below one
  acts as one in the MCP limiter, since a fresh window admits its first call unchecked.
- A service that refers to itself passes validation (`SelfReferenceIsAccepted`), and its lookup
  always fails (`EnvReferencesResolve` states the failure as an if-and-only-if).
- A reference token with surrounding blanks can be rewritten to another name than the one
  validation checked, in two ways: the raw token, blanks and all, is an alias of another service
  (`RawTokenDiverts`); or the trimmed token is known only in lower case, and the name written
  need not even be a service (`LowerCaseOnlyDiverts`). `TargetsAgreeExactly` says when.
- A replacement that itself looks like a later reference is replaced again
  (`ReplacementIsReadAgain`).
- A test result whose save failed can turn a failed scenario into a successful one when only
  its cleanup was left to redo (`LostResultHidesFailure`). `RestoredHidesFailuresExactly` says
  when: such a recovery reports success iff no test whose last execution failed had it saved.
- An insert whose read fails writes over a live row and sets its version back to one, so that
  two accepted updates can name the same base (`BlindInsertRepeatsABase`); `VersionStep` and
  `BaseVersionsDiffer` say that nothing else can do that.
- Two submissions of one payment id with different amounts can leave a settled payment
  unbalanced (`UnequalAmountsCanUnbalance`, `SettledBalanceExactly`).

## Model

| member | source | states |
|---|---|---|
| `JobProtocol.LeaseExclusion` | runner-v2/pkg/db/mysql/workflow_jobs.go:359-487 | over every run: after a claim or heartbeat at time t, any later claim that takes the job, by anyone, is stamped later than t plus the lease, unless the holder gave the job up itself; stamps of other jobs do not matter |
| `JobProtocol.NextTakeoverIsLate` | runner-v2/pkg/db/mysql/workflow_jobs.go:359-487 | for the next claim of the job the only demand on stamps is that the holder's own heartbeats of it are not stamped before t |
| `JobProtocol.LeaseStep` | runner-v2/pkg/db/mysql/workflow_jobs.go:434-487 | no step but the holder's own or a claim of the job past the expiry ends a running lease |
| `JobProtocol.LeaseHistory` | runner-v2/pkg/db/mysql/workflow_jobs.go:434-487 | a secured lease still protects the job at any later point, or a claim stamped past its end took the job |
| `JobProtocol.StaleHolderIsPowerless` | runner-v2/pkg/db/mysql/workflow_jobs.go:542-632 | after a takeover nothing the old holder does changes the row, polling and working on other jobs included, until one of its claims takes that job again |
| `JobProtocol.CancellationWins` | runner-v2/pkg/db/mysql/workflow_jobs.go:489-568 | once a cancel request is accepted the job is never pending, completed or failed again; the only end left is cancelled |
| `JobProtocol.LifecycleShape` | runner-v2/pkg/db/mysql/workflow_jobs.go:405-632 | in every reachable state: lease iff running or cancelling, payload iff not terminal, completion time iff terminal, cancelled only if requested |
| `JobProtocol.TerminalIsFinal` | runner-v2/pkg/db/mysql/workflow_jobs.go:505-632 | a terminal row is never changed by any later step |
| `JobProtocol.RunIdsStayUnique` | runner-v2/pkg/db/mysql/workflow_jobs.go:36-71 | however often a run id is submitted, it names at most one job |
| `JobProtocol.RunKeepsInv` | runner-v2/pkg/api/workflow_service.go:203-237 | every run keeps the rows in order and each busy worker's view: it executes only uncancelled jobs it holds, it finalizes only requested cancellations |
| `JobProtocol.FinalCallKeepsRow` | runner-v2/pkg/api/workflow_service.go:398-409 | each final call a worker may make, given what it was told, keeps the row in order |
| `JobProtocol.StepKeepsViews` | runner-v2/pkg/api/workflow_service.go:505-525 | whatever any worker or user does, every worker keeps what it relies on |
| `JobAccounting.RecoveryAccounting` | runner-v2/pkg/db/mysql/workflow_jobs.go:402-447 | grants = starts + recoveries; starts exceed releases by at most one; uncancelled jobs are granted at most releases + 1 + maxRecoveries times |
| `JobAccounting.LimitsHold` | runner-v2/pkg/db/mysql/workflow_jobs.go:365-385 | in every reachable state running and cancelling jobs of each user and project stay within their caps, never-started jobs within every positive queue limit |
| `JobAccounting.ReleaseOverfillsQueue` | runner-v2/pkg/db/mysql/workflow_jobs.go:605-612 | a reachable state whose pending jobs exceed the positive global limit |
| `JobAccounting.OverfillsExactly` | runner-v2/pkg/db/mysql/workflow_jobs.go:190-224 | a step takes the queue of the server, a user or a project over its positive limit iff it releases a job into it while it is full |
| `JobAccounting.QueueExceedsByReleases` | runner-v2/pkg/db/mysql/workflow_jobs.go:605-612 | over every run a queue exceeds its positive limit by at most the releases into it, so by none without releases |
| `JobAccounting.ActivationIsCapped` | runner-v2/pkg/db/mysql/workflow_jobs.go:371-385 | a row becomes active only when both caps leave room |
| `JobAccounting.FreshnessIsAdmitted` | runner-v2/pkg/db/mysql/workflow_jobs.go:190-224 | a never-started job becomes pending only by an admission that found room |
| `JobAccounting.AdmissionRate` | runner-v2/pkg/db/mysql/workflow_jobs.go:125-188 | with creation times in order, no minute holds more than twice the per-minute limit of new jobs for a user or project |
| `JobAccounting.WindowAfter` | runner-v2/pkg/db/mysql/workflow_jobs.go:23-51 | a window moves only when a new job of that subject is admitted: refused and repeated submissions charge nothing |
| `Jobs.SelectsBest` | runner-v2/pkg/db/mysql/workflow_jobs.go:376-385 | the claimed row: interrupted before waiting, then higher priority, then older |
| `JobOutcomes.SecuredUntil` | runner-v2/pkg/db/mysql/workflow_jobs.go:434-441 | whoever claims or renews a job at t holds it until exactly t plus the lease |
| `JobOutcomes.LeaseEndsExactly` | runner-v2/pkg/db/mysql/workflow_jobs.go:434-470 | in every reachable state an active job's lease belongs to the worker that last claimed or renewed it and ends exactly one lease after that stamp |
| `JobOutcomes.SilentHolderLosesJob` | runner-v2/pkg/db/mysql/workflow_jobs.go:376-385 | a job not renewed, given up or taken since t can be claimed at every time past t plus the lease |
| `JobOutcomes.CompletedExactly` | runner-v2/pkg/db/mysql/workflow_jobs.go:614-622 | a job becomes completed iff the worker that runs it completes it |
| `JobOutcomes.FailedExactly` | runner-v2/pkg/db/mysql/workflow_jobs.go:402-431 | a job becomes failed iff the worker that runs it fails it or a claim finds its recoveries used up |
| `JobOutcomes.CancelledExactly` | runner-v2/pkg/db/mysql/workflow_jobs.go:505-568 | a job becomes cancelled iff its holder finalizes a cancellation it knows of, or a user cancels it before it runs |
| `JobOutcomes.CancellingExactly` | runner-v2/pkg/db/mysql/workflow_jobs.go:514-528 | a job becomes cancelling iff a user cancels it while it runs |
| `JobOutcomes.PendingExactly` | runner-v2/pkg/db/mysql/workflow_jobs.go:605-612 | a job becomes pending iff it is admitted or released by the worker that runs it |
| `JobOutcomes.RunningExactly` | runner-v2/pkg/db/mysql/workflow_jobs.go:434-448 | a job becomes running iff a claim picks it and does not give up on it |
| `JobOutcomes.RequestIsStamped` | runner-v2/pkg/db/mysql/workflow_jobs.go:520-526 | a cancel request carries the time of the latest one accepted |
| `JobOutcomes.HowItEnded` | runner-v2/pkg/db/mysql/workflow_jobs.go:409-632 | every ended job was ended by one event of the run, which accounts for its status and completion time |
| `JobOutcomes.EveryJobWasSubmitted` | runner-v2/pkg/db/mysql/workflow_jobs.go:52-58 | every job is for good what one admitted submission asked for |
| `JobOutcomes.StartIsFirstGrant` | runner-v2/pkg/db/mysql/workflow_jobs.go:435-441 | a start time is the stamp of the first grant; without one the job was never granted |
| `JobOutcomes.EmptyPollExactly` | runner-v2/pkg/db/mysql/workflow_jobs.go:371-400 | a poll finds nothing iff no unlocked row is expired, or waiting with room for its user and project |
| `JobOutcomes.IdleWorkerCanPoll` | runner-v2/pkg/api/workflow_service.go:215-223 | an idle worker can always poll |
| `JobOutcomes.GrantedWorkerActs` | runner-v2/pkg/api/workflow_service.go:224-234 | a granted job is finalized if it is to be cancelled, executed otherwise |
| `JobOutcomes.RunnerCanEnd` | runner-v2/pkg/api/workflow_service.go:398-409 | the worker that runs a job can complete, fail or release it at any time |
| `JobOutcomes.CancellationIsHeard` | runner-v2/pkg/api/workflow_service.go:505-525 | a worker whose job is to be cancelled hears of it with its next heartbeat and can finalize it |
| `JobOutcomes.HeartbeatExactly` | runner-v2/pkg/db/mysql/workflow_jobs.go:466-487 | the holder's heartbeat renews iff nobody asked to cancel, and reports the request iff somebody did |
| `JobOutcomes.RateAllowsExactly` | runner-v2/pkg/db/mysql/workflow_jobs.go:138-187 | the rate limits pass a submission iff each positive one has an unused window or one with room |
| `JobOutcomes.AdmittedExactly` | runner-v2/pkg/db/mysql/workflow_jobs.go:36-71 | a submission becomes a job iff its run is unknown, its id free, no rate or queue limit refuses it and its records are accepted |
| `JobOutcomes.RefusalIsDeserved` | runner-v2/pkg/db/mysql/workflow_jobs.go:163-178 | a rate limit refuses only when at least that many new jobs were admitted within the last minute |
| `JobStores.JobStore.FindByRun` | runner-v2/pkg/db/mysql/workflow_jobs.go:36-36 | finds the row of a run id iff there is one |
| `JobStores.JobStore.EnforceRateLimits` | runner-v2/pkg/db/mysql/workflow_jobs.go:125-188 | charges both windows, or refuses naming a positive limit whose window is open and full, and the time to the end of that window |
| `JobStores.JobStore.EnforceQueueLimits` | runner-v2/pkg/db/mysql/workflow_jobs.go:190-224 | refuses iff a positive queue limit is reached, naming a scope and limit that is |
| `JobStores.JobStore.Admit` | runner-v2/pkg/db/mysql/workflow_jobs.go:23-123 | creates the row and charges the windows iff admissible; every other outcome changes nothing, and which one it is is stated for a known run, a rate limit and a queue limit |
| `JobStores.JobStore.SelectClaimable` | runner-v2/pkg/db/mysql/workflow_jobs.go:371-400 | the best claimable row outside the locked ones, or none iff there is none |
| `JobStores.JobStore.Claim` | runner-v2/pkg/db/mysql/workflow_jobs.go:355-464 | claims exactly the selected row, granting it or failing it when its recoveries are used up |
| `JobStores.JobStore.Heartbeat` | runner-v2/pkg/db/mysql/workflow_jobs.go:466-487 | renews exactly an owned, running, uncancelled job; reports cancellation iff the owned row is marked |
| `JobStores.JobStore.RequestCancellation` | runner-v2/pkg/db/mysql/workflow_jobs.go:489-540 | accepted iff the job is of the project and pending or running; the one row it writes |
| `JobStores.JobStore.Cancel` | runner-v2/pkg/db/mysql/workflow_jobs.go:542-568 | ends an owned active job as cancelled, otherwise changes nothing |
| `JobStores.JobStore.Release` | runner-v2/pkg/db/mysql/workflow_jobs.go:605-612 | an owned running job goes back to pending, otherwise nothing changes |
| `JobStores.JobStore.Complete` | runner-v2/pkg/db/mysql/workflow_jobs.go:614-622 | an owned running job is completed, otherwise nothing changes |
| `JobStores.JobStore.Fail` | runner-v2/pkg/db/mysql/workflow_jobs.go:624-632 | an owned running job fails, otherwise nothing changes |
| `RateLimiting.RateLimiter.constructor` | runner-v2/pkg/mcpserver/server.go:1135-1137 | starts with no windows and the sweep clock at now |
| `RateLimiting.RateLimiter.Allow` | runner-v2/pkg/mcpserver/server.go:1138-1160 | new table and answer are those of `AllowStep`, sweep included |
| `RateLimiting.SweepingIsInvisible` | runner-v2/pkg/mcpserver/server.go:1142-1149 | over every history with a monotone clock the answers equal those of a limiter that never sweeps |
| `RateLimiting.AtMostTwiceTheLimit` | runner-v2/pkg/mcpserver/server.go:1150-1159 | no interval of one window length holds more than twice the limit of admitted calls of a key |
| `RateLimiting.RefusedOnlyWhenFull` | runner-v2/pkg/mcpserver/server.go:1150-1159 | a call is refused only when at least the limit of calls of its key were admitted within the last window length |
| `RateLimiting.TableStaysYoung` | runner-v2/pkg/mcpserver/server.go:1142-1149 | sweeping works: after any call no entry is two windows old |
| `FixedWindow.TracksHit` | runner-v2/pkg/mcpserver/server.go:1150-1159 | an admitted request keeps the counter exact for its window and the double bound for every interval |
| `FixedWindow.RefusalIsEarned` | runner-v2/pkg/mcpserver/server.go:1155-1157 | a full window means that many admissions in the last window length |
| `GraphSearch.CycleFinder.Dfs` | runner-v2/pkg/workflowbundle/bundle.go:1190-1219 | one search: reports only real cycles, and without a report has finished its node |
| `GraphSearch.DetectCycles` | runner-v2/pkg/workflowbundle/bundle.go:1190-1219 | ends on every graph, reports something iff there is a cycle, and only real cycles |
| `GraphSearch.Expansion.Visit` | runner-v2/pkg/workflowbundle/bundle.go:974-995 | adds only what the service reaches and leaves nothing it needs out |
| `GraphSearch.ExpandScenarioServiceSubset` | runner-v2/pkg/workflowbundle/bundle.go:974-995 | exactly the dependency closure of the targets |
| `GraphSearch.Prerequisites.Visit` | runner-v2/pkg/workflowbundle/bundle.go:801-820 | adds only transitive dependencies and is closed under them |
| `GraphSearch.TransitiveDependencies` | runner-v2/pkg/workflowbundle/bundle.go:801-820 | exactly the transitive dependencies of a service |
| `DependencyGraphs.CycleCheck.Dfs` | runner-v2/pkg/orchestrator/graph.go:84-111 | either finishes its node or returns an error that is really there |
| `DependencyGraphs.DependencyGraph.AddNode` | runner-v2/pkg/orchestrator/graph.go:22-27 | sets the node's dependencies, replacing earlier ones |
| `DependencyGraphs.DependencyGraph.DetectCycles` | runner-v2/pkg/orchestrator/graph.go:71-82 | succeeds iff every dependency is declared and there is no cycle; errors are justified |
| `DependencyGraphs.DependencyGraph.NextLevel` | runner-v2/pkg/orchestrator/graph.go:40-58 | exactly the unplaced nodes whose dependencies are all placed, each once |
| `DependencyGraphs.DependencyGraph.TopologicalSort` | runner-v2/pkg/orchestrator/graph.go:30-69 | succeeds iff declared and acyclic; each node once, at the level of its longest chain; "unable to resolve" is never returned |
| `DependencyGraphs.LevelIsNonempty` | runner-v2/pkg/orchestrator/graph.go:59-61 | after the cycle check some node can always be placed |
| `DependencyGraphs.DependencyIsEarlier` | runner-v2/pkg/orchestrator/graph.go:30-69 | a dependency sits at a strictly lower level |
| `Text.SanitizeName` | runner-v2/pkg/workflowbundle/bundle.go:1221-1245 | the builder loop gives a slug: lower-case letters, digits, single inner underscores |
| `Text.ServiceNameFixpoints` | runner-v2/pkg/workflowbundle/bundle.go:1221-1245 | a name is left unchanged iff it is a slug |
| `Text.NameIsItsWords` | runner-v2/pkg/workflowbundle/bundle.go:1221-1245 | a service name is the lower-case runs of letters and digits of the label, one underscore between every two |
| `Text.TrimSpaceExactly` | runner-v2/pkg/workflowbundle/bundle.go:1221-1224 | trimming cuts off exactly the blanks at both ends |
| `References.RenderScan` | runner-v2/pkg/workflowbundle/bundle.go:949-972 | matching splits a value without losing text |
| `References.RewrittenInner` | runner-v2/pkg/workflowbundle/bundle.go:949-972 | a rewritten reference still matches, its token is the written name, its field is kept |
| `References.RewritingIsStable` | runner-v2/pkg/workflowbundle/bundle.go:949-972 | reading a rewritten value finds exactly the rewritten references and the same text between: none lost, split or made up |
| `References.TargetsAgree` | runner-v2/pkg/workflowbundle/bundle.go:949-972 | for a known token without surrounding blanks, the name written is the name validated |
| `References.TargetsAgreeExactly` | runner-v2/pkg/workflowbundle/bundle.go:949-972 | for every token validation knows, blanks or not, the name written is the name validated iff none of the fallbacks finds another first |
| `Diversions.RawTokenDiverts` | runner-v2/pkg/workflowbundle/bundle.go:959-966 | a family of accepted graphs in which a raw token with a blank, being itself an alias, is written as another service than the one validated |
| `Diversions.LowerCaseOnlyDiverts` | runner-v2/pkg/workflowbundle/bundle.go:960-970 | a family of accepted graphs in which a token with a blank and capitals is validated as a service and written as a name that is none |
| `Diversions.SelfReferenceIsAccepted` | runner-v2/pkg/workflowbundle/bundle.go:830-837 | a family of accepted graphs with a service that refers to itself, whose lookup fails |
| `Diversions.DivertingNamesExist` | runner-v2/pkg/workflowbundle/bundle.go:949-972 | both families have members |
| `References.NotFoundExactly` | runner-v2/pkg/orchestrator/interpolator.go:82-93 | "service not found" iff the token is not registered |
| `References.ReferenceForms` | runner-v2/pkg/orchestrator/interpolator.go:82-124 | the three documented forms read what the provider reported |
| `References.ResolvesExactly` | runner-v2/pkg/orchestrator/interpolator.go:82-124 | a reference resolves to a text iff it asks for a host there is, a port that is mapped or a variable that is set, and the text is that |
| `Interpolation.InterpolateValue` | runner-v2/pkg/orchestrator/interpolator.go:61-77 | resolves a value iff all its references resolve, otherwise names one that does not |
| `Interpolation.InterpolateEnvVars` | runner-v2/pkg/orchestrator/interpolator.go:57-80 | succeeds iff every reference of every value resolves; same keys; the error names a reference that fails |
| `Interpolation.ReplacingIsSubstituting` | runner-v2/pkg/orchestrator/interpolator.go:64-77 | replacing matches one after another equals substituting all at once, unless a dollar sign can come to stand before an opening brace |
| `Interpolation.ReplacementIsReadAgain` | runner-v2/pkg/orchestrator/interpolator.go:66-76 | a family of inputs for which it does not |
| `Bundles.NormalEdgeIsStable` | runner-v2/pkg/workflowbundle/bundle.go:260-299 | a normalized edge has a valid relation and readiness, and normalizing again changes nothing |
| `Bundles.NormalEdgeExactly` | runner-v2/pkg/workflowbundle/bundle.go:260-299 | normalizing fails iff a relation or readiness is unknown; a missing relation becomes calls, a missing readiness source_requires_target, given values stay, and review is asked for iff it was, the bundle is legacy or something was missing |
| `Bundles.ServiceDepsExact` | runner-v2/pkg/workflowbundle/bundle.go:769-799 | one node per service, exactly the stated dependencies, each once, all declared |
| `Bundles.AliasesAreServices` | runner-v2/pkg/workflowbundle/bundle.go:927-947 | every alias of a valid bundle stands for one of its services |
| `Bundles.AliasExactly` | runner-v2/pkg/workflowbundle/bundle.go:927-947 | the alias map knows exactly the tokens some node claims by title, id or service name, plain, trimmed or lower-case, and reads each as the service of the last that does |
| `Bundles.OwnNameIsKnown` | runner-v2/pkg/workflowbundle/bundle.go:927-947 | the own name of a service refers to it unless a later node claims it |
| `Bundles.NodeReadyExactly` | runner-v2/pkg/workflowbundle/bundle.go:817-839 | a node is ready iff every reference in its command, environment and scripts is |
| `Bundles.EnvExactly` | runner-v2/pkg/workflowbundle/bundle.go:844-925 | a variable is set iff some entry sets it, to the rewritten value of the last that does |
| `Bundles.TranslationExactly` | runner-v2/pkg/workflowbundle/bundle.go:844-925 | a service has its node's id, name and dependencies, and every string of its command and scripts in place with its references rewritten |
| `Bundles.TargetsExactly` | runner-v2/pkg/workflowbundle/bundle.go:974-995 | the targets of a scenario are exactly those of its tests |
| `Bundles.TestGraphExactly` | runner-v2/pkg/workflowbundle/bundle.go:493-496 | the test graph maps each test to what it depends on |
| `Bundles.CircularTestsAreRefused` | runner-v2/pkg/workflowbundle/bundle.go:493-499 | a scenario whose tests depend on each other in a circle is refused |
| `Bundles.ServicesExactly` | runner-v2/pkg/workflowbundle/bundle.go:347-353 | a service is kept iff it is that of a node with a required name |
| `Bundles.ServicesAreSorted` | runner-v2/pkg/workflowbundle/bundle.go:920-922 | the services come in the order of their names, none more often than its node |
| `ServiceOrder.SortedInOrder` | runner-v2/pkg/workflowbundle/bundle.go:920-922 | sorting puts the keys in order |
| `ServiceOrder.SortedHolds` | runner-v2/pkg/workflowbundle/bundle.go:920-922 | sorting keeps exactly the same elements |
| `ServiceOrder.ChosenInPlace` | runner-v2/pkg/workflowbundle/bundle.go:347-353 | the kept services stay in order and are not repeated |
| `BundleChecks.NormalizeEdges` | runner-v2/pkg/workflowbundle/bundle.go:260-291 | fills in every edge in place, or fails iff some edge is invalid |
| `BundleChecks.BuildServiceDependencies` | runner-v2/pkg/workflowbundle/bundle.go:769-799 | the loop computes the graph `ServiceDepsExact` is about |
| `BundleChecks.BuildServiceAliasMap` | runner-v2/pkg/workflowbundle/bundle.go:927-947 | the loop computes the map `AliasesAreServices` is about |
| `BundleChecks.CheckReference` | runner-v2/pkg/workflowbundle/bundle.go:822-842 | accepts a reference iff it names nothing known, the service itself or a transitive prerequisite |
| `BundleChecks.ValidateRuntimeReferenceReadiness` | runner-v2/pkg/workflowbundle/bundle.go:801-842 | accepts iff every reference of every node is ready |
| `BundleChecks.CheckNodes` | runner-v2/pkg/workflowbundle/bundle.go:366-399 | accepts iff each node is well formed and ids and service names are unique |
| `BundleChecks.CheckEdges` | runner-v2/pkg/workflowbundle/bundle.go:401-418 | accepts iff edges join two different known nodes and their nonempty ids are unique |
| `BundleChecks.ValidateWorkflowGraph` | runner-v2/pkg/workflowbundle/bundle.go:361-429 | accepts iff nodes and edges are sound, the dependency graph is acyclic and all references are ready |
| `BundleChecks.CheckTests` | runner-v2/pkg/workflowbundle/bundle.go:439-491 | accepts iff all tests are well formed with unique ids and names |
| `BundleChecks.CheckOrder` | runner-v2/pkg/workflowbundle/bundle.go:505-514 | accepts iff the order has no repeats and only known tests |
| `BundleChecks.ValidateScenario` | runner-v2/pkg/workflowbundle/bundle.go:431-517 | accepts iff the scenario is sound, its test graph acyclic and its order complete |
| `BundleChecks.Normalize` | runner-v2/pkg/workflowbundle/bundle.go:260-291 | returns the normal form, or fails iff there is none |
| `BundleChecks.Validate` | runner-v2/pkg/workflowbundle/bundle.go:301-336 | accepts iff the bundle has a normal form that is sound, and returns it |
| `TestPlans.FindTest` | runner-v2/pkg/workflowbundle/bundle.go:1252-1259 | finds a test of that id iff there is one |
| `TestPlans.TranslateScenarioTests` | runner-v2/pkg/workflowbundle/bundle.go:997-1044 | for a valid scenario the plan is the tests rearranged by testOrder, none missing, no two of one name |
| `TestPlans.OrderIsComplete` | runner-v2/pkg/workflowbundle/bundle.go:501-514 | as many distinct known ids as tests leave no test out |
| `Pipeline.ScenarioGraphIsSound` | runner-v2/pkg/workflowbundle/bundle.go:338-359 | for any accepted bundle and scenario the translated services are exactly the closure of the targets, and their graph is declared and acyclic |
| `Pipeline.TranslateScenario` | runner-v2/pkg/workflowbundle/bundle.go:338-359 | translates iff the scenario is valid, to those services |
| `Pipeline.SortServices` | runner-v2/pkg/orchestrator/orchestrator.go:65-77 | the graph built from the services is sorted iff declared and acyclic |
| `Pipeline.PlanScenario` | runner-v2/pkg/workflowbundle/bundle.go:301-359 | for every accepted bundle and scenario, translation and sorting succeed |
| `Pipeline.SmallBundleIsAccepted` | runner-v2/pkg/workflowbundle/bundle.go:301-336 | every one-service, one-test bundle is accepted, so the results about accepted bundles are not empty |
| `Pipeline.ScenarioStartsInOrder` | runner-v2/pkg/orchestrator/orchestrator.go:79-84 | in every provisioning run a service starts only after all its transitive prerequisites in the bundle are registered |
| `Pipeline.ReadinessIsHonoured` | runner-v2/pkg/workflowbundle/bundle.go:769-799 | an edge's readiness makes every run register the required end before the other end starts |
| `Pipeline.DependenciesExactly` | runner-v2/pkg/workflowbundle/bundle.go:769-799 | one service depends on another iff some edge between their nodes says so |
| `Pipeline.CircularServicesAreRefused` | runner-v2/pkg/workflowbundle/bundle.go:420-423 | a bundle whose edges make services require each other in a circle is refused |
| `Pipeline.RawReadinessIsHonoured` | runner-v2/pkg/workflowbundle/bundle.go:301-336 | from the bundle as handed in: an edge that states no readiness, or that its source requires its target, makes every run register the target before the source starts; the opposite, the other way round |
| `Pipeline.ReferenceResolves` | runner-v2/pkg/workflowbundle/bundle.go:801-842 | a validated reference to a known service is looked up successfully, unless it names the service itself |
| `Pipeline.EnvReferencesResolve` | runner-v2/pkg/orchestrator/orchestrator.go:171-182 | for every environment value of a starting service, whatever else gets registered meanwhile: it holds the rewritten references one for one, and each known one without blanks fails as "service not found" iff it names the service itself |
| `Pipeline.MissingReference` | runner-v2/pkg/orchestrator/interpolator.go:70-74 | a reference whose service is not found was written for one that names the service itself, nothing known, or has blanks around its token |
| `Pipeline.InterpolateForStart` | runner-v2/pkg/orchestrator/orchestrator.go:171-182 | filling in the environment of any starting service of an accepted bundle succeeds iff all references resolve, and a "service not found" comes only from such a reference |
| `Provisioning.StartsAfterPrerequisites` | runner-v2/pkg/orchestrator/orchestrator.go:139-221 | over every run a service passes its waits only after all transitive prerequisites are registered |
| `Provisioning.WaitsNeverBlock` | runner-v2/pkg/orchestrator/orchestrator.go:155-160 | whatever has happened or failed, a waiting goroutine of the current level can go on |
| `Provisioning.RunsCanGoOn` | runner-v2/pkg/orchestrator/orchestrator.go:139-221 | below the last level, as long as no service of the level failed, some step is possible |
| `Provisioning.RunCanBeCompleted` | runner-v2/pkg/orchestrator/orchestrator.go:79-86 | unless a service of the level failed, every run can be carried on to its end, with every service registered |
| `Provisioning.FinishExactly` | runner-v2/pkg/orchestrator/orchestrator.go:187-209 | a service is registered iff it came up, and a level with a failure is never left |
| `Provisioning.AllProvisioned` | runner-v2/pkg/orchestrator/orchestrator.go:79-86 | a run past the last level has provisioned every service |
| `Provisioning.RunKeepsInv` | runner-v2/pkg/orchestrator/orchestrator.go:79-84 | in every run earlier levels are ready and later ones have not begun |
| `Resume.LoadPersistedResults` | runner-v2/pkg/api/session_failover.go:359-409 | the stored results by name, and those of the plan in plan order |
| `Resume.LiveExactly` | runner-v2/pkg/api/session_failover.go:368-400 | the stored result of a test is that of its last row that is not deleted |
| `Resume.RemainingTests` | runner-v2/pkg/api/workflow_bundle.go:226-231 | the planned tests without a stored result, in plan order |
| `Resume.MergeResults` | runner-v2/pkg/api/workflow_bundle.go:248-270 | report and summary of old and new results together |
| `Resume.SummaryAddsUp` | runner-v2/pkg/api/workflow_bundle.go:253-268 | passed plus failed is the number of results |
| `Resume.SummaryCounts` | runner-v2/pkg/api/workflow_bundle.go:253-268 | passed, failed and retried are the numbers of positions whose result passed, failed or took more than one attempt |
| `Resume.NoFailuresExactly` | runner-v2/pkg/api/workflow_bundle.go:253-271 | success iff every reported result passed |
| `Resume.OrderedCovers` | runner-v2/pkg/api/workflow_bundle.go:254-259 | the report has one result per planned test iff every planned test has one |
| `ResumeRuns.StoredIsNeverRerun` | runner-v2/pkg/api/workflow_bundle.go:221-243 | across any interruptions a test with a stored result is never executed again and its result never changes |
| `ResumeRuns.SummaryIsComplete` | runner-v2/pkg/api/workflow_bundle.go:221-270 | a run that reaches the summary reports exactly one result per planned test in plan order, the stored one where there was one; passed + failed = total, and each number counts what it says |
| `ResumeRuns.InterruptedIsInert` | runner-v2/pkg/api/workflow_bundle.go:233-247 | once interrupted, an attempt stores no row and reaches no summary |
| `ResumeRuns.SummaryIsTakenUp` | runner-v2/pkg/api/workflow_bundle.go:276-303 | a recorded summary whose cleanup did not succeed is restored, not run again |
| `ResumeRuns.CheckpointExactly` | runner-v2/pkg/api/workflow_bundle.go:236-242 | the checkpoint stands right after the last test whose mark was saved; a cleanup ends the run unless it failed |
| `ResumeRuns.RestoreEndsIt` | runner-v2/pkg/api/workflow_bundle.go:116-122 | a restored report leaves nothing to restore |
| `ResumeRuns.AttemptCanGoOn` | runner-v2/pkg/api/workflow_bundle.go:376-376 | an attempt can run its next test, or make its summary when none is left |
| `ResumeRuns.RestoredReportExactly` | runner-v2/pkg/api/workflow_bundle.go:103-123 | a report restored from rows alone is complete iff every planned test has a row |
| `ResumeRuns.RestoredShowsExactlySaved` | runner-v2/pkg/api/workflow_bundle.go:232-243 | the result of a test's last uninterrupted execution is in a report read from the rows iff it was saved |
| `ResumeRuns.RestoredSuccessExactly` | runner-v2/pkg/api/workflow_bundle.go:104-112 | such a report has no failures iff every stored result of a planned test passed |
| `ResumeRuns.RestoredHidesFailuresExactly` | runner-v2/pkg/api/workflow_bundle.go:103-123 | a recovery with only the cleanup left reports success iff no test whose last execution failed had that result saved |
| `ResumeRuns.RestoredIsComplete` | runner-v2/pkg/api/workflow_bundle.go:103-123 | it is complete whenever no save failed |
| `ResumeRuns.LostResultHidesFailure` | runner-v2/pkg/api/workflow_bundle.go:232-243 | a run in which a lost save makes a restored report hide a failure |
| `Sync.Tx.UpdateIfVersion` | runner-v2/pkg/db/mysql/client.go:986-999 | writes the row iff it is live at the base version, of either entity |
| `Sync.Tx.DeleteIfVersion` | runner-v2/pkg/db/mysql/client.go:1029-1036 | marks the row deleted at the next version iff it is live at the base version |
| `Sync.Tx.Upsert` | runner-v2/pkg/db/mysql/client.go:961-984 | writes the row unguarded |
| `Sync.Tx.Get` | runner-v2/pkg/db/mysql/client.go:1001-1017 | the live row, if any; nothing when the read fails |
| `Sync.Tx.ProcessChange` | runner-v2/pkg/sync/service.go:145-383 | one change gives the tables and outcome of `ApplyChange`, failing reads and writes included |
| `Sync.Tx.ProcessChanges` | runner-v2/pkg/sync/service.go:66-88 | the loop applies the changes in order and counts errors and conflicts |
| `Sync.SyncService.ProcessBatch` | runner-v2/pkg/sync/service.go:27-124 | any error leaves store and sync version as they were; otherwise the store is the changes applied in order and the sync version rises by one |
| `Sync.BatchesAreSerial` | runner-v2/pkg/sync/service.go:58-124 | after any series of batches the store is the committed changes applied in order, none of them an error |
| `Sync.OutcomeMeaning` | runner-v2/pkg/sync/service.go:207-383 | what each outcome says about the row it names, and that no other row changes |
| `Sync.OutcomeExactly` | runner-v2/pkg/sync/service.go:207-270 | which outcome a change gets, as if-and-only-if over the row before, for each kind and each failing read or write |
| `Sync.ChangeIsLocal` | runner-v2/pkg/sync/service.go:145-160 | a change concerns its own table only |
| `Sync.BatchAnswer` | runner-v2/pkg/sync/service.go:66-88 | the reported conflicts are exactly the conflicting changes, in order, and errors are counted one by one |
| `Sync.CommitsExactly` | runner-v2/pkg/sync/service.go:95-120 | a batch is committed iff no change is an error and metadata row and commit go through |
| `Sync.VersionStep` | runner-v2/pkg/db/mysql/client.go:986-1036 | while a row stays live a change raises its version by one from exactly its base, or leaves it, or is an insert whose read failed, which sets it to one |
| `Sync.VersionCountsUpdates` | runner-v2/pkg/db/mysql/client.go:986-1036 | while a row stays live and no insert of it has its read fail, its version counts the accepted updates |
| `Sync.BaseVersionsDiffer` | runner-v2/pkg/sync/service.go:207-383 | no two accepted updates share a base version under the same condition |
| `Sync.BlindInsertRepeatsABase` | runner-v2/pkg/sync/service.go:231-240 | without that condition they can |
| `Revisions.NumbersAreGapless` | runner-v2/pkg/db/mysql/revisions.go:12-52 | with any writers interleaving read, insert and commit, the committed numbers of a workflow are exactly 1 to n |
| `Revisions.CreatedNumbersAreOwn` | runner-v2/pkg/db/mysql/revisions.go:42-50 | every successful writer has a committed number of its own |
| `Revisions.CommitAddsNext` | runner-v2/pkg/db/mysql/revisions.go:18-50 | every commit adds exactly the number after those there were, whatever happened since the read, and tells its writer |
| `Revisions.RetryExactly` | runner-v2/pkg/db/mysql/revisions.go:13-51 | a lost race starts the next attempt, and the writer gives up iff that was the tenth |
| `Revisions.LoneWriterSucceeds` | runner-v2/pkg/db/mysql/revisions.go:13-50 | a writer with no rival in the act of inserting gets the next number |
| `Sessions.CleanupsDoNotOverlap` | runner-v2/pkg/session/manager.go:132-166 | cleanups of one session object never overlap |
| `Sessions.NoCleanupAfterSuccess` | runner-v2/pkg/session/manager.go:140-166 | none runs after one has succeeded |
| `Sessions.RemovedOnlyAfterItsCleanup` | runner-v2/pkg/session/manager.go:66-166 | a session leaves the table only for a newer one of its id or by the call that cleaned it up |
| `Sessions.FailedCleanupCanBeRetried` | runner-v2/pkg/session/manager.go:157-159 | a failed cleanup leaves the table as it was and frees the session |
| `Sessions.AnswersExactly` | runner-v2/pkg/session/manager.go:132-166 | NotFound iff the id is not in the table at the lookup or the session not current at the recheck; CleanupFailed iff the cleanup fails; Deleted iff the call comes to its removal |
| `Sessions.AnswerWasGiven` | runner-v2/pkg/session/manager.go:132-166 | over every run each answer was given by such a step |
| `Sessions.DealsWithItsSession` | runner-v2/pkg/session/manager.go:133-140 | a call deals with the session its id named at its lookup |
| `Sessions.DeletionSucceeds` | runner-v2/pkg/session/manager.go:143-165 | a call whose session is current at its recheck and whose cleanup succeeds answers Deleted, and that session is never current again |
| `Sessions.RegisteredIsCurrent` | runner-v2/pkg/session/manager.go:66-97 | a registered session is current, new, and displaces no other id |
| `Sessions.CallsCanGoOn` | runner-v2/pkg/session/manager.go:132-166 | no deletion gets stuck: a call can go on, or waits for a lock whose holder can |
| `Payments.NextRetryCount` | test-api/src/domain.ts:53-57 | the next whole number above a count that is finite and not negative, otherwise one |
| `Payments.LedgerBalances` | test-api/src/payment-service.ts:67-138 | if all submissions carry one amount, under any redelivery, retry or failure the ledger sums to it while pending and to zero once settled |
| `Payments.SettledBalanceExactly` | test-api/src/payment-service.ts:96-119 | a settlement balances iff its message carries the stored amount |
| `Payments.SubmissionExactly` | test-api/src/payment-service.ts:67-79 | a submission is refused iff it is new and its key is taken; a new payment is pending for its amount, an existing one stays |
| `Payments.SettlementExactly` | test-api/src/payment-service.ts:96-119 | a message settles its payment iff that is pending, and otherwise changes nothing |
| `Payments.FailureExactly` | test-api/src/payment-service.ts:145-164 | a failed message is put back with one more retry iff it had fewer than three |
| `Payments.PublicationExactly` | test-api/src/payment-service.ts:128-137 | the settling handler sends the event once and then marks the row |
| `Payments.PendingPaymentCanSettle` | test-api/src/payment-service.ts:96-119 | a queued message of a pending payment can be delivered and settles it |
| `Payments.UnequalAmountsCanUnbalance` | test-api/src/payment-service.ts:67-119 | for every payment id and any two different amounts, a reachable settled payment that does not balance |
| `Payments.SettlesOnce` | test-api/src/payment-service.ts:96-119 | a payment settles at most once |
| `Payments.EventSentAtMostOnce` | test-api/src/payment-service.ts:120-137 | the settled event is sent at most once, only for a settled payment; published implies sent |
| `Payments.RetriesAreBounded` | test-api/src/payment-service.ts:140-166 | no message is retried more than three times |

## Left out

- BundleChecks.CheckNodes: the verdict on a node's ports, headers, environment keys and wait strategy (runner-v2/pkg/workflowbundle/bundle.go:527-600) is one flag of the node, as it depends on nothing else and nothing later depends on what it looks at.
- BundleChecks.CheckTests: the verdict on a test's configuration (runner-v2/pkg/workflowbundle/bundle.go:632-755) is one flag of the test, for the same reason.
- Pipeline.TranslateScenario: images, ports and wait strategies of a service are not modelled, as no dependency or reference depends on them.
- Bundles.TranslationExactly: the init scripts of a node are taken to be in their final order already; the sort by their order number is not modelled.
- TestPlans.TranslateScenarioTests: the plan holds the test definitions themselves; how each becomes an executor configuration is not modelled.
- BundleChecks.BuildServiceAliasMap: lower-case aliases fold only the letters whose lower case is ASCII; service names need no others.
- Interpolation.ReplacingIsSubstituting: goes one way; values outside its condition can happen to agree as well, depending on every text that references stand for.
- Pipeline.EnvReferencesResolve: a provider is taken to report a runtime under its service's name.
- Provisioning.StartsAfterPrerequisites: the maps that the goroutines update in place appear as one state changed by events.
- JobStores.JobStore.Admit: the workflow_runs and sessions rows written in the same transaction are one flag that says whether they were accepted.
- JobStores.JobStore.Claim: heartbeat and update times, error texts and cancel reasons are not kept; times are whole milliseconds.
- ResumeRuns.RestoredReportExactly: the summary of a restored report does not count retries, so nothing is said about them.
- ResumeRuns.StoredIsNeverRerun: the attempt is a state machine over stored rows, checkpoint and phase rather than one method body; services are provisioned inside the Begin event.
- Sync.SyncService.ProcessBatch: workflow run, session and test result changes are not modelled; they have no version guard.
- Sync.VersionCountsUpdates: says nothing across a deletion and a new insert, since the version then restarts at 1 (nor across an insert whose read failed, as `VersionStep` states).
- Revisions.NumbersAreGapless: the retry loop is a state machine over its steps, so that other writers can come between them.
- Sessions.RemovedOnlyAfterItsCleanup: the two lock scopes of one call are events, so that other calls can come between them.
- Payments.LedgerBalances: merchant and risk checks, Redis, audit records and the Redis shortcut for a repeated idempotency key are not modelled; they change neither payments nor ledger. That a settled payment is ever published is not guaranteed by the code.
- The unfair claim of runner-v2/pkg/db/mysql/workflow_jobs.go:351-353, which the worker does not use.
- Agreement of workflow_runs and session rows with the job row, session leases, event streams, the janitor, queue estimates.
- User interface, HTTP handlers, authentication, encryption, JSON coding, Docker providers, test executors.
