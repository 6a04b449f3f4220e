# Verified model of Rayyan-ASM's queue, scheduler, stores and text codecs

This project models the self-contained algorithms and state machines of the Rayyan attack-surface manager
(Go back end, TypeScript front end) in Dafny 4.11 and proves what they promise. `dafny verify dfyconfig.toml`
checks all of it. Nothing was executed.

| file | models |
|---|---|
| `QueueMachine.dfy`, `QueueSafety.dfy`, `QueueDelivery.dfy`, `QueueShutdown.dfy`, `QueueProgress.dfy`, `QueueHandlers.dfy`, `QueueObject.dfy` | the in-memory job queue: bounded FIFO channel, worker pool, retry loop, dead-letter sink, Stop, progress |
| `PostgresArray.dfy` | the `text[]` column type: printer, reader, parser |
| `SeedKeys.dfy`, `ContinuousDiscovery.dfy` | the canonical seed-set key and the recurring discovery dispatch |
| `ColumnNames.dfy`, `TargetExpansion.dfy`, `XmlEscape.dfy` | spreadsheet column names, target expansion, XML escaping |
| `TicketStore.dfy` | one-time WebSocket tickets |
| `CronCatchUp.dfy`, `DeadSubdomains.dfy` | per-domain cron dispatch, dead-subdomain counters |
| `ServiceDiff.dfy`, `RestoreOrg.dfy` | service diff, backup import |
| `RecentSearches.dfy`, `HostList.dfy` | recent-search list, no-proxy host splitter |
| `Text.dfy`, `Sequences.dfy`, `Wrappers.dfy` | shared string functions, lists of positions, Option and Result |

How the model is set up:

- The queue is a step machine. One event is one atomic action of the program: a send, a receive, a locked
  read, a handler's return, a timer, the cancellation. Any interleaving of goroutines is a sequence of events,
  and the theorems quantify over all of them. Each Enqueue call gets a serial number; the job carries the
  record of its handler calls and waits, as the Go value travels from caller to channel to worker. The class
  `QueueObject.Queue` has the Go fields and loops; each of its methods is proved to perform events of the
  machine, with arbitrary other goroutines interleaved between its atomic actions (`Interfere`), and the contract of a
  pass says which actions the worker itself performs, from the context poll to the last handler call.
- A full buffer is `Full`, a send to a receiver that is already parked is `Handoff`; the latter is what makes
  a buffer of size 0 work. Reading the sink and calling it is one event for a rejected caller and two for a worker.
- Handlers, timers, DNS answers, random bytes, database successes and clock readings are parameters that
  every statement quantifies over. The one thing asked of handlers and callers is that nobody writes into the
  payload map of a job after its Enqueue call; Go shares that map by reference.
- Go strings are sequences of code points (their order is that of the UTF-8 bytes), times are integers (nanoseconds in Go, seconds for the backoff).
- Loops of the source are loops here, proved against a recursive function of their inputs; the theorems are
  about that function.

Where the code differs from what its comments or tests suggest, the model follows the code:

- `Scan` drops one empty last element (`RoundTripExactly`, `RoundTripLosesEmptyLast`).
- "The first row seen per key is the latest" (continuous_discovery.go:44-46) does not follow from the SQL order,
  which sorts by the stored seed list before the completion time (`StoredOrderMatters`). The dispatch is right at
  every time if and only if the first row of each series is a newest one (`DispatchedExactlyWhenDue`), and the
  query sees to that when its seeds have no comma and each set is stored in one order per organisation
  (`OneOrderGivesNewestFirst`).
- A domain that contains a comma can collide with another seed set (`EqualKeysExactly`, `CommaCollision`).
- "If it recovers ... dead=false" (scheduler.go:447) is never reached for a dead row: only live rows are
  selected, so death is final (`DeadExactly`). A failed save at the threshold repeats the alert (`AlertsExactly`).
- Restoring todos or findings twice duplicates rows that have no primary key of their own
  (`RestoreByIdTwiceExactly`, `RestoreAllTwiceExactly`).
- A job with a negative MaxRetry is never called; a worker with a handler for it drops it without a report
  (`NegativeRetryNeverRuns`, `UnattemptedEnds`, `SomeJobIsSkipped`).
- `normalizeDomain` does not always return a bare domain, as its comment says (`PathIsKept`): the result
  is non-empty and free of slashes, colons and white space exactly when the target is such a name with at most
  white space, one of three scheme prefixes and a slash around it (`BareExactly`). Nor is a second pass always
  without effect (`NormalizeNotIdempotent`): it has none exactly when the target spells in this way a clean name,
  one that is empty or has no outer white space, no scheme in front and no slash at the end (`IdempotentExactly`).
- A domain that was never scanned counts from `updated_at`, which risk scoring also writes
  (internal/modules/riskscore/engine.go:405). So a scoring at or after an occurrence hides it when nothing else
  occurs up to the first tick that could serve it, and only then (`MissedExactly`, `WriteHidesOccurrence`).

## Model

| member | source | states |
|---|---|---|
| QueueSafety.ExactlyOnePlace | internal/queue/queue.go:68-192 | after any schedule, each submitted job is in exactly one of channel, rejecting caller, one worker, succeeded, dead-lettered, abandoned, discarded, skipped, and there once; no other job is anywhere |
| QueueSafety.StepConserves | internal/queue/queue.go:88-191 | every single event keeps "each submission occurs exactly once" |
| QueueSafety.WorkConserves | internal/queue/queue.go:116-191 | no worker action copies or loses a job |
| QueueSafety.FifoAndBounded | internal/queue/queue.go:46-91 | after any schedule, the accepted jobs in order are the taken ones followed by the channel, and the channel is within the buffer size |
| QueueSafety.ReachableInv | internal/queue/queue.go:41-192 | the whole invariant (order, bound, attempt records per place, nothing returned or abandoned before Stop) holds in every reachable state |
| QueueSafety.ExhaustionIsExact | internal/queue/queue.go:159-190 | a job dead-lettered by its handler was called with Attempts 1..MaxRetry+1, failed each time, reports its last error, and waited 5*MaxRetry*(MaxRetry+1)/2 seconds in all |
| QueueSafety.SuccessIsFirst | internal/queue/queue.go:160-176 | a succeeded job had at most MaxRetry+1 calls, numbered without gaps, and only the last returned nil |
| QueueSafety.AbandonedByStop | internal/queue/queue.go:178-185 | a job abandoned in backoff implies Stop was called; it failed 1..MaxRetry times, with Attempts equal to its calls |
| QueueSafety.UnattemptedEnds | internal/queue/queue.go:88-160 | dead letters for a full buffer or a missing handler, and skipped jobs, were never given to a handler; skipped means a negative MaxRetry |
| QueueSafety.NegativeRetryNeverRuns | internal/queue/queue.go:69-160 | conversely no worker ever runs a job with a negative MaxRetry: it never succeeds, is never abandoned nor dead-lettered by a handler, and has no call wherever it ends |
| QueueSafety.SomeJobIsSkipped | internal/queue/queue.go:147-191 | a run, for any sink, in which a job with a handler and MaxRetry -1 is dropped without a call or a report |
| QueueDelivery.SinkCatchesEverything | internal/queue/queue.go:41-60 | whatever workers, registrations and SetDLQ calls did before the first job, with a sink set by then and never set to nil after, nothing is ever discarded: each submission is in one of the other seven places |
| QueueDelivery.TakenInSubmissionOrder | internal/queue/queue.go:88-136 | under any schedule workers take jobs in the order of their submission |
| QueueDelivery.JobsAreUnchanged | internal/queue/queue.go:68-189 | wherever a job is, up to its dead letter, it is the submitted one; only Attempts changes, and a MaxRetry of 0 became 3; for the contents of the payload map, provided nobody writes into it |
| QueueDelivery.LettersGoToInstalledSinks | internal/queue/queue.go:93-98 | a dead letter goes only to a sink that SetDLQ installed at some time |
| QueueHandlers.RunsRegisteredHandler | internal/queue/queue.go:147-176 | a worker that runs a job or waits to run it again uses the handler registered last for the job's type before its lookup, made every call to it, and will report to the sink installed last before that lookup, whatever was registered or installed since |
| QueueHandlers.EndsGoBackToLookups | internal/queue/queue.go:93-190 | every call of every finished job was to the handler registered at the job's lookup; every dead letter went to the sink installed then (or when the rejected caller read it) and reports a missing handler exactly when none was registered; discarded jobs found the nil sink in the same way |
| QueueHandlers.CancelledExactly | internal/queue/queue.go:194-195 | the context is cancelled exactly when Stop was called |
| QueueHandlers.SendsFollowBuffer | internal/queue/queue.go:88-99 | a job is turned away only when the buffer is full, buffered only when it is not, and handed over only to a waiting worker with nothing buffered |
| QueueSafety.TotalPauseClosedForm | internal/queue/queue.go:179-179 | the growing backoff sums to 5*n*(n+1)/2 seconds |
| QueueShutdown.PhaseLowers | internal/queue/queue.go:116-191 | outside the second select every action of a worker, cancelled or not, lowers the bound on the actions it has left |
| QueueShutdown.WorkLowers | internal/queue/queue.go:116-191 | after cancellation every action of every worker lowers the measure, whichever ready select branch is taken |
| QueueShutdown.OthersDoNotRaise | internal/queue/queue.go:55-100 | no other goroutine raises it |
| QueueShutdown.NeverStuck | internal/queue/queue.go:117-185 | after cancellation a worker can act if and only if it has not returned |
| QueueShutdown.StopEnds | internal/queue/queue.go:194-197 | in every fair infinite run, some time after the cancellation all workers have returned, so the wait ends |
| QueueShutdown.ReturnedForGood | internal/queue/queue.go:194-197 | after that no worker acts again and the channel is not drained |
| QueueProgress.HeldEnds | internal/queue/queue.go:147-191 | in every run in which workers keep acting, a job that a worker holds ends, with or without Stop |
| QueueProgress.WaitingIsTaken | internal/queue/queue.go:133-141 | without Stop, every job in the channel is received, wherever it stands |
| QueueProgress.EveryJobEnds | internal/queue/queue.go:68-192 | without Stop, every job whose Enqueue call has returned ends, in exactly one of success, dead letter, nil sink or skip |
| QueueProgress.PoolSize | internal/queue/queue.go:102-111 | in every run there are as many workers as configured, or 5 |
| QueueObject.Queue.constructor | internal/queue/queue.go:41-53 | a new queue is the initial state, with 5 workers when the configured number is not positive |
| QueueObject.Queue.SetDLQ | internal/queue/queue.go:56-60 | is the event that replaces the sink and touches nothing else |
| QueueObject.Queue.RegisterHandler | internal/queue/queue.go:62-66 | is the event that binds a job type |
| QueueObject.Queue.CancelContext | internal/queue/queue.go:194-195 | is the cancellation event |
| QueueObject.Queue.Enqueue | internal/queue/queue.go:68-100 | is a run of the machine; says which of buffer, parked worker or report the job goes to, and to which sink when SetDLQ races with the rejection |
| QueueObject.Queue.RejectLast | internal/queue/queue.go:93-98 | a rejected caller reads the sink and reports or discards |
| QueueObject.Queue.WorkOnce | internal/queue/queue.go:116-191 | one pass of the worker loop, with any interference in between, is a run of the machine that starts with the context poll; it fixes every action of the worker: return when cancelled, else the select branch that is ready and picked, else the timer |
| QueueObject.Queue.Select | internal/queue/queue.go:133-145 | the second select: a job if picked and waiting, the context if picked and cancelled, else the timer |
| QueueObject.Queue.Process | internal/queue/queue.go:147-190 | from the lookup on: report without a handler, nothing for a negative MaxRetry, else the attempt loop |
| QueueObject.Queue.Attempts | internal/queue/queue.go:159-190 | the handler's outcomes in order, each failure but the last followed by its backoff, and then nothing after a success, a return when the context wins, or one report when MaxRetry + 1 attempts failed |
| QueueObject.Queue.CallHandler | internal/queue/queue.go:161-178 | one attempt adds one action, the handler's outcome, records the call with its Attempts number and goes on to done, backoff or report |
| QueueObject.Queue.Backoff | internal/queue/queue.go:178-185 | the backoff select returns with the job abandoned exactly when the cancelled context wins, and otherwise waits 5*(attempt+1) seconds and starts the next attempt |
| PostgresArray.Value | internal/models/types.go:40-51 | the printer's loop yields the literal with every element escaped and quoted |
| PostgresArray.ParsePostgresArray | internal/models/types.go:77-102 | the parser's loop is the fold of the character step, with a non-empty rest kept as last element |
| PostgresArray.Scan | internal/models/types.go:53-75 | what every kind of driver value yields: nil, string, bytes, or an error for other types |
| PostgresArray.ScanRendered | internal/models/types.go:40-102 | any rendering of an array, each element quoted or (if it has no comma, quote or backslash) not, reads back as the array less one empty last element |
| PostgresArray.ScanPrinted | internal/models/types.go:40-102 | in particular what Value prints |
| PostgresArray.RoundTripExactly | internal/models/types.go:98-101 | the round trip is exact if and only if the array is empty or its last element is not |
| PostgresArray.RoundTripLosesEmptyLast | internal/models/types.go:98-101 | a concrete array that the round trip shortens |
| PostgresArray.RepeatedRoundTrips | internal/models/types.go:40-102 | n round trips remove exactly min(n, trailing empty strings) elements |
| PostgresArray.PrintInjective | internal/models/types.go:40-51 | different arrays always print differently |
| PostgresArray.FeedEscaped | internal/models/types.go:46-48 | inside quotes the parser undoes the two replacement passes for every string |
| PostgresArray.PrintedExactly | internal/models/types.go:40-51 | every element is printed in quotes, in order, with commas between and braces around |
| PostgresArray.EscapedExactly | internal/models/types.go:46-47 | the two passes put one backslash before each backslash and quote and change nothing else |
| PostgresArray.BracesAreOptional | internal/models/types.go:67-68 | a literal reads the same without its first or last brace |
| PostgresArray.MixedElement | internal/models/types.go:76-103 | bare text, backslashed characters and quoted text may follow each other within one element |
| SeedKeys.SortInPlace | internal/scheduler/continuous_discovery.go:90-94 | the in-place insertion sort yields the sorted copy |
| SeedKeys.SeedKey | internal/scheduler/continuous_discovery.go:88-100 | the key is the sorted list, each domain followed by a comma; the caller's list is not touched |
| SeedKeys.SortedUnique | internal/scheduler/continuous_discovery.go:89-94 | there is only one sorted permutation in Go's string order |
| SeedKeys.PermutationsShareKey | internal/scheduler/continuous_discovery.go:85-87 | lists with the same domains have the same key in any order |
| SeedKeys.KeyIdentifiesSet | internal/scheduler/continuous_discovery.go:85-100 | for comma-free domains, equal keys if and only if equal multisets |
| SeedKeys.EqualKeysExactly | internal/scheduler/continuous_discovery.go:95-99 | for all domains, equal keys if and only if the sorted lists agree once split at commas |
| SeedKeys.CommaCollision | internal/scheduler/continuous_discovery.go:95-99 | two different sets with one key |
| ContinuousDiscovery.DispatchContinuousDiscovery | internal/scheduler/continuous_discovery.go:37-82 | the loop inserts exactly the due first rows whose insert succeeds and enqueues one matching job for each |
| ContinuousDiscovery.InsertedExactly | internal/scheduler/continuous_discovery.go:40-67 | the new jobs are, in the order of the rows, pending copies of exactly those rows that no earlier row of the same organisation, cadence and seed key precedes, whose run ended at least 1, 7 or 30 days ago and whose insert succeeds |
| ContinuousDiscovery.EnqueuedExactly | internal/scheduler/continuous_discovery.go:69-76 | every new job is handed to the queue once, in order, with its id and organisation in the payload |
| ContinuousDiscovery.SeriesExactly | internal/scheduler/continuous_discovery.go:41-41 | the key string identifies organisation, cadence and seed key |
| ContinuousDiscovery.OneJobPerSeries | internal/scheduler/continuous_discovery.go:40-49 | one pass creates at most one job per organisation, cadence and seed multiset |
| ContinuousDiscovery.RightAtAllTimesExactly | internal/scheduler/continuous_discovery.go:40-57 | one series is at every time dispatched exactly when all its runs are due, if and only if its first row is a newest one |
| ContinuousDiscovery.DispatchedExactlyWhenDue | internal/scheduler/continuous_discovery.go:40-57 | with successful inserts, every series is at every time dispatched exactly when it has a run and all its runs ended at least one interval ago, if and only if the first row of each series is a newest one |
| ContinuousDiscovery.OneOrderGivesNewestFirst | internal/scheduler/continuous_discovery.go:29-32 | rows sorted by organisation, seed list and descending completion time arrive newest first per series when each comma-free seed set is stored in one order per organisation, under any collation |
| ContinuousDiscovery.DecidedByFirstRow | internal/scheduler/continuous_discovery.go:42-57 | on any rows, the first row of a series alone decides |
| ContinuousDiscovery.StoredOrderMatters | internal/scheduler/continuous_discovery.go:31-31 | concrete rows, shown to be in the query's order, for which a series is dispatched although its newest run just ended |
| ColumnNames.ExcelColumnName | internal/modules/dispatcher.go:1012-1019 | the loop ends for every index and yields the column's name, or nothing for a negative index |
| ColumnNames.RankOfName | internal/modules/dispatcher.go:1008-1019 | every name is non-empty over A-Z and decodes to its index |
| ColumnNames.NameOfRank | internal/modules/dispatcher.go:1008-1019 | every non-empty A-Z string is the name of the index it decodes to |
| ColumnNames.OrderIsColumnOrder | internal/modules/dispatcher.go:1008-1019 | i < j if and only if the name of i precedes that of j, shorter first, then alphabetically |
| TargetExpansion.ExpandTargetsWithDiscoveredSubdomains | internal/modules/dispatcher.go:816-871 | the nested loops with their early exits yield originals plus fetched subdomains, first of each normalised name, cut at max(500, distinct originals) |
| TargetExpansion.ExpandTargets | internal/modules/dispatcher.go:819-864 | the same for any normalising function |
| TargetExpansion.ExpansionBounds | internal/modules/dispatcher.go:824-864 | the deduplicated originals are a prefix, names are pairwise distinct, the length is bounded, no original name is lost |
| TargetExpansion.OnlyKnownSubdomainsAdded | internal/modules/dispatcher.go:834-863 | every added entry was fetched for the domain row whose name is some original's normalised name |
| TargetExpansion.NothingOmittedBelowCap | internal/modules/dispatcher.go:854-863 | below 500 entries every fetched subdomain is present by name |
| TargetExpansion.ExpandedExactly | internal/modules/dispatcher.go:824-864 | the result is, in order, the first entry of each name among the originals followed by everything fetched, cut at the number of distinct originals or 500, whichever is more |
| TargetExpansion.FetchedExactly | internal/modules/dispatcher.go:838-853 | what is fetched: target by target, the answer for the domain row of the normalised name, or nothing without a row or an answer |
| TargetExpansion.SpelledTargetsExpand | internal/modules/dispatcher.go:838-863 | however a target spells the clean name of a domain row, below 500 entries all subdomains fetched for the row are scanned |
| TargetExpansion.SpelledExactly | internal/modules/dispatcher.go:1509-1518 | a clean name is the result for exactly the targets that are white space, one of four scheme prefixes (none included), the name, at most one slash, white space |
| TargetExpansion.UnchangedExactly | internal/modules/dispatcher.go:1511-1518 | the targets left alone are exactly the clean names: empty, or without outer white space, scheme or final slash |
| TargetExpansion.IdempotentExactly | internal/modules/dispatcher.go:1511-1518 | a second pass changes nothing if and only if the target spells a clean name |
| TargetExpansion.BareExactly | internal/modules/dispatcher.go:1509-1518 | the result is a bare domain (non-empty, no slash, colon or white space) if and only if the target spells one |
| TargetExpansion.PathIsKept | internal/modules/dispatcher.go:1509-1518 | a concrete target whose result is not a bare domain |
| TargetExpansion.NormalizeNotIdempotent | internal/modules/dispatcher.go:1511-1518 | a concrete target that keeps a scheme after one pass and loses it after a second |
| XmlEscape.PassesEqualSinglePass | internal/modules/dispatcher.go:1140-1146 | the four sequential passes equal one character-by-character escape |
| XmlEscape.EscapedIsWellEscaped | internal/modules/dispatcher.go:1139-1146 | no raw <, > or double quote is left, and every ampersand starts one of the four entities (section 2.4 of XML 1.0) |
| XmlEscape.DecodeUndoesEscape | internal/modules/dispatcher.go:1140-1146 | entity decoding gives the text back |
| XmlEscape.EscapeUndoesDecode | internal/modules/dispatcher.go:1140-1146 | every well-escaped text is the escape of what it decodes to |
| XmlEscape.EscapeInjective | internal/modules/dispatcher.go:1140-1146 | different texts escape differently |
| TicketStore.WSTicketStore.Issue | internal/api/handlers/ws_ticket.go:33-52 | evicts exactly the expired tickets, adds one for 30 seconds, and changes nothing when randomness fails |
| TicketStore.WSTicketStore.IssueWithTTL | internal/api/handlers/ws_ticket.go:103-113 | adds a ticket with the given lifetime and evicts nothing |
| TicketStore.WSTicketStore.Consume | internal/api/handlers/ws_ticket.go:55-67 | removes the ticket whatever the answer, and grants exactly the unexpired ones |
| TicketStore.RefinesNeverEvicting | internal/api/handlers/ws_ticket.go:41-47 | on a monotone clock every answer equals that of a store that never evicts |
| TicketStore.GrantedExactly | internal/api/handlers/ws_ticket.go:54-67 | a ticket is granted, with the issuing organisation, exactly when it was issued, has been neither reissued nor presented since, and has not expired |
| TicketStore.AtMostOnce | internal/api/handlers/ws_ticket.go:54-67 | with non-repeating tickets, a ticket succeeds at most once in any history |
| TicketStore.HoldsOnlyRecent | internal/api/handlers/ws_ticket.go:41-48 | after an Issue, in a history without custom lifetimes, every held ticket was issued in the last 30 seconds |
| CronCatchUp.DispatchDomainCronScans | internal/scheduler/scheduler.go:357-405 | one pass enqueues a scan for exactly the due rows whose insert succeeds, and updates exactly those whose write succeeds |
| CronCatchUp.TableRunsRows | internal/scheduler/scheduler.go:357-405 | over any sequence of passes and scorings of the table, each selected row goes through its own steps |
| CronCatchUp.UnselectedUntouched | internal/scheduler/scheduler.go:360-367 | a row without an expression, with one that does not parse, or not monitored is never changed by a pass |
| CronCatchUp.ScansAreFirings | internal/scheduler/scheduler.go:360-398 | over any passes and scorings, a pass enqueues, in the order of the rows, one scan for exactly those monitored rows with a parsable expression that fire at that step of their own run, with the scan row's id and the domain's organisation in the payload |
| CronCatchUp.FiresExactly | internal/scheduler/scheduler.go:368-387 | whatever inserts and writes failed before and whoever else wrote the row, a scan is enqueued at a tick exactly when its insert succeeds and an occurrence lies after what was served and not after the tick |
| CronCatchUp.ServedUpToPreviousTick | internal/scheduler/scheduler.go:368-399 | when the database accepts everything, what was served is everything up to the previous tick, or the initial time |
| CronCatchUp.MissedExactly | internal/scheduler/scheduler.go:368-387 | with time not going back, the first tick at or after an occurrence whose insert succeeds enqueues no scan if and only if some other write before it, on a row not yet scanned, came at or after the occurrence and nothing occurs between that write and the tick |
| CronCatchUp.NoneMissed | internal/scheduler/scheduler.go:368-387 | so for a row once scanned, or with no other write at or after the occurrence, every occurrence is served by the first tick at or after it whose insert succeeds |
| CronCatchUp.WriteHidesOccurrence | internal/scheduler/scheduler.go:369-376 | a tick that fires for an occurrence does not fire after another write between the two |
| CronCatchUp.FiringsAtMostOccurrences | internal/scheduler/scheduler.go:368-401 | firings never exceed occurrences plus the firings whose last-scan write failed |
| CronCatchUp.NextIsInFuture | internal/scheduler/scheduler.go:373-399 | after a tick whose insert and write succeed the next occurrence from the stored time lies after it |
| CronCatchUp.TimesExactly | internal/scheduler/scheduler.go:399-399 | at each step the last-scan time is set exactly when a scan is enqueued and its time written; updated_at is set then and by other writes, and otherwise stays |
| DeadSubdomains.DetectDeadSubdomains | internal/scheduler/scheduler.go:448-498 | one pass checks exactly the live rows, stores exactly the saved ones, and attempts an alert with the subdomain and its count exactly at a third failure |
| DeadSubdomains.DeadExactly | internal/scheduler/scheduler.go:445-486 | dead exactly when the saved checks contain three consecutive failures; until then the counter is the current failure streak, at most 2 |
| DeadSubdomains.AlertAtTransition | internal/scheduler/scheduler.go:461-479 | with persisted saves an alert is attempted exactly at the check that completes the first three failures |
| DeadSubdomains.AlertAtExactly | internal/scheduler/scheduler.go:455-494 | whatever saves fail, an alert is attempted exactly at a failing check with no three saved failures in a row before it and two directly before it |
| DeadSubdomains.AlertsExactly | internal/scheduler/scheduler.go:461-494 | with any saves: one alert if dead, plus one per such check whose save was lost |
| DeadSubdomains.LostSaveAlertsAgain | internal/scheduler/scheduler.go:488-494 | a concrete history with two alerts |
| DeadSubdomains.RowExactly | internal/scheduler/scheduler.go:455-490 | after any checks and saves the row keeps its name and organisation, and its death, its counter and the time of its last check are those of the saved checks |
| DeadSubdomains.AlertsOfRun | internal/scheduler/scheduler.go:448-494 | over any runs on a table of new subdomains, each run announces, in the order of the table, exactly the rows whose check fails after two saved failures, each under its own name and organisation with a count of 3 |
| ServiceDiff.BuildMaps | internal/api/handlers/admin_ops.go:962-974 | the current map keeps the last row per key, the history map the first |
| ServiceDiff.KeyInjective | internal/api/handlers/admin_ops.go:964-964 | different ports or protocols never share a map key |
| ServiceDiff.HistoryMapIsNewest | internal/api/handlers/admin_ops.go:956-974 | with rows fetched newest first, the history map holds the newest row of each key |
| ServiceDiff.DiffServices | internal/api/handlers/admin_ops.go:962-999 | in whatever order Go visits the maps, the rows are those of the changed keys, one per key |
| ServiceDiff.DiffExactly | internal/api/handlers/admin_ops.go:962-999 | a row is in the answer if and only if it reports what happened to its port and protocol between the first history row and the last current row: appeared, changed in state or version, or disappeared, with the name of the newer row and both states; never two rows for one port and protocol |
| ServiceDiff.DiffIsPatch | internal/api/handlers/admin_ops.go:976-999 | applying the rows to the history's states gives exactly the current states |
| ServiceDiff.EmptyExactly | internal/api/handlers/admin_ops.go:978-999 | the diff is empty exactly when keys, states and versions agree |
| RestoreOrg.Database.UpsertRow | internal/api/handlers/admin_ops.go:1148-1177 | one upsert, by business key or by primary key with the ownership rule |
| RestoreOrg.Database.RestoreCollection | internal/api/handlers/admin_ops.go:1092-1106 | the loop over one collection and its statistic |
| RestoreOrg.Database.Restore | internal/api/handlers/admin_ops.go:1089-1216 | the eight loops in order, with all statistics |
| RestoreOrg.EveryCollectionRestored | internal/api/handlers/admin_ops.go:1091-1216 | no loop disturbs another: each table and statistic is that of its own loop |
| RestoreOrg.RestoredExactly | internal/api/handlers/admin_ops.go:1092-1106 | one collection ends as its old rows followed, in the backup's order, by a complete copy of every row that was neither there nor refused when its turn came; the statistic counts the rows that were there or inserted |
| RestoreOrg.ImportedExactly | internal/api/handlers/admin_ops.go:1089-1216 | the same for every table and statistic of a whole import; todos and findings, and only these, keep a usable primary key of their own |
| RestoreOrg.RestoreOnlyAdds | internal/api/handlers/admin_ops.go:1074-1216 | in one collection, every row of every organisation stays as it was, and every added row belongs to the caller's |
| RestoreOrg.RestoreAllOnlyAdds | internal/api/handlers/admin_ops.go:1074-1216 | the same for every table of the database over a whole import |
| RestoreOrg.RestoreTwice | internal/api/handlers/admin_ops.go:1093-1189 | a second restore changes nothing: always for collections matched by business key, and for todos and findings whose ids are usable |
| RestoreOrg.RestoreByIdTwiceExactly | internal/api/handlers/admin_ops.go:1148-1215 | without interfering unique indexes, a second restore of todos or findings changes nothing if and only if no row has a nil id or one owned by another organisation |
| RestoreOrg.RestoreAllTwice | internal/api/handlers/admin_ops.go:1089-1216 | importing the whole backup twice leaves the database as once, when every todo and finding has a usable id |
| RestoreOrg.RestoreAllTwiceExactly | internal/api/handlers/admin_ops.go:1089-1216 | with any unique indexes but none on todos and findings, the second import changes nothing in any table if and only if every todo and finding has a usable id |
| RecentSearches.RecentStore.Save | frontend/src/utils/recentSearches.ts:17-26 | a blank query or a refused write changes nothing; otherwise the trimmed query moves to the front of at most 8 |
| RecentSearches.RecentStore.Clear | frontend/src/utils/recentSearches.ts:28-34 | removes the entry unless the browser refuses |
| RecentSearches.CuttingLosesNothing | frontend/src/utils/recentSearches.ts:17-26 | after any history, refused writes included, the stored list is the first 8 of the list kept without a limit |
| RecentSearches.NewestFirst | frontend/src/utils/recentSearches.ts:21-21 | the unlimited list holds non-blank trimmed queries, each at its last stored search, latest first |
| RecentSearches.EverySearchListed | frontend/src/utils/recentSearches.ts:17-26 | and every non-blank query stored since the last clear |
| RecentSearches.AllRecentDistinct | frontend/src/utils/recentSearches.ts:21-21 | and no query twice |
| RecentSearches.TrimmedExactly | frontend/src/utils/recentSearches.ts:18-18 | the trimmed query is the query without the blanks around it, all of them, and nothing else |
| RecentSearches.WithoutExactly | frontend/src/utils/recentSearches.ts:21-21 | filtering removes every copy of the query and keeps the others in order |
| HostList.SplitHosts | pkg/httpclient/httpclient.go:58-71 | the index loop yields the non-empty fields of the comma split, in order |
| HostList.SplitJoin | pkg/httpclient/httpclient.go:57-71 | splitting the comma join of non-empty comma-free hosts gives them back |
| HostList.SplitIsNormalForm | pkg/httpclient/httpclient.go:57-71 | every split result consists of non-empty comma-free hosts and survives joining and splitting |
| HostList.NonEmptyExactly | pkg/httpclient/httpclient.go:62-67 | no non-empty field is dropped and their order is kept |
| Text.JoinFields | pkg/httpclient/httpclient.go:57-71 | the comma split is inverted by the comma join, and its fields have no comma |
| Text.FieldsJoin | pkg/httpclient/httpclient.go:57-71 | and conversely for comma-free parts |
| Text.TrimPadded | internal/modules/dispatcher.go:1512-1512 | trimming removes the white space around a string, all of it, and nothing else |
| Text.TrimSplit | internal/modules/dispatcher.go:1512-1512 | every string is white space, its trimmed form, white space, and the trimmed form has none at its ends |

## Left out

- Redis mode of the queue, JSON payloads, real timers and the 30-minute handler timeout: libraries; backoff is a recorded delay.
- QueueShutdown.StopEnds: assumes that while some worker has not returned, some worker eventually acts; a handler that never ends blocks Stop in the program too.
- QueueProgress.EveryJobEnds: assumes that workers that have not returned keep acting and that the one-second timer of a select wins only while the channel is empty, as it does unless a goroutine is stalled for that second inside the select.
- QueueDelivery.JobsAreUnchanged: a payload is a value; a caller or handler that writes into the shared Go map would change what later attempts and the dead letter see.
- A dead-letter sink that panics or blocks: sinks are opaque calls.
- Go strings that are not valid UTF-8: ranging over such a string replaces bytes, so the array round trip is stated for code points only.
- 64-bit limits of integers and durations: no modelled value comes near them.
- CronCatchUp.FiresExactly: next is any function giving the least occurrence after a time; expressions that never occur, and the precision with which the database stores times, are not modelled; a write of the row by anybody else only moves updated_at.
- RestoreOrg.Database.Restore: a failed insert leaves its table unchanged, as the source's logging expects; that PostgreSQL rejects further statements of a transaction after an error is not modelled. Tables have a primary key, an owner, business-key columns and the rest; foreign keys, soft deletes and associations are left out.
- RestoreOrg.RestoreTwice: assumes, as RestoreAllTwice does, that freshly minted ids of the first restore are new.
- TicketStore.AtMostOnce: assumes that random tickets do not repeat.
- ContinuousDiscovery.DispatchContinuousDiscovery: takes the query's rows as given; their order and how seed sets are stored are hypotheses of the theorems that need them.
- TargetExpansion.ExpandTargets: takes the looked-up domain rows and the at most 500 fetched subdomains as given; reading targets out of the JSON payload is left out.
- RecentSearches.RecentStore.Save: an entry holding valid JSON that is not a list of strings is not modelled.
- DeadSubdomains.DetectDeadSubdomains: an alert is the subdomain, its organisation and its count; the wording of title and message and a failed insert of the alert are not modelled.
- Request handling, queries and authorisation around ServiceDiff, RestoreOrg and the ticket handler: plumbing.
- dispatchScheduledScans, checkCertExpiry, SLA breaches, purges, scanners, cloud sync, crypto, JWT and the React pages: I/O, libraries, or plain queries without rules of their own.
