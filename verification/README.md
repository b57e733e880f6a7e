# Verification model of the hardware laboratory core

This project models the stateful core of the laboratory and proves what it promises, over every
input, every run and every reachable state. It covers:

- **The deterministic multi-rate scheduler** (`Scheduler*.dfy`, `SampleAndHold.dfy`). One run is a log
  of calls on its adapters: prepare, inject, step, snapshot, shutdown, finalize. Adapters are arbitrary
  deterministic functions of the calls made so far, so the results hold for every backend. The loop is
  related to a loop that ticks every microsecond, and to a closed form: what is delivered, injected,
  stepped and checkpointed at every instant, and what its metrics and its status are, read off the log.
- **The worker lease protocol** (`Task*.dfy`, `WorkerClient.dfy`). A run is any sequence of operations
  with any clock readings; both stores are classes that update one table, proved against one
  operation function, and every row is read off the operations before it. Freshness of lease tokens is the only assumption about randomness.
- **Feedthrough loops** (`Topology.dfy`). The recursive walk with its visiting and visited sets.
- **The text hop of the co-simulation bridge** (`DecimalText.dfy`, `FmiText.dfy`, `FmiReply.dfy`,
  `FmiEchoes.dfy`, `IntegerPorts.dfy`, `TextReplies.dfy`, `FmiBridge.dfy`). Printer and parser on both sides, the value
  tables of the proxy, the exchange with a backend, what outputs do to the next request, and whole runs
  across the hop.
- **Firmware routines** (`Crc8.dfy`, `RingBuffer.dfy`). The checksum against division of polynomials
  over GF(2), and the ring against a bounded queue.
- **Register layouts and the SystemRDL import** (`RegisterLayout.dfy`, `SystemRdl.dfy`,
  `BitArithmetic.dfy`).
- **The life of a model package** (`Lifecycle.dfy`, `ModelRegistry.dfy`).
- **The solver cache** (`SolverCache.dfy`, `SolverHistory.dfy`, `SolverRace.dfy`, `SolverInputs.dfy`).
  First step by step, then with the steps of several processes taken apart and interleaved; and what the
  key leaves out.

`Common.dfy` and `Divisibility.dfy` hold shared helpers. Times are whole microseconds.

What the source updates in place is a class here (the scheduler, both stores, the worker client, the
ring, the walk, the registry, the cache, the bridge and the proxy); each method is proved against a
function on values, and the theorems are about those functions.

Where the code does not meet a promise of its documentation or error messages, or does something its
reader would not expect, the code is kept and a theorem says exactly when:

- Validation accepts a stimulus or fault at the very end of an experiment, or between two ticks; it is
  never injected (`SchedulerTheorems.TimelineLedger`). Ticking at the quantum has another outcome than
  ticking every microsecond exactly when such an item between two ticks is reached, or a component
  without a period is stepped (`SchedulerWholeRuns.RunsAgreeExactly`, for known targets and as long as no
  cancellation or timeout between two ticks is met).
- The server store looks at twenty queued rows; a worker gets no task although there is one exactly
  when none of its tasks is among them (`TaskSelection.ServerLeaseRefines`).
- `docs/contracts.md` says that a generated model cannot validate itself. The conformance check asks for
  an independent file and a passing report, but not that they are the same file
  (`Lifecycle.SelfReportLoophole`).
- A generated package is statically validated either by the static checks or by a plain transition that
  asks for nothing but existing evidence (`Lifecycle.StaticMoveExactly`, and for every move of every run
  `Lifecycle.StaticMovesOnTrails`); such a package can go all the way to production
  (`Lifecycle.ProductionWithoutStaticChecks`).
- A lease past its expiry is still good. It ends exactly with a later lease by someone who may, whose
  clock is past the expiry, with a cancellation, or with its own completion
  (`TaskProtocol.LeaseStandsExactly`, `TaskProtocol.LateCallsAreAccepted`).
- A value reported on an integer port arrives exactly when it is an integer of 32 bits
  (`IntegerPorts.ArrivesExactly`). What prints as one word ends the exchange in an exception exactly when
  it is a truth value, a larger integer, or a real or text that starts with no such integer
  (`IntegerPorts.ThrowsExactly`). A real is cut at its first point or exponent letter, so that 0.00001,
  printed as 1e-05, is stored as 1; which reals come through as the same number is
  `IntegerPorts.RealOnIntegerPort`.
- A reported text with blanks is several items. Its first word belongs to its port: it is skipped when it
  is empty and the reference has one digit, and otherwise throws or is stored. Every later word is an
  item of its own (`TextReplies.TextIsReadExactly`). The exchange throws exactly when one of these words
  does, over all ports (`TextReplies.OutputsThrowExactly`). So a text can change the value of another
  reference (`TextReplies.TextChangesOther`); it changes none exactly when its first word throws or none
  of the others stores elsewhere before one throws (`TextReplies.TextChangesNoOtherExactly`).
- A bidirectional port, of any type, gets its own report injected by the next step, a real as the proxy
  prints it (`FmiEchoes.BidirectionalEchoes`); the next step injects what it would have injected anyway
  exactly when the integers, truth values and printed reals were already held
  (`FmiEchoes.NextRequestUnchangedExactly`).
- The cache key sorts the inputs; the solver gets one variable per upper-cased name, in insertion order.
  Names that differ in case only can share a key and reach the solver differently
  (`SolverInputs.OrderReachesSolver`); the cache is right exactly when the solver does not tell such
  inputs apart (`SolverInputs.CacheSolverExistsExactly`, `SolverInputs.SharedKeyAnswersExactly`).
- Processes that share a solver cache take no lock. A key is solved twice exactly when a second look-up
  comes before the first opening of its record (`SolverRace.SolvedTwiceExactly`); a look-up fails on a
  record that is half-written (`SolverRace.AnswersAreFresh`), and a record abandoned in that state is
  never repaired (`SolverRace.AbandonedForever`).

## Model

| member | source | states |
|---|---|---|
| SchedulerQuantum.QuantumIsLongestFit | src/ael/scheduler.py:62-69 | the quantum divides the macro step and every declared period, and is the longest tick that does |
| SchedulerQuantum.CommunicationStepIsQuantum | src/ael/fmi.py:36-40 | the communication step of the co-simulation schedule is the scheduler's quantum, for every system |
| SchedulerQuantum.TicksAreBelowEnd | src/ael/scheduler.py:82 | for any duration the loop ticks at exactly the multiples of the quantum below it |
| SchedulerLossless.QueueStaysAligned | src/ael/scheduler.py:80-123 | after any number of ticks every queued delivery is keyed by a multiple of the quantum |
| SchedulerLossless.OneQuantum | src/ael/scheduler.py:82-134 | one tick of a quantum reaches the world that its microseconds reach one by one |
| SchedulerLossless.GcdTickingIsLossless | src/ael/scheduler.py:62-134 | when every component declares a period and the timeline is aligned, n quanta and n times q microseconds end in the same world: same calls, queue, metrics and halt, for any adapters |
| SchedulerTheorems.LosslessExactlyWhenAligned | src/ael/scheduler.py:62-134 | of two complete runs, by quantum and by microsecond, the calls agree if and only if every component declares a period and every stimulus and fault before the end is aligned, or the quantum is a microsecond |
| SchedulerTheorems.AperiodicShowsTick | src/ael/scheduler.py:106-110 | a component without a period is stepped differently by the two loops, so their logs differ |
| SchedulerWholeRuns.RunsAgreeExactly | src/ael/scheduler.py:40-157 | for whole runs however they end, with known targets and no cancellation or timeout met between two ticks: the same status, calls and metrics if and only if the microsecond loop reaches no unaligned stimulus or fault and, unless the quantum is a microsecond, steps no component without a period |
| SchedulerWholeRuns.LoopOnGrid | src/ael/scheduler.py:82-104 | the loop never injects off the grid of its tick |
| SchedulerWholeRuns.SameStop | src/ael/scheduler.py:82-134 | when nothing unaligned was due before the microsecond loop stopped, both loops stop in the same world |
| SchedulerProtocol.RunIsLossless | src/ael/scheduler.py:40-157 | the same for whole runs on every exit path: status, calls and metrics are those of ticking every microsecond |
| SchedulerTheorems.DeliveryLedger | src/ael/scheduler.py:77-123 | what steps owe at instant k is injected exactly once and in order once k is in a complete tick, waits in the queue until then, and nothing is owed or queued off the grid or overdue |
| SchedulerTheorems.TimelineLedger | src/ael/scheduler.py:70-104 | at an instant below the end and on the grid exactly the stimuli of that instant are injected, each once, in list order, with its own target and value, and exactly the faults, each into its port with ".fault." and the kind appended, with its parameters; at no other instant anything is |
| SchedulerItems.TimelineIs | src/ael/scheduler.py:70-75 | what a timeline holds for an instant are the targets and values of exactly its items of that instant, each once and in list order |
| SchedulerItems.FaultsAre | src/ael/scheduler.py:98-104 | the same for faults, with their derived target port and their parameters |
| SchedulerItems.DeliveriesAre | src/ael/scheduler.py:117-123 | the deliveries of a step are one for every pair of an output and a connection from its port, with that output's value and that connection's target, in output and then connection order |
| SchedulerTheorems.StepsTile | src/ael/scheduler.py:106-110 | a component of period s is stepped over [0, s), [s, 2s), ... in order, without gap, overlap or repetition, ceiling of end over s times |
| SchedulerTheorems.CheckpointLedger | src/ael/scheduler.py:124-134 | every component is snapshot at exactly interval, 2 * interval, ... up to the end, in increasing order |
| SchedulerTheorems.CallsInOrder | src/ael/scheduler.py:82-134 | over a run, calls come instant by instant, and within one: checkpoint, deliveries, stimuli, faults, steps |
| SampleAndHold.SingleFeed | src/ael/scheduler.py:90-123 | a port fed by one connection receives at instant k what its source emitted in the step that started one period before, and nothing at any other instant |
| SampleAndHold.SampleAndHoldTheorem | src/ael/scheduler.py:77-123 | at time t such a port last received what step number floor(t/s) - 1 of its source emitted, at floor(t/s) * s, and nothing since |
| SchedulerProtocol.BlockedExactly | src/ael/scheduler.py:54-60 | a run is blocked exactly when some component's backend is unavailable after all earlier ones got prepared |
| SchedulerProtocol.EveryExitFollowsProtocol | src/ael/scheduler.py:47-157 | on every exit path each prepared adapter is shut down exactly once and not used afterwards, nothing is injected or stepped before all are prepared, blocked runs only prepare and shut down, evidence is finalized once and last, the status is not RUNNING |
| SchedulerProtocol.JudgeMeans | src/ael/scheduler.py:136-143 | the verdict is a pass exactly when every assertion can be evaluated and every critical one holds |
| SchedulerLogs.StopExplained | src/ael/scheduler.py:82-134 | every call of a loop is answered by its adapter as the calls before it ask, none follows one that raised, and the loop stopped exactly for a raised call, a cancellation or a timeout |
| SchedulerLogs.PreparationHonest | src/ael/scheduler.py:54-60 | the same for the preparation |
| SchedulerLogs.MetricsAreLastReports | src/ael/scheduler.py:113-119 | a metric is there if and only if some good step of its component reported its name as a metric or an output, and is the last value reported, outputs after metrics within a step |
| SchedulerLogs.RunMetrics | src/ael/scheduler.py:113-157 | the same for the whole log and the metrics of every run, whatever way it ends |
| SchedulerLogs.VerdictStands | src/ael/scheduler.py:136-143 | the verdict holds exactly when every critical assertion stands for the last value reported under its metric, where a missing metric fails every comparison but equality and inequality |
| SchedulerLogs.PassedExactly | src/ael/scheduler.py:40-157 | any run, with known targets or not, passed exactly when all adapters got prepared, the loop completed, and every assertion stands on the last values its log reports |
| SchedulerLogs.StatusExactly | src/ael/scheduler.py:40-157 | a run with known targets ends blocked, cancelled, passed or failed if and only if its log and the answers it got say so: the first missing backend, the interruption met, and the assertions over the last reported values |
| SchedulerLogs.SalvageExactly | src/ael/scheduler.py:144-156 | the adapters held are snapshot once more if and only if an exception ended the run, each once |
| SchedulerProtocol.PassedRun | src/ael/scheduler.py:82-157 | a passed run completed every tick of its duration, its log being that loop's log, shutdowns and one finalize |
| SchedulerProtocol.PassedRunLedger | src/ael/scheduler.py:70-157 | for the whole log of every passed run: deliveries, the stimuli and faults of every instant with their own targets and values, tiling by declared periods, and checkpoints |
| SchedulerRun.Bucket | src/ael/scheduler.py:70-75 | grouping a timeline by instant gives, at each instant, the targets and values of exactly the items of that instant, in list order |
| SchedulerRun.ConnectionMap | src/ael/scheduler.py:77-79 | grouping connections by source keeps, for each source, its targets in list order |
| SchedulerRun.DeterministicScheduler.QueueOutputs | src/ael/scheduler.py:117-123 | the nested loops queue all deliveries of a step for its end, in output and then connection order, and record the outputs |
| SchedulerRun.DeterministicScheduler.RunTick | src/ael/scheduler.py:82-134 | one pass of the loop body is one tick of the model |
| SchedulerRun.DeterministicScheduler.CloseRun | src/ael/scheduler.py:144-156 | last snapshots of a failed run, shutdowns of what is held, one finalize |
| SchedulerRun.DeterministicScheduler.Run | src/ael/scheduler.py:40-157 | a run in place ends with the status, calls and metrics of the model's run, which the theorems on logs, metrics and statuses are about |
| TaskProtocol.OperationKeeps | src/ael/storage.py:266-444 | every operation keeps every row in a legal shape and keys unique, loses no row, keeps identity and payload, and never touches a finished row |
| TaskProtocol.ReachableGood | src/ael/storage.py:266-444 | in every reachable table queued rows have no owner, token or expiry, active ones all three, results are with finished rows only, EXPIRED never occurs, keys are unique |
| TaskProtocol.RowsPersist | src/ael/storage.py:266-444 | between any two points of a run no row is lost and no finished row changes |
| TaskProtocol.HistoryInvariant | src/ael/storage.py:300-363 | attempts is the number of leases granted, and a row's owner and token are those of its latest grant |
| TaskProtocol.TokenNeverReturns | src/ael/storage.py:300-423 | with fresh tokens, a token that left a row never comes back to it |
| TaskProtocol.TokenBelongsToItsTask | src/ael/storage.py:300-363 | with fresh tokens, a token is only seen on the row it was granted for, as its latest grant |
| TaskProtocol.Fencing | src/ael/storage.py:300-423 | after a lease was reclaimed, no heartbeat or completion with its token is accepted, for any task, by any worker, and none changes anything |
| TaskProtocol.CompletionIsFromLatestLease | src/ael/storage.py:397-423 | an accepted completion comes from the worker and with the token of the latest grant of the task |
| TaskProtocol.AtMostOneCompletion | src/ael/storage.py:397-423 | no task accepts two completions, and its row never changes after one |
| TaskProtocol.LeaseEndsExactly | src/ael/storage.py:300-445 | one operation ends a lease if and only if it is a lease by someone who may with a clock past the expiry, a cancellation of the task, or the completion that the lease allows |
| TaskProtocol.LeaseStandsExactly | src/ael/storage.py:300-445 | with fresh tokens a granted lease is good at any later point of a run if and only if no operation in between ended it; its expiry alone does not |
| TaskProtocol.LateCallsAreAccepted | src/ael/storage.py:365-423 | a heartbeat of positive length, and a completion, with a grant's worker and token are accepted if and only if nothing ended that lease, however late they come |
| TaskHistory.RefusedExactly | src/ael/storage.py:266-445 | an operation is refused exactly in the listed cases, with the listed error, and then changes nothing |
| TaskHistory.EnqueueAnswers | src/ael/storage.py:266-293 | a known key answers with the task stored under it and changes nothing; a new task adds one row and is answered as given |
| TaskHistory.RegistrationsAre | src/ael/storage.py:233-256 | only registering changes what a worker can do, and whether it is enabled |
| TaskHistory.RowChangesExactly | src/ael/storage.py:266-445 | field by field, what each operation does to each row, and that the answer is the row it wrote |
| TaskHistory.RowIsHistory | src/ael/storage.py:266-445 | in every run, a row has the status, owner, token, expiry, result and time stamp that the latest operation on it gave it |
| TaskHistory.RowIsWhatWasEnqueued | src/ael/storage.py:266-293 | a row is inserted once and keeps type, requirements, payload, key and creation time of its enqueue |
| TaskHistory.ActiveUntil | src/ael/storage.py:345-389 | the lease of an active task runs until a million microseconds per second of its length after the clock of the latest grant or heartbeat |
| TaskHistory.LeaseLasts | src/ael/storage.py:309-363 | a lease by someone who may takes an active task over if and only if its clock is past that time |
| TaskHistory.CompletionIsKept | src/ael/storage.py:397-423 | after an accepted completion the row has, for good, the status of its result, the result, and no expiry, and the completion is answered with that task |
| TaskSelection.LeaseTakesTheLeast | src/ael/storage.py:309-363 | a lease hands out, of the tasks that are queued or whose lease is overdue and whose requirements the worker covers, the one created first, the smallest id by first difference deciding ties; no task exactly when there is none |
| TaskSelection.ServerLeaseRefines | src/ael/storage_server.py:346-407 | the server store answers and updates like the local one if and only if some such task has fewer than twenty waiting tasks ahead of it, or there is none; otherwise it hands out nothing |
| TaskSelection.ServerAgreesOnShortQueues | src/ael/storage_server.py:353-407 | with at most twenty tasks queued or overdue the two stores never differ |
| TaskStore.SelectRow | src/ael/storage.py:330-339 | the scan of a query result finds its first covered row |
| TaskStore.StateStore.RegisterWorker | src/ael/storage.py:233-256 | registering keeps whether a known worker is enabled |
| TaskStore.StateStore.EnqueueTask | src/ael/storage.py:266-293 | a known key answers with its row; otherwise a fresh queued row is inserted, and the caller's task returned |
| TaskStore.StateStore.LeaseTask | src/ael/storage.py:300-363 | the transaction in place is the lease of the model with no limit on candidates; how long it lasts is TaskHistory.LeaseLasts |
| TaskStore.StateStore.HeartbeatTask | src/ael/storage.py:365-395 | a heartbeat extends the lease it proves, or changes nothing |
| TaskStore.StateStore.CompleteTask | src/ael/storage.py:397-423 | a completion finishes the task whose lease it proves, with the verdict of its result, or changes nothing; what stays is TaskHistory.CompletionIsKept |
| TaskStore.StateStore.CancelTask | src/ael/storage.py:425-445 | a queued or active task is cancelled, anything else refused |
| TaskStore.ServerStateStore.RegisterWorker | src/ael/storage_server.py:268-290 | registering enables the worker |
| TaskStore.ServerStateStore.EnqueueTask | src/ael/storage_server.py:306-333 | the same enqueue as the local store |
| TaskStore.ServerStateStore.LeaseTask | src/ael/storage_server.py:346-407 | the lease of the model over twenty candidates; the answer, built from the old row, is the row written |
| TaskStore.ServerStateStore.HeartbeatTask | src/ael/storage_server.py:409-439 | the same heartbeat as the local store |
| TaskStore.ServerStateStore.CompleteTask | src/ael/storage_server.py:441-467 | the same completion as the local store |
| TaskStore.ServerStateStore.CancelTask | src/ael/storage_server.py:469-490 | the same cancellation as the local store |
| WorkerClient.OutboundWorker.Execute | src/ael/worker.py:79-120 | the polling loop posts the heartbeats and the completion of the transcript |
| WorkerClient.RefusedNeverCompletes | src/ael/worker.py:79-134 | a worker completes exactly when it has a token and no heartbeat was refused; once, last, and as a success only when the work returned and every heartbeat was accepted |
| WorkerClient.HeartbeatsExactly | src/ael/worker.py:79-134 | one heartbeat before the work and one for each poll up to the first that breaks, with their answers; after a refused one nothing more and a normal return, otherwise one completion, and a return exactly when it is accepted |
| Topology.OrderedIsAcyclic | src/ael/fmi.py:61-76 | a reverse topological order rules out cycles |
| Topology.OneFeedthroughGraph | src/ael/fmi.py:53-59 | a graph whose edges are exactly the wires leaving direct-feedthrough components is unique |
| Topology.BuildGraph | src/ael/fmi.py:53-59 | the graph has an edge exactly where a wire leaves a direct-feedthrough component |
| Topology.Traversal.Visit | src/ael/fmi.py:64-73 | the recursive walk terminates, finishes what it reaches in reverse topological order, and fails only on a cycle |
| Topology.ValidateTopology | src/ael/fmi.py:51-76 | accepts if and only if no ring of components, each passing inputs straight through and wired to the next, exists; then each component is finished once, after what it feeds |
| Crc8.ComputeCrc8 | firmware/zephyr/src/cases.c:37-47 | the two loops compute the checksum function |
| Crc8.CrcIsBitwise | firmware/zephyr/src/cases.c:37-47 | mixing bytes in and shifting is feeding the message bit by bit |
| Crc8.RegisterIsRemainder | firmware/zephyr/src/cases.c:37-47 | the register after any bits is a remainder of M(x) * x^8 by x^8 + x^2 + x + 1 |
| Crc8.RemainderIsUnique | firmware/zephyr/src/cases.c:37-47 | quotient and remainder of that division are unique |
| Crc8.CrcIsTheRemainder | firmware/zephyr/src/cases.c:37-47 | a byte is the checksum of a message if and only if it is the remainder, for messages of every length |
| Crc8.CrcLinear | firmware/zephyr/src/cases.c:37-47 | the checksum of the exclusive or of two messages is that of their checksums |
| Crc8.AppendedChecksumChecks | firmware/zephyr/src/cases.c:37-47 | a message and one more byte check to zero if and only if the byte is the checksum |
| Crc8.BurstsAreDetected | firmware/zephyr/src/cases.c:37-47 | any error within eight consecutive bits, anywhere, changes the checksum |
| Crc8.OddErrorsAreDetected | firmware/zephyr/src/cases.c:37-47 | any odd number of flipped bits changes the checksum |
| RingBuffer.Ring.Push | firmware/zephyr/src/cases.c:23-35 | from any valid head and tail a push is a push on a queue of capacity seven; a rejected one changes nothing, the faulty one drops the oldest |
| RingBuffer.KeepsFirstOrLast | firmware/zephyr/src/cases.c:23-35 | after any pushes the fixed ring holds the first seven values in order, the faulty ring the last seven |
| RingBuffer.PushAccepted | firmware/zephyr/src/cases.c:23-35 | a push is accepted exactly when fewer than seven values are held, or the build is faulty |
| RingBuffer.PushEach | firmware/zephyr/src/cases.c:81-92 | pushing a list in place is the run of queue pushes |
| RingBuffer.RingFailure | firmware/zephyr/src/cases.c:81-92 | the case fails exactly in the faulty build |
| DecimalText.ParsePrintInt | native/fmi-proxies/ael_fmi_proxy.cpp:142-147 | reading a printed integer gives it back |
| DecimalText.TimeSurvives | native/fmi-proxies/ael_fmi_proxy.cpp:137-138 | a time printed with six significant digits reads back exactly when it has no more, and otherwise as the nearest multiple of the unit of its sixth digit, a tie going to the even one |
| DecimalText.ExponentExactly | native/fmi-proxies/ael_fmi_proxy.cpp:137-138 | a time is written with an exponent if and only if it is below 100 microseconds, but not zero, or from a million seconds on |
| FmiText.SplitLine | src/ael/fmi.py:274-276 | splitting a line of words gives the words back |
| FmiText.RequestSurvives | native/fmi-proxies/ael_fmi_proxy.cpp:137-149 | a printed step request is read back: component, both times to six digits, and exactly the values held under references of input and bidirectional ports, each once, into its port: every integer and boolean exactly, every real as printed |
| FmiText.HeldInputsArrive | src/ael/fmi.py:300-314 | what a request injects are the values held under references of input and bidirectional ports, reals before integers before booleans, references ascending, each once, and nothing for an output port |
| FmiText.RoutingIsExact | src/ael/fmi.py:277-296 | with ids free of dots and slashes a qualified instance name is routed to the one component it ends in, and any other to none |
| FmiText.ResolveExactly | src/ael/fmi.py:277-296 | for any ids and name: the component with that name, or else the only one that the name ends in after a dot or a slash, and none if there are several |
| FmiText.AssignmentExactly | src/ael/fmi.py:300-314 | what any assignment does: unreadable without an equals sign or a number before it, nothing for a port that takes no input, and otherwise the value of its letter's type or unreadable |
| FmiText.EchoesInjectNothing | src/ael/fmi.py:300-314 | values held under references of pure outputs, or of no port, never change what a request injects |
| FmiReply.ItemsDeliver | src/ael/fmi.py:315-327 | the items printed for well-typed outputs are all at least four characters and store every output under its own reference |
| FmiReply.ReplySurvives | native/fmi-proxies/ael_fmi_proxy.cpp:155-188 | a reply of at most 8191 bytes is read back: every reported output of an output or bidirectional port under its 1-based reference in the map of its type, as the same real text, integer or truth, and every other entry unchanged |
| FmiReply.LongRepliesAreCut | native/fmi-proxies/ael_fmi_proxy.cpp:155-161 | of a longer reply only the first 8191 characters are read |
| FmiReply.ReferencesExactly | native/fmi-proxies/ael_fmi_proxy.cpp:174-179 | a printed reference is read modulo 2^32 if it is below 2^64 in magnitude, and throws otherwise |
| FmiReply.ErrorsAreRefused | src/ael/fmi.py:229-236 | an error line is refused and leaves the values of the instance alone |
| FmiReply.OnlyOkIsTaken | native/fmi-proxies/ael_fmi_proxy.cpp:162-168 | a reply line that fits the buffer is refused exactly when its first word is not OK |
| FmiReply.SkippedExactly | native/fmi-proxies/ael_fmi_proxy.cpp:171-177 | an item is skipped exactly when it is shorter than four characters, starts with another letter, or has no equals sign |
| IntegerPorts.IntegerIsReadExactly | native/fmi-proxies/ael_fmi_proxy.cpp:182-186 | a 32-bit integer is read from a text if and only if the text starts with it, whatever follows |
| IntegerPorts.ArrivesExactly | native/fmi-proxies/ael_fmi_proxy.cpp:182-186 | a value reported on an integer port arrives as it is if and only if it is an integer of 32 bits |
| IntegerPorts.ThrowsExactly | native/fmi-proxies/ael_fmi_proxy.cpp:182-186 | of what prints as one word the proxy throws exactly on truth values, integers beyond 32 bits, and reals and texts that start with no 32-bit integer |
| IntegerPorts.ItemOfIntegerPort | native/fmi-proxies/ael_fmi_proxy.cpp:170-187 | an item of an integer port whose value is one word throws, or puts the 32-bit integer that the word starts with under its reference |
| IntegerPorts.ItemOfEmptyText | native/fmi-proxies/ael_fmi_proxy.cpp:171-179 | an item without a value is skipped for references of one digit and throws for all others |
| TextReplies.ReplyInWords | native/fmi-proxies/ael_fmi_proxy.cpp:162-188 | any reply that fits the buffer is read word by word, whatever its items are |
| TextReplies.ReplyThrowsExactly | native/fmi-proxies/ael_fmi_proxy.cpp:169-187 | the exchange ends in an exception if and only if some word of some item throws |
| TextReplies.TextIsReadExactly | native/fmi-proxies/ael_fmi_proxy.cpp:169-187 | of an item with any text the first word is skipped, throws or is stored under its reference, and every later word is an item of its own |
| TextReplies.OutputsThrowExactly | src/ael/fmi.py:315-327 | for any outputs whose reply fits the buffer the exchange throws if and only if, for some reported port, the first word of its text throws or a later one does |
| TextReplies.IntegerPortThrowsExactly | native/fmi-proxies/ael_fmi_proxy.cpp:169-187 | whatever an integer port reports, reading it throws if and only if its first word is looked at and starts with no 32-bit integer, or a later word throws |
| TextReplies.OneWordThrowsExactly | native/fmi-proxies/ael_fmi_proxy.cpp:169-187 | for what prints as one word that is the exception of its single item |
| TextReplies.HarmlessExactly | native/fmi-proxies/ael_fmi_proxy.cpp:169-187 | words change no value but that of one port, whatever is held, if and only if none stores elsewhere before one throws |
| TextReplies.TextChangesNoOtherExactly | native/fmi-proxies/ael_fmi_proxy.cpp:169-187 | a reported text changes no other reference, whatever is held, if and only if its first word throws or no other word stores elsewhere before one throws |
| TextReplies.TextChangesOther | native/fmi-proxies/ael_fmi_proxy.cpp:169-187 | the text 5 i2=7 on the port of reference 1 stores under references 1 and 2 |
| TextReplies.TextIsLost | native/fmi-proxies/ael_fmi_proxy.cpp:171-173 | a text that starts with a blank is neither stored nor refused |
| IntegerPorts.RealOnIntegerPort | native/fmi-proxies/ael_fmi_proxy.cpp:182-186 | of a printed real the digits before the first point or exponent letter are stored, or the proxy throws; it is the same number if and only if only zeros are behind the point and the exponent is zero, or the number is |
| IntegerPorts.ExponentsAreDropped | native/fmi-proxies/ael_fmi_proxy.cpp:182-186 | 1e-05 and 1e+20 are both stored as 1 |
| IntegerPorts.RealOnRealPort | native/fmi-proxies/ael_fmi_proxy.cpp:179-181 | on a real port every printed real, finite or not, is stored as printed, and a truth value throws |
| FmiEchoes.OutputsEchoNothing | src/ael/fmi.py:300-314 | after a reply for pure output ports the next request injects what it would have injected before |
| FmiEchoes.BidirectionalEchoes | src/ael/fmi.py:300-327 | what a bidirectional port of any type reported is injected into it again by the next request, a real as the proxy prints it then |
| FmiEchoes.NextRequestUnchangedExactly | src/ael/fmi.py:300-327 | a reply leaves what the next request injects unchanged if and only if for every reported bidirectional port the table already held the same integer, the same truth, or a real that prints the same |
| FmiBridge.BridgeServer.FindComponent | src/ael/fmi.py:277-296 | the loop finds the component with the name, or the only one the name ends in |
| FmiBridge.BridgeServer.InjectAll | src/ael/fmi.py:301-314 | assignments are injected in order up to the first that cannot be read or is refused; the earlier ones stay |
| FmiBridge.BridgeServer.ReportOutputs | src/ael/fmi.py:316-327 | the loop over ports prints one item per reported port, or raises on an unsupported type |
| FmiBridge.BridgeServer.Handle | src/ael/fmi.py:228-236 | a request line makes the calls of the exchange and is answered with its reply or an error line |
| FmiBridge.ExchangeExactly | src/ael/fmi.py:273-327 | for any request and backend: an unreadable request calls nothing; otherwise assignments are injected in order up to the first rejection or unreadable one, and the step is called, once and last, if and only if there was none; only then is anything reported |
| FmiBridge.RequestFormat | native/fmi-proxies/ael_fmi_proxy.cpp:137-149 | one request, character by character |
| FmiBridge.TextsOfEach | native/fmi-proxies/ael_fmi_proxy.cpp:139-147 | one value of each kind, as it is spelled in a request |
| FmiBridge.ReplyFormat | src/ael/fmi.py:315-327 | one reply, character by character |
| FmiBridge.PrintEntries | native/fmi-proxies/ael_fmi_proxy.cpp:139-147 | a map is printed in ascending order of its references |
| FmiBridge.SetValues | native/fmi-proxies/ael_fmi_proxy.cpp:191-200 | values are written one after the other |
| FmiBridge.LastWriteCounts | native/fmi-proxies/ael_fmi_proxy.cpp:191-200 | of several writes to a reference the last counts, and other references keep their value |
| FmiBridge.GetValues | native/fmi-proxies/ael_fmi_proxy.cpp:202-212 | each slot of the array gets the value of its reference, or the default; slots beyond the count keep theirs |
| FmiBridge.Proxy.Request | native/fmi-proxies/ael_fmi_proxy.cpp:137-149 | the instance prints everything it holds |
| FmiBridge.Proxy.Store | native/fmi-proxies/ael_fmi_proxy.cpp:170-187 | one item of a reply stores its value, is skipped, or throws without storing |
| FmiBridge.Proxy.TakeReply | native/fmi-proxies/ael_fmi_proxy.cpp:155-188 | the loop stores items up to the first that throws; a reply that is not OK stores nothing |
| FmiBridge.Proxy.DoStep | native/fmi-proxies/ael_fmi_proxy.cpp:271-278 | a step of no length is refused; otherwise both sides change as one exchange says, and the time advances only on success |
| FmiBridge.StepOverTheHop | src/ael/fmi.py:273-327 | one step across the hop with a well-behaved backend: for every value held under a reference of an input or bidirectional port one injection of it into that port, none for any other, and then one step; every output comes back under its reference with all else unchanged |
| FmiBridge.RunOverTheHop | src/ael/fmi.py:273-327 | the same in every round of a run of any length, with values set in between: the calls with their times, and all outputs |
| FmiBridge.FailureKeepsValues | native/fmi-proxies/ael_fmi_proxy.cpp:162-168 | a step that the bridge or its backend fails leaves the values of the instance alone |
| SolverCache.ReachableSound | src/ael/backend_workers/openems.py:22-97 | while steps do not overlap, all that is cached is what the solver says, is persisted, and was solved once |
| SolverCache.CacheIsTransparent | src/ael/backend_workers/openems.py:26-97 | over any sequence of starts, restarts, edits, injects and whole steps of workers sharing a workspace, a step answers with a fresh solve of its key, and fails exactly when that fails |
| SolverCache.SolvedAtMostOnce | src/ael/backend_workers/openems.py:44-97 | while steps do not overlap, the solver runs at most once for a key it can solve |
| SolverHistory.ModelIsLatest | src/ael/backend_workers/openems.py:22-31 | a worker is there exactly when it was started, and its model is the latest it was started with or edited to |
| SolverHistory.InputsAreLatest | src/ael/backend_workers/openems.py:22-31 | an input has a value exactly when an injection since the latest start gave it that value and no later one another |
| SolverHistory.StoredExactly | src/ael/backend_workers/openems.py:26-97 | a key has a record exactly when some step answered for it, and is in a worker's memory exactly when that worker did so itself since it started |
| SolverHistory.SourceExactly | src/ael/backend_workers/openems.py:26-97 | a step answers from memory, from a record or from the solver exactly as the steps before it say |
| SolverHistory.RunsExactly | src/ael/backend_workers/openems.py:33-79 | a step runs the solver exactly when its key cannot be solved or no step answered for it before |
| SolverRace.WholeStepsAreSteps | src/ael/backend_workers/openems.py:26-97 | look-up, solver, opening and writing with nothing in between are one step of the cache |
| SolverRace.BetweenSteps | src/ael/backend_workers/openems.py:22-31 | between steps a boot, an edit and an input are those of the cache; a busy process takes no edit and no input |
| SolverRace.ReachableConsistent | src/ael/backend_workers/openems.py:26-97 | over every interleaving, memory and finished records say what the solver says, and an idle process remembers recorded keys only |
| SolverRace.AnswersAreFresh | src/ael/backend_workers/openems.py:26-97 | over every interleaving an answer is a fresh solve of the process's model and inputs, a failed solve is one, and a look-up fails otherwise exactly on a half-written record of a key not in memory |
| SolverRace.OnDiskExactly | src/ael/backend_workers/openems.py:32-45 | a key has a record exactly when some process opened it |
| SolverRace.HalfWrittenExactly | src/ael/io.py:44-48 | a record is half-written exactly when it was opened and nobody finished writing it since |
| SolverRace.RecordsStay | src/ael/backend_workers/openems.py:44-45 | records are never removed |
| SolverRace.StartsExactly | src/ael/backend_workers/openems.py:33-79 | the solver is started exactly by look-ups, in idle processes, of keys whose record nobody opened before |
| SolverRace.SolvedTwiceExactly | src/ael/backend_workers/openems.py:33-96 | a solvable key is solved again exactly by a look-up between the start of a run and the first opening of the record; the first process is then still busy with it, or was restarted |
| SolverRace.RestartAbandons | src/ael/backend_workers/openems.py:95-97 | a restart while writing abandons the record exactly when no other process is busy with its key |
| SolverRace.AbandonedForever | src/ael/backend_workers/openems.py:44-45 | an abandoned record stays half-written for ever |
| SolverInputs.SameEnvironmentExactly | src/ael/backend_workers/openems.py:66-70 | two dictionaries give the solver the same if and only if for every variable the last entries that become it have the same text |
| SolverInputs.PlainKeysTellApart | src/ael/backend_workers/openems.py:29-31 | dictionaries with the same key give the solver the same when their names differ in upper case and the text of each value follows from its JSON |
| SolverInputs.PlainKeysDecide | src/ael/backend_workers/openems.py:29-70 | for such dictionaries the key decides what the solver says |
| SolverInputs.CacheSolverExistsExactly | src/ael/backend_workers/openems.py:29-70 | the solver of keys that the cache is proved for exists if and only if the key decides what the solver says of the dictionaries used |
| SolverInputs.SharedKeyAnswersExactly | src/ael/backend_workers/openems.py:33-43 | a step whose key was cached for another dictionary answers with a fresh solve if and only if the solver says the same of both |
| SolverInputs.OrderReachesSolver | src/ael/backend_workers/openems.py:29-70 | two names that differ in case, set in two orders, share a key and reach the solver differently |
| SolverCache.OpenEmsWorker.InjectInput | src/ael/backend_workers/base.py:101-105 | an injection sets one input of one worker |
| SolverCache.OpenEmsWorker.StepWorker | src/ael/backend_workers/openems.py:26-97 | a step in place is a look-up of the model, and what it hands out are two dictionaries of the caller's own |
| SolverCache.OpenEmsWorker.StepScribbleStep | src/ael/backend_workers/openems.py:33-43 | a caller that overwrites both dictionaries it got does not change the next answer |
| RegisterLayout.CountingFindsRepetition | src/ael/contracts.py:410-412 | counting distinct names finds a repetition, and only a repetition |
| RegisterLayout.ValidateFields | src/ael/contracts.py:420-430 | the fields pass if and only if they are uniquely named, inside the register and pairwise disjoint; otherwise the error names a problem that is there |
| RegisterLayout.ValidateRegisterLayout | src/ael/contracts.py:408-435 | the check passes if and only if names are unique, byte ranges disjoint and inside the peripheral, resets fit and fields are sound; otherwise the error names a problem that is there |
| RegisterLayout.SoundLayoutFits | src/ael/contracts.py:408-435 | in a sound layout register widths sum to at most the size, and field widths to at most their register's width |
| SystemRdl.ComposeIsSum | src/ael/modeling.py:60-77 | for valid disjoint fields, or-ing the shifted resets is adding them |
| SystemRdl.ComposeFits | src/ael/modeling.py:60-91 | the composed reset of sound fields fits the register |
| SystemRdl.ExtractsOwnReset | src/ael/modeling.py:60-77 | each field reads exactly its own reset out of the composed one, for any number and order of fields |
| SystemRdl.ImportNode | src/ael/modeling.py:60-91 | a register is imported exactly when its fields lie in 64 bits with resets that fit and its width is 8, 16, 32, 64 or left open, which means 32; the bits of its reset are those of its fields, each at its place |
| SystemRdl.ImportSystemRdl | src/ael/modeling.py:46-94 | the import succeeds exactly on good nodes that make up a sound layout, with one such register for each node and the smallest size of at least four bytes that all end within; otherwise the first bad node, or the layout, decides the error |
| SystemRdl.ImportNeverFailsSizeOrReset | src/ael/modeling.py:92-94 | of an import the layout check can only fault names, overlaps and fields that leave their register |
| Lifecycle.PackagesFollowTrails | src/ael/modeling.py:431-548 | in every run a package's state, evidence and signature are what its moves since the last generate make of them, each allowed and authorised |
| Lifecycle.TrailByRank | src/ael/modeling.py:26-34 | a package that is not deprecated has made one move per rank, and never more than five |
| Lifecycle.ProductionHasFullTrail | src/ael/modeling.py:431-548 | a production-approved package made exactly one move to each of statically validated, conformance, hardware and production, in order, the static one in either of its two ways, conformance checked, the last two by a human with evidence, and carries the signature given |
| Lifecycle.CheckedMovesHadEvidence | src/ael/modeling.py:450-505 | a checked conformance move was made by a conformance validation whose files all exist, whose reports are all about the model, with one file outside the package and one report that passed all eight checks |
| Lifecycle.PublicMoveExactly | src/ael/modeling.py:514-548 | the public transition moves a package if and only if the move is one of five, deprecation from any other state among them, and what it asks for is given; and what the package is then |
| Lifecycle.RefusalsExactly | src/ael/modeling.py:514-548 | which error a refused move raises, each if and only if |
| Lifecycle.StaticMoveExactly | src/ael/modeling.py:431-548 | a move to statically validated is made by static validation exactly when its checks pass, by the public transition exactly when the package is generated and its evidence exists, and in no other way |
| Lifecycle.StaticWithoutChecks | src/ael/modeling.py:514-548 | the public transition moves any generated package, whatever its description and its sources are like |
| Lifecycle.StaticMovesOnTrails | src/ael/modeling.py:431-548 | in every run the operation behind a static move had its checks pass if it was static validation, and otherwise was a public transition that asked for no more than a generated package and existing evidence |
| Lifecycle.ProductionWithoutStaticChecks | src/ael/modeling.py:431-548 | a run approves a package for production without any static check, with any accepted conformance evidence |
| Lifecycle.NoHumanNoHardware | src/ael/modeling.py:528-532 | without human approval no package passes conformance, except into deprecation |
| Lifecycle.EvidenceIsAppendOnly | src/ael/modeling.py:539-545 | between generates evidence and trail only grow |
| Lifecycle.SelfReportLoophole | src/ael/modeling.py:458-498 | a model can be validated by a report of its own package exactly when there is a usable passing one, and some other usable file outside |
| ModelRegistry.Registry.GenerateModel | src/ael/modeling.py:377-413 | generating starts a package over, whatever was stored under its id |
| ModelRegistry.Registry.MoveTo | src/ael/modeling.py:514-548 | a transition moves and saves the package, or is refused for the first reason that applies and saves nothing |
| ModelRegistry.Registry.TransitionModel | src/ael/modeling.py:514-548 | the public transition never counts as conformance-checked; it answers with the stored package or the refusal |
| ModelRegistry.Registry.ValidateStatically | src/ael/modeling.py:431-448 | static validation makes the model's static move exactly when its checks pass, and raises the error of the first that does not |
| ModelRegistry.Registry.ValidateConformance | src/ael/modeling.py:450-505 | the pass over the evidence makes the conformance move exactly when the evidence is accepted; a missing file is reported exactly when everything before it is usable |

## Left out

- Event and artifact contents of the evidence recorder, file hashing and snapshot files: only the order of the calls is modelled; a failed artifact check is one flag of a step's result.
- The wall clock and the cancel event of a run: one unknown answer per tick.
- Component ids with dots: a signal is a component and a port, already split.
- SQL: one atomic step per transaction, integer times, no row locks; a lease therefore never skips a row that another transaction holds, and timestamps compare as numbers.
- Token generation: leases draw fresh tokens wherever a theorem says so.
- HTTP, TLS, user identity and the worker's outer loop that registers and leases.
- Error texts and artifact hashes in a worker's result: no branch reads them.
- SolverCache.CacheIsTransparent: assumes that equal hashes come from equal keys, that the solver is deterministic, and that the key decides what it says (SolverInputs has the condition); records survive their round trip through JSON; steps do not overlap.
- SolverInputs.PlainKeysTellApart: upper case is that of ASCII letters, and the other variables of the process are the same for all steps.
- SolverRace.AnswersAreFresh: assumes that nobody edits a model file while a step is solving it, that the text of a record follows the opening of its file in one write, and that an unfinished record cannot be parsed.
- SchedulerWholeRuns.RunsAgreeExactly: excludes runs whose microsecond loop meets a cancellation or timeout between two ticks, and timeline items for components that do not exist.
- SchedulerLogs.StatusExactly: assumes that timeline items and connections name components that exist, and so does SchedulerLogs.SalvageExactly; a run that names another raises there without a call.
- Topology.ValidateTopology: the call stack is unbounded here; in the source an acyclic chain of about a thousand feedthrough components exceeds the recursion limit and raises too.
- Real numbers on the hop: outside FmiEchoes their printed text is carried as it is, so their formatting, rounding and range errors are not modelled; `float` and `std::stod` accept every text that starts like a number.
- DecimalText.TimeSurvives: times are exact decimals, so the binary rounding of a double is not modelled; a tie in the sixth digit goes to the even neighbour.
- FmiText.RequestSurvives: characters stand for bytes, and integers are read in the spelling they are printed in (an optional sign and decimal digits), not with underscores or surrounding blanks.
- FmiReply.ReplySurvives: one read returns the whole reply or its first 8191 bytes; short reads of a stream are not modelled.
- FmiBridge.Proxy.DoStep: an exception that leaves the proxy is an outcome of its own; what the master does with it, sockets, null pointers, string values and saved states are not modelled.
- Warnings, the event-driven and non-rollback sets of the co-simulation schedule, and SSP packaging.
- Register access modes, the other parts of the hardware behaviour document, the SVD import, and the text of generated C#.
- Lifecycle.PackagesFollowTrails: a package enters a run by being generated; resolving paths and reading files are answers of the workspace, one for each call.
- Ring indices outside 0 to 7, which the firmware never produces; an eight-bit register is eight bits.
- Plug-ins, the desktop application, laboratory instruments and release scripts: input and output, or single checks.
