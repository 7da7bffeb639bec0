# Verified model of the homepi monitor

A daemon (`homepi-node`) collects provider metrics and pushes them to a kiosk display; operators send
the display commands through a persisted queue. This project models the parts of both programs where a
mistake would be hard to see, and proves what the rest of the system relies on.

Each component is a class whose methods change their fields step by step, as the Go code does. The
contract of such a method equates the new state with a function of the old one, and the theorems are
lemmas about those functions and about every run of them. The `Outcomes` modules and `ProtocolRules` say
what the operations answer and leave behind without naming the functions that compute it. Where several
processes or goroutines act at once, a state machine interleaves their steps.

## How the files fit together

| files | what they hold |
|---|---|
| `Protocol`, `ProtocolRules` | commands and results, and which of them pass validation |
| `CommandBus`, `BusRuns`, `BusOutcomes`, `BusPrivacy`, `BusFailures` | the daemon's queue, what holds over every run of it, what its operations answer, what it keeps of a finished command, and the runs that part its memory from its file |
| `ResultStore`, `RemoteControl`, `DisplayRuns`, `DisplayOutcomes` | the display's ledger, its command controller, the display process with crashes at any step, and what it answers |
| `CommandStream`, `CommandProtocol`, `HealthyPath` | one connection between the two, the whole protocol over a channel that loses, repeats and reorders, and the runs on which nothing goes wrong |
| `CurrentState`, `StateRuns`, `StateOutcomes` | the daemon's current metrics, what holds over every sequence of updates, and what each of them answers |
| `Scheduler`, `CollectOutcomes` | one collection, any interleaving of collections, and what a collection leaves behind |
| `Snapshots`, `Mirror` | the published snapshot, and the display's copy of it over a stream that breaks and resumes |
| `ConfigTx`, `Drafts`, `DraftOutcomes`, `AppliedConfig` | the configuration transaction with faults in every external call, the draft it applies, what an edit leaves in it, and what an applied draft gives the scheduler |
| `Rotation`, `Router`, `Pagination` | page rotation, the page router, and pages of cards |
| `Decimal`, `DisplayEnvironment` | exact decimals, and the display's environment file |
| `Text`, `Arithmetic`, `MapLoops`, `Wrappers` | the few library functions and facts the others need |

Times are whole nanoseconds. Clock readings, fresh UUIDs, and the outcome of every write or external
call are parameters, so a theorem holds for all of them. A state file is one value that a write either
replaces or leaves alone. A loop over a Go map visits the keys in any order.

## What turned out to be false

* A valid command is not always accepted by the display: one whose request left the parameters out,
  such as `{"kind":"next_page"}`, goes out with `null` for them, which the display refuses at any time
  (`PublishedCommandValid`, `NextPageWithoutParams`). Such commands, and no others among those the
  daemon takes, can never be executed (`ExecutableIffParams`).
* A critical page does not always freeze the base page and its remaining dwell, although the comment at
  `internal/ui/pages.go:145-146` says so: `Router.SetRotation` can lift the pause, replace what remains,
  or end in a cut of it (`CriticalPauseKept` says exactly when, `CriticalPauseCanBeLost` shows a run).
* A failing bus operation does not always leave memory as it was: an eviction for a command that gets
  no UUID stays, and so does an expiry found while looking up an unknown command
  (`FailureChangesNothing` and `RecoverableStep` are equivalences with exactly these cases, and
  `EvictionGetsLost` and `ExpiryGetsUnsaved` reach them from the empty file).
* `String` followed by `Parse` does not return the smallest 64-bit value, nor a scale above nine
  (`StringRoundTrip`). No decimal that `Parse` produced is affected (`ParsedRoundTrips`).
* A whole rotation brings the router back only if no more than the page's own dwell was left
  (`AdvanceWholeCycle`).
* A connector failure with an unsafe message makes the published snapshot invalid when it annotates
  nodes or services, which the store does not validate (`ErrorPublishable`, and
  `UnsafeFailurePublished` for such a state).
* A batch that arrives late can add a metric that was never seen before, and does so exactly for the
  IDs without a guard (`LateBatch`); the scheduler's lock prevents it (`AcceptedBatchIsExact`).
* A candidate secret can get the reference of the secret in use, without any reference set by hand: a
  provider whose secret was rotated once is deleted and added again in one draft
  (`DeletedAndAddedAgain`; `SessionTakesBase` and `CandidateTakesBase` say exactly when). If that secret
  is in the store, `Apply` refuses, and changes nothing unless the deletion of another candidate fails
  while it rolls back.
* A rollback deletes the candidate secrets although the file could not be restored. The new
  configuration is left without a secret of its own exactly if `Stranded` holds of the input of `Apply`
  (`ConfigTx.Service.Apply`; `StrandFirstConfig` is such a run).

## Model

| member | source | states |
|---|---|---|
| `Protocol.ValidateRequest` | internal/protocol/remote.go:202-217 | a request has no error code if and only if it has a known kind with that kind's priority, valid parameters, and a lifetime of 5 to 300 seconds |
| `ProtocolRules.RequestTable` | internal/protocol/remote.go:202-217 | the answer to any request: the first of kind, priority, lifetime and parameters that does not pass names its code |
| `ProtocolRules.CommandTable` | internal/protocol/remote.go:219-252 | the answer to any command on the display, check by check, with the clock before the parameters |
| `ProtocolRules.ParamsAllowed` | internal/protocol/remote.go:262-315 | which parameters each kind of command may have, and for which kinds they may be missing |
| `ProtocolRules.CommandIdShape` | internal/protocol/remote.go:378-391 | a command ID is a version 4 UUID of the standard variant, in lower case |
| `ProtocolRules.ResultRefused` | internal/protocol/remote.go:182-198 | a result is refused exactly for a bad ID, number, status, time, duration or code |
| `Protocol.PublishedCommandValid` | internal/protocol/remote.go:219-269 | as the display receives it, a command made from a valid request is refused for its clock, from the future beyond 30 seconds or expired, or else exactly if the request left its parameters out |
| `Protocol.AbsentAllowed` | internal/protocol/remote.go:262-265 | a request may leave its parameters out exactly where an empty object would do |
| `Protocol.NextPageWithoutParams` | internal/protocol/remote.go:262-269 | the request for the next page without parameters: valid, and refused by the display at any time |
| `Protocol.ValidPageParses` | internal/protocol/remote.go:337-343 | a page name that passes validation is one the router can parse |
| `CommandBus.Bus.constructor` | internal/commandbus/bus.go:44-82 | a bus starts with the persisted queue, or an empty one, in memory and file alike; missing parameters come back as `null` |
| `CommandBus.Bus.Publish` | internal/commandbus/bus.go:84-124 | numbering, eviction for room, trimming, and restore on a failed write, down to the exact state after each error; only a stored command wakes the device |
| `CommandBus.Bus.Pending` | internal/commandbus/bus.go:126-145 | expires, hands out the device's commands not yet sent on this connection, and undoes the expiry if it cannot be stored |
| `CommandBus.Bus.Record` | internal/commandbus/bus.go:147-187 | the first matching entry takes a result or refuses it, loses its parameters once it is final, and reports a first acceptance |
| `CommandBus.Bus.Get` | internal/commandbus/bus.go:189-206 | an expiry found on the way is stored only if the command exists |
| `CommandBus.Bus.Subscribe` | internal/commandbus/bus.go:208-217 | a second subscriber of a device joins the first |
| `CommandBus.Bus.CountPending` | internal/commandbus/bus.go:219-227 | the number of entries that are not final |
| `CommandBus.Bus.DropOldestNormal` | internal/commandbus/bus.go:229-243 | fails the first published entry of normal priority, if there is one |
| `CommandBus.Bus.ExpireAll` | internal/commandbus/bus.go:245-270 | every entry past its time, and only these, becomes expired or failed, and says so |
| `CommandBus.Bus.TrimFinals` | internal/commandbus/bus.go:272-293 | removes final entries from the front of the queue until 256 are left |
| `BusRuns.EvictOldest` | internal/commandbus/bus.go:229-243 | an eviction hits the oldest published normal-priority entry, changes no other, and makes exactly one place |
| `BusRuns.TrimKeepsNewestFinals` | internal/commandbus/bus.go:272-293 | trimming keeps every pending entry and the last 256 final ones by place in the queue, in order |
| `BusRuns.StepProgress` | internal/commandbus/bus.go:84-293 | within a process every surviving entry has come from itself without falling in rank, a final one unchanged, and what is written is the memory |
| `BusRuns.QueueBounded` | internal/commandbus/bus.go:44-145 | from an empty file, over every run with failed writes and restarts: ascending sequences below the counter, distinct IDs, at most 64 pending and 320 in all, so a bus never takes its own file for a corrupt one |
| `BusRuns.FirstAcceptedOnce` | internal/commandbus/bus.go:162-184 | over every run, restarts included, a command is reported as first accepted at most once |
| `BusRuns.ProcessProgress` | internal/commandbus/bus.go:147-187 | over every run of one process no command falls back in rank, final results stay as they are, and no trimmed command returns |
| `BusRuns.PendingIsLive` | internal/commandbus/bus.go:126-145 | what is handed out is ascending, and is exactly the device's unsent commands that are neither final nor past their time |
| `BusRuns.FailureChangesNothing` | internal/commandbus/bus.go:84-206 | a failing operation leaves memory and file exactly as before, if and only if it is neither an eviction without a UUID nor a lookup of an unknown command that expired something |
| `BusRuns.RecoverableStep` | internal/commandbus/bus.go:84-206 | a step keeps memory and file equivalent for any later clock reading if and only if it is not an eviction without a UUID |
| `BusRuns.CrashRecovery` | internal/commandbus/bus.go:245-270 | in every reachable state, expiring the file and expiring the memory at the same later time give the same entries, statuses and codes |
| `BusRuns.RestartAgrees` | internal/commandbus/bus.go:63-78 | over every such run, what a restarted process reads has at any later time the same commands, statuses and codes as the memory that was lost |
| `BusOutcomes.PublishAnswer` | internal/commandbus/bus.go:84-124 | a request is queued if and only if it is valid, there is room or an entry that can go, it gets an ID and the queue can be written; otherwise the first of these that fails is the error |
| `BusOutcomes.PublishedBehind` | internal/commandbus/bus.go:92-118 | a queued command comes after all that is pending, and only with 64 pending ones the first evictable one makes room |
| `BusOutcomes.RecordAnswer` | internal/commandbus/bus.go:147-187 | a result is recorded if and only if device, number and status fit, the command still waits and the queue can be written; a final command keeps the result it has |
| `BusOutcomes.RecordUnknown` | internal/commandbus/bus.go:151-187 | a result for an unknown command is refused and changes nothing |
| `BusOutcomes.NothingOverdue` | internal/commandbus/bus.go:245-270 | after a look at the queue nothing in it is past its time or accepted for five minutes, and everything else is as it was |
| `BusOutcomes.GetAnswer` | internal/commandbus/bus.go:189-206 | a lookup finds a command if and only if it is in the queue |
| `BusPrivacy.FinalEntriesKeepNoText` | internal/commandbus/bus.go:340-354 | over every run, in memory and file: every entry is a published command, as published while it is pending; a final one keeps the length, severity and duration of a message, never its text, and nothing of any other command |
| `BusFailures.EvictionGetsLost` | internal/commandbus/bus.go:92-98 | a run from the empty file after which a command that gets no UUID costs one of 64 pending ones |
| `BusFailures.ExpiryGetsUnsaved` | internal/commandbus/bus.go:193-205 | a run from the empty file after which a lookup of an unknown command leaves an expiry in memory alone |
| `ResultStore.Store.Open` | internal/remotecontrol/store.go:41-93 | opening fails exactly the executions that were cut short, and keeps waiting refreshes |
| `ResultStore.Store.Lookup` | internal/remotecontrol/store.go:95-104 | the first record with the ID, or none |
| `ResultStore.Store.Accept` | internal/remotecontrol/store.go:106-136 | known commands are returned, late ones rejected, new ones raise the high-water mark; memory keeps the record even if the write fails |
| `ResultStore.Store.Reject` | internal/remotecontrol/store.go:138-156 | a rejection is recorded without touching the high-water mark |
| `ResultStore.Store.Complete` | internal/remotecontrol/store.go:158-181 | an accepted record becomes final once, and a final one is returned unchanged |
| `ResultStore.Store.Refreshes` | internal/remotecontrol/store.go:183-193 | the accepted records that wait for a newer snapshot, in order |
| `ResultStore.Store.AppendRecord` | internal/remotecontrol/store.go:195-200 | the newest 256 records stay |
| `DisplayOutcomes.RestartFailsCutShort` | internal/remotecontrol/store.go:61-76 | a restart fails exactly the accepted records that wait for no snapshot, keeps every other one, and does not start if it must write and cannot |
| `DisplayOutcomes.InterruptedIsReported` | internal/remotecontrol/store.go:61-76 | a command whose execution was cut short by a crash is reported as interrupted and not started again |
| `DisplayOutcomes.StepKeepsOneEach` | internal/remotecontrol/store.go:106-200 | over crashes at any step a ledger never holds two records of one command |
| `DisplayOutcomes.AcceptAnswer` | internal/remotecontrol/store.go:106-136 | what is recorded of a new command, in order or late, with the snapshot it saw, in memory and, if that can be written, in the file |
| `DisplayOutcomes.CompleteAnswer` | internal/remotecontrol/store.go:158-181 | a final record is answered unchanged, any other gets its end and its duration, and the caller learns of it only if it is stored |
| `RemoteControl.Controller.Handle` | internal/remotecontrol/controller.go:73-153 | lookup, validation, target check, acceptance, effect, completion and replies, with every branch and failure |
| `RemoteControl.Controller.Act` | internal/remotecontrol/controller.go:112-138 | each kind of command changes the router or the notice, with its default duration if it gives none; what is then shown is stated by the lemmas from `PageShownUntilExpiry` on |
| `RemoteControl.Controller.Perform` | internal/remotecontrol/controller.go:107-145 | the effect with its verdict: a missing brightness device and a failing one are told apart |
| `RemoteControl.Controller.SnapshotApplied` | internal/remotecontrol/controller.go:155-177 | waiting refreshes whose baseline the snapshot has passed are completed, in order, each with its own write |
| `RemoteControl.Controller.CurrentNotice` | internal/remotecontrol/controller.go:179-190 | the notice is shown with its remaining time until it expires, and then forgotten |
| `RemoteControl.StartedOnlyIfNew` | internal/remotecontrol/controller.go:73-106 | a command starts to act if and only if it is unknown, valid, addressed to the display, in order, stored as accepted and not a refresh |
| `RemoteControl.ActsAreLogged` | internal/remotecontrol/controller.go:107-145 | a call of Handle changes the user interface only together with the record of having performed this command |
| `RemoteControl.ReportIsStored` | internal/remotecontrol/controller.go:145-152 | a command that acted is reported with its verdict if and only if the verdict was stored; otherwise the daemon is told that it failed |
| `RemoteControl.PageShownUntilExpiry` | internal/remotecontrol/controller.go:112-119 | a page command is obeyed: unless a critical page intervenes, its page is shown at every moment up to its expiry, and after that the page the rotation had reached |
| `RemoteControl.StepShownUntilExpiry` | internal/remotecontrol/controller.go:120-125 | next_page shows up to its expiry the page right after the one shown remotely or reached by the rotation, previous_page the one right before it, in cyclic order, and then the page the rotation had reached |
| `RemoteControl.MessageShownUntilExpiry` | internal/remotecontrol/controller.go:130-136 | a message is shown with its text, its severity and the time it has left, up to its expiry, and leaves the pages alone |
| `RemoteControl.RotationObeyed` | internal/remotecontrol/controller.go:126-129 | up to the end of a rotation command the page shown is the one that was up, if it stops the rotation, or the one reached with its interval for every page, or with the configured dwells |
| `RemoteControl.RotationWaits` | internal/remotecontrol/controller.go:126-129 | with a remote page up, that page stays to its end and the rotation stays where it was |
| `RemoteControl.RotationResumes` | internal/remotecontrol/controller.go:126-129 | after the end of the command the rotation runs with the configured dwells |
| `RemoteControl.OtherPartStays` | internal/remotecontrol/controller.go:112-138 | only a message changes the notice, and neither a message nor a brightness change touches the pages |
| `DisplayOutcomes.HandleAnswers` | internal/remotecontrol/controller.go:73-153 | which results any command gets: the first answer again, a rejection with its code, a failure for now, an acceptance, or an acceptance and the end with its times |
| `DisplayOutcomes.SnapshotAnswers` | internal/remotecontrol/controller.go:155-177 | an applied snapshot completes exactly the refreshes that wait for a newer one than they had seen |
| `DisplayRuns.StepKeeps` | internal/remotecontrol/store.go:106-136 | whatever the display does next, with crashes between any two steps: effects stay in order below the stored high-water mark, and every executed record and reply is justified by what happened |
| `DisplayRuns.HistoryGrows` | internal/remotecontrol/controller.go:73-177 | no step takes back an effect |
| `DisplayRuns.HandleIsRun` | internal/remotecontrol/controller.go:73-153 | a call of Handle that nothing interrupts is a run of the interruptible steps, with the same display and the same replies |
| `DisplayRuns.OpenJustified` | internal/remotecontrol/store.go:61-76 | recovery claims no execution that did not happen |
| `CommandStream.Connection.PumpCommands` | internal/nodeapi/stream.go:126-144 | one turn sends what is pending and not yet sent on this connection, in order, up to the first failing write, as the display will read it |
| `CommandStream.Connection.Drain` | internal/nodeapi/stream.go:157-190 | a result in order is recorded, and asks for a collection of exactly the connectors it names when it is the first acceptance of a refresh command |
| `CommandStream.SentOncePerConnection` | internal/nodeapi/stream.go:100-145 | a connection sends no command twice, and every live command that it has not sent yet |
| `CommandProtocol.EntryOrigin` | internal/commandbus/bus.go:84-206 | after any bus step every entry is the one just published or comes from an earlier one, and its result changed only for a reason: it was answered, was past its time, or made room |
| `CommandProtocol.BusStepInv` | internal/commandbus/bus.go:84-206 | every step of the daemon keeps the invariant of the whole protocol |
| `CommandProtocol.DisplayStepInv` | internal/remotecontrol/controller.go:73-177 | every step of the display keeps it |
| `CommandProtocol.AtMostOnce` | internal/remotecontrol/store.go:106-136 | over every run with re-sends, duplicates, reordering, lost replies, failed writes, crashes, restarts and trimmed ledgers, a command acts on the display at most once, and effects are in strictly increasing sequence |
| `CommandProtocol.OnlyPublishedActs` | internal/nodeapi/stream.go:126-144 | what acts on the display was published for it, just as it was published, and with parameters |
| `CommandProtocol.ExecutedIsDone` | internal/remotecontrol/controller.go:107-177 | whenever the bus says executed, in memory or file, the display did act on that command, or, for a refresh, applied a snapshot newer than the baseline recorded on acceptance; so no command published without parameters ever becomes executed |
| `CommandProtocol.CollectedOnce` | internal/nodeapi/stream.go:172-187 | a refresh command triggers at most one collection, restarts of the daemon included |
| `HealthyPath.PublishedGetsExecuted` | internal/remotecontrol/controller.go:73-177 | the protocol's runs get somewhere: every valid request with parameters, refreshes and brightness changes included, has an allowed run after which the bus holds its command, alone, as executed, and a refresh has made the daemon collect once |
| `HealthyPath.AbsentGetsRefused` | internal/protocol/remote.go:262-269 | the same run without parameters ends with the command rejected as `invalid_param` |
| `HealthyPath.ExecutableIffParams` | internal/protocol/remote.go:262-269 | of the requests the daemon takes, exactly those with parameters can ever be executed, over all runs of the protocol |
| `CurrentState.Current.ApplyMetrics` | internal/state/current.go:248-298 | a valid batch removes, stores and counts as specified, under the guard of each metric ID; an invalid one changes nothing |
| `CurrentState.Current.ApplyConnectorMetrics` | internal/state/current.go:240-246 | the same for a connector, which must be named |
| `CurrentState.Current.ApplyConnectorError` | internal/state/current.go:303-358 | annotates exactly what the connector owns and does not yet say so; a message that metrics may not carry changes nothing at all |
| `CurrentState.Current.ApplyConnectorHomeLab` | internal/state/current.go:96-179 | checks a report in the order of the code and then replaces the connector's nodes and services by it |
| `CurrentState.Current.CheckReport` | internal/state/current.go:97-149 | the reason a report is refused, if it is |
| `CurrentState.Current.ApplyHealth` | internal/state/current.go:361-370 | a valid health record replaces the connector's |
| `CurrentState.CheckedMetrics` | internal/state/current.go:250-259 | a batch passes if and only if its metrics are valid and their IDs distinct |
| `CurrentState.CheckedNodes` | internal/state/current.go:104-114 | the same for reported nodes |
| `CurrentState.CheckedServices` | internal/state/current.go:115-124 | the same for reported services |
| `StateRuns.BatchAt` | internal/state/current.go:263-293 | for each metric ID what a batch does to its value, owner and guard: stored if newer, removed with a tombstone if outdated and absent, otherwise untouched |
| `StateRuns.HomeLabExact` | internal/state/current.go:96-179 | a report is taken completely or not at all: the connector then owns exactly the reported entities, each stored just as reported, except that a node reported offline keeps of its five values those last known that the report does not give; others keep theirs with their owners, and the limits of 100 and 32 hold |
| `StateRuns.StepValid` | internal/state/current.go:248-370 | every operation keeps stored metrics valid and owners matched, so an annotation fails before its first write |
| `StateRuns.StepVersion` | internal/state/current.go:294-297 | an operation that changes anything raises the version by one, and any other changes nothing |
| `StateRuns.VersionIdentifiesContent` | internal/nodeapi/server.go:270-279 | over every run the version never falls, and the same version means the same metrics, health, nodes and services |
| `StateRuns.OfflineKeepsValues` | internal/state/current.go:158-166 | a value once known does not disappear while the node keeps being reported offline, whatever else happens |
| `StateRuns.NodeStaysValid` | internal/state/current.go:181-197 | valid nodes merged with valid reports are valid |
| `StateRuns.ErrorPublishable` | internal/state/current.go:330-353 | a failure keeps the state publishable if and only if its message is safe or it annotates no node and no service |
| `StateRuns.UnsafeFailurePublished` | internal/state/current.go:330-353 | a reported node whose connector fails with an unsafe message makes a publishable state unpublishable |
| `StateRuns.StepPublishable` | internal/state/current.go:96-179 | every other operation keeps it publishable |
| `StateOutcomes.BatchAnswer` | internal/state/current.go:248-298 | a batch is taken if and only if it has a connector and valid metrics with distinct IDs, and the answer is the number of those not seen before with the same or a larger number |
| `StateOutcomes.FailureRefused` | internal/state/current.go:303-329 | when a failure is refused, with which error, and that nothing changes then |
| `StateOutcomes.FailureMarks` | internal/state/current.go:314-358 | otherwise its class and message are on everything the connector owns, and nothing else changes |
| `StateOutcomes.FailureCounts` | internal/state/current.go:314-358 | the answer is the number of entities that the failure is news to, and the version rises just if there is one |
| `StateOutcomes.VersionMeansNews` | internal/state/current.go:294-297 | a batch or a failure without news does not even raise the version |
| `StateOutcomes.HealthAnswer` | internal/state/current.go:361-370 | a valid record takes the place of the connector's last one, an invalid one is refused |
| `StateOutcomes.HealthIsLast` | internal/state/current.go:361-370 | over every run a connector's health is its last valid record |
| `StateOutcomes.ReportAnswer` | internal/state/current.go:96-149 | a report is taken if and only if it has a connector, is valid without repeats, fits the limits alone and with the others, and claims nothing that others own |
| `Snapshots.MakeSnapshot` | internal/state/current.go:377-432 | the snapshot lists each entity of the state once, by order and ID |
| `Snapshots.ListedInOrder` | internal/state/current.go:377-432 | entries ascend by their order and, where that is the same, by their IDs |
| `Snapshots.SortedValues` | internal/state/current.go:381-391 | the values of a map come out sorted, whatever order the keys come in |
| `Snapshots.SortedUnique` | internal/state/current.go:372-376 | two sorted listings of the same entities are the same sequence |
| `Snapshots.SnapshotUnique` | internal/state/current.go:372-376 | a snapshot is determined by the state |
| `Snapshots.SameVersionSameSnapshot` | internal/nodeapi/server.go:270-279 | two snapshots of one daemon with the same version are identical, so epoch and version make an entity tag |
| `Snapshots.ValidIffPublishable` | internal/protocol/validate.go:80-141 | the display takes a snapshot of a valid state as valid if and only if epoch and source can serve as IDs, and its nodes and services are valid |
| `Scheduler.Collector.CollectOnce` | internal/scheduler/scheduler.go:264-348 | one collection with every failure: what it does to the store, its number, and its outcome |
| `Scheduler.Collector.NextSeq` | internal/scheduler/scheduler.go:370-375 | numbers are drawn one after the other |
| `CollectOutcomes.CollectAnswer` | internal/scheduler/scheduler.go:264-348 | the outcome of a collection: success exactly if metrics and report are taken, and otherwise the class and message of the failure |
| `CollectOutcomes.FailureOnlyMarks` | internal/scheduler/scheduler.go:265-296 | a failed collection, or one whose metrics are refused, does nothing but annotate what the connector owns |
| `CollectOutcomes.SuccessStoresAll` | internal/scheduler/scheduler.go:279-314 | a successful one stores the batch, every valid health record, and the report |
| `Scheduler.AcceptedBatchIsExact` | internal/scheduler/scheduler.go:251-255 | under the lock and with each metric at home with one connector, an accepted batch is exactly what the connector then owns, the rest is buried, and no other ID changes |
| `Scheduler.LastBatchStays` | internal/scheduler/scheduler.go:279-314 | in every interleaving of collections and failures each connector owns the metrics of its last accepted batch with the values they had |
| `Scheduler.CollectionIsRun` | internal/scheduler/scheduler.go:264-348 | what the code of one collection does is a run of the steps that are interleaved |
| `Scheduler.LateBatch` | internal/state/current.go:263-297 | without the lock, a batch older than what is stored inserts exactly those of its metrics that have no guard, and touches nothing else |
| `Scheduler.LateBatchIgnored` | internal/state/current.go:263-297 | such a batch has no effect on the readings if and only if all of its IDs were seen before |
| `Scheduler.LateBatchInserts` | internal/state/current.go:283-293 | a run of two collections in which the late one adds an ID |
| `Scheduler.SelectTasks` | internal/scheduler/scheduler.go:180-213 | a refresh without names takes every enabled connector; one with names takes the first connector of each name and fails if one is disabled, unknown, or none is left |
| `Scheduler.SelectsOneEach` | internal/scheduler/scheduler.go:180-213 | a named connector is collected once, through the first task that stands for it |
| `Mirror.Pump.constructor` | internal/nodeapi/stream.go:92-98 | a connection resumes at the display's version only within the same epoch |
| `Mirror.Pump.Turn` | internal/nodeapi/stream.go:116-124 | a turn sends if there is data and nothing was sent yet or the version has advanced |
| `Mirror.Client.Hello` | internal/syncclient/client.go:331-348 | the display announces the epoch and version it holds |
| `Mirror.Client.ApplySnapshot` | internal/syncclient/client.go:352-383 | only a valid snapshot of the bound node that supersedes the held one replaces it, whether or not it can be saved |
| `Mirror.StepKeeps` | internal/nodeapi/stream.go:87-155 | every step of daemon, stream and display keeps the mirror invariant |
| `Mirror.ShownWasTrue` | internal/syncclient/client.go:352-383 | what the display shows is always a state the daemon was in, under the epoch and version it had then |
| `Mirror.TurnSends` | internal/nodeapi/stream.go:116-124 | after a turn with data the current snapshot is the one sent last |
| `Mirror.DrainedIsCurrent` | internal/protocol/validate.go:239-254 | once the stream is drained the display shows the current state, also after a resume whose first snapshot is dropped as not newer |
| `Mirror.MirrorConverges` | internal/nodeapi/stream.go:92-124 | the same from every reachable state, over restarts of both sides |
| `Mirror.NoDataNothingSent` | internal/nodeapi/stream.go:117-117 | without data nothing is sent and the display keeps what it has |
| `Mirror.NothingSentTwice` | internal/nodeapi/stream.go:116-124 | over every run of one connection the versions on their way only rise, so no snapshot is sent twice |
| `Mirror.HeldDoesNotFall` | internal/protocol/validate.go:239-254 | within an epoch the display never goes back to an older snapshot, and it takes a valid one of its node under another epoch whatever its version |
| `ConfigTx.RevisionIdentifies` | internal/configtx/configtx.go:157-172 | equal revisions mean equal files, except that a missing file looks like one spelling out its stand-in |
| `ConfigTx.CollectRefs` | internal/configtx/apply.go:484-500 | exactly the non-empty references of providers and devices |
| `ConfigTx.Service.OpenDraft` | internal/configtx/configtx.go:136-149 | a draft starts from what is on disk and remembers its revision |
| `ConfigTx.Service.Check` | internal/configtx/apply.go:95-143 | the reasons for which Apply refuses before its first write, in order |
| `ConfigTx.Service.CommitSecrets` | internal/configtx/apply.go:148-176 | candidates never overwrite an existing secret, and every intermediate state keeps the secrets of the configuration on disk |
| `ConfigTx.Service.StoreCandidates` | internal/configtx/apply.go:148-176 | either all candidates are stored, or the transaction is over with the file and the running service as they were |
| `ConfigTx.Service.Rollback` | internal/configtx/apply.go:286-362 | a clean rollback restores file and secrets exactly; candidates go even if the file could not be restored; it is clean if and only if the restore, the restart on the old file and every deletion worked, and the restart is tried only if the restore worked |
| `ConfigTx.Service.PruneOrphans` | internal/configtx/apply.go:456-480 | only references of the previous configuration that neither the new one nor the draft nor the caller keeps are deleted, all of them unless a deletion fails |
| `ConfigTx.OrphansAre` | internal/configtx/apply.go:456-500 | what may be pruned: references that only the previous configuration uses and that neither the draft nor the caller keeps |
| `ConfigTx.Service.Apply` | internal/configtx/apply.go:83-269 | a compare-and-swap that is all or nothing: it writes only if the file has the revision the draft was opened on, every clean failure before finalising restores file and secrets and leaves the service running on what it ran or on the restored file, success leaves exactly the merged secrets without the orphans and the service on the new configuration if a restart was asked for, candidates that cannot be stored leave the file alone, and the secrets of the configuration on disk are there at every moment while the old file can be restored, and at the end if and only if the input is not `Stranded` |
| `ConfigTx.StuckSound` | internal/configtx/apply.go:288-347 | a new file that cannot be taken back keeps its secrets if and only if it uses no candidate whose deletion took effect |
| `ConfigTx.StrandFirstConfig` | internal/configtx/apply.go:288-347 | a run of Apply after which the file refers to a secret that is gone |
| `ConfigTx.Service.ApplyTwice` | internal/configtx/apply.go:288-347 | after a clean failure the same draft applies once nothing goes wrong |
| `ConfigTx.PruningSound` | internal/configtx/apply.go:227-250 | while pruning, the configuration on disk never misses a secret |
| `Drafts.NextVersionedDiffers` | internal/configtx/draft.go:684-712 | the next version of a reference differs from it if and only if it is one into the keyring, where it stays |
| `Drafts.CheckShadows` | internal/configtx/draft.go:515-538 | finds the first provider whose metric IDs cannot be told or were emitted before |
| `Drafts.ShadowError` | internal/configtx/draft.go:515-538 | the check passes if and only if the metric IDs of all enabled providers are known and pairwise distinct |
| `DraftOutcomes.ShadowsAre` | internal/configtx/draft.go:515-538 | the check passes if and only if the metrics of every enabled provider of a known type can be told, without repeats, and no two of them share one |
| `Drafts.MetricsHaveHomes` | internal/configtx/draft.go:515-538 | in a configuration that passes every metric ID belongs to one provider, which the scheduler relies on |
| `Drafts.Draft.EditProvider` | internal/configtx/draft.go:145-264 | a refused edit leaves the draft exactly as it was; an accepted one stages what it says |
| `Drafts.Draft.StageSecret` | internal/configtx/draft.go:212-247 | dropping, replacing and versioning a provider's secret reference |
| `Drafts.Draft.DeleteProvider` | internal/configtx/draft.go:269-284 | a deletion stays in the draft even if it leaves an invalid configuration |
| `Drafts.EditResult` | internal/configtx/draft.go:145-264 | an accepted edit leaves a valid configuration without shadowed metrics, changes no other provider, and asks for a new test |
| `DraftOutcomes.EditSetsFields` | internal/configtx/draft.go:145-264 | an accepted edit sets exactly the fields it gives, with the defaults for empty ones, and a type only on a new provider |
| `DraftOutcomes.EditRespectsRegistry` | internal/configtx/draft.go:145-264 | what an accepted edit may ask for: known types, allowed regions, secrets within the limit, and not dropping and replacing a secret at once |
| `DraftOutcomes.CandidateVersion` | internal/configtx/draft.go:218-243 | which version of its reference a candidate secret gets: the first for a new provider, the one after that on disk, the same again within a draft |
| `DraftOutcomes.VersionsCount` | internal/configtx/draft.go:684-712 | versions count up by one from 1 or, for a secret that had none, from 2 |
| `DraftOutcomes.DeleteAnswer` | internal/configtx/draft.go:269-284 | a deletion takes out the provider, its candidates and its test, and nothing else |
| `DraftOutcomes.CandidatesGone` | internal/configtx/overlay.go:106-136 | a dropped or deleted provider leaves none of its generated candidates, and no other provider's is touched |
| `DraftOutcomes.TestAnswer` | internal/configtx/draft.go:286-370 | what a passed, failed or unstarted test leaves remembered, and that it changes nothing else |
| `Drafts.CandidateStaged` | internal/configtx/draft.go:221-247 | a candidate secret is staged under the reference the provider then has, next to the other candidates |
| `Drafts.CandidateCollides` | internal/configtx/draft.go:229-238 | for any current reference, when the reference chosen for a candidate is the one on disk |
| `Drafts.CandidateTakesBase` | internal/configtx/draft.go:218-243 | in any draft, exactly when an edit that sets no reference by hand puts its candidate in the place of the secret in use |
| `Drafts.SessionTakesBase` | internal/configtx/draft.go:145-284 | over every session of edits, deletions, drops and tests without references set by hand: exactly if nothing is staged and the generated name leads to the reference on disk, or that reference is not one into the keyring |
| `Drafts.CandidateSparesSecret` | internal/configtx/draft.go:229-232 | over every such session the secret in use is spared as long as a reference into the keyring is staged |
| `Drafts.DeletedAndAddedAgain` | internal/configtx/draft.go:222-238 | a provider with a once-rotated secret, deleted and added again, gets its candidate under the reference in use |
| `Drafts.Draft.TestProvider` | internal/configtx/draft.go:286-370 | a passed test is remembered with a fingerprint of the provider and its candidate secret, a failed one forgets the last, and one that never started changes nothing |
| `Drafts.Draft.ValidateRequiredTests` | internal/configtx/draft.go:419-440 | passes if and only if every enabled provider that is new or has a new secret reference was tested as it now stands |
| `Drafts.TestRequired` | internal/configtx/draft.go:419-440 | a test is required exactly for enabled providers that are not on disk with the same ID and the same secret |
| `Drafts.AppliedAsTested` | internal/configtx/draft.go:442-458 | over every session of edits, deletions and tests: a provider that needs a test and passes the check did pass one with exactly its present settings and candidate secret |
| `AppliedConfig.ApplyDraft` | internal/configtx/apply.go:113-125 | a shadowed or untested draft is refused without a write, and what is applied is free of shadowed metrics and stands its required tests |
| `AppliedConfig.AppliedKeepsBatches` | internal/configtx/draft.go:515-538 | under a configuration without shadowed metrics each connector owns exactly its last accepted batch, however the collections interleave and fail |
| `Rotation.ParseRotationConfig` | internal/ui/pages.go:54-97 | both texts are parsed part by part, with the same refusals |
| `Rotation.Strings` | internal/ui/pages.go:99-107 | the texts of a configuration |
| `Rotation.ParsedConfigValid` | internal/ui/pages.go:54-97 | what the parser produces has the five pages in some order, each with a dwell of 5 to 300 whole seconds |
| `Rotation.PaddedPage` | internal/ui/pages.go:31-39 | a page is named in upper or lower case, with space around the name or not |
| `Rotation.PaddedEntry` | internal/ui/pages.go:73-97 | a dwell is read with space around page and number, and only from 5 to 300 seconds |
| `Rotation.RotationRoundTrip` | internal/ui/pages.go:99-107 | every such configuration is read back from its texts |
| `Rotation.ParsedRotationRoundTrips` | internal/ui/pages.go:54-107 | every parsed configuration is read back from its texts |
| `RouterModel.Router.constructor` | internal/ui/pages.go:130-143 | a router starts on the coding page with its full dwell |
| `RouterModel.Router.Update` | internal/ui/pages.go:147-185 | catching up, ending overrides, and choosing what is shown |
| `RouterModel.Router.ShowPage` | internal/ui/pages.go:226-232 | freezes the rotation where it stands and shows the page |
| `RouterModel.Router.ShowStep` | internal/ui/pages.go:242-258 | the same for the page next to the shown remote page, or to the base page |
| `RouterModel.Router.SetRotation` | internal/ui/pages.go:260-275 | starts a rotation override |
| `RouterModel.Router.AdvanceBy` | internal/ui/pages.go:285-296 | the loop advances the rotation by the elapsed time, page by page |
| `RouterModel.Router.Position` | internal/ui/pages.go:196-206 | the place of the shown page |
| `RouterModel.AdvanceAdds` | internal/ui/pages.go:285-296 | advancing by a and then by b is advancing by a + b |
| `RouterModel.AdvanceWholeCycle` | internal/ui/pages.go:285-303 | a whole rotation is the identity if and only if no more than the page's own dwell was left |
| `RouterModel.TickRateIrrelevant` | internal/ui/pages.go:147-160 | however often the display ticks, the state depends only on the last tick |
| `RouterModel.ShownPriority` | internal/ui/pages.go:166-184 | critical pages win over a live remote page, which wins over the rotation |
| `RouterModel.FrozenRun` | internal/ui/pages.go:277-283 | a paused router keeps its base page until it is released, through any updates and commands |
| `RouterModel.CommandFreezes` | internal/ui/pages.go:226-258 | from a page command up to its release the base page and its remaining dwell are those of the command, the dwell at most clamped by an override that ends |
| `RouterModel.OverrideObeyed` | internal/ui/pages.go:260-303 | which page is up at any time before an override ends: none moves, each lasts just the interval, or each its own dwell |
| `RouterModel.OverrideWaits` | internal/ui/pages.go:260-275 | under a remote page an override leaves the base page where it is, and rules from the time the remote page goes |
| `RouterModel.OverrideEnds` | internal/ui/pages.go:161-168 | the first update at or after its end lifts it, from the page that is up then and with its dwell cut to the configured one |
| `RouterModel.StepBack` | internal/ui/pages.go:242-258 | a step forward and a step back end where they started |
| `RouterModel.CriticalPauseKept` | internal/ui/pages.go:145-185 | after SetRotation under a critical page, the base page and its remaining dwell stay where they were through every run of critical updates up to a time if and only if the arguments allow no advance, no new dwell and no cut by then |
| `RouterModel.CriticalPauseCanBeLost` | internal/ui/pages.go:271-274 | a run in which the base page moves on although a critical page is up all the time |
| `Pagination.PackCards` | internal/ui/render.go:343-353 | the loop starts a page whenever the next card does not fit |
| `Pagination.QuotaLines` | internal/ui/render.go:566-611 | the lines of a card: as many as its height counts, the action or the detail last, the usage of the month between |
| `Pagination.CodingWindow` | internal/ui/render.go:343-365 | the page of the current time as the schedule gives it, which fits the ten rows |
| `Pagination.PackIsMinimal` | internal/ui/render.go:343-353 | no contiguous split within the budget uses fewer pages |
| `Pagination.CodingPages` | internal/ui/render.go:343-365 | the pages together are exactly the cards, in order |
| `Pagination.PageOfBucketIsModulo` | internal/ui/render.go:354-359 | the page index is the bucket modulo the pages, also before 1970 |
| `Pagination.PageSchedule` | internal/ui/render.go:354-359 | over seconds: page after page, each for exactly the dwell, from the first page at the epoch on; a dwell outside 5 to 300 counts as 15 |
| `Pagination.PageScheduleBeforeEpoch` | internal/ui/render.go:354-359 | before 1970 the same backwards, with the first page up for a dwell on either side of the epoch |
| `Pagination.NextPageAfterDwell` | internal/ui/render.go:354-359 | one dwell later the cyclically next page is up |
| `Pagination.EveryPageOnce` | internal/ui/render.go:354-359 | any run of as many dwells as pages shows every page exactly once |
| `Pagination.Window` | internal/ui/render.go:447-463 | the page of fixed size as the schedule gives it, or the first one while something is critical |
| `Pagination.CalmWindow` | internal/ui/render.go:431-463 | while nothing is critical every item takes its turn in order |
| `Pagination.AlarmWindow` | internal/ui/render.go:431-463 | otherwise the first page holds the critical items, all of them if they fit, and none is lost |
| `Decimal.Parse` | internal/decimal/decimal.go:38-82 | sign, digits, point, and every refusal |
| `Decimal.ParseReads` | internal/decimal/decimal.go:38-82 | every text of digits with a sign or a point is read as the number it writes, with the digits behind the point as the scale, unless it does not fit |
| `Decimal.String` | internal/decimal/decimal.go:94-113 | the text of a decimal, with the wrap-around of negating the smallest value |
| `Decimal.Sub` | internal/decimal/decimal.go:133-151 | the difference at the larger scale, or an overflow |
| `Decimal.StringRoundTrip` | internal/decimal/decimal.go:94-113 | a decimal is read back from its text if and only if it is not the smallest value and its scale is at most nine |
| `Decimal.ParsedRoundTrips` | internal/decimal/decimal.go:38-113 | what Parse produced is read back from its text |
| `Decimal.CmpOrdersValues` | internal/decimal/decimal.go:128-129 | comparison orders decimals of any two scales by value |
| `Decimal.SubIsExact` | internal/decimal/decimal.go:133-151 | subtraction is exact at the larger scale and fails exactly when no 64-bit value is the difference |
| `Decimal.PercentOfIsNearest` | internal/decimal/decimal.go:200-213 | the percentage is the nearest integer, halves away from zero, and missing exactly when the limit is not positive or it leaves 64 bits |
| `Decimal.PercentOfMonotone` | internal/decimal/decimal.go:200-213 | more of the same limit is never a smaller percentage |
| `Decimal.PercentOfInRange` | internal/decimal/decimal.go:200-213 | a share between nothing and the limit is a percentage from 0 to 100 |
| `DisplayEnvironment.Render` | internal/displayconfig/environment.go:104-115 | a valid environment is written line by line in a fixed order, an invalid one not at all |
| `DisplayEnvironment.RenderAnswer` | internal/displayconfig/environment.go:61-100 | an environment can be written if and only if all nine keys have clean values, the names are names, the data directory is the only one allowed, and the rotation and the other checks pass |
| `DisplayEnvironment.Parse` | internal/displayconfig/environment.go:142-182 | lines are read under the size limit with the same refusals, defaults and final validation |
| `DisplayEnvironment.SkippedLine` | internal/displayconfig/environment.go:145-149 | a comment or an empty line anywhere changes nothing |
| `DisplayEnvironment.CarriageReturn` | internal/displayconfig/environment.go:145-149 | nor does a carriage return at the end of a line |
| `DisplayEnvironment.SetOnce` | internal/displayconfig/environment.go:150-161 | in a file that is read no key is set twice, and each that is set has the value of its line |
| `DisplayEnvironment.ParsedIsFit` | internal/displayconfig/environment.go:61-100 | and the same holds of whatever is read |
| `DisplayEnvironment.OnlyTheBeginning` | internal/displayconfig/environment.go:142-148 | of a longer text the first 64 KiB are read, and nothing if they are one line |
| `DisplayEnvironment.RenderedLines` | internal/displayconfig/environment.go:142-148 | what is written stays below the limit of 64 KiB and is read line by line |
| `DisplayEnvironment.RenderParse` | internal/displayconfig/environment.go:101-115 | every valid environment is read back with its defaults filled in |
| `DisplayEnvironment.ParsedRenders` | internal/displayconfig/environment.go:141-182 | whatever is read can be written and then reads the same |

## Left out

- File system, network, TLS, WebSocket framing, keyrings, service managers, logging, the web interface and the command line: external to the logic modelled here.
- Corrupt state files and their quarantine, and power loss: the code gives up its sequence numbers there on purpose.
- JSON and SHA-256: a value stands for its encoding, and a digest for what it digests. Only a missing parameter field changes on the way, to `null`. The digest of a redacted message text is not kept.
- 64-bit limits of sequence numbers, versions and durations: counters are unbounded, and no duration saturates.
- Text is ASCII; Unicode white space and case folding are not modelled.
- Deep copies: values cannot share memory in the model, so the clone functions have nothing to do.
- The field checks of metrics, nodes, services and health records that the store never looks at: one flag per entity says whether they pass. The freshness budget that the scheduler writes into them is part of it.
- The device identifier in a ledger record, which nothing reads.
- Retry delays, heartbeats, read deadlines, token revocation and the semaphore of the scheduler: they decide when a step happens, and the steps here may happen at any time.
- What a provider test collects and reports, and the diff of a draft: a test passes, fails, or does not start.
- The error with which `Refresh` joins the failures of its collections: each collection is a step of its own here.
- Writers of the configuration file other than the service, between its check and its replacement: the code has no lock against them.
- ConfigTx.Service.Apply: does not model the step log and the audit summary, because they record what the outcome already says.
- Scheduler.Collector.CollectOnce: does not model waiting for a slot and the timeout of a collection, because a collection that times out is one that fails.
- Mirror.Pump.Turn: does not model the heartbeat, because it carries no state.
- Rendering of pages beyond their row budget, colours and badges: presentation only.
