# Verified kernels of the Loom runtime

A Dafny model of the stateful kernels of the Loom multi-agent runtime, and proofs of what they promise. Run
`dafny verify dfyconfig.toml` to check the whole project.

| file | kernel |
|---|---|
| `Strings.dfy`, `Numbers.dfy` | strings as UTF-16 units, the few built-ins the other files use, and the numbers the remote protocol counts with |
| `StdinBuffer.dfy`, `KeySequences.dfy` | the streaming terminal-input parser, and the shapes of the keys it reads |
| `PlanValidation.dfy`, `Planner.dfy`, `PlanHistory.dfy`, `Orchestrator.dfy` | plan validation, verified execution, what its histories promise, and all of it composed |
| `RemoteStore.dfy`, `RemoteHandlers.dfy`, `StateStore.dfy` | leases, fencing tokens and the inbound event log |
| `RemoteStatus.dfy`, `RemoteDeadlines.dfy` | what messages do to assignments and leases, what deadlines promise, and which assignments are recovered |
| `Outbox.dfy` | the durable ledger of outbound messages and its acknowledgements |
| `Topology.dfy`, `Sessions.dfy`, `Admission.dfy`, `RemoteFabric.dfy` | routes, connection epochs, which messages are admitted, and the controller |
| `Leases.dfy`, `Journal.dfy` | the in-memory lease manager and the in-memory sequence journal |
| `Address.dfy` | the canonical `loom://kind/id` codec |
| `AnsiScanner.dfy`, `AnsiStyle.dfy`, `SgrMeaning.dfy` | escape scanning, the SGR and hyperlink tracker, and what each SGR code means |
| `Segments.dfy`, `Composite.dfy` | splitting a line around an overlay, and laying the overlay over it |
| `Columns.dfy`, `Seams.dfy`, `LineWidth.dfy` | visible width and column slicing, what joined texts and expanded tabs show, how wide a cut line is |
| `Truncate.dfy`, `CutText.dfy`, `TruncateStyle.dfy` | truncation, how wide its results are and in which style they show |
| `Fullscreen.dfy` | the fullscreen viewport and its row-diff painter |
| `Schedule.dfy` | schedules and the jobs they materialise |

## How the model is built

Objects that change in place are classes whose methods are proved against functions on values; the theorems are lemmas
about those functions, over all inputs or over all runs of steps. SQL tables are maps, one transaction or one
synchronous handler is one step, fresh uuids are parameters or counters, and every reading of a clock is a parameter of
its own, so no property assumes that clocks agree or move forward. Executors, reviewers, the worker router, the
grapheme segmenter, display widths and line decoration are parameters and may behave in any way their stated law
allows. Fields named `log`, `issued`, `highest`, `retired`, `bound`, `handed`, `emitted` and `history` record history
for stating properties; no operation reads them to decide anything.

## What the code does not promise

Some natural claims fail for the code as it stands. Each has a lemma with the input, and a condition under which the
claim holds.

- Chunking of terminal input shows when a paste marker follows an unfinished escape sequence:
  `StdinBuffer.ChunkIndependence` gives the exact condition, `StdinBuffer.MarkerAfterEscape` an input that breaks it.
- A finished assignment can be leased again if the process dies between storing its status and releasing its lease:
  `RemoteHandlers.FinalIffUnleased` and `RemoteHandlers.CrashBeforeRelease`.
- An assignment that its worker has accepted but not started is lost when its lease runs out: the sweep expires dispatched
  and running ones only. `RemoteDeadlines.RecoverableExactlyWhen` gives the exact condition.
- An attachment is stored before the registry is asked, so a worker id without canonical address, or a blank connection
  id, leaves a transport without its route: `Sessions.RoutesAndEpochsAgree` gives the exact condition,
  `Sessions.RefusedAttachmentsDisagree` and `Sessions.RefusedConnections` the failing attachments.
- The address codec prints ids it refuses to read: `Address.ParseOfFormat` and `Address.LongerIdsMayFail`.
- A truncated text can come out narrower than asked for, even with padding. A control string that the kept text leaves
  open swallows the inserted reset and the ellipsis up to a BEL or ST in it: `CutText.ResultShowsItsParts` gives the exact
  condition, `CutText.OpenStringSwallows` the failing family. And visible width expands tabs before it takes out the codes,
  so a tab between `ESC [` and a final byte makes a code that truncation counted as text: `Seams.TabsAndCodesCommute` gives
  the exact condition, `CutText.TabSwallows` the failing family. Where neither happens, `CutText.TruncationFits` holds.
- A truncated text does not close a hyperlink that the cut leaves open, so it goes on over the ellipsis and beyond:
  `TruncateStyle.LeavesBlankExactlyWhen`.
- An overlay is pushed to the right by a wide grapheme across its left edge, and one across either edge may shift the rest
  of the line: `Composite.OverlayStandsExactlyWhen`, `Composite.RestStaysExactlyWhen` and `Composite.FillsExactlyWhen`.
- The painter cuts over-wide lines by a column count in which a tab is no column wide, while visible width counts three,
  so a cut line with tabs can still run over the edge: `Fullscreen.PaintResult` says exactly when a paint shears,
  `Fullscreen.FitsExactlyWhen` which lines fit, `Fullscreen.LinesWithoutTabsFit` that lines without tabs always do, and
  `Fullscreen.TabsShear` is the failing family. The interface expands tabs before it paints
  (packages/tui/src/tui.ts:1306).
- A terminal resized away and back between two paints is not repainted: `Fullscreen.SurvivesDisturbanceExactlyWhen` and
  `Fullscreen.ResizedAwayAndBack`.
- A schedule whose next time is zero stalls: `Schedule.PollAdvancesUnlessZero`. Two daemons that overlap can skip an
  occurrence: `Schedule.NoneSkippedExactlyWhen` gives the exact condition, `Schedule.TakeoverMaySkip` a failing run.

## Model

| member | source | states |
|---|---|---|
| StdinBuffer.FactorIsTheMinimalSplit | packages/tui/src/stdin-buffer.ts:192-232 | the factorisation is the only way to write the buffer as minimal complete sequences followed by an unfinished remainder |
| StdinBuffer.FactorConcat | packages/tui/src/stdin-buffer.ts:192-232 | factoring a + b is factoring a, then its remainder followed by b: complete sequences are never revised by later input |
| StdinBuffer.RemainderIsStuck | packages/tui/src/stdin-buffer.ts:192-232 | a remainder alone completes nothing |
| StdinBuffer.ExtractCompleteSequences | packages/tui/src/stdin-buffer.ts:192-232 | the position/end loop computes the factorisation |
| StdinBuffer.ChunkingIsInvisible | packages/tui/src/stdin-buffer.ts:264-375 | from any state, when the markers stand alone, every split into non-empty chunks gives the events and the final state of one read |
| StdinBuffer.VisibleCut | packages/tui/src/stdin-buffer.ts:306-332 | where a marker does not stand alone there is a cut in two that a listener can tell from one read |
| StdinBuffer.ChunkIndependence | packages/tui/src/stdin-buffer.ts:264-375 | a stream is read alike under every chunking if and only if every paste marker in it stands alone |
| StdinBuffer.MarkerAfterEscape | packages/tui/src/stdin-buffer.ts:315-322 | an escape character before a paste marker is a stream on which chunking shows |
| StdinBuffer.CleanStreamsAreReadAsWritten | packages/tui/src/stdin-buffer.ts:264-375 | streams of marker-free text that factors completely and bracketed pastes are read, under every chunking, as exactly those data and paste events |
| StdinBuffer.InputBuffer.Process | packages/tui/src/stdin-buffer.ts:264-364 | one chunk changes buffer, paste mode, paste buffer and pending key, and emits events, as the specification of one read says |
| StdinBuffer.InputBuffer.ClosePaste | packages/tui/src/stdin-buffer.ts:284-304 | an arriving end marker closes the paste and hands the rest on |
| StdinBuffer.InputBuffer.Flush | packages/tui/src/stdin-buffer.ts:377-391 | a flush hands out the unfinished remainder and leaves a fresh parser |
| KeySequences.AtomExactlyWhen | packages/tui/src/stdin-buffer.ts:29-181 | the minimal complete sequences are exactly the keys, by shape: CSI up to its first final byte, old and SGR mouse reports, OSC up to its first BEL or ST, DCS and APC up to their first ST, SS3 and one unit, ESC and one unit |
| KeySequences.WaitingExactlyWhen | packages/tui/src/stdin-buffer.ts:29-181 | what is left unread is empty, or begins with ESC and has no key at its front |
| KeySequences.SplitIntoKeys | packages/tui/src/stdin-buffer.ts:192-232 | every buffer is cut into keys, single units and a waiting remainder, in one way only |
| KeySequences.KeyIsReadAtOnce | packages/tui/src/stdin-buffer.ts:264-364 | on a fresh parser each key is emitted by the read that completes it, and nothing stays behind |
| KeySequences.KittyExactlyWhen | packages/tui/src/stdin-buffer.ts:183-189 | the sequences taken for unmodified printable keys are exactly `ESC [ code u` with a printable code, and alternates or modifiers that say nothing else |
| KeySequences.AllButEchoesAreEmitted | packages/tui/src/stdin-buffer.ts:366-375 | every sequence is emitted, in order, except a single unit that repeats the key reported just before it |
| PlanValidation.Search.Walk | packages/adaptive/src/index.ts:27-27 | the three-colour search reports only walks that run back into themselves, finishes every node it can reach if it reports none, and returns a depth some real dependency chain attains |
| PlanValidation.RanksFallAlongWalks | packages/adaptive/src/index.ts:27-27 | along every walk the finishing order strictly falls |
| PlanValidation.OrderedIsAcyclic | packages/adaptive/src/index.ts:26-28 | a graph with a topological order has no cycle |
| PlanValidation.LassoIsCycle | packages/adaptive/src/index.ts:27-27 | a reported path proves that the graph has a cycle |
| PlanValidation.ValidatePlan | packages/adaptive/src/index.ts:21-30 | an error is reported iff what it says is wrong with the plan; `cycles` is empty iff the dependency graph is acyclic, each reported path is a walk whose last node occurs earlier, `valid` holds iff all rules do, and then there is a topological order; the depth never exceeds the longest chain |
| PlanValidation.NothingWarrantedExactlyWhen | packages/adaptive/src/index.ts:21-30 | no error is warranted iff the plan meets every rule |
| Planner.PromotionKeeps | packages/planner/src/index.ts:27-36 | promotion keeps the graph, the ranks and the work measure |
| Planner.PromotedExactlyWhen | packages/planner/src/index.ts:27-36 | a pending task turns ready iff every dependency names a completed task and none a failed or blocked one, and blocked iff one does; nothing else changes |
| Planner.PendingLeadsToReady | packages/planner/src/index.ts:27-36 | below every pending task of a ranked plan with no stalled task there is a ready one |
| Planner.NothingReadyMeansAllDone | packages/planner/src/index.ts:47-69 | the loop never ends stuck: when nothing is runnable and nothing stalled, everything is completed |
| Planner.AnswerLowersWeight | packages/planner/src/index.ts:56-61 | an executor or reviewer answer strictly lowers U + 2R, even one that reopens a completed dependency, unless it ends the plan, and then U + 2R stays; retry counts stay within bounds |
| Planner.CallKeepsGoing | packages/planner/src/index.ts:49-61 | a call leaves the rest of the batch ready, the graph unchanged and no task stalled unless the plan ends |
| Planner.AnsweredActs | packages/planner/src/index.ts:71-97 | what each answer leaves behind: success completes the task; an exception retries it, fails it, blocks it or waits for approval as its policy says; a rejection sends the last dependency back while it has retries left |
| Planner.Runtime.Runnable | packages/planner/src/index.ts:27-36 | a pending task turns ready iff all its dependencies are completed and none is failed or blocked, and blocked iff one is; the ready ones are returned in order |
| Planner.Runtime.Attempt | packages/planner/src/index.ts:56-61 | one call to executor or reviewer, and exactly what its answer asks for |
| Planner.Runtime.RunBatch | packages/planner/src/index.ts:49-61 | a pass over the runnable tasks either ends the plan because of a named task or lowers the measure |
| Planner.Runtime.Run | packages/planner/src/index.ts:43-69 | `run` ends for every behaviour of executor and reviewer within U + 2R calls, completed with all tasks completed, or ended by a named task; it never exits with runnable work missing; its passes and attempts form a legal history from the first table to the last, in which nothing is tried that its last pass did not leave ready; `executed` counts the attempts that ended without an exception |
| Planner.Runtime.Resume | packages/planner/src/index.ts:104-115 | resuming readies exactly the tasks whose approval was granted and fails those denied; a denial fails the plan without a call, and otherwise it is run from there as above; with all approvals granted the plan ends |
| PlanHistory.DependenciesSucceedFirst | packages/planner/src/index.ts:27-69 | in every run of an unstarted plan, whatever the answers, no task is attempted before an earlier attempt has completed each of its dependencies |
| Orchestrator.TaskIdInjective | packages/adaptive/src/index.ts:79-79 | stored task ids of one plan are distinct |
| Orchestrator.MappedExactly | packages/adaptive/src/index.ts:80-80 | a stored task depends on exactly the stored tasks of its proposed dependencies |
| Orchestrator.AcceptedPlansCanRun | packages/adaptive/src/index.ts:79-80 | a validated proposal becomes tasks the scheduler can run to the end, with at most five calls for each |
| Orchestrator.FallbackIsOrdered | packages/adaptive/src/index.ts:15-19 | the fallback plan is a chain: each of its three tasks depends on exactly the one before |
| Orchestrator.PlanAndRun | packages/adaptive/src/index.ts:73-84 | the proposal's tasks are run iff it meets the validation rules, else the fallback's; no task is attempted before its dependencies have been completed; no plan deadlocks: it is completed, waiting iff a named task needs approval, or failed because of a named task, within five calls for each task |
| RemoteStore.StepKeepsInv | packages/state/src/index.ts:79-87 | every transaction keeps leases, log, stored events, ordinals and cursors consistent |
| RemoteStore.FencingOverRuns | packages/state/src/index.ts:82-87 | over every run each assignment has at most one active lease, the one it names, with its largest token; along its log tokens never fall |
| RemoteStore.SupersededNeverWrites | packages/state/src/index.ts:70-70 | no run appends an event under a superseded lease |
| RemoteStore.AcceptUnderNewestLease | packages/state/src/index.ts:70-70 | an admitted event carries the newest token of its own assignment |
| RemoteStore.NextOrdinal | packages/state/src/index.ts:70-70 | the largest stored ordinal is the number of events stored |
| RemoteStore.RedeliveryChangesNothing | packages/state/src/index.ts:70-70 | redelivering a taken message at any later point changes nothing and returns its original acknowledgement while its lease is live |
| RemoteStore.IntakeIsExactlyOnce | packages/state/src/index.ts:70-70 | ordinals of an assignment are 1..n, every message is stored once, sequences under one assignment, lease and connection are contiguous |
| RemoteHandlers.FinalStaysFinal | packages/remote/src/index.ts:99-105 | finished and unleased, an assignment keeps its status, its log and gets no lease under every later handler |
| RemoteHandlers.FinishedMeansFinal | packages/remote/src/index.ts:99-105 | in every run of whole handlers, finished means final |
| RemoteHandlers.FinalIffUnleased | packages/state/src/index.ts:82-87 | a finished assignment can never reopen if and only if it has no active lease left |
| RemoteHandlers.CrashBeforeRelease | packages/remote/src/index.ts:100-100 | a crash between the status and the release of a result leaves an assignment that some run reopens |
| RemoteHandlers.HandlersSettle | packages/remote/src/index.ts:99-105 | whole handlers never leave a finished assignment with an active lease |
| RemoteStatus.ReceiveActs | packages/remote/src/index.ts:100-100 | a taken message acts on its own assignment and lease only: accepted, running, completed, cancelled or failed as it says; a result or error releases the lease, a renewal moves its deadline; a refused one changes nothing |
| RemoteStatus.ReceiveLogs | packages/state/src/index.ts:70-70 | a message taken for the first time is logged under its assignment, lease and connection, and nothing else ever is |
| RemoteStatus.StatusTellsLastWord | packages/remote/src/index.ts:99-105 | after every run of handlers the status tells the last event: completed iff it was a taken result that was not cancelled, failed iff an error, accepted, running, dispatched and expired likewise, cancelled iff a cancellation or a cancelled result |
| RemoteStatus.CompletedMeansReported | packages/remote/src/index.ts:100-100 | a completed assignment has a taken result that was not cancelled, and nothing after it said otherwise |
| RemoteDeadlines.TakenBeforeDeadline | packages/state/src/index.ts:70-70 | a message is taken only before the deadline of its active lease |
| RemoteDeadlines.GrantLastsExactly | packages/state/src/index.ts:82-82 | a lease granted at `now` for `ttl` admits its worker's next event exactly before `now + ttl`, through any run that does not renew it, while it is active |
| RemoteDeadlines.RenewalLastsExactly | packages/state/src/index.ts:83-83 | so does a lease renewed at `now` for `ttl` |
| RemoteDeadlines.DeadlineStands | packages/state/src/index.ts:82-87 | in every run only a renewal of the lease itself moves its deadline |
| RemoteDeadlines.TakenExactlyWhen | packages/state/src/index.ts:70-70 | under a live lease a message is acknowledged as a duplicate iff it repeats the logged one with its id, taken iff it is new and the next of its key, a conflict iff its id is logged and it repeats nothing, and stale or early iff it is new and its number is not the next |
| RemoteDeadlines.WrittenInTime | packages/state/src/index.ts:70-70 | over every run each stored event was taken strictly before the deadline its lease had at that moment |
| RemoteDeadlines.SweepExactly | packages/state/src/index.ts:87-87 | a sweep leaves active exactly the leases not yet due, and expires exactly the dispatched and running assignments whose lease it ended |
| RemoteDeadlines.NamedAnewExactlyByGrants | packages/state/src/index.ts:82-82 | an assignment changes its lease only by a grant while nobody works on it, and its worker only once it has expired |
| RemoteDeadlines.LeasedAgainExactlyWhen | packages/remote/src/index.ts:99-105 | an assignment without a lease can be leased again by some run iff it is assigned or expired |
| RemoteDeadlines.RecoverableExactlyWhen | packages/remote/src/index.ts:101-101 | whatever ran before, an assignment whose lease the sweep ends can be leased again iff it was dispatched or running; one accepted but not started never is |
| Outbox.RunKeepsInv | packages/state/src/index.ts:88-95 | every run of the outbound ledger keeps its numbers and its window, and only grows |
| Outbox.ReplayIsTheWindow | packages/state/src/index.ts:89-89 | a recorded message is replayed, in rising order, iff it lies above the highest accepted acknowledgement and was not retired |
| Outbox.ReplayListIsUnique | packages/state/src/index.ts:89-89 | there is only one such list |
| Outbox.LaterMessagesAreUncovered | packages/state/src/index.ts:95-95 | a later message is numbered above everything issued and acknowledged before, on every connection |
| StateStore.StateStore.QueryMaxFence | packages/state/src/index.ts:82-82 | the query loop finds the largest token |
| StateStore.StateStore.QueryActiveLease | packages/state/src/index.ts:82-82 | the query loop finds an active lease of the assignment iff there is one, and in a sound store it is the one the assignment names |
| StateStore.StateStore.AssignRemote | packages/state/src/index.ts:79-79 | writes the row of a new assignment and nothing else |
| StateStore.StateStore.AcquireRemoteLease | packages/state/src/index.ts:82-82 | the table updates are those of the specification, or none with the refusal |
| StateStore.StateStore.RenewRemoteLease | packages/state/src/index.ts:83-83 | renews exactly an unexpired active lease of the worker |
| StateStore.StateStore.ReleaseRemoteLease | packages/state/src/index.ts:84-84 | releases exactly the active lease with that worker and token |
| StateStore.StateStore.UpdateRemoteAssignmentStatus | packages/state/src/index.ts:85-85 | sets one status and nothing else |
| StateStore.StateStore.ExpireRemoteLeases | packages/state/src/index.ts:87-87 | lapses every overdue lease, and expires exactly the dispatched and running assignments that wait on one |
| StateStore.StateStore.AcceptRemoteEvent | packages/state/src/index.ts:70-70 | the stored events, receipts and cursors are those of the specification, with its reply: `TakenExactlyWhen` and `TakenBeforeDeadline` say which messages those are |
| StateStore.StateStore.OpenWorkerConnection | packages/state/src/index.ts:77-77 | records the connection of a worker |
| StateStore.StateStore.NextProtocolSequenceForWorker | packages/state/src/index.ts:95-95 | hands out one more than the larger of the counter and the largest recorded number |
| StateStore.StateStore.RecordProtocolMessage | packages/state/src/index.ts:88-88 | records a message once |
| StateStore.StateStore.AcknowledgeUpTo | packages/state/src/index.ts:93-93 | marks exactly the worker's messages up to the number |
| StateStore.StateStore.AckProtocolMessageById | packages/state/src/index.ts:92-92 | retires one message |
| StateStore.StateStore.ListUnackedProtocolMessagesForWorker | packages/state/src/index.ts:89-89 | lists the unacknowledged messages of the worker in rising order |
| StateStore.StateStore.GetMaxProtocolSequenceForWorker | packages/state/src/index.ts:91-91 | the largest recorded number of the worker |
| StateStore.StateStore.ActivateWorkerConnectionEpoch | packages/state/src/index.ts:239-239 | raises the worker's epoch by one |
| Topology.LoomRouteRegistry.RegisterNode | packages/network/src/topology.ts:139-143 | adds the node of an id with an address, refuses any other, and keeps the rest |
| Topology.LoomRouteRegistry.SetRoute | packages/network/src/topology.ts:158-164 | stores the route under a revision never used before and registers its target; a bad connection id is refused after the node is registered and the revision counted, with the old route kept |
| Topology.LoomRouteRegistry.ReplaceConnection | packages/network/src/topology.ts:167-179 | points the target at the new connection under a new revision, or refuses as above |
| Topology.LoomRouteRegistry.IsCurrent | packages/network/src/topology.ts:190-194 | a route the registry issued is current iff the registry resolves its target to that very route |
| Topology.LoomRouteRegistry.InvalidateRoute | packages/network/src/topology.ts:200-211 | removes the route iff connection and revision match where they are given |
| Topology.LoomRouteRegistry.InvalidateConnection | packages/network/src/topology.ts:214-223 | removes exactly the routes of the connection and reports their targets; a bad id is refused and no route has one |
| Sessions.RoutesAndEpochsAgree | packages/remote/src/index.ts:95-103 | from a new controller over any persisted epochs on, after any interleaving, a worker's route and transport agree, and the route names the current connection, iff no transport is attached or the registry took its connection; every route leads to a node with an address, and each worker's epochs count on from the persisted one without a gap |
| Sessions.RefusedAttachmentsDisagree | packages/remote/src/index.ts:97-97 | in every reachable state an attachment the registry refuses leaves a transport without its route, the routes as before, and a counted revision |
| Sessions.RefusedConnections | packages/network/src/topology.ts:59-63 | empty and blank connection ids, and ids with control characters, are refused for every worker |
| Sessions.SupersededForGood | packages/remote/src/index.ts:97-100 | once its worker is attached again, a connection's messages are never admitted again and its disconnect changes neither routes nor statuses, whatever happens afterwards |
| Admission.StepsTellSessions | packages/remote/src/index.ts:97-100 | after any run the tables of the sessions are what its steps say: the last attachment, whether it was left, the last admitted number, who is online and which connections are closed |
| Admission.AdmittedExactlyWhen | packages/remote/src/index.ts:100-100 | at every point of every run a message is admitted iff its envelope speaks for its binding, the worker attached last over that connection, and its number is the first there or follows the last admitted one; each other verdict has its own reason |
| Admission.AdmittedRunOn | packages/remote/src/index.ts:100-100 | the messages admitted on one connection are numbered one after the other, whatever comes between them |
| RemoteFabric.RemoteFabricController.Attach | packages/remote/src/index.ts:97-97 | attaching binds transport, connection, epoch, node and route as the specification says, half-way where the registry refuses the worker's id or the connection's |
| RemoteFabric.RemoteFabricController.OnDisconnect | packages/remote/src/index.ts:97-97 | only the current connection's disconnect takes transport and route away |
| RemoteFabric.RemoteFabricController.Receive | packages/remote/src/index.ts:100-100 | an envelope is judged against the current binding; only an admitted one reaches leases, log or acknowledgements; a new message is logged under its assignment, lease and connection; after a taken one the assignment is accepted, running, completed, cancelled or failed as it says, its lease is released by a result or an error and ends at `later + leaseMs` after a renewal, and every other assignment and lease is unchanged |
| RemoteFabric.RemoteFabricController.Send | packages/remote/src/index.ts:106-106 | a message is numbered and recorded for the worker's current connection |
| RemoteFabric.RemoteFabricController.Dispatch | packages/remote/src/index.ts:99-99 | a dispatch assigns and leases, and is recorded for sending iff the worker has a transport and a connection, the job is new and the lease is granted |
| RemoteFabric.RemoteFabricController.RecoverOne | packages/remote/src/index.ts:101-101 | for an attached worker exactly its stale unacknowledged messages are retired, the assignment is leased again, and the new dispatch is recorded iff the lease is granted |
| RemoteFabric.RemoteFabricController.Cancel | packages/remote/src/index.ts:105-105 | a cancel sets the status, releases the lease, and records the message for a connected worker |
| Leases.GrantsDoNotOverlap | packages/remote/src/index.ts:73-73 | a job is leased only when no token of it is in force then or later |
| Leases.SupersededForGood | packages/remote/src/index.ts:71-78 | after a grant every earlier token is invalid for ever, in every run and at every clock reading |
| Leases.ReleasedForGood | packages/remote/src/index.ts:75-75 | a released token is invalid for ever |
| Leases.AcquirableExactlyWhen | packages/remote/src/index.ts:73-73 | a job can be leased exactly when no token of it is valid |
| Leases.GrantLastsExactly | packages/remote/src/index.ts:73-77 | a lease granted at `now` for `ttl` is valid exactly before `now + ttl`, whatever happens to other jobs and whoever asks for this one meanwhile |
| Leases.RenewalLastsExactly | packages/remote/src/index.ts:74-74 | exactly a valid lease is renewed, and then it is valid exactly before its new deadline |
| Leases.ReleaseFreesExactlyWhen | packages/remote/src/index.ts:75-75 | a release frees the job at once iff it is its holder's |
| Leases.LeaseManager.AcquireLease | packages/remote/src/index.ts:73-73 | grants a fresh token or changes nothing |
| Leases.LeaseManager.RenewLease | packages/remote/src/index.ts:74-74 | extends exactly a valid lease and keeps its token |
| Leases.LeaseManager.ReleaseLease | packages/remote/src/index.ts:75-75 | removes exactly a valid lease |
| Leases.OneGrantAtATime | packages/remote/src/index.ts:76-77 | in every run at most one grant of a job validates, and a grant validates for one job only, whatever the clocks say |
| Journal.DeliveryIsInOrderAndOnce | packages/remote/src/index.ts:80-88 | over a link that drops everything on disconnect and replays from the last acknowledgement, the accepted log is always a prefix of the appended one, no gap is ever raised, and pending is exactly what lies above the acknowledgement |
| Journal.AcceptedRunOn | packages/remote/src/index.ts:86-86 | whatever numbers come in, those accepted run on without a gap or a repetition, and the next one is accepted as soon as it comes |
| Journal.DrainingCatchesUp | packages/remote/src/index.ts:80-88 | from every reachable connected state some run delivers everything appended |
| Journal.SequenceJournal.AppendMessage | packages/remote/src/index.ts:83-83 | numbers the message next and keeps it pending |
| Journal.SequenceJournal.AcknowledgeUpTo | packages/remote/src/index.ts:84-84 | raises the acknowledgement and drops exactly the pending numbers up to it |
| Journal.SequenceJournal.Replay | packages/remote/src/index.ts:85-85 | returns the pending messages above a number in rising order |
| Journal.SequenceJournal.ReceiveNumber | packages/remote/src/index.ts:86-86 | accepts the next number, recognises duplicates, refuses gaps |
| Address.FormatOfParse | packages/network/src/address.ts:80-114 | printing what was parsed gives back the very string that was parsed |
| Address.ParseIsInjective | packages/network/src/address.ts:80-114 | no two accepted strings name the same address |
| Address.ParseOfFormat | packages/network/src/address.ts:65-114 | a printed address is read back exactly when its encoded id has at most 1024 characters, and is refused as an invalid path otherwise |
| Address.AcceptedExactlyWhenPrinted | packages/network/src/address.ts:80-114 | the accepted strings are exactly the printed addresses within the limit |
| Address.ShortIdsRoundTrip | packages/network/src/address.ts:34-41 | every valid id of at most 85 code points survives the round trip |
| Address.LongerIdsMayFail | packages/network/src/address.ts:34-35 | for every length from 86 to 256 some valid id is printed and then refused |
| Address.DecodeOfEncode | packages/network/src/address.ts:37-41 | decoding undoes the two encoding passes for every well-formed string, through UTF-16, UTF-8 (RFC 3629, section 3) and percent escapes |
| Address.VerbatimExactlyWhenUnreserved | packages/network/src/address.ts:37-41 | an id is printed unchanged exactly when all its characters are unreserved (RFC 3986, section 2.3) |
| Address.EncodedAlphabet | packages/network/src/address.ts:37-41 | an encoded id holds unreserved characters and percent signs only |
| Address.EncodedLength | packages/network/src/address.ts:37-41 | each code point takes one to twelve characters |
| AnsiScanner.ScanMeetsGrammar | packages/tui/src/utils.ts:373-436 | the scan answers `end` exactly for what is an escape sequence up to `end`: parameters, intermediates, one final byte (ECMA-48, section 5.4), or a control string up to its first terminator (section 5.6) |
| AnsiScanner.ScanIsLocal | packages/tui/src/utils.ts:397-436 | a code is recognised from its own characters alone, wherever it stands |
| AnsiScanner.ScanOfPrefix | packages/tui/src/utils.ts:397-436 | cutting a string short never makes a code appear and keeps those that end before the cut |
| AnsiScanner.MarksGiveTheEnd | packages/tui/src/utils.ts:346-371 | the nearest BEL and ST found backwards determine what the forward scan answers |
| AnsiScanner.CacheControlStringEnds | packages/tui/src/utils.ts:346-371 | the table built backwards holds the forward answer for every control string from a position on |
| AnsiScanner.AnsiCodeExtractor.EndAt | packages/tui/src/utils.ts:397-457 | for every string and every order of queries the cached extractor answers as the stateless scan, and after one failure never scans a control string forward again from there on |
| AnsiStyle.FormatOfParseOsc8 | packages/tui/src/utils.ts:467-489 | printing a parsed hyperlink gives back the very escape sequence it came from |
| AnsiStyle.ProcessKeepsCoherent | packages/tui/src/utils.ts:512-644 | every recognised escape sequence keeps the tracker printable |
| AnsiStyle.PrintedStyleReadsBack | packages/tui/src/utils.ts:666-684 | reading the active codes from a blank tracker rebuilds exactly the printed style, attributes, colours and hyperlink, whatever follows (SGR: ECMA-48, section 8.3.117) |
| AnsiStyle.CodesAfterAnyText | packages/tui/src/utils.ts:512-732 | after any text the active codes put a blank terminal into the state the text left |
| AnsiStyle.PrintingIsInjective | packages/tui/src/utils.ts:666-684 | distinct styles print distinctly |
| SgrMeaning.CodeChangesExactly | packages/tui/src/utils.ts:570-643 | each SGR code switches its attribute on, those it cancels off, sets or drops its colour, and changes nothing else |
| SgrMeaning.OnThenOff | packages/tui/src/utils.ts:570-625 | reading an attribute's code and then a code that cancels it leaves it off |
| SgrMeaning.CodesActInOrder | packages/tui/src/utils.ts:538-643 | a printed list of codes acts as its codes one after the other |
| SgrMeaning.ExtendedColorIsSet | packages/tui/src/utils.ts:544-569 | an extended colour sets its ground to exactly that colour |
| SgrMeaning.PrintedExactlyWhenOn | packages/tui/src/utils.ts:666-684 | an attribute's code is among the active codes iff the attribute is on |
| SgrMeaning.CancelledIsPrintedNoMore | packages/tui/src/utils.ts:512-684 | after an off-code the active codes hold none of the attributes it cancels, and exactly the others they held |
| AnsiStyle.OnlyBlankPrintsNothing | packages/tui/src/utils.ts:666-700 | nothing is printed exactly for the blank style |
| AnsiStyle.LineEndCloses | packages/tui/src/utils.ts:708-717 | the line-end codes switch off the underline, close the hyperlink and leave the rest |
| AnsiStyle.AnsiCodeTracker.ProcessCode | packages/tui/src/utils.ts:512-644 | one escape sequence changes the tracker's fields as the specification says |
| AnsiStyle.AnsiCodeTracker.GetActiveCodes | packages/tui/src/utils.ts:666-684 | prints the specified codes of the current fields |
| AnsiStyle.AnsiCodeTracker.GetLineEndReset | packages/tui/src/utils.ts:708-717 | prints the specified line-end codes |
| AnsiStyle.AnsiCodeTracker.UpdateFromText | packages/tui/src/utils.ts:720-732 | reads a whole text, with the cached extractor, as the specification does |
| Segments.ExtractSegments | packages/tui/src/utils.ts:1250-1322 | the scan returns the texts and widths of a cut that keeps exactly the graphemes that belong before and after the overlay, and all codes between them |
| Segments.BeforeKeepsStyle | packages/tui/src/utils.ts:1250-1322 | read from a blank terminal, `before` shows the first characters of the line in the line's styles |
| Segments.AfterKeepsStyle | packages/tui/src/utils.ts:1250-1322 | read from a blank terminal, `after` shows a stretch of the line's characters, each in the style and hyperlink it has in the line |
| Segments.CodesAreInvisible | packages/tui/src/utils.ts:666-684 | the printed codes show no character and hand the style on |
| Segments.ReadInHalves | packages/tui/src/utils.ts:720-732 | a text cut between codes and characters reads as its halves, the second in the style the first leaves |
| Composite.BeforeReaches | packages/tui/src/utils.ts:1250-1322 | before the overlay the line is kept up to its first grapheme boundary at or past the column, or to its end |
| Composite.AfterBeginsFirst | packages/tui/src/utils.ts:1250-1322 | after the overlay the line goes on with its first grapheme at or past both columns, and a strict one ends within the window |
| Composite.CutIsUnique | packages/tui/src/utils.ts:1250-1322 | a line has one text before and one after the overlay |
| Composite.CompositeLineAt | packages/tui/src/tui.ts:1355-1403 | the composed line is its eight pieces, of those texts and widths, cut if it is too wide; image lines stay |
| Composite.OverlayStandsExactlyWhen | packages/tui/src/tui.ts:1372-1377 | the overlay stands in its own columns iff no grapheme of the line straddles its left edge |
| Composite.FillsExactlyWhen | packages/tui/src/tui.ts:1372-1377 | by its own count the composed line is as wide as the terminal iff no such grapheme pushes more to the right than blanks were left, and never narrower |
| Composite.RestStaysExactlyWhen | packages/tui/src/tui.ts:1364-1377 | the rest of the line keeps its columns iff it begins as far past the right edge as the line before reaches past the left one |
| Composite.StylesStayApart | packages/tui/src/tui.ts:1379-1389 | where no escape sequence reaches across a seam, the line before, the overlay and the line after show exactly as on a blank terminal |
| Composite.TrimmedFits | packages/tui/src/tui.ts:1397-1402 | a composed line without tabs, whose codes stand between its graphemes, is never shown wider than the terminal |
| Columns.VisibleWidthWithoutTabs | packages/tui/src/utils.ts:201-257 | for texts without tabs the ASCII shortcut agrees with stripping, segmenting and adding up |
| Columns.SliceWithWidth | packages/tui/src/utils.ts:1194-1240 | the column loop returns the specified slice and its width |
| Columns.SliceIsPrefix | packages/tui/src/utils.ts:1194-1240 | a strict slice from the first column is a stretch of whole codes and graphemes from the line's start, within the length, and as long as fits |
| Columns.StrippedUpTo | packages/tui/src/utils.ts:226-238 | stripping the line up to a span leaves exactly the graphemes before it |
| Columns.SlicesFit | packages/tui/src/utils.ts:1194-1240 | a line without tabs, whose codes stand between its graphemes, is cut to a text whose visible width is within the length |
| Columns.TabsAreKept | packages/tui/src/utils.ts:217-220 | tabs before a text that fills the width survive the cut, which is then three columns too wide for each |
| Truncate.TruncateToWidth | packages/tui/src/utils.ts:1046-1183 | every branch: nothing, padding, the text unchanged if it fits, the longest grapheme prefix that leaves room for the ellipsis, or a clipped ellipsis |
| Truncate.TruncateWithEllipsis | packages/tui/src/utils.ts:1074-1183 | with an ellipsis narrower than the bound the text is returned iff it fits, and otherwise the longest prefix with the ellipsis |
| Truncate.TruncateFragmentToWidth | packages/tui/src/utils.ts:50-129 | the fragment is the longest prefix within the bound |
| Truncate.LongestIsUnique | packages/tui/src/utils.ts:1046-1183 | there is only one longest prefix |
| Truncate.NoLongerCutFits | packages/tui/src/utils.ts:1046-1183 | a cut after a grapheme fits iff it goes no further than the longest prefix |
| Truncate.TruncationIsUnique | packages/tui/src/utils.ts:1074-1080 | truncation has one answer, so the ASCII fast path agrees with the general path |
| Truncate.AsciiLongest | packages/tui/src/utils.ts:1074-1080 | on printable ASCII the longest prefix is the first characters |
| Seams.ScanSealed | packages/tui/src/utils.ts:373-436 | before a tail that finishes no control sequence every code of a text is kept, and the only new ones are control strings left open that the tail ends |
| Seams.StandsAtSeam | packages/tui/src/utils.ts:373-436 | a reader of two joined texts stands at the seam iff the second ends no control string that the first leaves open |
| Seams.Swallowed | packages/tui/src/utils.ts:373-436 | if it does end one, fewer characters are shown than by the two texts alone |
| Seams.ExpandedScan | packages/tui/src/utils.ts:215-239 | once tabs are spaces, the codes are those of the text, expanded, and the stretches after `ESC [` in which a tab stands for intermediate bytes |
| Seams.TabsAndCodesCommute | packages/tui/src/utils.ts:215-239 | expanding the tabs and taking out the codes commute iff no tab makes such a code, and otherwise characters are lost |
| LineWidth.CutIs | packages/tui/src/utils.ts:1194-1240 | a strict cut is the line up to the first span at which the columns are used up or the next grapheme goes over them |
| LineWidth.WidthUpTo | packages/tui/src/utils.ts:201-257 | up to each span, the visible width of a line is its columns and three more for each tab |
| LineWidth.CutFitsExactlyWhen | packages/tui/src/utils.ts:1194-1240 | the cut line is within the width iff its columns and three more for each tab kept are |
| CutText.KeptShowsItsPieces | packages/tui/src/utils.ts:1103-1175 | what is kept of a text shows the graphemes it was cut into, tabs as three spaces, iff no tab in it makes a code |
| CutText.ResultShowsItsParts | packages/tui/src/utils.ts:131-149 | kept text, ellipsis and padding are read apart, in spite of the resets between them, iff the ellipsis ends no control string that the kept text leaves open; then the result shows what they show, and with an ellipsis whose own codes are not split it does so only then |
| CutText.CutTextFits | packages/tui/src/utils.ts:1074-1183 | the visible width of a cut text, with codes, tabs and any ellipsis, is never above the bound, and exactly the bound with padding, where its parts stay apart |
| CutText.UncutTextFits | packages/tui/src/utils.ts:1178-1180 | a text that fits is within the bound, and exactly the bound once it is padded |
| CutText.ClippedEllipsisFits | packages/tui/src/utils.ts:1062-1072 | so is what is left of an ellipsis that leaves no room for the text |
| CutText.TruncationFits | packages/tui/src/utils.ts:1046-1183 | so is every result of truncation |
| CutText.OpenStringSwallows | packages/tui/src/utils.ts:131-149 | a text with an open operating system command and an ellipsis that begins with BEL give a result as wide as the rest of the ellipsis only |
| CutText.TabSwallows | packages/tui/src/utils.ts:215-239 | a tab between `ESC [` and a final byte counts for three columns and leaves a result without any, five short with padding |
| TruncateStyle.CutStyles | packages/tui/src/utils.ts:131-149 | where no escape sequence reaches across a seam, ellipsis and padding show without the attributes and colours of the kept text, and none is left behind |
| TruncateStyle.LeavesBlankExactlyWhen | packages/tui/src/utils.ts:131-149 | a cut text leaves a blank style behind iff it leaves no hyperlink open |
| Truncate.PiecesSpell | packages/tui/src/utils.ts:1110-1175 | cutting a text into codes, tabs and graphemes loses nothing |
| Truncate.KeptIsPrefix | packages/tui/src/utils.ts:1110-1175 | what is kept is a prefix of the text |
| Fullscreen.ClippedFullscreenDockHeight | packages/tui/src/fullscreen.ts:14-17 | the dock fits, and is clipped only to leave the transcript three rows, or all rows if there are fewer |
| Fullscreen.ScrollingBack | packages/tui/src/fullscreen.ts:670-674 | when exactly scrolling back undoes scrolling |
| Fullscreen.ScrollingMoves | packages/tui/src/fullscreen.ts:670-684 | scrolling moves by the lines asked for or to the nearer end, and follows exactly at the last line |
| Fullscreen.FullscreenViewport.ComposeFrame | packages/tui/src/fullscreen.ts:99-133 | the frame has exactly `height` rows, window over dock, with 0 ≤ scrollTop ≤ maxScroll; a window that follows shows the last line on its last row, one that does not stays where it is while lines are appended |
| Fullscreen.FullscreenViewport.Paint | packages/tui/src/fullscreen.ts:629-662 | writes exactly the row diff and remembers the frame |
| Fullscreen.FullscreenViewport.Reset | packages/tui/src/fullscreen.ts:665-667 | forgets the frame and nothing else |
| Fullscreen.FullscreenViewport.ScrollBy | packages/tui/src/fullscreen.ts:670-674 | moves within bounds from the bottom while following, from the window otherwise |
| Fullscreen.FullscreenViewport.ScrollToTop | packages/tui/src/fullscreen.ts:676-679 | goes to the top, following only if nothing can be scrolled |
| Fullscreen.FullscreenViewport.ScrollToBottom | packages/tui/src/fullscreen.ts:681-684 | goes to the end and follows |
| Fullscreen.PaintResult | packages/tui/src/fullscreen.ts:629-662 | row by row what painting leaves on a screen; it shears iff some repainted line, cut by the column scan, is still wider than the screen |
| Fullscreen.PaintWritesExactly | packages/tui/src/fullscreen.ts:629-662 | a paint is one synchronised update that writes a row iff the screen is cleared, the row was not on the remembered frame, or another line was; each once, from top to bottom |
| Fullscreen.ShownRows | packages/tui/src/fullscreen.ts:636-639 | of a frame that is too tall the last rows are shown, of one too short all and blanks below |
| Fullscreen.CursorEnds | packages/tui/src/fullscreen.ts:653-655 | after a paint the cursor stands where it was asked for, or in the last row |
| Fullscreen.FitsExactlyWhen | packages/tui/src/fullscreen.ts:650-651 | a line whose tabs make no code fits iff the columns of what is kept of it, and three more for each tab in there, are within the width |
| Fullscreen.LinesWithoutTabsFit | packages/tui/src/fullscreen.ts:650-651 | frames whose lines hold no tabs, and codes only between graphemes, always fit |
| Fullscreen.TabsShear | packages/tui/src/fullscreen.ts:650-651 | a line of tabs and a text that fills the screen shears it iff there is a tab |
| Fullscreen.PaintShowsExactlyWhen | packages/tui/src/fullscreen.ts:642-653 | the screen shows the frame after a paint iff every repainted line fits, and the screen was cleared or the rows left alone were right |
| Fullscreen.IncrementalRefinesFull | packages/tui/src/fullscreen.ts:629-662 | in step with the screen, the row diff leaves what a full repaint leaves, and that is the frame, unsheared, iff the frame fits |
| Fullscreen.SurvivesDisturbanceExactlyWhen | packages/tui/src/fullscreen.ts:642-653 | a paint is right whatever happened to the screen iff the frame fits and the painter clears or repaints every row |
| Fullscreen.ScreenShowsTheFrame | packages/tui/src/fullscreen.ts:629-667 | along every session of fitting frames, resizes and resets in which no resize brings back the painted size unnoticed, a paint makes the screen show its frame, unsheared, iff that frame fits |
| Fullscreen.ResizedAwayAndBack | packages/tui/src/fullscreen.ts:642-645 | a frame painted again after a resize away and back leaves the screen as the resize left it |
| Schedule.CronIsLeast | packages/daemon/src/index.ts:10-10 | for fixed fields the next time is the least one after `from` at which the UTC clock shows that hour and minute |
| Schedule.IntervalTimes | packages/daemon/src/index.ts:10-10 | interval schedules run at first, first + p, first + 2p, ... |
| Schedule.CronTimes | packages/daemon/src/index.ts:10-10 | after the first run, cron schedules run once a day |
| Schedule.KeysAreInjective | packages/state/src/index.ts:120-120 | different occurrences have different idempotency keys, whatever characters schedule ids hold |
| Schedule.OneJobPerOccurrence | packages/state/src/index.ts:106-120 | no two occurrences share a job, and no second job carries an occurrence's key |
| Schedule.NeverDoubled | packages/daemon/src/index.ts:158-171 | however daemons interleave and crash, an occurrence keeps its one job for ever |
| Schedule.NeverEarly | packages/daemon/src/index.ts:158-171 | however daemons interleave and crash, every new occurrence was read as due: enabled, awaited, and at a clock at or after its time |
| Schedule.PolledRow | packages/daemon/src/index.ts:158-171 | a poll of a due schedule leaves its occurrence, and the row moved on, or switched off after its one run or where no next time exists |
| Schedule.OnceRunsOnce | packages/daemon/src/index.ts:163-165 | in every run a schedule for once has no occurrence but its one, and none is added once it is switched off |
| Schedule.ExactlyOnce | packages/daemon/src/index.ts:158-171 | with one daemon, crashing anywhere, the occurrences of an unedited recurring schedule are exactly its first times, none skipped |
| Schedule.IntervalOccurrences | packages/daemon/src/index.ts:158-171 | for intervals those are first + k p, each once |
| Schedule.PollAdvancesUnlessZero | packages/daemon/src/index.ts:161-165 | an undisturbed poll of a due schedule materialises one time and moves on, unless that time is zero |
| Schedule.StepOpensNoGapExactlyWhen | packages/daemon/src/index.ts:158-171 | whatever daemon takes whatever step, a gap opens iff the step moves the schedule past a time that has no job |
| Schedule.NoneSkippedExactlyWhen | packages/daemon/src/index.ts:158-171 | however many daemons interleave, crash and wake up late, no state of the run has a gap iff no daemon moves past a time that has no job |
| Schedule.CreatedHasNoGap | packages/state/src/index.ts:116-116 | a newly created schedule has no gap |
| Schedule.TakeoverMaySkip | packages/daemon/src/index.ts:160-165 | the condition can fail: a suspended daemon that wakes after its replacement took over makes the replacement skip an occurrence |
| Schedule.PollIsThreeSteps | packages/daemon/src/index.ts:158-171 | an undisturbed poll is the reading, the transaction and the update of a run |
| Schedule.ScheduleStore.EnqueueJob | packages/state/src/index.ts:106-106 | inserts a job unless its key is known, and returns the one job with that key |
| Schedule.ScheduleStore.MaterializeSchedule | packages/state/src/index.ts:120-120 | materialises the awaited time once, in one transaction |
| Schedule.ScheduleStore.UpdateAfterRun | packages/daemon/src/index.ts:163-169 | moves the schedule on, switches it off after `once`, and switches it off where no next time exists |
| Schedule.ScheduleStore.MaterializeSchedules | packages/daemon/src/index.ts:158-171 | the loop polls every listed schedule as specified, and materialises only times that were listed as enabled and due |

## Left out

- Terminal input: timeouts, the conversion of lone high bytes of a `Buffer` into escape sequences, and event emitters; emitted events are the field `emitted`.
- `validatePlan` reports a depth that depends on task order, because finished nodes return 0; it is not claimed to be the longest chain, only to be attained by a real chain, hence never to exceed the longest.
- Traces, checkpoints, artifacts, results and blocked reasons of plan tasks; executors and reviewers do not edit plan tasks themselves.
- Planner.Runtime.Run: claims that the dependencies have been completed before every execution, not that they still are, because a sibling verification in the same batch can reopen a shared one.
- SQL itself: rows are map entries, and a statement is atomic with its transaction.
- Sequence numbers, cursors and times are integers; values outside them are refused by the code before they reach the tables and are not modelled.
- `appendRemoteEvent` (packages/state/src/index.ts:71), which is not used where `acceptRemoteEvent` exists.
- RemoteFabric.RemoteFabricController.Attach: the worker registry, capabilities, load and the routing policy are left out; which worker is chosen is a parameter.
- RemoteFabric.RemoteFabricController.Send: failing or asynchronous transports are not modelled; recording is.
- RemoteFabric.RemoteFabricController.RecoverOne: recovers one assignment; the loop over all expired ones is not modelled, and whether an old message is stale is a parameter.
- Progress of two assignments that interleave on one connection: cursors are kept per assignment while the worker numbers all its messages.
- Topology.LoomRouteRegistry.SetRoute: transports, states, relays and costs of routes, their validation, metadata and copies are left out, as is `snapshot`.
- Journal.DrainingCatchesUp: the controller's own journals carry no messages; the protocol is proved for two journals over a link.
- Address: arguments that are not strings or not objects, and `sameLoomAddress`.
- Grapheme segmentation and the widths of graphemes; a segmenter is any function that cuts text into non-empty pieces and loses nothing. Printable ASCII is one column a character, and where the width of a cut is at stake, cutting a text after a grapheme does not change the graphemes before it.
- Style preservation of `sliceWithWidth`, which emits codes at its start column before pending ones.
- CutText.TruncationFits: graphemes that join across a code, a tab or a seam are left to the segmenter; the law asked of the texts at hand says that they do not. Where the ellipsis is as wide as the bound, fitting is judged by `visibleWidth`, as in the code.
- CutText.ResultShowsItsParts: where the terminator of an open string splits a code of the ellipsis, what is shown may by chance be the same; the reading apart is exact for every ellipsis.
- Fullscreen.PaintResult: rows hold text without the style in force, so it is not said whether a style left open by one row colours the next. The interface ends every line with a reset before it paints (packages/tui/src/tui.ts:1482), which a line that is cut may lose again. The terminal measures a text by `visibleWidth`, and shears, without saying how, on a text wider than itself.
- Fullscreen.FullscreenViewport.ComposeFrame: selection state and its highlighting are one `decorate` parameter, together with the image placeholder.
- Composite.StylesStayApart: a control string that a part leaves open can be ended by the reset behind it; then characters are lost, as `Seams.Swallowed` says. Which lines are images is a parameter, and the layout of overlays is left out.
- Inline rendering in `tui.ts`, which depends on real scrollback.
- Schedule.CronIsLeast: `*` fields are left out; the code fills them from local time, and its minute plus one can reach 60 and throw. Parsing of expressions is left out too.
- Schedule.ExactlyOnce: edits of a schedule and the `enabled` switch during a run are left out.
- Job status writes, claiming and retries of jobs, rate limits, bots and configuration.
