# Batey backend: verified model

This project models the stateful core of the Batey backend, the service that runs coding agents over
the Agent Client Protocol, and proves what its protocols keep in every run:

- the durable event log: numbering, persist before publish, the bounded window, replay, and the repair
  of a log after any number of interrupted restarts (`Events`, `LogModel`, `Survivors`,
  `Durability`, `Replay`, `EventLogs`);
- the agent connection: request correlation under every interleaving of dispatchers, reader, writer,
  timeouts and shutdown (`Correlation`, `AcpClients`), and the permission protocol against the log
  (`Permissions`, `PermissionOutcomes`, `CallbackHandlers`);
- the callbacks' text work: streaming UTF-8, file line windows, elicitation forms (`Utf8Stream`,
  `ReadWindow`, `ElicitationForms`);
- sign-in: protocol and terminal flows, their registries, the discovery cache and the single-flight
  refresh (`CallbackUrls`, `ProtocolFlows`, `TerminalFlows`, `FlowRegistry`, `DiscoveryCache`,
  `AuthServices`, `SingleFlight`);
- the agent catalog against its rows, and install operations (`AgentModel`, `AgentManagers`,
  `Operations`);
- the agent environment and the cleaning of diagnostics (`AgentEnv`, `TerminalNoise`).

Concurrent parts are step relations whose steps are the code's lock sections and atomic accesses; a
run is any sequence of steps, a step whose guard fails changing nothing. Beside each relation stands
the code as a class, every method equal to its transition. I/O outcomes are parameters: whether a
write is accepted, a read succeeds, a listener is still there, a probe answers. `Collections` holds
the shared vocabulary.

Where the code falls short of a property, a lemma gives the input and another states exactly when the
property holds: `ElicitationsClosedPerChat`, `ReplayTrustedExactly`, `NumberingContinuesExactly`,
`LogAgreesExactly`, `DroppedEntryStaysExactly`, `StreamingExactly`, `WholeFileExactly`,
`WindowsTileExactly`, `ValidatedIsFixed`, `AgentLimitHoldsExactly`, `OverallLimitHoldsExactly`,
`InvalidationBeatsEarlierProbes`, `SavedRowIsCurrentExactly`, `KeptRowIsCurrentExactly`,
`FreshLabelIsRightExactly`, `RestartRebuildsTheCatalog`. The comment above the service's cache write
says that a skipped write keeps the mutation's stale marker in place; with check and save under
separate locks that holds only as `SavedRowIsCurrentExactly` states. The comment above the refresh says
that a probe superseded by a racing mutation is never reported as fresh; `FreshLabelIsRightExactly` says
when it is. The comment above the read window says that no window means the whole file;
`WholeFileExactly` says for which files.

`dafny verify dfyconfig.toml` checks the project.

## Model

| member | source | states |
|---|---|---|
| `Events.RecoveryScanSeesEverything` | backend/src/store/events.rs:45-60 | folding the rows the recovery query selects equals folding the whole log |
| `Events.OpenPermissionMeaning` | backend/src/events.rs:215-236 | an id is left open exactly when the last row that speaks of it is a request, and it is kept with that row's chat and agent |
| `Events.ActiveTurnMeaning` | backend/src/events.rs:215-249 | a chat's turn is left active exactly when a prompting row has no completion after it |
| `Events.ActiveTurnAgent` | backend/src/events.rs:239-245 | and it is recorded for the agent of the last such row |
| `Events.OpenElicitationMeaning` | backend/src/events.rs:231-238 | an elicitation is left open exactly when the last row of any chat that speaks of its id is a request, and it is kept with that row's chat and agent |
| `Events.ClosersFollowKeyOrder` | backend/src/events.rs:250-285 | closing entries come one per open key, in the ordered map's key order |
| `Events.EachOpenItemClosedOnce` | backend/src/events.rs:250-285 | each open permission, elicitation and turn has its closing entry among the repairs, none twice, and there are no others |
| `Events.ExtendMeaning` | backend/src/events.rs:298-354 | appending entries keeps the old log as a prefix and numbers the new rows consecutively after the highest |
| `Events.CrashLeavesTheRestOwed` | backend/src/events.rs:201-287 | after any prefix of the repairs is durable, a restart owes exactly the others, in the same order |
| `Events.CrashObliviousRecovery` | backend/src/events.rs:201-287 | however often and wherever recovery is cut short, the next full one ends with the log one uninterrupted recovery gives |
| `Events.RecoveryClosesEverything` | backend/src/events.rs:201-287 | a full recovery extends the log, leaves nothing open by the same fold, and a further one appends nothing |
| `Events.RecoveryAppendsExactly` | backend/src/events.rs:250-285 | recovery appends exactly these entries: for each permission last spoken of by a request, its unanswered response in that row's chat and for that row's agent; for each elicitation likewise, its cancelling; for each chat still prompting, its completion for the agent that last prompted |
| `Events.RecoveryAppendsInOrder` | backend/src/events.rs:250-285 | responses, then cancellings, then completions, each in the order of ids or chats, under the next numbers, none twice |
| `Collections.LeqIsLexicographic` | backend/src/events.rs:226-228 | the order in which the recovery maps are walked is the lexicographic one |
| `Events.UnansweredMeaning` | backend/src/events.rs:231-238 | within one chat an elicitation is unanswered exactly when the chat's last row about it is a request |
| `Events.ElicitationsClosedPerChat` | backend/src/events.rs:231-249 | recovery answers every chat's open elicitations exactly when, after the row that last asked for one in its chat, no row of any chat speaks of its id |
| `Events.SharedElicitationIdStaysOpen` | backend/src/events.rs:237 | two chats that reuse an elicitation id: recovery leaves the first one's request unanswered |
| `EventLogs.ScanRecoveryRows` | backend/src/events.rs:208-249 | the startup loop over three maps computes the fold |
| `LogModel.RunKeepsInv` | backend/src/events.rs:298-354 | in every run of appends, failed and oversize appends, chat deletions and forgets: the window is bounded, ascending and no older than its first number; broadcast numbers have no gap; whatever is in memory is durable or its chat is being deleted |
| `LogModel.LogRefinement` | backend/src/events.rs:298-354 | with appends alone the window is the newest suffix of the startup window and the broadcast, the durable log grows by the broadcast, and after one store failure nothing changes |
| `Durability.DurableIsStartAndBroadcast` | backend/src/events.rs:298-354 | in every run without chat deletion, forgets and failures included, the durable log is the startup rows followed by exactly what was broadcast |
| `Durability.BroadcastIsDurableUnlessDeleted` | backend/src/events.rs:320-351 | in every run, deletions included, a broadcast event is durable exactly unless its chat's rows were deleted after it |
| `Durability.FailureIsFinal` | backend/src/events.rs:306-308 | after one store failure nothing is numbered, broadcast or made durable in any continuation |
| `Survivors.WindowAndEvictedSurvive` | backend/src/events.rs:322-354 | window and evicted events are together exactly the events accepted and not forgotten since, in order |
| `Survivors.WindowHoldsTheNewest` | backend/src/events.rs:335-345 | in every run, forgets and deletions included, the window is an end of the surviving events within its bound and holds every survivor among the newest numbers |
| `LogModel.StartKeepsInv` | backend/src/events.rs:201-207 | seeding the window from the newest rows establishes the invariant and loses no row |
| `LogModel.AppendEffect` | backend/src/events.rs:298-354 | an append adds its event to log, broadcast and window alike, or to none of them |
| `Durability.NumberingContinuesExactly` | backend/src/events.rs:201-207 | in every run over a store a restart numbers on exactly unless the chat of the newest event had its rows deleted after that event, and otherwise hands numbers out again |
| `Durability.RestartContinuesNumbering` | backend/src/events.rs:201-207 | so without deletions, forgets included, the next process numbers on from where this one stopped |
| `Durability.DeletionReusesNumbers` | backend/src/store/events.rs:163-172 | deleting the chat that holds the newest row lets a restart hand its number out again |
| `LogModel.AppendsExtend` | backend/src/events.rs:298-354 | successful appends one after another make exactly the extended log durable |
| `EventLogs.Store.SaveEvent` | backend/src/store/events.rs:9-24 | one row is inserted atomically in the order of numbers, and refused when its number is stored already or exceeds the signed 64-bit column |
| `EventLogs.Store.DeleteForSession` | backend/src/store/events.rs:169-172 | deleting a chat removes exactly its rows, or none when the transaction fails |
| `EventLogs.EventLog.AppendAt` | backend/src/events.rs:298-354 | an append goes through exactly when the log is open, the event fits and the store takes it; then row, broadcast and window gain that very entry under the next number, otherwise nothing does, and a refused write closes the log |
| `EventLogs.EventLog.Publish` | backend/src/events.rs:322-354 | number, window, oldest number and broadcast after one append |
| `EventLogs.EventLog.TrimWindow` | backend/src/events.rs:335-345 | popping from the front leaves the newest suffix within the bound, and records what left |
| `EventLogs.EventLog.ForgetChat` | backend/src/events.rs:431-433 | the window without the chat |
| `EventLogs.EventLog.DeleteChat` | backend/src/service/chats.rs:626-644 | rows first, window second, the invariant holding in between; when the rows cannot be deleted nothing is forgotten |
| `EventLogs.EventLog.SeedWindow` | backend/src/events.rs:201-207 | the startup state over a store |
| `EventLogs.EventLog.CloseAll` | backend/src/events.rs:250-285 | walking one ordered map appends a prefix of its closing entries, all of them unless one is refused |
| `EventLogs.EventLog.AppendRepairs` | backend/src/events.rs:250-285 | permissions, then elicitations, then turns: a prefix of the owed entries lands, and all on success |
| `EventLogs.EventLog.PersistentWithLimit` | backend/src/events.rs:201-287 | opening a log: on success the store holds the recovered log whatever the window size, each closing entry in its own chat and for its own agent; otherwise a prefix of its repairs and the reason why it stopped |
| `EventLogs.EventLog.HighWatermark` | backend/src/events.rs:356-364 | the highest durable number, or the last one allocated without a store |
| `EventLogs.EventLog.ReplayPage` | backend/src/events.rs:366-387 | one page of the store, or of the window without one: the front of the range, at most as long as the limit |
| `Replay.BetweenIsAscending` | backend/src/store/events.rs:61-86 | the reference answer is exactly the rows in the range, ascending |
| `Replay.PageMeaning` | backend/src/store/events.rs:61-86 | a page is the front of its range, never longer than the limit and shorter only when it is all of it |
| `Replay.PageIsRangeToItsLast` | backend/src/store/events.rs:61-86 | a non-empty page is exactly the range up to its own last number |
| `Replay.NextPage` | backend/src/events.rs:393-405 | one more page extends the collected range without gap or repeat, whatever was appended meanwhile |
| `EventLogs.EventLog.PageThrough` | backend/src/events.rs:393-405 | the paging loop returns exactly the durable events from the start number to the watermark, for any page size and any appends while paging |
| `EventLogs.EventLog.ReplayFrom` | backend/src/events.rs:389-425 | the store answer is that range, or complete and empty when a read fails; the window answer is partial, with the whole window, exactly below the oldest number read before the lock, and otherwise the window's events from the start number on, appends landing between the two reads |
| `Replay.ReplayFullExactly` | backend/src/events.rs:408-425 | without a store an answer, complete or partial, omits nothing exactly when everything the bound pushed out is older than the answer claims to reach |
| `Replay.ReplayWithMeaning` | backend/src/events.rs:408-425 | when the window answer is partial, what either answer holds, and that it is ascending |
| `Replay.ReplayTrustedExactly` | backend/src/events.rs:408-425 | with at most k events accepted between the two reads, answers omit nothing in every run exactly when the window has room for one event, the request starts at 1 or later and k is zero |
| `Permissions.StrayExactly` | backend/src/acp/callbacks.rs:233-247 | an id is left open in the log with nobody waiting exactly by a request logged for an ask already taken out or a failed cancel of a logged ask, and for the rest of the run |
| `Permissions.LogAgreesExactly` | backend/src/acp/callbacks.rs:215-252 | in every run over any log, other chats' rows included: the open ids of this handler are its pending ids exactly when no such step happened and no pending ask is unlogged; open ids carry their ask's owner |
| `Permissions.PendingMapIsTheFold` | backend/src/acp/callbacks.rs:431-475 | with whole asks and no failed append, the pending ids are what the recovery fold leaves open among the ids used here, and all it leaves open when no other chat asks |
| `Permissions.AnsweredOnce` | backend/src/acp/callbacks.rs:431-457 | an answered ask keeps its answer and never waits again |
| `PermissionOutcomes.OutcomeIsTheChoice` | backend/src/acp/callbacks.rs:431-475 | in every run a requester is sent an option exactly when that very option was chosen while its ask waited with it advertised and the choice was saved, and cancelled exactly when its ask was |
| `PermissionOutcomes.LoggedIsTheChoice` | backend/src/acp/callbacks.rs:439-452 | and the log answers an ask with an option exactly then |
| `Permissions.DeliveredWasAdvertisedAndLogged` | backend/src/acp/callbacks.rs:431-457 | in every run a delivered option was among those advertised and its answer is in the log |
| `Permissions.CancelInsideAnAsk` | backend/src/acp/callbacks.rs:459-475 | a cancel between an ask's insert and its logged request leaves a request that no continuation of the run closes |
| `Permissions.RestartClosesStrays` | backend/src/events.rs:250-260 | every request a run leaves open in the log gets its closing entry at the next restart, in its own chat and for its own agent |
| `CallbackHandlers.CallbackHandler.InsertAsk` | backend/src/acp/callbacks.rs:224-231 | the first section of an ask |
| `CallbackHandlers.CallbackHandler.LogAsk` | backend/src/acp/callbacks.rs:233-247 | the durable request with the options asked, in this chat, or the ask withdrawn |
| `CallbackHandlers.CallbackHandler.RequestUserPermission` | backend/src/acp/callbacks.rs:215-252 | an undisturbed ask is one whole step; a failed one leaves no trace |
| `CallbackHandlers.CallbackHandler.RespondPermission` | backend/src/acp/callbacks.rs:431-457 | an advertised option of a waiting ask whose row the log takes is logged and given as the answer, that option and no other; otherwise the ask waits on and nothing is logged |
| `CallbackHandlers.CallbackHandler.CancelOne` | backend/src/acp/callbacks.rs:461-474 | one drained ask is answered as cancelled whether or not its row is logged |
| `CallbackHandlers.CallbackHandler.CancelPendingPermissions` | backend/src/acp/callbacks.rs:459-475 | the drain empties the map, answers each ask once with cancelled, and is a run of cancel steps |
| `CallbackHandlers.CallbackHandler.Beside` | backend/src/events.rs:298-354 | an append of another chat to the shared log is one step of this handler's relation |
| `CallbackHandlers.RespondBeside` | backend/src/acp/callbacks.rs:431-457 | an answer in one chat's handler leaves another's over the same log as it was, open asks included |
| `Correlation.RunKeepsInv` | backend/src/acp/mod.rs:425-459 | every interleaving keeps the invariant over ids, pending map, channels and answers |
| `Correlation.NoLostWaiter` | backend/src/acp/mod.rs:425-459 | once the map was failed the connection is closed, no request past its second look is in the map, and every waiting caller has its outcome |
| `Correlation.LeftoversRemoveThemselves` | backend/src/acp/mod.rs:444-450 | whatever is left in the failed map, unless its caller is dropped, ends out of the map and refused by its own two sections, with any steps of others before, between and after them |
| `Correlation.DroppedEntryStaysExactly` | backend/src/acp/mod.rs:444-450 | the entry of a dispatcher dropped before its removal stays in the map exactly until the next sweep |
| `Correlation.DroppedEntryInAFailedMap` | backend/src/acp/mod.rs:438-450 | a run in which such an entry comes after the map was failed |
| `Correlation.WaiterKeepsItsChannel` | backend/src/acp/mod.rs:386-388 | a waiting caller's sender is in the map or its value is there, never both and never neither |
| `Correlation.IdsNeverReused` | backend/src/acp/mod.rs:434 | ids are handed out 1, 2, 3 without gap or reuse |
| `Correlation.ResolvedOnce` | backend/src/acp/mod.rs:1259-1280 | the first value of a response channel is its value in every later state |
| `Correlation.CallerGetsItsOwnAnswer` | backend/src/acp/mod.rs:1259-1280 | a caller is given the agent's answer to its own id (section 5 of the JSON-RPC 2.0 Specification) or the closing of the connection |
| `Correlation.EndingTellsWhy` | backend/src/acp/mod.rs:396-459 | in every run a refused request met a closed connection, an unwritten one a closed writer, an expired one its deadline, and a delivered one has what its channel carries |
| `Correlation.ResponseResolvesOnlyItsRequest` | backend/src/acp/mod.rs:1259-1280 | a response numbered n resolves request n exactly when its caller still listens, and nothing else |
| `Correlation.LateResponseChangesNothing` | backend/src/acp/mod.rs:396-421 | a response after its request timed out changes no request |
| `AcpClients.AcpClient.InsertPending` | backend/src/acp/mod.rs:438-442 | the section that enters the pending map |
| `AcpClients.AcpClient.Recheck` | backend/src/acp/mod.rs:444 | the second look at the connection |
| `AcpClients.AcpClient.Reject` | backend/src/acp/mod.rs:444-450 | the section that takes a refused request out again |
| `AcpClients.AcpClient.Enqueue` | backend/src/acp/mod.rs:452 | handing the line to the writer task |
| `AcpClients.AcpClient.RemoveUnwritten` | backend/src/acp/mod.rs:452-456 | a request whose line was not accepted leaves the map |
| `AcpClients.AcpClient.DispatchRequest` | backend/src/acp/mod.rs:425-459 | an undisturbed dispatch waits exactly when the connection is open, under a fresh id, and otherwise leaves no trace |
| `AcpClients.AcpClient.RemoveTimedOut` | backend/src/acp/mod.rs:407-408 | the section after a deadline |
| `AcpClients.AcpClient.HandleResponse` | backend/src/acp/mod.rs:1257-1281 | the reader's response section: entries nobody listens to go, then the one numbered is resolved with this outcome if its caller still listens |
| `AcpClients.AcpClient.FailPendingRequests` | backend/src/acp/mod.rs:1151-1159 | the drain gives each pending request the closing error and no other channel anything |
| `Utf8Stream.ValidIsEncoded` | backend/src/acp/callbacks.rs:999-1002 | the byte grammar (section 4 of RFC 3629) accepts only encodings of scalar values (section 3) |
| `Utf8Stream.EncodedIsValid` | backend/src/acp/callbacks.rs:999-1002 | and accepts every such encoding |
| `Utf8Stream.LossyIsValid` | backend/src/acp/callbacks.rs:1013-1015 | one-shot lossy decoding always yields well-formed text |
| `Utf8Stream.ValidDecodesToItself` | backend/src/acp/callbacks.rs:1004-1007 | well-formed bytes decode to themselves |
| `Utf8Stream.LossyByCharacter` | backend/src/acp/callbacks.rs:1013-1015 | a text that starts with the encoding of a scalar value keeps it; otherwise the longest beginning of one, or a single byte, becomes one U+FFFD |
| `Utf8Stream.BeginsExactly` | backend/src/acp/callbacks.rs:999-1002 | the byte grammar follows a text exactly as far as the encoding of some scalar value does |
| `Utf8Stream.CutExactly` | backend/src/acp/callbacks.rs:1013-1015 | decoding two pieces apart equals decoding them together exactly when the cut is not inside a character; otherwise it gives more text |
| `Utf8Stream.StreamingExactly` | backend/src/acp/callbacks.rs:985-1033 | the streamed text is the one-shot decoding exactly when no flush of four or more bytes ends inside a character the next reads finish |
| `Utf8Stream.AnyCuttingOfValidText` | backend/src/acp/callbacks.rs:985-1033 | however a well-formed stream is cut into reads, the text is the stream |
| `Utf8Stream.SingleRead` | backend/src/acp/callbacks.rs:985-1033 | a stream that arrives in one read decodes as a whole |
| `Utf8Stream.OutputIsWellFormed` | backend/src/acp/callbacks.rs:1004-1007 | every text handed on unchecked is well formed, for any bytes |
| `Utf8Stream.Feed` | backend/src/acp/callbacks.rs:1010-1022 | what is held between reads is at most three bytes |
| `Utf8Stream.AFlushCanSplit` | backend/src/acp/callbacks.rs:1013-1016 | an ill-formed byte can flush the start of a character along with it |
| `Utf8Stream.DrainTerminalStream` | backend/src/acp/callbacks.rs:985-1033 | the read loop computes the streamed decoding |
| `ReadWindow.LinesGiveTheTextBack` | backend/src/acp/callbacks.rs:955 | lines joined back are the text exactly when it holds no CRLF, and never longer |
| `ReadWindow.LinesByLineFeed` | backend/src/acp/callbacks.rs:955 | the line before the first line feed, without a carriage return at its end, then the lines after it |
| `ReadWindow.RefusedExactly` | backend/src/acp/callbacks.rs:950-963 | a window is refused exactly for line zero or a start past the line after the last, each with its error |
| `ReadWindow.WindowContents` | backend/src/acp/callbacks.rs:964-982 | the lines from the start line on, as many as the limit allows and the text has, joined, with the last newline when they reach the end and are not blank |
| `ReadWindow.WindowDefaults` | backend/src/acp/callbacks.rs:943-968 | no start line is line 1, no limit is any limit past the end, limit zero reads nothing |
| `ReadWindow.WholeFileExactly` | backend/src/acp/callbacks.rs:943-983 | no window returns the file exactly when it holds no CRLF and is not one blank line |
| `ReadWindow.WindowsTileExactly` | backend/src/acp/callbacks.rs:969-982 | adjacent windows joined by a newline are the window over both, exactly unless the second is a blank, newline-ended last line |
| `ElicitationForms.ValidateElicitationContent` | backend/src/acp/callbacks.rs:751-819 | a form is accepted exactly when every value fits its declared property and every declared required name is there; the answer is the checked values and the defaults; an error names a field it is true of |
| `ElicitationForms.AcceptedExactly` | backend/src/acp/callbacks.rs:821-941 | which values each kind of property takes, by its bounds, lengths and choices |
| `ElicitationForms.AcceptedAsSubmitted` | backend/src/acp/callbacks.rs:821-941 | an accepted value is sent as submitted, numbers in the property's kind |
| `ElicitationForms.DefaultMeaning` | backend/src/acp/callbacks.rs:774-804 | the default of an omitted field is the declared one |
| `ElicitationForms.CheckingTwice` | backend/src/acp/callbacks.rs:821-941 | a checked value passes its check unchanged |
| `ElicitationForms.ValidatedIsFixed` | backend/src/acp/callbacks.rs:751-819 | an accepted answer is accepted unchanged again exactly when every default filled in satisfies its own property |
| `ElicitationForms.UncheckedDefault` | backend/src/acp/callbacks.rs:774-807 | a default outside its own bounds is sent, and refused when submitted |
| `CallbackUrls.UniqueMeaning` | backend/src/auth/protocol.rs:173-183 | a query value is found exactly when its key stands at one place |
| `CallbackUrls.CapturedExactly` | backend/src/auth/protocol.rs:126-171 | which authorization URLs are captured: HTTPS, no credentials or fragment, one non-empty state, one plain loopback redirect with a port; and that the captured request holds exactly that text, state, host, port and path |
| `CallbackUrls.CaptureRefusalIsTrue` | backend/src/auth/protocol.rs:126-171 | what the reason of a refused capture says is so |
| `CallbackUrls.RelayedExactly` | backend/src/auth/protocol.rs:194-243 | which callbacks are relayed, and where: the captured port and path at the captured host's literal address |
| `CallbackUrls.CallbackRefusalIsTrue` | backend/src/auth/protocol.rs:194-243 | what the reason of a refused callback says is so |
| `CallbackUrls.RelayIsFixed` | backend/src/auth/protocol.rs:230-242 | a relay target submitted again yields itself, exactly when the captured host was a literal |
| `ProtocolFlows.FinishedIsFinal` | backend/src/auth/protocol.rs:377-406 | a finished flow keeps its state, reason and time for ever |
| `ProtocolFlows.FirstFinisherStands` | backend/src/auth/protocol.rs:377-406 | in every run the flow ends in the first finisher's state, for its reason and at its time, and without one it is unfinished |
| `ProtocolFlows.LastNoteShows` | backend/src/auth/protocol.rs:415-430 | until then it waits for its user exactly when the last note said so |
| `ProtocolFlows.FinishedHoldsNothing` | backend/src/auth/protocol.rs:377-406 | in every run a finished flow holds no interaction |
| `ProtocolFlows.CapturedOnce` | backend/src/auth/protocol.rs:432-462 | in every run at most one authorization request is installed |
| `ProtocolFlows.FirstCaptureStands` | backend/src/auth/protocol.rs:432-462 | and it is the first request captured before any finisher, unchanged |
| `ProtocolFlows.OneRelayAtATime` | backend/src/auth/protocol.rs:476-503 | in every run at most one relay is under way and at most one ever succeeds |
| `ProtocolFlows.SuccessIsTheLastRelay` | backend/src/auth/protocol.rs:493-503 | after a success nothing is relayed again |
| `ProtocolFlows.RelaysStayOnTheCapturedEndpoint` | backend/src/auth/protocol.rs:230-242 | in every run every relay target carries the captured port, path and literal address |
| `ProtocolFlows.RelaysCarryASubmittedQuery` | backend/src/auth/protocol.rs:230-242 | and the query of a submitted callback |
| `ProtocolFlows.BeginsExactly` | backend/src/auth/protocol.rs:476-491 | a relay begins exactly when an interaction stands, is not being relayed and accepts the callback |
| `ProtocolFlows.VanishedRelayBlocks` | backend/src/auth/service.rs:960-1001 | a relay whose caller vanished blocks every later one until the flow ends |
| `ProtocolFlows.ProtocolAuthFlow.FinishFlow` | backend/src/auth/protocol.rs:377-406 | an unfinished flow takes the given state, reason and time and holds no interaction; a finished one stays as it is |
| `ProtocolFlows.ProtocolAuthFlow.NoteWaiting` | backend/src/auth/protocol.rs:415-430 | the waiting note |
| `ProtocolFlows.ProtocolAuthFlow.InstallAuthorization` | backend/src/auth/protocol.rs:432-459 | the installing section of a capture |
| `ProtocolFlows.ProtocolAuthFlow.SetAuthorizationRequest` | backend/src/auth/protocol.rs:432-462 | a whole capture: installed and waiting for the user, or nothing changed |
| `ProtocolFlows.ProtocolAuthFlow.BeginCallback` | backend/src/auth/protocol.rs:480-491 | the interaction section of a relay's beginning: its refusals, or the mark on the same request and one more target |
| `ProtocolFlows.ProtocolAuthFlow.FinishCallback` | backend/src/auth/protocol.rs:493-503 | a success takes the interaction, a failure frees it |
| `ProtocolFlows.ProtocolAuthFlow.RelayProtocolCallback` | backend/src/auth/service.rs:960-1001 | an undisturbed relay pairs its beginning with its end: success ends the interaction, failure restores it |
| `FlowRegistry.AgentLimitHoldsExactly` | backend/src/auth/protocol.rs:568-600 | with at most k overlapping starts one agent's limit holds in every run exactly when k is at most one |
| `FlowRegistry.OverallLimitHoldsExactly` | backend/src/auth/protocol.rs:568-600 | and the overall limit likewise |
| `FlowRegistry.OverlapLoosensTheBounds` | backend/src/auth/protocol.rs:568-600 | with at most k overlapping starts there are fewer than the limit plus k active flows, over all agents and for each |
| `FlowRegistry.SerialStartsKeepTheLimits` | backend/src/auth/flow.rs:399-418 | when starts do not overlap the limits hold throughout |
| `FlowRegistry.OverlapReachesTheAgentBound` | backend/src/auth/flow.rs:324-353 | a run of k overlapping starts that gives one agent the limit plus k - 1 flows |
| `FlowRegistry.OverlapReachesTheOverallBound` | backend/src/auth/flow.rs:324-353 | a run of k overlapping starts after others that reaches the overall limit plus k - 1 |
| `FlowRegistry.PruneForgetsOnlyOldFlows` | backend/src/auth/flow.rs:420-435 | pruning drops exactly the flows finished for the retention time, never an active one |
| `FlowRegistry.FlowKeepsItsAgentAndEnd` | backend/src/auth/flow.rs:399-435 | in every run a flow still known belongs to the agent it was started for and finished when it first did |
| `FlowRegistry.Flows.CheckBounds` | backend/src/auth/protocol.rs:622-641 | the check section |
| `FlowRegistry.Flows.Start` | backend/src/auth/protocol.rs:568-600 | an undisturbed start registers exactly when both bounds allow |
| `TerminalFlows.ScrollbackIsTheTail` | backend/src/auth/flow.rs:438-453 | in every run the scrollback is the last bytes ever pumped, up to its bound |
| `TerminalFlows.AttachedClientsSeeEverything` | backend/src/auth/flow.rs:160-170 | a client's scrollback and what it received are a gap-free end of all output exactly when the feed dropped nothing on it, and nothing is unaccounted for |
| `TerminalFlows.ReceiveMeaning` | backend/src/auth/flow.rs:22-23 | one receive: the next chunk within 256 of the newest, and otherwise a jump to the oldest kept, with what was lost counted |
| `TerminalFlows.PromptClientMissesNothing` | backend/src/auth/flow.rs:22-23 | in every run a client that was never further behind when it received misses nothing |
| `TerminalFlows.SuccessIsPublishedAfterItsHook` | backend/src/auth/flow.rs:189-222 | the hook runs once for a success and never otherwise, and no poller sees a success before it returned |
| `TerminalFlows.FirstFinisherDecides` | backend/src/auth/flow.rs:189-222 | once a finisher is past its check its ending is the flow's for ever |
| `TerminalFlows.FirstEnteringStands` | backend/src/auth/flow.rs:189-222 | in every run the flow has, or is about to have, the ending of its first finisher, and runs on without one |
| `TerminalFlows.FinishIsItsSections` | backend/src/auth/flow.rs:189-222 | one undisturbed finish is its lock sections run together |
| `TerminalFlows.TerminalAuthFlow.PumpOutput` | backend/src/auth/flow.rs:438-453 | pumping a chunk |
| `TerminalFlows.TerminalAuthFlow.TrimScrollback` | backend/src/auth/flow.rs:446-449 | the drain loop leaves the newest bytes within the bound |
| `TerminalFlows.TerminalAuthFlow.AttachClient` | backend/src/auth/flow.rs:160-170 | tail and subscription are taken together |
| `TerminalFlows.TerminalAuthFlow.DetachClient` | backend/src/auth/flow.rs:172-183 | a detach takes the client away and counts down, never below zero; the count is the attached clients, short by at most the repeated detaches |
| `TerminalFlows.TerminalAuthFlow.CountDown` | backend/src/auth/flow.rs:172-176 | the saturating count |
| `TerminalFlows.TerminalAuthFlow.Finish` | backend/src/auth/flow.rs:189-222 | a finish under one lock hold |
| `DiscoveryCache.DiscoveryAndEvidenceCommute` | backend/src/store/auth_cache.rs:127-171 | discovery and evidence writes commute and leave each other's fields alone; evidence and a stale mark commute exactly when there is a row |
| `DiscoveryCache.RowIsTheLastSaved` | backend/src/store/auth_cache.rs:127-189 | in every run from any kept row: methods, logout flag and time are those of the last save by a probe past its check, or of the kept row, as long as neither was deleted since; stale exactly when a stale mark landed since |
| `DiscoveryCache.EvidenceIsTheLastObserved` | backend/src/store/auth_cache.rs:147-189 | and the evidence is what was last observed and not deleted since |
| `DiscoveryCache.InvalidationBeatsEarlierProbes` | backend/src/auth/service.rs:1380-1425 | in every run from any kept row, with no invalidation halfway: a checked row that is not stale has a writer, and comes from a probe that started after the last invalidation exactly when no invalidation came wholly between that writer's check and save and no mark failed since |
| `DiscoveryCache.SavedRowIsCurrentExactly` | backend/src/auth/service.rs:1380-1425 | the same on the steps themselves: check, anything, save, anything short of a save; current exactly when no invalidation stamped after the check was carried to the row before the save and none of them failed in the store after it |
| `DiscoveryCache.KeptRowIsCurrentExactly` | backend/src/auth/service.rs:1316-1331 | a row kept from an earlier process and still trusted is current exactly when nothing was invalidated |
| `DiscoveryCache.FailedMarkLeavesAnOutdatedRow` | backend/src/auth/service.rs:1316-1331 | a mark that fails in the store leaves a kept row trusted although it was invalidated |
| `DiscoveryCache.AtomicWritesAreAlwaysCurrent` | backend/src/auth/service.rs:1316-1425 | with writes and invalidations as single steps and marks that land, in every run from any kept row a trusted row is that recent, and after an invalidation a probe of this run that started after it wrote it |
| `DiscoveryCache.SupersededProbeWritesNothing` | backend/src/auth/service.rs:1390-1397 | in every run a probe that started no later than the last invalidation writes nothing, in one step or in two with anything between |
| `DiscoveryCache.RaceLeavesAnOutdatedRow` | backend/src/auth/service.rs:1390-1418 | an invalidation between a probe's check and its save is lost |
| `DiscoveryCache.LabelMeaning` | backend/src/auth/service.rs:331-370 | when each freshness label is given |
| `DiscoveryCache.LabelsAreIndependent` | backend/src/auth/service.rs:331-370 | no discovery write moves the evidence label and no evidence write the discovery label |
| `AuthServices.AgentAuthService.CheckSuperseded` | backend/src/auth/service.rs:1390-1397 | the check section |
| `AuthServices.AgentAuthService.SaveFull` | backend/src/store/auth_cache.rs:127-145 | the row gets the probe's methods and logout flag, this time and no stale mark, and keeps the observed fields |
| `AuthServices.AgentAuthService.CacheWriteFull` | backend/src/auth/service.rs:1380-1425 | a whole write: committed exactly when not superseded and saved, and always without a store; a committed row holds the probe's discovery and the old evidence, and no other agent's part changes |
| `AuthServices.AgentAuthService.MarkRowInStore` | backend/src/store/auth_cache.rs:176-189 | the store's half of an invalidation |
| `AuthServices.AgentAuthService.InvalidateAgent` | backend/src/auth/service.rs:1316-1331 | stamp, then mark stale |
| `AuthServices.AgentAuthService.ForgetAgent` | backend/src/auth/service.rs:1336-1351 | stamp, then delete |
| `AuthServices.AgentAuthService.CacheWriteObserved` | backend/src/auth/service.rs:1431-1443 | evidence only, in a minimal row when there is none |
| `SingleFlight.ProbesNeverOverlap` | backend/src/auth/service.rs:496-535 | in every run two refresh probes never overlap |
| `SingleFlight.AnswersAreRecentEnough` | backend/src/auth/service.rs:505-517 | every answered caller has the outcome of a probe that completed at or after its request |
| `SingleFlight.EarlyCallersShareOneProbe` | backend/src/auth/service.rs:505-517 | callers who all asked before the first probe completed share exactly that one, failed or not |
| `SingleFlight.ProbesExactlyWhenNeeded` | backend/src/auth/service.rs:505-520 | a caller probes exactly when it asked after every completed probe |
| `SingleFlight.FreshLabelIsRightExactly` | backend/src/auth/service.rs:331-347 | in every run of the cache a refresh is labelled fresh exactly for a committed outcome over a checked row, and is right about it exactly when no invalidation was stamped after the row's writer had checked |
| `SingleFlight.FreshOverAStaleRow` | backend/src/auth/service.rs:526-535 | an invalidation between a refresh's commit and its answer: fresh to the caller, stale to the next reader |
| `SingleFlight.AgentRefresh.RefreshNow` | backend/src/auth/service.rs:496-551 | an undisturbed refresh reuses the last outcome or runs one probe and records it |
| `AgentModel.CatalogIsStartupAndRows` | backend/src/agents/manager.rs:480-829 | in every run the catalog is the read-only startup entries and the projections of the rows, nothing else |
| `AgentModel.RestartRebuildsTheCatalog` | backend/src/agents/manager.rs:313-320 | restarting into the same read-only entries succeeds, and rebuilds the very catalog exactly when no row's availability moved since it was projected |
| `AgentModel.RestartIsInvisibleOnAFixedHost` | backend/src/agents/manager.rs:313-320 | on an unchanged host a restart is invisible |
| `AgentModel.RetiredAgentsHaveNoRuntime` | backend/src/agents/mod.rs:106-113 | in every run a retired agent is listed and has no runtime |
| `AgentModel.EntryShowsItsRow` | backend/src/agents/installed.rs:156-171 | in every run each row's entry shows its id, source, command and details, and is available exactly when the row is not retired and the host it was projected on had its runtime |
| `AgentModel.UnavailableMeaning` | backend/src/agents/installed.rs:173-203 | available exactly when not retired and the runtime is there; the reason says which fails and what is missing |
| `AgentModel.RefreshReadsTheHost` | backend/src/agents/manager.rs:325-332 | re-reading availability brings every entry to what the host offers now |
| `AgentModel.RetirementBeginsExactly` | backend/src/agents/manager.rs:706-718 | a step retires an agent exactly when it is an accepted removal of it with chats left |
| `AgentModel.RetiredExactly` | backend/src/agents/manager.rs:687-746 | in every run an agent is retired exactly when such a removal came and neither an edit nor a removal without chats since |
| `AgentModel.RetirementEndsExactly` | backend/src/agents/manager.rs:687-746 | which steps end a retirement: an edit of that definition, or a removal with no chat left |
| `AgentModel.EditRevivesRetired` | backend/src/agents/custom.rs:133-147 | editing a retired definition makes it available again |
| `AgentModel.OperationsTouchOnlyTheirAgent` | backend/src/agents/manager.rs:480-829 | no operation touches another agent's row or entry, nor a read-only one |
| `AgentManagers.AgentCatalog.Insert` | backend/src/agents/mod.rs:166-178 | an insert never replaces |
| `AgentManagers.AgentCatalog.Replace` | backend/src/agents/mod.rs:183-203 | a replace needs the same source |
| `AgentManagers.AgentStore.InsertAgent` | backend/src/store/agents.rs:43-62 | a row is never overwritten by an insert |
| `AgentManagers.AgentStore.UpdateAgent` | backend/src/store/agents.rs:66-80 | an update needs the row and its source |
| `AgentManagers.AgentStore.DeleteAgent` | backend/src/store/agents.rs:82-88 | deleting a missing row fails |
| `AgentManagers.AgentManager.LoadPersisted` | backend/src/agents/manager.rs:313-320 | the startup loop succeeds exactly when no row's id is a read-only one, and then gives the started state |
| `AgentManagers.AgentManager.EnsureIdIsFree` | backend/src/agents/manager.rs:907-924 | free in the catalog and in the store |
| `AgentManagers.AgentManager.AddRecord` | backend/src/agents/manager.rs:555-565 | row and entry together or neither; the catalog cannot refuse a free id |
| `AgentManagers.AgentManager.ChangeRecord` | backend/src/agents/manager.rs:666-669 | row and entry together or neither; the catalog cannot refuse the owning source |
| `AgentManagers.AgentManager.InstallAgent` | backend/src/agents/manager.rs:480-566 | an install succeeds exactly when the id is free and every call succeeds; row and entry then hold exactly what was given |
| `AgentManagers.AgentManager.UpdateAgent` | backend/src/agents/manager.rs:576-679 | an update replaces command, details and snapshot of a registry row and keeps the rest; the same version changes nothing |
| `AgentManagers.AgentManager.RemoveAgent` | backend/src/agents/manager.rs:687-746 | deletes row and entry with no chat left, its private values too when that write is accepted; otherwise marks the row retired and its entry unavailable, and keeps them; changes nothing on failure |
| `AgentManagers.AgentManager.CreateCustomAgent` | backend/src/agents/manager.rs:795-807 | a custom definition succeeds exactly when it is valid, its id free and the calls succeed, and is then available as given |
| `AgentManagers.AgentManager.EditCustomAgent` | backend/src/agents/manager.rs:809-829 | an edit rebuilds the record, keeping id and creation time |
| `Operations.OneRunningPerAgent` | backend/src/agents/operations.rs:227-252 | in every run at most one operation per agent is running |
| `Operations.FinishedNeverChanges` | backend/src/agents/operations.rs:136-176 | in every run a finished operation never changes and a dropped one never returns |
| `Operations.FirstEndDecides` | backend/src/agents/operations.rs:136-176 | in every run an operation ends as its first ending report says, success or failure, with that report's details |
| `Operations.LastReportShows` | backend/src/agents/operations.rs:136-160 | until then it shows the last stage and byte counts reported |
| `Operations.RunningIsNeverDropped` | backend/src/agents/operations.rs:282-309 | in every run a running operation stays registered until its own progress ends it |
| `Operations.PruneBounds` | backend/src/agents/operations.rs:282-309 | after a prune at most fifty finished operations remain, none expired, and all of them when they are fifty or fewer |
| `Operations.DroppingTheOldest` | backend/src/agents/operations.rs:295-308 | removing the front of the sorted keys keeps the fifty latest |
| `Operations.AgentOperations.PruneLocked` | backend/src/agents/operations.rs:282-309 | the prune: retain, sort, remove |
| `Operations.AgentOperations.RegisterOperation` | backend/src/agents/operations.rs:227-252 | registered exactly when the agent has none running |
| `Operations.AgentOperations.AdvanceOperation` | backend/src/agents/operations.rs:136-176 | one progress report |
| `AgentEnv.MergeLaunchEnv` | backend/src/workspace_env.rs:375-384 | launch values win over workspace values |
| `AgentEnv.ApplyPassEnvFrom` | backend/src/workspace_env.rs:475-486 | listed stashed names are injected |
| `AgentEnv.ResolveAgentEnvWithOverrides` | backend/src/workspace_env.rs:449-463 | each name resolves to its override, else if stashed to the stashed value when listed and to nothing otherwise, else to its launch value, else to its workspace value |
| `AgentEnv.TakeSecretEnv` | backend/src/workspace_env.rs:392-405 | the stash and what is left are disjoint and together the environment before |
| `AgentEnv.StashThenResolve` | backend/src/workspace_env.rs:392-463 | a stashed name an agent neither lists nor overrides is absent, whatever workspace and launch hold |
| `AgentEnv.SecretsDoNotLeak` | backend/src/workspace_env.rs:449-463 | the result tells nothing of workspace or launch values of stashed names, nor of unlisted stashed values |
| `AgentEnv.SecretReachesExactly` | backend/src/workspace_env.rs:449-463 | a stashed value reaches the process exactly when listed and not overridden |
| `TerminalNoise.StrippedIsClean` | backend/src/workspace_env.rs:118-159 | nothing but printable characters, newlines and tabs is left |
| `TerminalNoise.KeptExactly` | backend/src/workspace_env.rs:150-156 | newline, tab and everything but the control characters is kept |
| `TerminalNoise.ControlCharacterVanishes` | backend/src/workspace_env.rs:150-156 | a control character that starts no sequence goes alone, the text around it staying |
| `TerminalNoise.CleanIsUntouched` | backend/src/workspace_env.rs:118-159 | cleaning leaves a text as it is exactly when it is clean |
| `TerminalNoise.StripIsIdempotent` | backend/src/workspace_env.rs:118-159 | cleaning twice is cleaning once |
| `TerminalNoise.CleanPrefixStays` | backend/src/workspace_env.rs:150-156 | clean text in front stays in front |
| `TerminalNoise.ControlSequenceVanishes` | backend/src/workspace_env.rs:124-132 | a whole control sequence (section 5.4 of ECMA-48) vanishes |
| `TerminalNoise.ControlStringVanishes` | backend/src/workspace_env.rs:133-146 | a whole operating system command (section 5.6 of ECMA-48) vanishes, ended by BEL or by the next escape |
| `TerminalNoise.UnfinishedSequenceVanishes` | backend/src/workspace_env.rs:124-146 | a sequence the text breaks off takes the rest with it |
| `TerminalNoise.StripTerminalNoise` | backend/src/workspace_env.rs:118-159 | the scanning loop computes the cleaning |

## Left out

- Timestamps, wall-clock formatting, UUID generation and 64-bit wrap-around of sequence numbers and request ids: ids are fresh and numbers unbounded, save for the signed 64-bit column of the event table.
- SQLite, serde encodings and HTTP: the store is its rows, each call atomic, with its failures as parameters.
- EventLogs.EventLog.PersistentWithLimit: the startup queries fail together or not at all.
- Payload fields that no rule reads, such as texts and titles; permission rows of the legacy shape fold like current ones.
- Elicitation requests as a protocol (pending map, URL ids chosen by the agent, unknown modes logged without a response): only the recovery of their rows and the validation of forms.
- Correlation.NoLostWaiter: safety only; that a dispatcher takes its next section is up to the scheduler. The 16-permit semaphore, notifications and the requests the agent sends are not modelled.
- Spawning, process groups, PTY calls, killing and stderr: the process end is the closing of the connection.
- TerminalFlows.AttachedClientsSeeEverything: how a socket re-synchronises its own decoder after lagging is not part of this model.
- Idle and lifetime bounds of flows, poll intervals and timer precision.
- CallbackUrls.RelayedExactly: URL parsing and percent-encoding are the library's; a URL is the record it yields.
- The browser capture that offers authorization URLs, the ACP work behind a flow, and the terminal command it prepares.
- AuthServices.AgentAuthService.CacheWriteFull: methods are a list of names.
- SingleFlight.AgentRefresh.RefreshNow: one agent's lock and last attempt; the maps that hold them per agent are not modelled.
- AgentManagers.AgentManager.InstallAgent: resolving, downloading and unpacking are one outcome; the fields set together are one value, and id syntax is not checked.
- AgentManagers.AgentManager.RemoveAgent: the removal of install directories is not modelled, and retirement keeps no chat count in its reason.
- The re-reading of availability is a step of module AgentModel only, taken as one step; no start-up path calls it.
- Operations.AgentOperations.AdvanceOperation: operations are values in the registry's map, so a handle held outside it is not modelled; looking up a missing one is not either.
- ElicitationForms.ValidateElicitationContent: numbers are reals, so the rounding of large integers to floating point, not-a-number and the 32-bit text length are not modelled; which of several errors is reported first is left open, and so is its wording.
- ReadWindow.WholeFileExactly: line numbers and counts are unbounded.
- AgentEnv.TakeSecretEnv: variables that are not valid Unicode are not modelled, and trimming is the library's.
- `direnv`, Git, worktrees, sessions, tasks, routes and the frontend.
- Field checks of custom and declarative definitions, registry browsing and content validation: easy members.
