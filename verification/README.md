# Browser core and companions: verified model

This project models, in Dafny, the protocols and algorithms at the heart of a provider-neutral browser
automation core and of a few neighbouring packages, and proves what they promise.

| file | what it models |
|---|---|
| `session_model.dfy`, `snapshot_store.dfy`, `browser_state.dfy` | frame epochs and the store of page snapshots: specification on values, its properties, and the session objects updated in place |
| `inspect_protocol.dfy`, `browser_snapshot.dfy`, `snapshot_paging.dfy`, `inspect_reading.dfy`, `exposed_element.dfy` | `inspect` cut at its awaits and interleaved with navigation, publication, paging under a byte budget, and what is exposed of an element, with its size |
| `action_gate.dfy` | one action at a time, recovery after an interruption, poisoning |
| `semantic_registry.dfy`, `semantic_records.dfy`, `semantic_tree.dfy`, `semantic_input.dfy`, `semantic_cycles.dfy`, `forests.dfy` | canonical nodes with their index, where what a page hands in is recorded, and the forest of semantic nodes |
| `semantic_serializer.dfy`, `semantic_survivors.dfy` | the serialization of that forest under two budgets, and which nodes survive it |
| `network_model.dfy`, `network_events.dfy`, `network_log.dfy` | the bounded network log whose entries are shared with the map of live requests |
| `listener_model.dfy`, `listener_steps.dfy`, `dom_listener.dfy` | single-flight listener initialization guarded by a generation |
| `drag_gesture.dfy` | the drag gesture and its cleanup under arbitrary command failures |
| `utf8_budget.dfy` | cutting UTF-16 text to a UTF-8 byte budget (section 3 of RFC 3629, section 2 of RFC 2781) |
| `redaction.dfy` | the bounded in-place redaction walk with an explicit stack |
| `paint_order.dfy`, `stable_sort.dfy` | the occlusion filter by paint order |
| `dom_traversal.dfy` | the DOM walk that collects interactive elements |
| `byok_keys.dfy`, `byok_migration.dfy` | the migration of legacy providers into custom providers |
| `extension_resolution.dfy`, `turn_assembly.dfy` | which extensions a profile loads, and the assembly of a turn |
| `sequences.dfy` | optional values and order-preserving filtering |

Code that computes values is modelled by functions and lemmas. Code that updates objects is modelled by classes
and methods that are proved equal to a specification on values, and the properties are proved of that
specification. Asynchronous code is cut at its awaits; between two segments any other event may happen.
`dafny verify dfyconfig.toml` checks everything.

## What turned out not to hold

- The page-domain flag of the listener is assigned before the generation is checked again
  (`packages/browser-core/src/cdp-helper.ts:443`). A late answer sets it for a generation in which nothing was
  enabled, or clears it for one in which the domain was enabled. `ListenerModel.PageFlagCanOutliveItsGeneration`
  and `ListenerModel.PageFlagCanBeClearedLate` give the runs, `ListenerModel.PageFlagAfterAnAnswer` says exactly
  when the flag is right.
- Not every eligible legacy provider is moved: names are looked up in plain objects, so an id such as
  `constructor` or `toString` is taken for an already recorded one and the provider is deleted
  (`packages/config/src/byok-config.ts:232-240`). `ByokMigration.InheritedNamesAreLost` gives the input,
  `ByokMigration.ProvidersMove` says exactly which providers move.
- Head and tail of a preview can overlap when the preview budget is larger than the inline limit.
  `Utf8Budget.TwoLettersShownTwice` gives a text, `Utf8Budget.PreviewsRepeatExactlyWhen` the exact condition on
  the two settings.
- Two semantic nodes on one cycle of the combined parent relation are missing from the semantic tree.
  `SemanticCycles.MutualTargetsAreLost` gives such a page,
  `SemanticCycles.NothingIsLostExactlyWhenNoCycleHoldsTwo` says exactly when nothing is lost.

## Model

| member | source | states |
|---|---|---|
| `InspectProtocol.RetainedElementsAreNeverRevoked` | packages/browser-core/src/browser-snapshot.ts:109-166 | After any interleaving of awaits, navigations and child-frame events, no element of a retained snapshot belongs to a frame, session or page that was invalidated since its inspect captured the epochs. |
| `InspectProtocol.PublishesExactlyTheUntouched` | packages/browser-core/src/browser-snapshot.ts:118-165 | Under another generation nothing is published and the session is left alone. Under the same one the published snapshot holds, in order and field by field, the scanned elements that no invalidation since the capture touched: backend node, owner, editable and bytes are those of the scan, the ref is that of the generation with the token of its position. |
| `InspectProtocol.CurrentAreUntouched` | packages/browser-core/src/browser-state.ts:211-221 | Filtering by epochs keeps exactly the elements that no event since the capture touched, in order. |
| `SessionModel.KeysAreTheIds` | packages/browser-core/src/browser-state.ts:283-288 | The epoch keys of an identity are those of its non-empty frame id and its non-empty session id. |
| `InspectProtocol.PublicationsStay` | packages/browser-core/src/browser-snapshot.ts:150-162 | Once published, an id keeps naming the same elements over every run. |
| `InspectReading.ContinuationsReadWhatWasPublished` | packages/browser-core/src/browser-snapshot.ts:92-108 | In any interleaving after publication, the accepted continuations of a snapshot return consecutive slices of what was published, from the first element on; when no further page is announced all of it was shown. |
| `InspectReading.AnswersAreConsecutive` | packages/browser-core/src/browser-snapshot.ts:238-293 | One accepted continuation extends what was shown by the next slice; a refused one changes nothing. |
| `InspectReading.AnsweredExactlyWhen` | packages/browser-core/src/browser-snapshot.ts:92-108 | A question is answered exactly when it asks for the announced offset, the snapshot is still retained, unexpired and not invalidated, and the page fits; the answer appends that page of the published elements. |
| `InspectReading.ReadingGoesOn` | packages/browser-core/src/browser-snapshot.ts:92-108 | The same for one more question after any interleaving, starting from nothing shown and offset zero. |
| `InspectProtocol.CurrentExactlyWhenNotRevoked` | packages/browser-core/src/browser-state.ts:211-221 | Within one generation the epoch comparison succeeds exactly for owners none of whose frames was replaced since the baseline was captured. |
| `InspectProtocol.EpochsTrackReplacement` | packages/browser-core/src/browser-state.ts:223-231 | Advancing the epochs of a replaced frame keeps the correspondence between epochs and the history of replacements. |
| `InspectProtocol.FrameReplacedKeepsInvariant` | packages/browser-core/src/browser-state.ts:223-248 | Replacing a child frame keeps the invariant for running inspects and for retained snapshots alike. |
| `InspectProtocol.MainNavigatedKeepsInvariant` | packages/browser-core/src/browser-action-targets.ts:332-338 | Clearing the epochs on a main navigation is sound because every running inspect and every snapshot of the old generation is cut off. |
| `InspectProtocol.StepKeepsInvariant` | packages/browser-core/src/browser-snapshot.ts:109-166 | Every event and every segment of inspect keeps the invariant that ties epochs, calls and snapshots to the history. |
| `InspectProtocol.RunKeepsInvariant` | packages/browser-core/src/browser-core.ts:162-193 | The invariant holds after every run of events, in any order. |
| `InspectProtocol.RefsDieWithTheirGeneration` | packages/browser-core/src/browser-action-targets.ts:332-338 | A ref issued before a main navigation is resolved by no later state of any run. |
| `InspectProtocol.GenerationNeverDecreases` | packages/browser-core/src/browser-action-targets.ts:332-333 | Over any run the generation only grows. |
| `InspectProtocol.ServedContinuationsAreFrozen` | packages/browser-core/src/browser-state.ts:168-184 | Whenever a continuation is still served, its snapshot holds exactly the elements published under that id. |
| `SessionModel.MatchIsSharedKey` | packages/browser-core/src/browser-state.ts:283-298 | Two frame identities match exactly when they share an epoch key, so the filter and the epochs speak of the same frames. |
| `SessionModel.BumpAdvancesExactlyTheseKeys` | packages/browser-core/src/browser-state.ts:228-231 | Invalidating a frame changes the epochs of its own keys and no other epoch. |
| `SnapshotStore.StoreKeepsTheNewest` | packages/browser-core/src/browser-state.ts:147-166 | At most three snapshots remain; the stored one remains at the end, with its access time, and is the latest; an unexpired one is evicted only when the store is full and no retained one was accessed earlier; generation and epochs stay. |
| `SnapshotStore.EvictDropsTheOldest` | packages/browser-core/src/browser-state.ts:154-164 | Of four snapshots exactly one goes, one accessed no later than any that stays, and never the newest. |
| `SnapshotStore.PruneKeepsWellFormed` | packages/browser-core/src/browser-state.ts:300-319 | Pruning keeps exactly the current, unexpired snapshots in order and leaves the latest among them. |
| `SnapshotStore.ResolvesExactlyThroughLiveSnapshots` | packages/browser-core/src/browser-state.ts:186-200 | A ref resolves if and only if a retained, unexpired snapshot holds it, and then through the newest one, whose access time is renewed while nothing else changes. |
| `SnapshotStore.ForeignGenerationNeverResolves` | packages/browser-core/src/browser-state.ts:192-193 | A ref of another generation never resolves. |
| `SnapshotStore.GetServesExactlyContinuableSnapshots` | packages/browser-core/src/browser-state.ts:168-184 | A snapshot is served for continuation exactly when it is retained, unexpired and not invalidated; its access time is renewed and nothing else changes. |
| `SnapshotStore.InvalidateFrameKeepsWellFormed` | packages/browser-core/src/browser-state.ts:223-248 | Revoking a frame keeps the store well formed. |
| `SnapshotStore.InvalidateFrameRevokesExactly` | packages/browser-core/src/browser-state.ts:233-248 | Exactly the elements owned by the replaced frame disappear, and exactly the snapshots that lose one stop being continued. |
| `SnapshotStore.RevokeFrameRevokesExactly` | packages/browser-core/src/browser-state.ts:235-247 | One snapshot: exactly the owned elements go, also from its editable query; it stops being continued exactly if it lost one, and all else stays. |
| `SnapshotStore.NavigationStartsOver` | packages/browser-core/src/browser-action-targets.ts:332-338 | A main navigation raises the generation by one and leaves no epochs, no snapshots and no latest. |
| `SnapshotStore.EditableQueriesListTheEditable` | packages/browser-core/src/browser-query.ts:69-73 | A new editable query lists the editable elements of the snapshot in their order, from offset zero. |
| `SnapshotStore.InvalidateObservationsEndsContinuations` | packages/browser-core/src/browser-state.ts:263-272 | After a page mutation no continuation of any retained snapshot is served, now or later; each snapshot is otherwise as it was. |
| `SnapshotStore.InvalidateObservationsKeepsWellFormed` | packages/browser-core/src/browser-state.ts:263-272 | Marking the observations keeps the store well formed. |
| `BrowserState.Session.Prune` | packages/browser-core/src/browser-state.ts:300-311 | The in-place deletion loop has the effect of the pruning specification on the abstract session. |
| `BrowserState.Session.KeepUnexpired` | packages/browser-core/src/browser-state.ts:304-309 | The deletion loop keeps the very objects of the generation that were accessed after the cutoff, in order. |
| `BrowserState.Session.RefreshLatest` | packages/browser-core/src/browser-state.ts:313-319 | The latest snapshot survives if it is retained, otherwise the last retained one takes its place. |
| `BrowserState.Session.Oldest` | packages/browser-core/src/browser-state.ts:155-161 | The reduce picks the first snapshot among those accessed longest ago. |
| `BrowserState.Session.Evict` | packages/browser-core/src/browser-state.ts:154-164 | The eviction loop removes least recently accessed snapshots until three are left. |
| `BrowserState.Session.Store` | packages/browser-core/src/browser-state.ts:147-166 | Storing a new snapshot object has the effect of the store specification, whose promises are proved separately. |
| `BrowserState.Session.Get` | packages/browser-core/src/browser-state.ts:168-184 | Returns the very object at the position the specification names, with its access time renewed, or nothing. |
| `BrowserState.Session.Resolve` | packages/browser-core/src/browser-state.ts:186-200 | Returns the element and renews the snapshot the specification names. |
| `BrowserState.Session.InvalidateFrame` | packages/browser-core/src/browser-state.ts:223-248 | The in-place revocation has the effect of the frame invalidation specification, including the editable query. |
| `BrowserState.Session.InvalidateObservations` | packages/browser-core/src/browser-state.ts:263-272 | Marks every retained snapshot as not to be continued and changes nothing else. |
| `BrowserState.Session.Invalidate` | packages/browser-core/src/browser-action-targets.ts:332-338 | Raises the generation, clears the epochs and drops all snapshots. |
| `SnapshotPaging.PlannedPageIsTheLargest` | packages/browser-core/src/browser-snapshot.ts:243-292 | A page fits the budget, keeps the whole window when that fits, and is otherwise the largest fitting prefix; the error is raised exactly when not even one element fits. |
| `SnapshotPaging.CutPagesGrow` | packages/browser-core/src/browser-snapshot.ts:264-281 | Among cut pages more elements never take fewer bytes, which is what the binary search relies on. |
| `SnapshotPaging.PageBytesMeasureTheText` | packages/browser-core/src/browser-snapshot.ts:243-292 | The computed size is the length of the JSON text of the page, written out with its offsets, counts, elements, tree and continuation. |
| `SnapshotPaging.EditableBytesMeasureTheText` | packages/browser-core/src/browser-query.ts:286-289 | The same for a page of editable targets, against 57,344 bytes. |
| `SnapshotPaging.LimitsAreClamped` | packages/browser-core/src/browser-snapshot.ts:85-91 | Requested limits are taken as at least one and at most two hundred. |
| `SnapshotPaging.PagesPartitionTheItems` | packages/browser-core/src/browser-snapshot.ts:291-292 | Following continuations with any limits shows every remaining item exactly once and in order. |
| `SnapshotPaging.InspectContinuationsPartition` | packages/browser-core/src/browser-snapshot.ts:238-293 | Following the continuations of inspect to the end yields the snapshot, element by element. |
| `SnapshotPaging.InspectPagesNeverFail` | packages/browser-core/src/browser-snapshot.ts:288-290 | If each element fits on a page of its own, no page of the sequence fails. |
| `SnapshotPaging.FixedFieldsDecide` | packages/browser-core/src/browser-snapshot.ts:288-290 | Since exposed elements are small, paging never fails when the fields of the page other than its elements fit. |
| `ExposedElement.ExposedElementsAreSmall` | packages/browser-core/src/browser-snapshot-helpers.ts:31-88 | Whatever the page contains, the JSON text of an exposed element, printed and encoded as UTF-8, takes the computed number of bytes and at most 47,000. |
| `ExposedElement.BytesMeasureTheText` | packages/browser-core/src/browser-state.ts:401-403 | The computed byte length of any JSON value is the UTF-8 length of its text, escapes and lone surrogates included. |
| `ExposedElement.TextsAreExposed` | packages/browser-core/src/browser-snapshot-helpers.ts:40-48 | A caller sees the ref and the texts of the element, cut at their limits, and the frame if there is one. |
| `ExposedElement.PlaceIsExposed` | packages/browser-core/src/browser-snapshot-helpers.ts:36-58 | The rectangle is shown, and the element reported in view or pointer-actionable, only when its coordinates are those of the main viewport. |
| `ExposedElement.AttributesAreShown` | packages/browser-core/src/browser-snapshot-helpers.ts:59-66 | The first twenty attributes are shown in order, names and values cut at their limits. |
| `ExposedElement.CollectedExactly` | packages/browser-core/src/cdp-page-scanner.ts:1494-1521 | The scanner records an attribute exactly if its name is listed and its value is not empty. |
| `ExposedElement.ScannerAttributesAreBounded` | packages/browser-core/src/cdp-page-scanner.ts:1494-1521 | The collected attributes, at most twenty under their fixed names, take at most 36,421 bytes when exposed. |
| `ExposedElement.TextBytesAtMostSixPerUnit` | packages/browser-core/src/browser-state.ts:401-403 | No UTF-16 unit takes more than six bytes inside a JSON string, escapes and lone surrogates included. |
| `SnapshotPaging.EditablePageIsTheLargest` | packages/browser-core/src/browser-query.ts:286-289 | A prefix of the window fits the byte budget exactly when it is not longer than the page shown, although a single target is not checked. |
| `SnapshotPaging.EditableContinuationsPartition` | packages/browser-core/src/browser-query.ts:271-314 | The editable pages always reach the end and partition the editable targets. |
| `SnapshotPaging.EditablePagesNeverFail` | packages/browser-core/src/browser-query.ts:286-292 | Every editable page advances by at least one element, so following them terminates. |
| `BrowserSnapshot.SearchCut` | packages/browser-core/src/browser-snapshot.ts:258-281 | The binary search returns the count that trying every size would find. |
| `BrowserSnapshot.SnapshotPage` | packages/browser-core/src/browser-snapshot.ts:238-293 | Returns the planned page or the budget error, and records the end of the page as next offset exactly when the page is cut. |
| `BrowserSnapshot.PagesKeepTheirPromises` | packages/browser-core/src/browser-snapshot.ts:243-292 | A returned page shows the elements at its offsets, fits the budget, and names its own end as the continuation exactly when elements remain. |
| `BrowserSnapshot.Inspect` | packages/browser-core/src/browser-snapshot.ts:112-166 | A whole inspect on the session object with any invalidations during its three awaits: nothing is published exactly when the main page navigated; otherwise the snapshot holds, in order and field by field, exactly the scanned elements that no event touched, each under its own ref, with the given id, kind and time, to be continued from offset zero. |
| `BrowserSnapshot.FilteredTwice` | packages/browser-core/src/browser-snapshot.ts:118-144 | Filtering after the scan and again after the update keeps what one filter at the end would keep. |
| `BrowserSnapshot.CurrentElements` | packages/browser-core/src/browser-snapshot.ts:118-120 | The filter keeps exactly the elements that are current against the captured epochs. |
| `BrowserSnapshot.AfterScan` | packages/browser-core/src/browser-snapshot.ts:116-120 | Gives up under another generation and otherwise keeps the current elements. |
| `BrowserSnapshot.AfterUpdate` | packages/browser-core/src/browser-snapshot.ts:134-163 | Gives up exactly under another generation and then changes nothing. Otherwise it publishes the current elements field by field, each under a ref of this generation, and the session is the old one with the snapshot stored. |
| `BrowserSnapshot.ContinueInspect` | packages/browser-core/src/browser-snapshot.ts:92-108 | A continuation is answered exactly for a served snapshot of its own kind at its recorded next offset; otherwise the matching error. |
| `BrowserSnapshot.ContinueEditable` | packages/browser-core/src/browser-query.ts:40-62 | An editable continuation is answered exactly for a served snapshot of that kind, with a query, at its recorded next offset; otherwise the matching error. |
| `BrowserSnapshot.OpenEditableQuery` | packages/browser-core/src/browser-query.ts:69-73 | A new query holds exactly the editable elements of the snapshot in order, to be shown from the first. |
| `BrowserSnapshot.EditablePage` | packages/browser-core/src/browser-query.ts:271-292 | Shows the largest fitting prefix of the window, which is within the budget, and records the continuation. |
| `BrowserSnapshot.FollowInspect` | packages/browser-core/src/browser-snapshot.ts:238-293 | A caller that follows every continuation collects all elements of the snapshot in order. |
| `ActionGate.OpenGateMeansNothingPending` | packages/browser-core/src/browser-core.ts:258-363 | Whenever the session is neither active nor poisoned, no start or action promise of any earlier call is pending. |
| `ActionGate.OnlyTheNewestCallCanBePending` | packages/browser-core/src/browser-core.ts:263-268 | Only the newest call can be unfinished or pending, even in a poisoned session. |
| `ActionGate.InterruptionsEndTheGeneration` | packages/browser-core/src/browser-core.ts:346-352 | Every interrupted call finished in a later generation than it entered. |
| `ActionGate.PoisonIsPermanent` | packages/browser-core/src/browser-core.ts:264-268 | A poisoned session stays poisoned and admits no further call, whatever happens. |
| `ActionGate.ReopensExactlyWhenRecoveredAndSettled` | packages/browser-core/src/browser-core.ts:342-352 | After an interruption the gate reopens exactly when recovery succeeded and everything settled in time; otherwise the session is poisoned. |
| `ActionGate.AdmittedExactlyWhen` | packages/browser-core/src/browser-core.ts:263-288 | A request is admitted exactly when the gate is neither active nor poisoned, the signal is not aborted and the deadline is valid; then one new call waits for its start and the gate is active, otherwise the gate is unchanged. |
| `ActionGate.CallsAreTheAdmittedRequests` | packages/browser-core/src/browser-core.ts:263-288 | Over any run the number of calls is the number of admitted requests. |
| `ActionGate.TheWinnerOfTheRaceDecides` | packages/browser-core/src/browser-core.ts:325-345 | How a call goes on after a race: with the action after a start, with recovery after an interruption or abort, and with its result otherwise. |
| `ActionGate.RecoveryAndSettlementDecide` | packages/browser-core/src/browser-core.ts:342-362 | What recovery and settlement leave: generation raised by one, poisoned unless both succeeded, and the call finished as interrupted. |
| `ActionGate.OutsideEventsAreNoted` | packages/browser-core/src/browser-core.ts:289-317 | Aborts and settlements of promises are recorded in their call and nowhere else. |
| `ActionGate.OutcomesAreExplained` | packages/browser-core/src/browser-core.ts:321-363 | Over any run a finished call has an outcome that its start and its action account for. |
| `ActionGate.BrowserCoreSession.Execute` | packages/browser-core/src/browser-core.ts:258-327 | On the object: refuses exactly an active or poisoned session, an aborted signal or a bad deadline, with the matching error and no change; otherwise claims the gate and adds one call. |
| `ActionGate.RunKeepsInvariant` | packages/browser-core/src/browser-core.ts:258-363 | The gate invariant holds over every run of requests, aborts, settlements and timeouts. |
| `ActionGate.BrowserCoreSession.Serve` | packages/browser-core/src/browser-core.ts:258-363 | On the session object, for any list of events: exactly the admitted requests became calls, every outcome is accounted for, an open gate means nothing is pending, only the newest call can be unfinished, interrupted calls ended their generation, and a session poisoned at any time still is. |
| `SemanticRegistry.ScanFindsTheKey` | packages/browser-core/src/browser-semantic-registry.ts:37-41 | Within a frame at most one record carries a backend id, and it is the one under the canonical key. |
| `SemanticRegistry.ResolveKeyAnswers` | packages/browser-core/src/browser-semantic-registry.ts:37-47 | Lookup gives the exact frame match, else the only match, else the main-frame match, else none. |
| `SemanticRegistry.LookupThroughIndex` | packages/browser-core/src/browser-semantic-registry.ts:42-46 | Answering from the set of keys of a backend id gives what a scan of all nodes gives. |
| `SemanticRegistry.CanonicalNodeRegistry.EnsureNode` | packages/browser-core/src/browser-semantic-registry.ts:19-35 | Creates a record only for a new key and keeps the index equal to a scan of the nodes. |
| `SemanticRegistry.CanonicalNodeRegistry.Resolve` | packages/browser-core/src/browser-semantic-registry.ts:37-47 | The indexed lookup returns what the naive scan returns. |
| `SemanticRegistry.CanonicalNodeRegistry.AddDOMTree` | packages/browser-core/src/browser-semantic-registry.ts:49-63 | Adds the whole DOM tree in place, equal to the specification whose links are proved on the document itself, index included. |
| `SemanticRegistry.CanonicalNodeRegistry.AddSnapshotLookup` | packages/browser-core/src/browser-semantic-registry.ts:65-77 | Adds layout records as specified, index included. |
| `SemanticRegistry.CanonicalNodeRegistry.AddAXTree` | packages/browser-core/src/browser-semantic-registry.ts:79-108 | Enters and links accessibility nodes as specified, index included. |
| `SemanticRegistry.CanonicalNodeRegistry.AddInteractive` | packages/browser-core/src/browser-semantic-registry.ts:110-125 | Attaches targets and their semantic sources as specified, index included. |
| `SemanticTree.SearchUpFindsTheNearest` | packages/browser-core/src/browser-semantic-tree.ts:405-418 | The search finds the first semantic node on the chain of parents and stops at a repetition. |
| `SemanticTree.SemanticExactlyWhen` | packages/browser-core/src/browser-semantic-tree.ts:352-375 | A node with a target is semantic unless it is a text or a comment; any other exactly if it is not that, not ignored, not hidden, no source of an element, and meaningful. |
| `SemanticTree.SemanticParentsAreNearest` | packages/browser-core/src/browser-semantic-tree.ts:404-425 | The parent of a semantic node is semantic, an ancestor, and no semantic node lies between; none exactly if no ancestor is semantic. |
| `SemanticTree.SemanticParentIsTheNearest` | packages/browser-core/src/browser-semantic-tree.ts:405-425 | On acyclic input the parent of a semantic node is the first semantic node among its proper ancestors. |
| `SemanticTree.AcyclicInputYieldsAForest` | packages/browser-core/src/browser-semantic-tree.ts:404-425 | If the combined parent relation is acyclic, the roots form a forest with every semantic node exactly once. |
| `SemanticInput.EveryInputTargetAppears` | packages/browser-core/src/browser-semantic-tree.ts:345-425 | Under the conditions on the input, every element of the list of interactive elements is in the page tree, unless its own DOM node is a text or comment. |
| `SemanticInput.TargetsAreRecorded` | packages/browser-core/src/browser-semantic-registry.ts:110-125 | Every element handed in becomes the target of the record under its key, whatever follows it. |
| `SemanticRecords.LayoutsAreRecorded` | packages/browser-core/src/browser-semantic-registry.ts:65-77 | Each layout record is at its home: the record of its frame, else the only match or that of the main frame, else a new one. |
| `SemanticRecords.AxNodesAreFiled` | packages/browser-core/src/browser-semantic-registry.ts:79-97 | Each accessibility node is at its home and under its id; no record holds any other. |
| `SemanticRecords.TargetsAreFiled` | packages/browser-core/src/browser-semantic-registry.ts:110-125 | Each interactive element is at the key of its frame and backend id, its semantic source where it differs is the resolved key; no record holds any other. |
| `SemanticRecords.EveryRecordIsAtHome` | packages/browser-core/src/browser-semantic-tree.ts:345-350 | All three together for the registry assembled from a page. |
| `SemanticTree.EveryTargetAppears` | packages/browser-core/src/browser-semantic-tree.ts:360-364 | A record with a target that is not a text or comment node is in the forest, whatever the heuristics. |
| `SemanticCycles.NothingIsLostExactlyWhenNoCycleHoldsTwo` | packages/browser-core/src/browser-semantic-tree.ts:404-425 | On any input every semantic node is reached from a root exactly when no cycle of the combined parent relation holds two different semantic nodes. |
| `SemanticCycles.CycleNodesAreLost` | packages/browser-core/src/browser-semantic-tree.ts:404-425 | Two semantic nodes on one cycle are both out of reach of every root. |
| `SemanticCycles.MutualTargetsAreLost` | packages/browser-core/src/browser-semantic-tree.ts:345-425 | Two accessibility nodes that list each other as children, both interactive: the page tree built from them has no root. |
| `SemanticCycles.FoundIsFirst` | packages/browser-core/src/browser-semantic-tree.ts:405-418 | On any input a result of the search is the first semantic node on the way up. |
| `SemanticCycles.NothingFoundNothingThere` | packages/browser-core/src/browser-semantic-tree.ts:405-418 | On any input the search finds nothing only if no semantic node lies above. |
| `SemanticInput.InputIsAcyclic` | packages/browser-core/src/browser-semantic-registry.ts:49-108 | Distinct DOM keys, distinct accessibility keys, an acyclic accessibility child relation and a DOM root without accessibility parent make the combined relation acyclic. |
| `SemanticInput.AssembledParents` | packages/browser-core/src/browser-semantic-registry.ts:49-125 | Where the parents of the assembled registry come from: DOM parents precede their children, only the document root has none, accessibility edges only where listed. |
| `SemanticInput.DocumentIsLinked` | packages/browser-core/src/browser-semantic-registry.ts:49-63 | With distinct DOM keys every node of the document has its record, holding the node, and the record of each of its children, shadow roots and its content document has that node as DOM parent, the content document in its own frame; whatever is added later. |
| `SemanticInput.ListedExactlyWhenLinked` | packages/browser-core/src/browser-semantic-registry.ts:98-107 | A record has an accessibility parent exactly if another node lists it as a child, and the parent lists it. |
| `SemanticInput.AncestorsAreTheLine` | packages/browser-core/src/browser-semantic-tree.ts:405-418 | The ancestors of a document node are the nodes of the document that contain it, from the nearest out. |
| `SemanticInput.DocumentHangsUnderTheNearest` | packages/browser-core/src/browser-semantic-tree.ts:405-425 | A semantic document node hangs under the nearest semantic node among those that contain it in the document. |
| `SemanticInput.PageTreeIsAForest` | packages/browser-core/src/browser-semantic-tree.ts:345-441 | Under these conditions on the input the built page tree is a forest that holds every semantic node exactly once, each under its nearest semantic ancestor, siblings in order; for a node of the document the ancestors are the nodes that contain it. |
| `SemanticTree.TreeBuilder.NearestSemanticParent` | packages/browser-core/src/browser-semantic-tree.ts:405-418 | The loop with its visited set terminates on any input and returns the result of the search. |
| `SemanticTree.TreeBuilder.Build` | packages/browser-core/src/browser-semantic-tree.ts:345-425 | Roots and child lists are exactly those of the semantic parent relation, in insertion order. |
| `Forests.ForestHoldsEachNodeOnce` | packages/browser-core/src/browser-semantic-tree.ts:419-425 | Generic part: attaching each node to its parent yields every node exactly once when there is no cycle. |
| `Forests.AllReachableExactlyWhenAcyclic` | packages/browser-core/src/browser-semantic-tree.ts:419-425 | Generic part: all nodes are reachable from roots exactly when the parent relation has no cycle. |
| `Forests.ForestFollows` | packages/browser-core/src/browser-semantic-tree.ts:419-425 | Generic part: in the forest every node hangs under its parent and siblings keep the node order. |
| `Forests.ChildrenAreThoseBelow` | packages/browser-core/src/browser-semantic-tree.ts:419-425 | Generic part: the children of a node are exactly those whose parent it is, in order. |
| `Forests.UnreachableLeadsToCycle` | packages/browser-core/src/browser-semantic-tree.ts:419-425 | Generic part: from a node that reaches no root, the way up runs into a cycle. |
| `SemanticSerializer.SerializedPageKeepsItsPromises` | packages/browser-core/src/browser-semantic-serializer.ts:65-126 | The output stays within the node and byte budgets, prunes the tree without inventing nodes, shows only allowed refs, shows every visible allowed target unless it says truncated, and says so only when a budget ran out. |
| `SemanticSerializer.VisibleExactlyThroughAllowedAncestors` | packages/browser-core/src/browser-semantic-serializer.ts:84-95 | Visible are exactly the allowed targets all of whose actionable ancestors are allowed. |
| `SemanticSerializer.SiblingsAreReorderedStably` | packages/browser-core/src/browser-semantic-serializer.ts:74-82 | Siblings are sorted by their number of allowed targets, equals in their old order, none lost. |
| `SemanticSerializer.TruncationIsForced` | packages/browser-core/src/browser-semantic-serializer.ts:112-115 | The truncation flag is raised only where the next node would break a budget. |
| `SemanticSurvivors.PageShowsTheSurvivors` | packages/browser-core/src/browser-semantic-serializer.ts:84-126 | Every line of nodes shown stands, node by node, for a way down the tree along which each node survives: a target when its ref is allowed, another node when it holds an allowed target, or holds none at all and has a context role or stands below a node with one. Every such way is shown, unless the page is truncated and a node on it would not fit into what is left. |
| `SemanticSurvivors.CountsAreTheTargets` | packages/browser-core/src/browser-semantic-serializer.ts:36-55 | The counts of a node are the numbers of targets, and of allowed targets, at and below it. |
| `SemanticSurvivors.SiblingsComeByTheirTargets` | packages/browser-core/src/browser-semantic-serializer.ts:74-82 | Siblings are the same nodes, those with more allowed targets at and below them first. |
| `SemanticSurvivors.TruncatedTreesAreSerializedAlike` | packages/browser-core/src/browser-semantic-serializer.ts:72 | That the tree was already truncated changes nothing but the flag. |
| `SemanticSurvivors.SerializeSemanticTreePage` | packages/browser-core/src/browser-semantic-serializer.ts:57-126 | The whole operation with its default and least budgets: within both, showing exactly the survivors but for what does not fit, truncated only if the tree was or a budget ran out. |
| `SemanticSerializer.Serializer.SubtreeCounts` | packages/browser-core/src/browser-semantic-serializer.ts:36-55 | The map filled during the recursion holds the right counts for every node below. |
| `SemanticSerializer.Serializer.SerializeNode` | packages/browser-core/src/browser-semantic-serializer.ts:84-119 | The closure over the counters produces what the specification produces. |
| `SemanticSerializer.Serializer.SerializeTree` | packages/browser-core/src/browser-semantic-serializer.ts:57-126 | The whole serialization equals the specification whose promises are proved. |
| `NetworkModel.StepKeepsValid` | packages/browser-core/src/cdp-helper.ts:867-1045 | Every event keeps at most 200 records with increasing sequence numbers, live requests standing for open records under their own request id, and coherent outcomes, durations and failure reasons. |
| `NetworkModel.RunKeepsValid` | packages/browser-core/src/cdp-helper.ts:867-1045 | This holds after every run of network events, navigations and resets. |
| `NetworkModel.InFlightIsOpen` | packages/browser-core/src/cdp-helper.ts:915-917 | A request in flight is found under its own id, pending or http-error, without a duration. |
| `NetworkModel.StepChangesOnlyLiveEntries` | packages/browser-core/src/cdp-helper.ts:867-950 | After any event a record is new, or was there before and changed only if it was live. |
| `NetworkModel.SettledEntriesNeverChange` | packages/browser-core/src/cdp-helper.ts:867-1045 | Over any run that does not restart the numbering a sequence number keeps naming the same request, and once it left the live map its record never changes nor becomes live again. |
| `NetworkModel.ResponsesAreRecorded` | packages/browser-core/src/cdp-helper.ts:917-927 | A response keeps the request in flight, records its status, and makes it an http-error exactly from the first status of at least 400 on. |
| `NetworkModel.FinishesAreRecorded` | packages/browser-core/src/cdp-helper.ts:928-936 | A finished request leaves with a duration, as a success unless it was an http-error. |
| `NetworkModel.FailuresAreRecorded` | packages/browser-core/src/cdp-helper.ts:937-949 | A failed request leaves with a duration and its reason, whatever its response said. |
| `NetworkModel.UnknownRequestsAreIgnored` | packages/browser-core/src/cdp-helper.ts:915-950 | Responses, ends and failures of a request that is not in flight change nothing. |
| `NetworkEvents.RequestsAreLogged` | packages/browser-core/src/cdp-helper.ts:867-913 | A request of the main frame with an id gets the next number and is logged last as pending, with its fields and start time; the newest 200 records stay, as they were but for a redirected predecessor, which is settled. Any other request changes nothing. |
| `NetworkEvents.RequestsAreInFlight` | packages/browser-core/src/cdp-helper.ts:867-913 | The new request is in flight under its number; another one still is exactly if its record is not older than the oldest kept. |
| `NetworkEvents.NavigationsKeepTheLoader` | packages/browser-core/src/cdp-helper.ts:1029-1040 | A navigation keeps exactly the records and the requests in flight of the new loader, and remembers the frame. |
| `NetworkEvents.ScopeEventsAreExact` | packages/browser-core/src/cdp-helper.ts:1018-1045 | What detaching a frame, finding the main frame and the resets leave. |
| `NetworkEvents.TheLogIsTheLastRequests` | packages/browser-core/src/cdp-helper.ts:867-987 | While nothing resets it, the log is exactly the last 200 requests of the main frame, in order, under consecutive numbers. |
| `NetworkEvents.MatchesExactlyWhen` | packages/browser-core/src/cdp-helper.ts:655-661 | A record matches exactly if it is newer than asked, its outcome passes one of the status filters, its type is asked for, and the text occurs in its URL. |
| `NetworkEvents.IncludesExactlyWhenItOccurs` | packages/browser-core/src/cdp-helper.ts:660 | The search finds a text exactly if it occurs at some position. |
| `NetworkEvents.StatusMatchesExactlyWhen` | packages/browser-core/src/cdp-helper.ts:658 | No status filter, or one that the outcome passes. |
| `NetworkEvents.LimitsAreClamped` | packages/browser-core/src/cdp-helper.ts:644-645 | A hundred entries unless asked otherwise, at least one and at most two hundred. |
| `NetworkEvents.AnswersShowTheNewest` | packages/browser-core/src/cdp-helper.ts:662-692 | The answer shows, field by field and without ids, the newest matching records in order, as many as the limit and 49,152 bytes allow. |
| `NetworkModel.TrafficKeepsTheLastRequests` | packages/browser-core/src/cdp-helper.ts:975-987 | Without navigations and resets the numbers in the log are the last ones without a gap, at most 200; which requests have numbers is said by NetworkEvents.RequestsAreLogged. |
| `NetworkModel.NavigationKeepsTheLoadersRequests` | packages/browser-core/src/cdp-helper.ts:1029-1040 | A live request survives a navigation exactly when its own record does. |
| `NetworkModel.LongerPagesAreLarger` | packages/browser-core/src/cdp-helper.ts:663-683 | A page with more entries is never smaller, so stopping at the first that does not fit is right. |
| `NetworkModel.UntruncatedPagesMissNothing` | packages/browser-core/src/cdp-helper.ts:643-692 | A page shows only matching records, is marked truncated exactly when one is not shown, and otherwise shows all: polling by sequence number misses nothing still logged. |
| `NetworkModel.CursorMissesNothing` | packages/browser-core/src/cdp-helper.ts:643-692 | Over any rounds of events and polls that each ask for what came after the last sequence number: if no page was truncated, every request for such a URL that began after the start and is still logged was on one of the pages. |
| `NetworkModel.RoundsShowDifferentRequests` | packages/browser-core/src/cdp-helper.ts:643-692 | The numbers shown in a round lie above those of every earlier round, so no request is shown in two. |
| `NetworkModel.UntruncatedIsComplete` | packages/browser-core/src/cdp-helper.ts:663-692 | A page not marked as truncated shows exactly what matches, and reports the current sequence number. |
| `NetworkModel.NumberedRecordsWereThere` | packages/browser-core/src/cdp-helper.ts:867-950 | Over any run that does not restart the numbering, a record with an earlier number was in the log already. |
| `NetworkModel.Elapsed` | packages/browser-core/src/cdp-helper.ts:965-973 | A duration is never negative, and within half a millisecond of the elapsed time when the end is not before the start. |
| `NetworkLog.NetworkLog.HandleRequestWillBeSent` | packages/browser-core/src/cdp-helper.ts:867-913 | On the log object: a request of the main frame with an id settles a redirected predecessor and adds a fresh object, shared with the live map, with the next number, its fields and start time, pending; the live entries of what is evicted are dropped. Any other request changes nothing. |
| `NetworkLog.NetworkLog.HandleResponseReceived` | packages/browser-core/src/cdp-helper.ts:915-927 | Writes only the live object of this request and advances exactly its record. |
| `NetworkLog.NetworkLog.HandleLoadingFinished` | packages/browser-core/src/cdp-helper.ts:928-936 | Finishes exactly the live object of this request and takes it out of the live map. |
| `NetworkLog.NetworkLog.HandleLoadingFailed` | packages/browser-core/src/cdp-helper.ts:937-949 | Fails exactly the live object of this request and takes it out of the live map. |
| `NetworkLog.NetworkLog.AppendShared` | packages/browser-core/src/cdp-helper.ts:975-987 | Dropping evicted objects from the live map by identity equals dropping them by sequence number. |
| `NetworkLog.NetworkLog.ResetForNavigation` | packages/browser-core/src/cdp-helper.ts:1029-1040 | Keeps exactly the records and live entries of the new loader. |
| `NetworkLog.NetworkLog.HandleFrameNavigated` | packages/browser-core/src/cdp-helper.ts:756-770 | A top-level navigation resets the log for its loader and remembers the frame. |
| `NetworkLog.NetworkLog.HandleFrameDetached` | packages/browser-core/src/cdp-helper.ts:771-780 | Detaching the main frame clears log, live map and scope; any other frame changes nothing here. |
| `NetworkLog.NetworkLog.Reset` | packages/browser-core/src/cdp-helper.ts:1023-1027 | Clears log and live map, and restarts the numbering only when asked to. |
| `NetworkLog.NetworkLog.ResetScope` | packages/browser-core/src/cdp-helper.ts:1042-1045 | Forgets the main frame and the live requests but keeps the log. |
| `NetworkLog.NetworkLog.GetNetworkDiagnostics` | packages/browser-core/src/cdp-helper.ts:643-692 | The page shows the newest matching entries, as many as limit and byte budget allow. |
| `NetworkLog.NewestThatFit` | packages/browser-core/src/cdp-helper.ts:663-683 | Adding entries newest first and stopping at the first overflow yields the largest fitting page. |
| `ListenerModel.ReadyExactlyWhenEnabledInThisGeneration` | packages/browser-core/src/cdp-helper.ts:487-518 | After any run the dom, console and network flags are true exactly when an enable sent in the current generation over the current transport was obeyed. |
| `ListenerModel.WorkIsNeverDuplicated` | packages/browser-core/src/cdp-helper.ts:390-406 | In one generation at most one task of a kind is unfinished, and no domain is enabled twice. |
| `ListenerModel.LateSettlementsLeaveNewerWorkAlone` | packages/browser-core/src/cdp-helper.ts:398-404 | Whatever a task of an ended generation still does leaves registrations, generation, domain flags and all other tasks alone. |
| `ListenerSteps.EnsuringSendsTheCommand` | packages/browser-core/src/cdp-helper.ts:352-406 | Ensuring begins one task unless the domain is ready or one is registered; a domain task sends its enable exactly when the listener is current and, for diagnostics, the base is ready. |
| `ListenerSteps.AttachingDecides` | packages/browser-core/src/cdp-helper.ts:427-453 | After attaching: the listener is installed once, and the base goes on to Page.enable, to reading the frame or to its end. |
| `ListenerSteps.PageAnswersDecide` | packages/browser-core/src/cdp-helper.ts:440-453 | What an answer to Page.enable leaves and where the task waits next. |
| `ListenerSteps.FrameAnswersDecide` | packages/browser-core/src/cdp-helper.ts:453-479 | A frame that was read is remembered for console and network exactly while the task is current. |
| `ListenerSteps.DomainAnswersDecide` | packages/browser-core/src/cdp-helper.ts:487-518 | An answered domain flag is set to whether the command was obeyed, exactly while the task is current. |
| `ListenerSteps.ResetsLeaveABareListener` | packages/browser-core/src/cdp-helper.ts:572-592 | A reset raises the generation and leaves nothing attached, enabled, remembered or registered. |
| `ListenerSteps.TheOtherEvents` | packages/browser-core/src/cdp-helper.ts:390-406 | What wishes, frame changes and cleared registrations leave. |
| `ListenerSteps.UndisturbedBaseSucceeds` | packages/browser-core/src/cdp-helper.ts:427-485 | Undisturbed and obeyed, the base initialization ends ready. |
| `ListenerSteps.UndisturbedDomainSucceeds` | packages/browser-core/src/cdp-helper.ts:487-518 | Undisturbed and obeyed, a domain initialization ends with its flag set. |
| `ListenerModel.OnlyItsOwnSettlementClearsARegistration` | packages/browser-core/src/cdp-helper.ts:390-406 | A registration disappears only by a reset or by the settlement of the very task it names. |
| `ListenerModel.OnlyResetsEndAGeneration` | packages/browser-core/src/cdp-helper.ts:577-592 | No settlement changes generation or transport, and the page flag is raised only by an obeyed Page.enable. |
| `ListenerModel.RunKeepsInvariant` | packages/browser-core/src/cdp-helper.ts:390-592 | The listener invariant holds over every interleaving of initializations and resets. |
| `ListenerModel.PageFlagAfterAnAnswer` | packages/browser-core/src/cdp-helper.ts:440-443 | After an answer to Page.enable the flag is right exactly when: an obeyed one, or an earlier one, belongs to the current generation; a refused one finds no obeyed enable of that generation; an interrupted one found it right. |
| `ListenerModel.PageFlagStandsForItsGenerationExactly` | packages/browser-core/src/cdp-helper.ts:440-451 | The page flag is set even by a late answer; it then stands for the current generation exactly if the answering task, or another success, belongs to it. |
| `ListenerModel.PageFlagCanBeClearedLate` | packages/browser-core/src/cdp-helper.ts:440-443 | A concrete run: the page domain is enabled in the new generation, and the late refusal of the old one clears the flag. |
| `ListenerModel.PageFlagCanOutliveItsGeneration` | packages/browser-core/src/cdp-helper.ts:440-451 | A concrete run: reset while Page.enable is in flight, after which the page flag is true though nothing was enabled in the new generation. |
| `ListenerModel.PageFlagIsRightWithoutLateAnswers` | packages/browser-core/src/cdp-helper.ts:440-451 | In runs without such late answers the page flag, too, is true only by an enable of the current generation. |
| `DomListener.DomListener.Serve` | packages/browser-core/src/cdp-helper.ts:390-592 | On the helper object, for any list of initializations, answers and resets: each domain flag says exactly whether an enable of its own generation and transport was obeyed, and no work is done twice. |
| `DragGesture.PathLeadsToTheTarget` | packages/browser-core/src/cdp-helper.ts:1252-1260 | The eight points are monotone in each coordinate, lie between source and target, and end exactly at the target. |
| `DragGesture.PointsAreTheEighths` | packages/browser-core/src/cdp-helper.ts:1252-1260 | Each point is the exact eighth of the way, rounded half up in each coordinate. |
| `DragGesture.ScriptsInFull` | packages/browser-core/src/cdp-helper.ts:1299-1411 | The two successful scripts, action by action. |
| `DragGesture.ReadingSaysWhatIsOpen` | packages/browser-core/src/cdp-helper.ts:1274-1297 | Reading a history finds nothing open exactly when every opening is followed by a closing attempt. |
| `DragGesture.ReadingSaysWhatWasDone` | packages/browser-core/src/cdp-helper.ts:1299-1411 | The reading lists exactly the actions of the history and whether all of them were obeyed. |
| `DragGesture.Gesture.StopInterception` | packages/browser-core/src/cdp-helper.ts:1274-1284 | Disposes the listener and attempts to disable an enabled interception; a flag remains only if that was refused. |
| `DragGesture.Gesture.ReleasePointer` | packages/browser-core/src/cdp-helper.ts:1286-1297 | Attempts a release exactly when the pointer is down; the flag remains only if that was refused. |
| `DragGesture.Gesture.FirstMove` | packages/browser-core/src/cdp-helper.ts:1333-1347 | Whatever the first move and the probe do, the interception is switched off afterwards. |
| `DragGesture.Gesture.DragToTarget` | packages/browser-core/src/cdp-helper.ts:1359-1398 | The HTML5 drag ends with a drop attempt or a cancel attempt, and is a success exactly when everything was obeyed. |
| `DragGesture.Gesture.SendDragEvents` | packages/browser-core/src/cdp-helper.ts:1361-1382 | Sends enter, over at each further point and drop, and stops at the first refusal, which decides the outcome. |
| `DragGesture.Gesture.MoveToTarget` | packages/browser-core/src/cdp-helper.ts:1400-1411 | The pointer drag moves along the path and releases at the target. |
| `DragGesture.Gesture.Dispatch` | packages/browser-core/src/cdp-helper.ts:1238-1419 | For every pattern of refusals: press is followed by release, drop or cancel attempt, enable by a disable attempt, the listener is disposed; success is reported exactly when all was obeyed, with the full script, in the mode the probe chose. |
| `Utf8Budget.BothDirectionsCutAlike` | packages/agent-extension/src/tool-output-budget.ts:220-252 | Forward iteration and backward surrogate scanning cut every text, lone surrogates included, at the same positions. |
| `Utf8Budget.ForwardCutsAreTheBoundaries` | packages/agent-extension/src/tool-output-budget.ts:220-230 | The forward cuts are exactly the positions that do not divide a surrogate pair. |
| `Utf8Budget.BackwardCutsAreTheBoundaries` | packages/agent-extension/src/tool-output-budget.ts:232-252 | The backward cuts are exactly the positions that do not divide a surrogate pair. |
| `Utf8Budget.LengthOfJoin` | packages/agent-extension/src/tool-output-budget.ts:214-218 | Joining texts costs the sum of their bytes, less two when a pair forms at the seam. |
| `Utf8Budget.LengthIsTheSumOfTheUnits` | packages/agent-extension/src/tool-output-budget.ts:72 | The byte length is the sum over the code units: one below U+0080, two below U+0800 and for each half of a pair, three for all others. |
| `Utf8Budget.LengthOfCut` | packages/agent-extension/src/tool-output-budget.ts:220-252 | Cutting at a boundary divides the byte length exactly. |
| `Utf8Budget.TakeUtf8Start` | packages/agent-extension/src/tool-output-budget.ts:220-230 | Returns the longest prefix that ends at a boundary and fits the budget. |
| `Utf8Budget.TakeUtf8End` | packages/agent-extension/src/tool-output-budget.ts:232-252 | Returns the longest suffix that starts at a boundary and fits the budget. |
| `Utf8Budget.HeadAndTailOverlapExactlyWhen` | packages/agent-extension/src/tool-output-budget.ts:214-218 | Head and tail overlap exactly when some code point fits into both budgets with all that lies before or after it. |
| `Utf8Budget.LongTextsAreNotRepeated` | packages/agent-extension/src/tool-output-budget.ts:214-218 | A text of at least the combined budget divides into head, omitted middle and tail. |
| `Utf8Budget.PreviewsRepeatExactlyWhen` | packages/agent-extension/src/tool-output-budget.ts:70-126 | Among the texts over the inline limit, for which previews are made, some is shown with an overlap exactly when the preview budget exceeds the limit by more than one byte. |
| `Utf8Budget.TwoLettersShownTwice` | packages/agent-extension/src/tool-output-budget.ts:70-126 | A two-letter text with an inline limit of one byte and a preview budget of four is shown twice. |
| `Utf8Budget.HeadTailPreview` | packages/agent-extension/src/tool-output-budget.ts:214-218 | The preview is the longest head for the rounded-up half, the notice, and the longest tail for the rounded-down half. |
| `Utf8Budget.PreviewsFit` | packages/agent-extension/src/tool-output-budget.ts:214-218 | A preview takes at most the budget and the notice, and repeats nothing of a text that takes at least the budget. |
| `Utf8Budget.TruncateUtf8` | packages/agent-extension/src/tool-output-budget.ts:320-326 | The result fits; it is the text itself exactly when that fits, else the longest aligned prefix with an ellipsis, or nothing for limits up to three. |
| `Redaction.RedactStructuredCredentials` | packages/browser-core/src/console-diagnostic-sanitizer.ts:47-91 | True exactly when the containers outside redacted values number at most 1000 at depth at most 12; then in memory the values of sensitive object keys are the marker and all else is as it was. Nothing out of reach is written in any case. |
| `Redaction.Walk` | packages/browser-core/src/console-diagnostic-sanitizer.ts:50-90 | The stack walk terminates by the containers still to be counted and stops early only when the value is too large or too deep. |
| `Redaction.Expand` | packages/browser-core/src/console-diagnostic-sanitizer.ts:66-87 | Visiting a container overwrites exactly its sensitive slots and pushes exactly the others that hold containers, one level deeper. |
| `Redaction.RedactIsTheOnlyCleanCopy` | packages/browser-core/src/console-diagnostic-sanitizer.ts:79-86 | The redacted tree is the only tree whose sensitive keys hold the marker and that is otherwise unchanged. |
| `Redaction.RedactingTwiceChangesNothing` | packages/browser-core/src/console-diagnostic-sanitizer.ts:79-86 | Redaction is idempotent. |
| `Redaction.OverwrittenTree` | packages/browser-core/src/console-diagnostic-sanitizer.ts:79-86 | Overwriting every container within reach yields the redacted tree. |
| `Redaction.GivingUpIsRight` | packages/browser-core/src/console-diagnostic-sanitizer.ts:58-64 | Giving up at one container shows that the whole value breaks the size or the depth bound. |
| `Redaction.ContainersOfTree` | packages/browser-core/src/console-diagnostic-sanitizer.ts:56-57 | The visit count of a subtree is one for its root and the counts of what it holds. |
| `Redaction.ContainersAreThePaths` | packages/browser-core/src/console-diagnostic-sanitizer.ts:56-57 | Containers are counted by the key paths that lead to them, each once and no other. |
| `Redaction.WithinMeansShortPaths` | packages/browser-core/src/console-diagnostic-sanitizer.ts:58-64 | Within a depth means that no such path is longer. |
| `PaintOrder.FilterByPaintOrder` | packages/browser-core/src/dom-serializer.ts:187-229 | The nested loops over the stably sorted elements compute the kept list and the number of excluded indices. |
| `PaintOrder.FilterKeepsWhatIsNotHidden` | packages/browser-core/src/dom-serializer.ts:187-229 | Every removed element lies in a kept one painted no earlier, no kept one lies in an earlier kept one, kept plus removed is the input, and the count is right. |
| `PaintOrder.KeptExactlyWhenNothingInFrontContainsIt` | packages/browser-core/src/dom-serializer.ts:194-223 | An element is kept exactly when no element painted later, or as late and earlier in the input, contains it. |
| `PaintOrder.FilteringTwiceIsFilteringOnce` | packages/browser-core/src/dom-serializer.ts:187-229 | Filtering the kept elements again keeps them all in the same order. |
| `PaintOrder.CoveredByVisible` | packages/browser-core/src/dom-serializer.ts:207-214 | Through chains of removed elements each one lies in a kept one before it. |
| `PaintOrder.ContainedByPoints` | packages/browser-core/src/dom-serializer.ts:310-317 | The comparison of bounds is containment of the points of the boxes. |
| `PaintOrder.SortedOrder` | packages/browser-core/src/dom-serializer.ts:194-200 | The sorted order is paint order descending, with ties in input order. |
| `StableSort.SortIsStable` | packages/browser-core/src/dom-serializer.ts:194-200 | The sort behind it is a descending permutation that keeps the order of equals. |
| `ByokMigration.ProvidersMove` | packages/config/src/byok-config.ts:216-255 | Without an earlier marker exactly the eligible providers leave the tree; each whose id no object inherits gets its own fresh, unreserved key, under which its name, API key, base URL and other fields are kept; existing custom entries are unchanged and nothing else is added. |
| `ByokMigration.EligibleExactlyWhen` | packages/config/src/byok-config.ts:402-424 | Eligible is an unmanaged provider with models and with a key and an address that are not blank. |
| `ByokMigration.EarlierMarkersDecide` | packages/config/src/byok-config.ts:233-247 | A recorded key is used as it is; if its entry is gone the provider is deleted without a copy; a blank or reserved one is replaced by a fresh key. |
| `ByokMigration.MigratedConfiguration` | packages/config/src/byok-config.ts:266-274 | Which parts of the configuration are written back, each from which part of the old one. |
| `ByokMigration.InheritedNamesAreLost` | packages/config/src/byok-config.ts:232-240 | An eligible provider named like an inherited property (here "constructor") is deleted and nowhere copied. |
| `ByokMigration.InheritedIsDropped` | packages/config/src/byok-config.ts:232-240 | The general case of an inherited id: it is deleted, no custom entry is made, and no marker is written. |
| `ByokMigration.MovingIsFresh` | packages/config/src/byok-config.ts:242-255 | Whoever moves gets a key that is neither in use nor reserved, and exactly its entry, marker and reference target are recorded. |
| `ByokMigration.SecondRunChangesNothing` | packages/config/src/byok-config.ts:208-286 | A second run changes nothing, whatever marker the first one found. |
| `ByokMigration.ReferencesFollow` | packages/config/src/byok-config.ts:485-492 | A model reference to a moved provider afterwards names its custom provider and the same model; one to a provider that stays is unchanged unless the id is an inherited name. |
| `ByokMigration.RewrittenExactlyWhen` | packages/config/src/byok-config.ts:485-492 | Only well-formed references to moved or inherited names change, and how. |
| `ByokMigration.NexusFollows` | packages/config/src/byok-config.ts:494-505 | The nexus provider id follows a moved provider in the same way. |
| `ByokMigration.Config.MoveOne` | packages/config/src/byok-config.ts:227-255 | One turn of the loop with its generated key equals the specified turn. |
| `ByokMigration.Config.MigrateLegacyProviders` | packages/config/src/byok-config.ts:208-286 | Migrates in place as specified, and only under the managed runtime; reports a migration exactly when a provider left the tree. |
| `ByokKeys.GenerateKey` | packages/config/src/byok-config.ts:441-456 | The counting loop terminates within as many steps as names are taken and returns the first free candidate. |
| `ByokKeys.CandidatesDiffer` | packages/config/src/byok-config.ts:450-453 | Different suffixes give different candidates, because decimal notation is injective. |
| `ByokKeys.CandidatesAreNumbered` | packages/config/src/byok-config.ts:450-453 | The candidates are the base, then the base with a dash and the numbers from two on. |
| `ByokKeys.DecimalMeansTheNumber` | packages/config/src/byok-config.ts:450-453 | Decimal notation read back is the number. |
| `ByokKeys.SearchIsShort` | packages/config/src/byok-config.ts:450-455 | Pigeonhole: a run of taken candidates is no longer than the set of taken names. |
| `DomTraversal.Traversal.PlaceEditor` | packages/browser-core/src/cdp-page-scanner.ts:1014-1034 | A virtual editor replaces exactly the element of its host, at the same index, or is appended with the next index. |
| `DomTraversal.Traversal.Traverse` | packages/browser-core/src/cdp-page-scanner.ts:907-1088 | With an abort or interruption anywhere: no id is expanded twice, collected ids are distinct, the element at position i carries index i, earlier positions keep their ids, each element stands for an expanded visit and names its frame; a walk that nothing stopped has expanded all children, shadow roots and content documents of what it expanded and has collected all it owes, hosts of editor proxies included. |
| `DomTraversal.Traversal.Walk` | packages/browser-core/src/cdp-page-scanner.ts:324-341 | The whole walk from the document root, in the fields of the nodes: it ends undisturbed exactly if nothing visited interrupts it; unaborted it has expanded the root and, for every node visited that is not a leaf, all children, shadow roots and the content document; every element stands for a visit, every visit that owes an element has it. |
| `DomTraversal.NextIsOneStep` | packages/browser-core/src/cdp-page-scanner.ts:1037-1087 | The next visits are the children and shadow roots with the node added to the ancestors and its frame handed down, and the content document without ancestors in its own, that of the node or the inherited frame. |
| `DomTraversal.Traversal.TraverseBelow` | packages/browser-core/src/cdp-page-scanner.ts:1037-1087 | Children and shadow roots are walked with the node as ancestor and its frame handed down, the content document with no ancestors; all three are in the raw steps, and the promises carry over. |
| `DomTraversal.Traversal.Examine` | packages/browser-core/src/cdp-page-scanner.ts:943-1035 | Looks at one candidate: interruption, direct collection, or placement of a virtual editor; unless interrupted, what the visit owes is collected. |
| `DomTraversal.Traversal.FindHost` | packages/browser-core/src/cdp-page-scanner.ts:850-878 | The backward loop returns the nearest suitable ancestor. |
| `DomTraversal.WalkIsComplete` | packages/browser-core/src/cdp-page-scanner.ts:907-1088 | When ids are not repeated, a closed walk has made exactly the visits below the root, with their frames and ancestors. |
| `DomTraversal.NearestHostIsNearest` | packages/browser-core/src/cdp-page-scanner.ts:850-878 | The host is the last suitable ancestor. |
| `DomTraversal.VisitIsHarvested` | packages/browser-core/src/cdp-page-scanner.ts:942-1035 | After an undisturbed walk every visit has what it owes: its own element, or one at its nearest host. |
| `DomTraversal.ReachedIsBelow` | packages/browser-core/src/cdp-page-scanner.ts:1038-1087 | Only what lies below the root is ever expanded. |
| `ExtensionResolution.ResolveExtensions` | packages/agent-runtime/src/resolve.ts:21-102 | Succeeds exactly for distinct pool ids, known names and fitting replacements; then the list is kept base plus enabled additions with all replacements at once, without duplicates; every refusal is justified. |
| `ExtensionResolution.DistinctExactlyWhenReplacementsFit` | packages/agent-runtime/src/resolve.ts:77-99 | The final list has no duplicate exactly when no two targets share a source and each source that is loaded anyway is itself replaced. |
| `ExtensionResolution.ReplacementOrderIsIrrelevant` | packages/agent-runtime/src/resolve.ts:72-91 | Listing the replacements in another order changes neither the list nor whether it is accepted. |
| `ExtensionResolution.SelectedAreDistinct` | packages/agent-runtime/src/resolve.ts:41-71 | Before replacing, no id occurs twice. |
| `ExtensionResolution.SelectedInOrder` | packages/agent-runtime/src/resolve.ts:42-70 | Selected are the base without the disabled and then the enabled additions, both in their order. |
| `ExtensionResolution.ReplacedStandFor` | packages/agent-runtime/src/resolve.ts:72-89 | At each position stands the replacement of the extension, if it has one, or the extension itself. |
| `ExtensionResolution.Disable` | packages/agent-runtime/src/resolve.ts:44-50 | Removing id by id leaves the base without the disabled ids, in order; unknown ids are refused. |
| `ExtensionResolution.CollectReplacements` | packages/agent-runtime/src/resolve.ts:75-90 | The map of replacements gives every extension the stand-in of the specification, or a replacement without target or source is named. |
| `ExtensionResolution.FindDuplicate` | packages/agent-runtime/src/resolve.ts:27-35 | Reports a duplicate exactly when ids are not distinct. |
| `TurnAssembly.Registry.AssembleTurn` | packages/agent-runtime/src/registry.ts:345-435 | The result is fixed by the enablement flags at the call, whatever is switched at any await; it fails exactly when two tools would share a name. |
| `TurnAssembly.Registry.AppendTools` | packages/agent-runtime/src/registry.ts:448-469 | Appends the tools in registration order, or names one that occurs twice. |
| `TurnAssembly.Registry.SnapshotExtensions` | packages/agent-runtime/src/registry.ts:437-446 | Reads every flag once, in load order. |
| `TurnAssembly.Registry.SetEnabled` | packages/agent-runtime/src/registry.ts:189-204 | An override concerns one extension in one session; the global flag shows wherever there is no override. |
| `TurnAssembly.Registry.DisposeSession` | packages/agent-runtime/src/registry.ts:224-227 | Forgets exactly the overrides of that session. |
| `TurnAssembly.RemindersAreStablySorted` | packages/agent-runtime/src/registry.ts:410-413 | Reminders come by descending priority, ties in the order of emission, none lost. |
| `TurnAssembly.GatheredIsInLoadOrder` | packages/agent-runtime/src/registry.ts:371-408 | Tools, prompts, reminders and handlers are those of the enabled extensions, one after the other in load order. |
| `TurnAssembly.EmptyTurn` | packages/agent-runtime/src/registry.ts:345-369 | Without extensions a turn has the tools and the non-empty prompt the host hands in. |
| `TurnAssembly.OneMoreExtension` | packages/agent-runtime/src/registry.ts:371-408 | One more extension appends its tools, prompts, reminders and handlers, or only its name if it is disabled. |
| `TurnAssembly.OneMoreFunction` | packages/agent-runtime/src/registry.ts:378-391 | Each registered function is asked in turn; empty prompts and missing reminders are left out. |
| `TurnAssembly.OnlyRemindersAreSorted` | packages/agent-runtime/src/registry.ts:410-434 | The assembled turn is what was gathered but for the order of the reminders. |
| `TurnAssembly.EnabledAndDisabledPartition` | packages/agent-runtime/src/registry.ts:371-376 | Each loaded extension is reported once, as enabled or as disabled, in load order. |
| `TurnAssembly.DisabledContributeNothing` | packages/agent-runtime/src/registry.ts:371-375 | Without a disabled extension the result is the same but for its name among the disabled. |
| `TurnAssembly.ToolsGrow` | packages/agent-runtime/src/registry.ts:448-467 | Later extensions only append to the tools of earlier ones. |

## Left out

- ByokMigration.ProvidersMove: stated for configurations without an earlier migration marker; with a hand-edited marker recorded keys may collide. `SecondRunChangesNothing` has no such condition.
- PaintOrder.FilterKeepsWhatIsNotHidden: stated for distinct element indices, which traversal and the later renumbering give; coordinates are real numbers without rounding.
- DomTraversal.WalkIsComplete: stated for trees without repeated backend ids; with repeated ids `Traversal.Traverse` gives closure by id only.
- InspectProtocol.PublishesExactlyTheUntouched: random snapshot ids are taken as never repeated, since a repeated id is not published; the random part of a ref is left open.
- SemanticSerializer.Serializer.SerializeTree: stated for trees with distinct node ids, which the map keys of the builder give.
- DragGesture.PathLeadsToTheTarget: endpoints are integers, as the input conversion rounds them; the conversion itself is not modelled.
- DragGesture.Gesture.Dispatch: a press command that fails is taken as not pressed, as the code does; a drag event that arrives before it is awaited counts as an immediate answer.
- Redaction.RedactStructuredCredentials: which keys are sensitive, parsing and printing are left open; containers are numbered so that what a container holds comes after it.
- SnapshotPaging.PlannedPageIsTheLargest: the byte sizes of elements (up to their proved bound), of the tree and of the fixed fields are left open; digits, commas and brackets are counted.
- ExposedElement.ExposedElementsAreSmall: the generation in a ref is a safe integer, printed numbers have at most 25 characters, and the path of parent regions, which no recorded element carries, is not modelled.
- InspectReading.ContinuationsReadWhatWasPublished: the next offset of the snapshot is kept beside the system instead of in its store.
- NetworkModel.CursorMissesNothing: for queries by URL only, since status and resource type of a request may change between polls.
- TurnAssembly.Registry.AssembleTurn: a contributor's answer is fixed per turn; step hooks and tool wrappers are not modelled, nor is the initialization of extensions and its owner window.
- Snapshots: the re-adoption of a latest snapshot that is missing from the store (`packages/browser-core/src/browser-state.ts:276-279`) cannot happen in the modelled states; frame refs, the element map mirror and the keyboard continuation target are not modelled.
- Two readings of the clock within one synchronous call are taken as one.
- The text of a ref is modelled as a pair of generation and token, canonical node keys as a datatype, so a frame named `ax` does not collide with accessibility-only nodes.
- Recovery of the transport is a step with either outcome; whether the helper had recovered on its own is not distinguished.
- Roles, names, visibility, interactivity and the other page heuristics are parameters or uninterpreted predicates.
- Sanitizing and truncation of diagnostic texts, the console log, and the bounded collection of console arguments.
- Sorting elements by position after the DOM walk: its comparison is not transitive, so only a permutation could be claimed.
- The bounding-box filter, which can drop two nearly identical targets through each other.
- Slugs, hashes, backup files and writing the configuration; a refused write leaves the file as it was.
- Artifact storage, receipts and the choice of source-reference markers around the text cuts.
- Transport, sockets, file access, injected page scripts, screenshots, uploads and downloads.
