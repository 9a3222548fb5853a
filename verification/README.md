# SchoolOS browser and seed protocols, in Dafny

This project models the parts of SchoolOS whose correctness depends on more than one function or more
than one tab, and proves what those parts keep over every input, every run or every reachable state.
`dafny verify dfyconfig.toml` checks all of it.

## What is modelled

**The attendance-draft store.** Browser tabs share one localStorage (receipt barriers and legacy
drafts) and one IndexedDB object store (draft rows). `ReceiptFence` is the receipt status machine,
`AttendanceDrafts` the records with their shape, validity and expiry checks, and `DraftStore` the step
system: every public operation is a task, one turn of a task is one synchronous localStorage stretch
or one IndexedDB transaction, and tasks of all tabs begin, take turns or are cut off in any
interleaving. `DraftBarriers`, `DraftRows`, `DraftReads`, `DraftRevocation`, `DraftWrites` and
`DraftListings` hold the theorems about runs; `DraftOperations` and `DraftSaves` say what each operation
left alone does to both stores, exactly when it goes through, and what the next read is given;
`DraftStorageLoops` holds the imperative loops, proved against the functions of the step system.
`StorageFence` is the per-tab generation counter and operation queue, and `TabTeardown`
composes it with the draft store.

**Two more concurrent protocols.** `SessionProvider` has the asynchronous session tasks (bootstrap,
revalidation, refresh, login, storage synchronisation, logout, teardown) with one action for each
synchronous stretch between awaits; `SessionOutcomes` says what is shown and stored, `SessionSwitches`
when one identity follows another on display without cleanup. `ServiceWorkerCache` has any number of
`cacheFirst` tasks, each interleaving at its awaits with the others' puts and trims.

**Sequential algorithms.** `PurgeTenants` and `PurgePasses` (the pass loop over tables with blocking
references),
`Timetable` (the greedy allocator and its independent validator), `Scatter` (the coprime name scatter
and the random generator's state), `MostRecent` with `RecentlyViewed` and `OfflineReadCache` (two
bounded structures that refine their histories), `StringOrder` with `AuthLease` and
`AuthorizationContract` (sorted joins, the offline lease, the authorization projection),
`SmsSegments` (segment arithmetic) and `SchoolDays` (three date loops).

Code that updates fields or storage step by step is a class or a method with a loop; its `ensures` ties
the new state to a function of the old one, and the lemmas are about that function. Clocks, fresh ids,
server replies, whether a transaction commits, key enumeration order and query results are parameters
or action arguments, so every theorem is for all of them.

## Where the code does less than a reader might expect

Each of these is stated as a lemma with the exact condition or a concrete run.

- A barrier persisted under a key of white space is thrown away by the next read
  (`DraftBarriers.PersistedBarrierIsReadable`: it is read back exactly when the key is not blank).
- A task given the storage key of another draft's barrier as its own key can take that barrier for a
  legacy draft and remove it. `DraftBarriers.BarrierLossIsExact` says exactly which turns do, and
  `DraftBarriers.BarrierStandsExactly` carries it to runs. Keys with the draft prefix never alias
  (`DraftBarriers.DraftKeysNeverAlias`).
- The listing loop goes forward while the reads inside it may delete, so it steps over the entry after
  a deleted one. It reports every barrier under every key order exactly when no stored barrier entry
  is unreadable, or there is no barrier to miss (`DraftBarriers.ScanCompletenessCondition`). Storage
  that only this code has written under non-blank keys has no unreadable entry
  (`DraftBarriers.RunsStayTidy`).
- A terminal outcome takes no pending slot, yet it is refused for capacity exactly when its key has no
  pending row, be it absent or already terminal, and twenty others are pending
  (`DraftRows.TerminalOutcomeRefusedAtCapacity`); even storing the same receipt again is
  (`DraftRows.IdenticalReceiptRefusedAtCapacity`). The refused outcome is not lost: its barrier stands and
  is what later reads return (`DraftReads.OutcomeIsCrashSafe`).
- A listing deletes by key the rows it found invalid or expired, whatever has been stored there since: another
  tab's editable draft, stored in between, is lost (`DraftListings.ListingMayDropNewerDraft`).
  `DraftListings.RowStaysExactly` with `DraftWrites.RowChangeIsExact` says exactly which turns cost a row.
- A stored draft without a submission id cannot be revoked: every attempt fails and its roster stays in the row
  (`DraftSaves.RowWithoutIdKeepsRoster`; `DraftSaves.ReceiptIsStorableExactly` is the condition). No row this
  code writes lacks one (`DraftWrites.RunsStoreStorable`), rows from elsewhere may.
- An invalid row under a receipt is neither shown nor deleted: it fails every read that comes upon it
  (`DraftOperations.DiscardingReadIsExact`).
- The session provider decides on cleanup against the session a task captured, not the one displayed, and
  other tasks neither wait for a cleanup nor notice that it failed. `SessionSwitches.SwitchIsExact` and
  `SessionSwitches.RunsStaySeparateExactly` say exactly when one identity is shown over what another may
  have left: because no cleanup began, because those that did have failed
  (`SessionSwitches.FailedCleanupHappens`) or are in flight (`SessionSwitches.CleanupInFlightHappens`), or
  because another task showed it since the cleanup began (`SessionSwitches.OvertakenByAnotherTask`).
- Different roles or permissions share a fingerprint as soon as a name may contain a comma or be empty,
  and ids as soon as both ids may contain a bar (`AuthLease.JoinedNameCollides`,
  `AuthLease.BarredIdCollides`, `AuthLease.FingerprintIdentifies`).
- The SMS estimate is a lower bound. `SmsSegments.EstimateIsExactCondition` says exactly when it is the
  number of GSM-7 parts needed, and `SmsSegments.UcsEstimateIsExactForParts` the same for UCS-2, where it
  counts code points and not 16-bit units.
- The purge stops after 50 passes whatever is left. Without cycles and outside referrers that happens
  exactly when some chain has 50 references whose referring table comes later in the list
  (`PurgePasses.OutOfPassesExactly`; `PurgePasses.BackwardChainsReachTheCap` gives the runs).
- A service worker that stops between a put and its trim leaves the cache above 64 until a whole trim has
  run (`ServiceWorkerCache.CacheIsBounded`, `ServiceWorkerCache.WholeTrimHeals`). A trim under way deletes what
  it has listed even if it was stored again since (`ServiceWorkerCache.OlderTrimDropsNewEntry`).
- For the timetable, class teachers need not lie outside the subject pools: with disjoint pools it is
  enough, and necessary, that class teachers and rooms do not clash and no pool is asked for more
  teachers at one time than it has (`Timetable.GreedySucceedsIffFeasible`).

## Model

The main results are the theorems about runs and the exact conditions; the class methods, one-step
lemmas and reads listed beside them tie the code to the functions those theorems are about.

| member | source | states |
|---|---|---|
| `ReceiptFence.TerminalIsProtected` | apps/web/lib/attendance-draft-receipt-fence.ts:33-50 | no terminal status counts as editable |
| `ReceiptFence.AllowedWriteOverProtected` | apps/web/lib/attendance-draft-receipt-fence.ts:120-185 | an allowed write over a protected record keeps the submission id; a terminal record keeps its status and stays roster-free; any other becomes editable only by an authoritative REJECTED for that id |
| `ReceiptFence.AllowedAuthoritativeWriteIsBacked` | apps/web/lib/attendance-draft-receipt-fence.ts:78-135 | an allowed ACCEPTED, SYNCED or CONFLICTED write comes with a receipt of the same id and status |
| `ReceiptFence.WriteIsAllowedExactly` | apps/web/lib/attendance-draft-receipt-fence.ts:120-185 | for every pair of statuses, by name: a write is allowed iff it has the outcome it claims and, over a record that is not editable, belongs to the same submission and keeps a terminal status without roster, stays protected, or is an authoritative rejection |
| `ReceiptFence.RetriedWriteIsAllowed` | apps/web/lib/attendance-draft-receipt-fence.ts:120-185 | a write that went through is allowed again over what it left iff that has a submission id, and no roster if terminal |
| `ReceiptFence.StatusIsRecognised` | apps/web/lib/attendance-draft-receipt-fence.ts:52-64 | a status is recognised in small letters and with any blanks around it |
| `AttendanceDrafts.RevocationReceiptIsTerminal` | apps/web/lib/attendance-draft-access-revocation.ts:31-66 | every revocation receipt is terminal, protected, roster-free and keeps the submission id it was made from |
| `AttendanceDrafts.ReceiptRevealsScopeOnly` | apps/web/lib/attendance-draft-access-revocation.ts:31-66 | drafts of one submission and scope have the same receipt whatever their roster, labels and server data; drafts of different scopes never have; revoking again only changes the status |
| `AttendanceDrafts.StorableIsValid` | apps/web/lib/session.ts:1026-1098 | a record that passed the storage check is valid when read back exactly under a non-blank key |
| `DraftBarriers.PersistedBarrierIsReadable` | apps/web/lib/session.ts:933-976 | a persisted barrier is read back unchanged iff its key is not blank, and is discarded iff it is |
| `DraftBarriers.BarrierIsRosterFree` | apps/web/lib/session.ts:951-976 | what a barrier read returns is terminal with empty exceptions and remarks |
| `DraftBarriers.ReadTurnKeepsBarrier` | apps/web/lib/session.ts:252-301 | no stretch of a read, migration included, changes a standing barrier |
| `DraftBarriers.StoreTurnKeepsBarrier` | apps/web/lib/session.ts:303-335 | a store keeps a standing barrier's submission id and status |
| `DraftBarriers.RevokeTurnKeepsBarrier` | apps/web/lib/session.ts:337-374 | a revocation leaves a barrier standing, and leaves other keys' barriers untouched |
| `DraftBarriers.TurnKeepsBarrier` | apps/web/lib/session.ts:252-457 | no turn but a teardown sweep, of a task not given the barrier's storage key, loses a barrier; only a revocation of its key rewrites it |
| `DraftBarriers.BarrierLossIsExact` | apps/web/lib/session.ts:252-457 | a turn loses a barrier iff it is a teardown sweep, or a task given the barrier's storage key removes it as a legacy copy: a read that finds it unstorable, or a read, delete or revocation that finishes with that very entry |
| `DraftBarriers.BarrierSurvives` | apps/web/lib/session.ts:252-413 | in every interleaving of all tabs' operations a barrier stands up to the first turn that drops it, with its id and status unless its key is revoked |
| `DraftBarriers.BarrierStandsExactly` | apps/web/lib/session.ts:252-413 | over a run the barrier stands throughout iff no turn is a dropping one |
| `DraftBarriers.HarmlessRunsDropNothing` | apps/web/lib/session.ts:252-413 | without a teardown sweep and without tasks given the barrier's storage key no turn drops it |
| `DraftBarriers.DraftKeysNeverAlias` | apps/web/lib/session.ts:929-931 | a key with the draft prefix is never a barrier's storage key |
| `DraftBarriers.NoResurrection` | apps/web/lib/session.ts:252-413 | every read of the key that starts later, in any tab and before a turn drops the barrier, returns a terminal roster-free record |
| `DraftBarriers.ScanIsSound` | apps/web/lib/session.ts:978-996 | the listing loop reports only standing barriers |
| `DraftBarriers.ScanIsComplete` | apps/web/lib/session.ts:978-996 | with nothing to discard the loop reports every barrier |
| `DraftBarriers.ScanSkipsAfterDiscard` | apps/web/lib/session.ts:978-996 | for any discarded entry and any barrier some key order makes the loop miss that barrier |
| `DraftBarriers.ScanCompletenessCondition` | apps/web/lib/session.ts:978-996 | the loop is complete under every key order iff no entry is discardable or no barrier stands |
| `DraftBarriers.NoResurrectionInListings` | apps/web/lib/session.ts:415-457 | the same for any storage without an unreadable barrier entry when the listing merges |
| `DraftBarriers.TurnStaysTidy` | apps/web/lib/session.ts:252-457 | no turn on a non-blank key creates an unreadable barrier entry |
| `DraftBarriers.RunsStayTidy` | apps/web/lib/session.ts:252-457 | storage written only under non-blank keys never holds an unreadable barrier entry |
| `DraftBarriers.OwnListingsShowBarrier` | apps/web/lib/session.ts:415-457 | in storage written only under non-blank keys every later listing shows the key, if in scope, as a terminal roster-free record, with no condition on stored entries |
| `DraftRows.WriteKeepsProtectedRows` | apps/web/lib/session.ts:751-848 | a write transaction, garbage collection included, keeps every protected row or releases it by an authoritative REJECTED |
| `DraftRows.WriteKeepsCapacity` | apps/web/lib/session.ts:751-848 | a write keeps at most 20 pending rows, deletes no protected one, and is never refused for capacity over a protected pending row |
| `DraftRows.CapacityRefusalIsExact` | apps/web/lib/session.ts:786-820 | an allowed write is refused for capacity iff its key is empty, or has no pending row after collection while 20 others are pending; it is stored iff not; a slot is kept iff the row is not terminal and is protected or valid and recent |
| `DraftRows.TerminalOutcomeRefusedAtCapacity` | apps/web/lib/session.ts:811-820 | a permitted terminal outcome, which takes no slot, is refused iff its key has no pending row, absent or terminal, and the slots are taken |
| `DraftRows.IdenticalReceiptRefusedAtCapacity` | apps/web/lib/session.ts:811-820 | storing again the terminal receipt a key already holds is refused iff the slots are taken |
| `DraftRows.RevocationKeepsRows` | apps/web/lib/session.ts:695-749 | the revocation transaction either changes nothing or leaves in the key's row a terminal roster-free record of the requested status and every other row as it was; it keeps ids and protection and adds no pending row |
| `DraftRows.DeletionKeepsRows` | apps/web/lib/session.ts:850-894 | a delete transaction that goes through leaves every row but its key's, which is gone; it never removes a protected row |
| `DraftRows.TurnKeepsRows` | apps/web/lib/session.ts:252-457 | every turn but a teardown clear keeps protected rows, backed outcomes and the pending bound |
| `DraftRows.TurnReleasesByOwnOutcome` | apps/web/lib/session.ts:252-457 | a turn makes a protected row editable only by the REJECTED outcome it was itself handed |
| `DraftRows.TurnKeepsBarrierBacked` | apps/web/lib/session.ts:303-374 | a barrier that claims an authoritative outcome was given that outcome |
| `DraftRows.EmptyStoreSatisfiesInvariant` | apps/web/lib/session.ts:751-848 | the invariant holds of an empty store |
| `DraftRows.RunsKeepInvariant` | apps/web/lib/session.ts:751-848 | over every run at most 20 rows are pending and every stored ACCEPTED, SYNCED or CONFLICTED was supplied by the server for that id |
| `DraftRows.ProtectedRowPersists` | apps/web/lib/attendance-draft-receipt-fence.ts:93-198 | over every run without a teardown clear a protected row stays protected with its id up to the step at which a store handed REJECTED for that id makes it editable in place; a terminal one stays terminal |
| `DraftWrites.WriteIsExact` | apps/web/lib/session.ts:751-848 | an allowed write leaves exactly the other rows that are protected, or valid and recent, and puts its draft iff it reports so; a refused one changes nothing |
| `DraftWrites.RowChangeIsExact` | apps/web/lib/session.ts:252-457 | every turn, for every key: the row is put, deleted or as it was, with the exact condition for each |
| `DraftWrites.RevocationStoresReceipt` | apps/web/lib/session.ts:695-749 | the revocation transaction goes through iff it commits and the receipt is storable; then the row is a roster-free receipt of the requested status with the id and scope of the stored draft, or else of the one it carries, and all else is as it was |
| `DraftWrites.ReceiptRowStays` | apps/web/lib/session.ts:252-457 | over every run without a teardown clear a terminal roster-free row stays so, for the same submission, and with its status unless revoked again |
| `DraftWrites.RevocationIsForGood` | apps/web/lib/session.ts:337-374 | over every run, once a revocation's transaction went through, the row is terminal and roster-free, for the submission that was stored, up to a teardown clear |
| `DraftWrites.DeletionRemovesRow` | apps/web/lib/session.ts:850-894 | a deletion's transaction goes through iff it commits and no receipt protects the row; then that row is gone and every other one as it was; otherwise nothing changes |
| `DraftWrites.DiscardRemovesRow` | apps/web/lib/session.ts:441-447 | the same for each row a listing discards |
| `DraftWrites.RowStaysGoneExactly` | apps/web/lib/session.ts:252-457 | over a run a row that is gone stays away throughout iff no turn puts it |
| `DraftWrites.DeletedRowIsNotFound` | apps/web/lib/session.ts:858-894 | over every run, after a deletion or a listing took a row away, no read finds one up to the first turn that puts it |
| `DraftWrites.RunsStoreStorable` | apps/web/lib/session.ts:1052-1098 | in a store that only this code has written every row is at most 64 KiB, has a submission id, and is valid unless its key is blank |
| `DraftOperations.ClearThenRead` | apps/web/lib/session.ts:376-388 | a clear with nothing in between completes iff no barrier stands, no receipt protects row or legacy copy, and it commits; then nothing of the draft is left, all else is as it was, and the next read finds nothing; otherwise every copy is kept |
| `DraftOperations.DiscardingReadIsExact` | apps/web/lib/session.ts:267-283 | a read that comes upon an invalid row, or an expired unprotected one, deletes the draft whole and finds nothing iff the deletion may go through; otherwise it fails and every copy is kept |
| `DraftOperations.ReadIsRepeatable` | apps/web/lib/session.ts:252-301 | whatever a read was given, a migrated draft or one with a new submission id included, the next read is given the same, unless it expired unprotected in the meantime |
| `DraftOperations.EmptyKeyTouchesNothing` | apps/web/lib/session.ts:252-388 | operations without a key touch neither store |
| `DraftSaves.StoreIsExact` | apps/web/lib/session.ts:303-335 | a store with nothing in between completes iff the draft may be kept, the status machine lets it over barrier and row, and a slot is free; the row is then the draft, the other rows exactly those garbage collection leaves, and a terminal receipt stands as barrier |
| `DraftSaves.RevocationIsExact` | apps/web/lib/session.ts:337-374 | a revocation with nothing in between goes through iff both its receipts are storable and it commits; then row and barrier are the same receipt, the legacy copy is gone and all else is as it was; otherwise rows and legacy copy are kept |
| `DraftSaves.RevokeThenRead` | apps/web/lib/session.ts:337-374 | the next read is given that receipt |
| `DraftSaves.ReceiptIsStorableExactly` | apps/web/lib/session.ts:1061-1098 | a revocation receipt is storable iff the draft has a submission id and a scope, and the receipt is at most 64 KiB |
| `DraftSaves.RowWithoutIdKeepsRoster` | apps/web/lib/session.ts:716-726 | every revocation of a stored draft without a submission id fails and leaves its roster in the row |
| `DraftListings.ScopesDoNotOverlap` | apps/web/lib/session.ts:429-430 | with ids free of colons no key is in the scope of two persons |
| `DraftListings.ListingLeavesExactly` | apps/web/lib/session.ts:415-457 | a listing with nothing in between leaves exactly the rows that are protected, or valid and recent |
| `DraftListings.RowStaysExactly` | apps/web/lib/session.ts:252-457 | over a run a stored draft stays in its row throughout iff no turn puts another or deletes it |
| `DraftListings.StoredDraftIsFound` | apps/web/lib/session.ts:303-335 | over every run a completed store's draft is what reads find up to the first turn that changes the row |
| `DraftListings.ListingMayDropNewerDraft` | apps/web/lib/session.ts:431-447 | a listing deletes the editable draft another tab stored between the listing's look at the rows and its deletions, though that store completed |
| `DraftReads.ReadsArePresentable` | apps/web/lib/session.ts:262-300 | no turn of a read hands out, or keeps to hand out, an invalid draft, nor one older than 48 hours that no receipt protects |
| `DraftReads.ReadsHandOutPresentable` | apps/web/lib/session.ts:252-301 | in every run whatever a read hands out was presentable at one of that read's turns, the last one unless it stored a new submission id in between |
| `DraftReads.ListingsArePresentable` | apps/web/lib/session.ts:415-457 | a listing shows only presentable drafts in scope, a barrier instead of its row, every presentable listed row without a barrier, and discards no presentable one |
| `DraftReads.StoreThenRead` | apps/web/lib/session.ts:303-335 | an editable draft that was let through is read back exactly as stored |
| `DraftReads.MigrationKeepsDraft` | apps/web/lib/session.ts:655-693 | a legacy draft moves to IndexedDB whole, with its submission id filled in and the old copy removed |
| `DraftReads.OutcomeIsCrashSafe` | apps/web/lib/session.ts:313-334 | once a store's first stretch lets a terminal outcome through, every later read before a turn drops the barrier returns its id and status, unless revoked, even when its row is refused for capacity or never written |
| `DraftRevocation.RevocationRaisesBarrier` | apps/web/lib/session.ts:348-359 | the first synchronous stretch goes through iff its receipt is storable, and then a barrier stands |
| `DraftRevocation.RevocationIsCrashSafe` | apps/web/lib/session.ts:337-374 | after that stretch every later read is terminal and roster-free, whether the transaction commits, aborts or never runs |
| `DraftRevocation.RevocationIsCrashSafeInListings` | apps/web/lib/session.ts:415-457 | the same for listings over any storage without an unreadable barrier entry |
| `DraftRevocation.RevocationIsCrashSafeInOwnListings` | apps/web/lib/session.ts:415-457 | listings are crash-safe in storage written only under non-blank keys |
| `DraftRevocation.PageClosesDuringRevocation` | apps/web/lib/session.ts:356-366 | a run in which the page closes after the first stretch and another tab's read is given the revocation receipt |
| `DraftRevocation.AliasedReadDropsBarrier` | apps/web/lib/session.ts:655-693 | a concrete case of the exact condition: five turns of a read on another draft's barrier key remove that barrier |
| `DraftStorageLoops.ObjectStore.CollectGarbage` | apps/web/lib/session.ts:786-809 | the loop deletes exactly the collectable rows and gathers exactly the pending keys |
| `DraftStorageLoops.ObjectStore.WriteWithinCapacity` | apps/web/lib/session.ts:751-848 | the transaction's new rows and outcome, in every branch |
| `DraftStorageLoops.LocalStorage.RemoveAt` | apps/web/lib/session.ts:998-1005 | removing an entry shifts the later keys down by one |
| `DraftStorageLoops.LocalStorage.SweepDrafts` | apps/web/lib/session.ts:403-411 | the descending loop removes every draft and barrier entry and nothing else |
| `DraftStorageLoops.LocalStorage.ListBarriers` | apps/web/lib/session.ts:978-996 | the ascending loop computes the scan of the step system, shifts included |
| `StorageFence.AttendanceDraftStorageFence.constructor` | apps/web/lib/attendance-draft-storage-fence.ts:18-20 | a new fence is at generation 0 with nothing queued |
| `StorageFence.AttendanceDraftStorageFence.CaptureTicket` | apps/web/lib/attendance-draft-storage-fence.ts:22-24 | a captured ticket is current |
| `StorageFence.AttendanceDraftStorageFence.Invalidate` | apps/web/lib/attendance-draft-storage-fence.ts:26-29 | no ticket captured earlier is current afterwards; the returned one is |
| `StorageFence.AttendanceDraftStorageFence.Run` | apps/web/lib/attendance-draft-storage-fence.ts:35-51 | an operation joins the end of the queue |
| `StorageFence.AttendanceDraftStorageFence.StartNext` | apps/web/lib/attendance-draft-storage-fence.ts:39-41 | the head of the queue starts iff its ticket is current, and otherwise is dropped |
| `StorageFence.AttendanceDraftStorageFence.Finish` | apps/web/lib/attendance-draft-storage-fence.ts:41-44 | the result is delivered iff the ticket is still current |
| `StorageFence.OperationsAreSerial` | apps/web/lib/attendance-draft-storage-fence.ts:35-51 | in every run operations leave the queue in enqueue order and run one at a time |
| `StorageFence.QueuedOperationSettles` | apps/web/lib/attendance-draft-storage-fence.ts:35-51 | the n-th enqueued operation is the n-th to settle |
| `StorageFence.LateStartsAreNew` | apps/web/lib/attendance-draft-storage-fence.ts:26-58 | whatever runs was in flight at an earlier point or holds a ticket at least as new as it |
| `StorageFence.NoOldWorkAfterClear` | apps/web/lib/session.ts:390-413 | once a teardown's clear has left the queue no operation with an older ticket runs |
| `StorageFence.StorageBelongsToNewTickets` | apps/web/lib/session.ts:390-413 | after a clear emptied storage, everything stored was written under a ticket at least as new as the clear's |
| `TabTeardown.TeardownLeavesOnlyNewWork` | apps/web/lib/session.ts:390-413 | over the real rows, barriers and sweep, with any changes by other tabs: after a teardown's clear everything stored was written by another tab or under a newer ticket |
| `TabTeardown.RunKeepsSince` | apps/web/lib/session.ts:390-413 | nothing written under an older ticket comes back |
| `TabTeardown.SweepLeavesNothing` | apps/web/lib/session.ts:403-411 | right after the sweep no draft or barrier entry is left, and every other entry is |
| `SessionProvider.StepKeepsInvariant` | apps/web/components/session-provider.tsx:162-250 | every synchronous stretch keeps the session invariant |
| `SessionProvider.StaleWorkIsInert` | apps/web/components/session-provider.tsx:224-229 | a task whose generation is not the current one, or whose component is gone, only settles its own wait |
| `SessionProvider.OneCurrentRevalidation` | apps/web/components/session-provider.tsx:331-385 | at most one unsettled revalidation holds the current generation |
| `SessionProvider.CommitsFollowCleanup` | apps/web/components/session-provider.tsx:195-250 | every committed session has the tenant and user of the captured one, neither blank, or is a confirmed support transition, or was committed after its task's cleanup |
| `SessionProvider.LaterCommitsAreCurrent` | apps/web/components/session-provider.tsx:224-247 | sessions committed after a point come from tasks of its generation or later |
| `SessionProvider.TeardownIsFinal` | apps/web/components/session-provider.tsx:182-193 | after a teardown the tab stays anonymous until a task begins and stores nobody until then or another tab does; no later commit comes from a task begun before |
| `SessionProvider.SignedOutUntil` | apps/web/components/session-provider.tsx:182-193 | after a teardown no session is stored or shown, bootstraps and revalidations included, until another tab stores one or a login or refresh begins |
| `SessionOutcomes.StoredSessionIsExact` | apps/web/components/session-provider.tsx:182-247 | the stored session changes only by a teardown, a commit that is no support transition, and other tabs; a commit shows its session as authenticated |
| `SessionOutcomes.StatusAndStoredFit` | apps/web/components/session-provider.tsx:195-554 | in every run the status fits the displayed session, and what this tab stored is a session it committed and no support transition |
| `SessionOutcomes.SupersededWorkNeverCommits` | apps/web/components/session-provider.tsx:162-166 | no session is committed by a task begun before the latest login, refresh, synchronisation, logout or teardown |
| `SessionOutcomes.UnmountedBootstrapIsInert` | apps/web/components/session-provider.tsx:321-325 | once its component is unmounted a bootstrap changes nothing but its own wait |
| `SessionOutcomes.RevalidationIsShared` | apps/web/components/session-provider.tsx:331-341 | a revalidation in progress is shared; otherwise one begins for the stored session, and without one nobody is shown |
| `SessionOutcomes.SettlingMakesRoom` | apps/web/components/session-provider.tsx:378-384 | only the end of the revalidation in progress makes room for the next |
| `SessionOutcomes.SyncEndsInRevalidation` | apps/web/components/session-provider.tsx:425-441 | the cleanup for a changed stored identity ends in a revalidation of that identity |
| `SessionOutcomes.CleanupHidesSession` | apps/web/components/session-provider.tsx:182-222 | a cleanup begins with nobody on display, anonymous or loading |
| `SessionOutcomes.UnconfirmedSupportIsRefused` | apps/web/components/session-provider.tsx:202-212 | an unconfirmed support session shows nobody and is neither committed nor stored |
| `SessionProvider.FencedUntil` | apps/web/components/session-provider.tsx:162-193 | until a task begins no waiting task can leave the signed-out state |
| `SessionProvider.DisplayedIdentityCanChangeWithoutCleanup` | apps/web/components/session-provider.tsx:195-250 | a concrete case of an uncleaned commit: a run of five actions shows one identity after another with no cleanup |
| `SessionSwitches.SwitchIsExact` | apps/web/components/session-provider.tsx:195-250 | after one stretch another identity than any given one is on display iff it was and stays, or the state and action are one of five kinds: an uncleaned commit, a commit whose cleanup was overtaken, an error restoring the captured session, a bootstrap showing the stored one, a confirmed support transition |
| `SessionSwitches.UncleanedCommitIsExact` | apps/web/components/session-provider.tsx:214-247 | a commit without cleanup replaces another displayed identity iff a current task's reply names the identity the task had captured while another is on display |
| `SessionSwitches.RunSwitchIsExact` | apps/web/components/session-provider.tsx:162-554 | the same at every step of every run, against the session shown at any earlier point |
| `SessionSwitches.LeftForAReason` | apps/web/components/session-provider.tsx:168-180 | what a session left may still be there iff every cleanup begun since it was shown has failed or is in flight |
| `SessionSwitches.CleanupEndsOnce` | apps/web/components/session-provider.tsx:168-180 | a cleanup is exactly one of successful, failed and in flight |
| `SessionSwitches.RunsStaySeparateExactly` | apps/web/components/session-provider.tsx:162-554 | a run never shows one identity over what another may have left, failed and unfinished cleanups included, iff no step of it is of the five kinds for anything left |
| `SessionSwitches.OvertakenByAnotherTask` | apps/web/components/session-provider.tsx:218-229 | a commit that covers another identity after its own successful cleanup follows a stretch, by another task of the same generation, that showed it since that cleanup began |
| `SessionSwitches.OvertakenCleanupHappens` | apps/web/components/session-provider.tsx:218-247 | a run of five actions commits another identity, as cleaned, over one committed since the cleanup began |
| `SessionSwitches.FailedCleanupHappens` | apps/web/components/session-provider.tsx:424-441 | a run of seven actions: a synchronisation's cleanup fails, and the next revalidation commits the other user uncleaned |
| `SessionSwitches.CleanupInFlightHappens` | apps/web/components/session-provider.tsx:424-441 | a run of six actions: a refresh commits the other user uncleaned while the synchronisation's cleanup is running |
| `ServiceWorkerCache.StepKeepsInvariant` | apps/web/public/sw.js:80-124 | for every set of trims in progress the entries they will leave exceed 64 by at most the other pending tasks |
| `ServiceWorkerCache.CacheIsBounded` | apps/web/public/sw.js:80-124 | in every run runtime entries never exceed 64 plus the tasks that have put and not finished trimming, running or lost; at rest at most 64 plus the lost ones |
| `ServiceWorkerCache.WholeTrimHeals` | apps/web/public/sw.js:106-124 | a trim that runs from its listing to its end leaves at most 64 runtime entries and those stored meanwhile, whatever was lost before |
| `ServiceWorkerCache.DoomedAreOldest` | apps/web/public/sw.js:106-124 | a trim dooms exactly the runtime entries in excess of 64, all of them cached before every one it keeps |
| `ServiceWorkerCache.RecentEntriesStay` | apps/web/public/sw.js:80-124 | in every run a stored entry stays cached while fewer than 64 runtime entries are stored after it, unless a trim had doomed it before it was stored |
| `ServiceWorkerCache.OlderTrimDropsNewEntry` | apps/web/public/sw.js:115-123 | a trim that had doomed an entry deletes it even when it was stored again since |
| `ServiceWorkerCache.CacheFirstAlone` | apps/web/public/sw.js:80-104 | one task alone answers from the cache, or fetches and puts its entry last iff the response may be kept |
| `ServiceWorkerCache.HandledExactly` | apps/web/public/sw.js:30-78 | the worker answers exactly the plain same-origin GETs, other than navigations, for public assets without a query and for scripts, styles, fonts and workers under the static path |
| `ServiceWorkerCache.SignedUrlIsNotHandled` | apps/web/public/sw.js:30-48 | signed URLs are left to the network, however their query keys are written |
| `ServiceWorkerCache.OnlyCacheableEntriesAreAdded` | apps/web/public/sw.js:30-104 | every added entry was stored for a credential-free same-origin request and a response that is immutable or a public asset; public assets stay |
| `PurgeTenants.Database.Delete` | apps/api/prisma/purge-tenants.ts:46-56 | a delete takes all target rows of the table or, blocked, none |
| `PurgeTenants.Database.Purge` | apps/api/prisma/purge-tenants.ts:42-67 | the nested loops compute the passes, the no-progress exit, the cap and the number of passes made |
| `PurgeTenants.PassFacts` | apps/api/prisma/purge-tenants.ts:46-58 | a pass removes target rows only and empties every table it does not report |
| `PurgeTenants.PassesFacts` | apps/api/prisma/purge-tenants.ts:42-67 | a completed purge leaves no target row; running out of passes needs more tables than passes |
| `PurgeTenants.RankedPurgeSucceeds` | apps/api/prisma/purge-tenants.ts:42-67 | with referrers ranked below what they refer to, as acyclic references always can be, the no-progress exit is never taken, and with ranks below 50 every table is emptied |
| `PurgeTenants.RankedPurgeCompletes` | apps/api/prisma/purge-tenants.ts:42-67 | referrers ranked no higher than what they refer to, ties before it in the list, are enough for the same |
| `PurgeTenants.NotAllBlocked` | apps/api/prisma/purge-tenants.ts:46-58 | every such pass, ties in the order of the list included, empties at least one more table |
| `PurgeTenants.AcyclicPurgeNeverStuck` | apps/api/prisma/purge-tenants.ts:42-67 | without a reference cycle or outside referrer the exit is never taken, and up to 50 tables are emptied even without a bound on chains |
| `PurgeTenants.PurgeTakesLongestChain` | apps/api/prisma/purge-tenants.ts:42-67 | without an outside referrer the purge makes no more passes than the longest reference chain has tables, for any number of tables; with chains of at most 50 it completes and empties every table |
| `PurgeTenants.OutOfPassesHasReason` | apps/api/prisma/purge-tenants.ts:43 | whatever the order of the tables, running out of passes exhibits a chain of more than 50 tables or an outside referrer |
| `PurgePasses.PurgeCompletesExactly` | apps/api/prisma/purge-tenants.ts:42-67 | the purge completes iff nothing refers from outside and every chain has fewer than 50 references whose referrer comes later in the list |
| `PurgePasses.PassesAreLateLinks` | apps/api/prisma/purge-tenants.ts:42-67 | a purge that completes makes one pass more than the most late references of any chain |
| `PurgePasses.OutOfPassesExactly` | apps/api/prisma/purge-tenants.ts:42-67 | without cycles and outside referrers it runs out of passes iff some chain has 50 late references |
| `PurgePasses.PassKeepsLateChain` | apps/api/prisma/purge-tenants.ts:42-67 | one pass takes at most one late reference off a chain |
| `PurgePasses.BackwardChainsReachTheCap` | apps/api/prisma/purge-tenants.ts:42-67 | tables that each refer to the one before: up to 50 are all emptied, with one more the passes run out |
| `PurgeTenants.AcyclicMeansRanked` | apps/api/prisma/purge-tenants.ts:42-67 | without an outside referrer there is no cycle iff chains are bounded, and then a rank exists |
| `PurgeTenants.ChainsRankTables` | apps/api/prisma/purge-tenants.ts:42-67 | each table's longest chain is a rank under which every referrer comes first |
| `PurgeTenants.AcyclicPassAdvances` | apps/api/prisma/purge-tenants.ts:46-58 | every pass over acyclic references empties at least one more table |
| `PurgeTenants.NoProgressHasReason` | apps/api/prisma/purge-tenants.ts:62-65 | taking the exit exhibits a cycle of references or an outside referrer |
| `PurgeTenants.PassKeepsCycle` | apps/api/prisma/purge-tenants.ts:46-58 | a pass leaves every table of a cycle blocked |
| `PurgeTenants.CyclicPurgeFails` | apps/api/prisma/purge-tenants.ts:42-67 | with a cycle among the tables the purge never completes |
| `Timetable.JobsAreExactly` | apps/api/prisma/seed.ts:2453-2522 | the loops visit every section, school day and period of the plan and nothing else |
| `Timetable.JobsAreDistinct` | apps/api/prisma/seed.ts:2453-2522 | no section, day and period is visited twice |
| `Timetable.ScheduleIsSafe` | apps/api/prisma/seed.ts:2516-2586 | a finished run answers every job and books no teacher or room twice |
| `Timetable.ValidateNoConflicts` | apps/api/prisma/seed.ts:4489-4546 | the validator accepts iff no two slots share a teacher, room or section at one time |
| `Timetable.ScheduleIsAccepted` | apps/api/prisma/seed.ts:4489-4546 | every finished run passes the validator |
| `Timetable.EachSubjectOncePerDay` | apps/api/prisma/seed.ts:2523-2525 | every section has each of its subjects at exactly one period of every school day |
| `Timetable.RotationIsInjective` | apps/api/prisma/seed.ts:2523-2525 | different periods of a day get different subjects |
| `Timetable.RotationIsSurjective` | apps/api/prisma/seed.ts:2523-2525 | every subject gets a period |
| `Timetable.NextDayNextSubject` | apps/api/prisma/seed.ts:2517-2525 | in a finished run the same period of the next day has the next subject |
| `Timetable.TeacherIsFirstFree` | apps/api/prisma/seed.ts:3964-3986 | in a finished run every period after the first is taught by the first teacher of the pool, counting around from position grade plus section offset, not booked by an earlier section |
| `Timetable.ScanCoversPool` | apps/api/prisma/seed.ts:3977-3986 | the pool scan returns a free member or has found every position busy |
| `Timetable.GreedySucceedsIffFeasible` | apps/api/prisma/seed.ts:2516-2586 | with disjoint pools the run goes through iff rooms and class teachers do not clash and no pool is over-asked at any time |
| `Timetable.PickAvailableSubjectTeacher` | apps/api/prisma/seed.ts:3964-3986 | the scanning loop finds the first free teacher around the pool, or reports why none |
| `Timetable.AllocatePeriod` | apps/api/prisma/seed.ts:2523-2574 | one period's slot, or the failure, from the busy sets alone |
| `Timetable.SeedCanonicalTimetable` | apps/api/prisma/seed.ts:2436-2589 | the nested loops carry out the schedule job by job and stop at the first failure |
| `Scatter.ScatterIsInjective` | apps/api/prisma/seed.ts:4105-4108 | a multiplier with an inverse maps residues one to one |
| `Scatter.StudentNamesAreUnique` | apps/api/prisma/seed.ts:4098-4112 | below the capacity two students have the same name iff they are the same student |
| `Scatter.NamesRunOut` | apps/api/prisma/seed.ts:4098-4104 | there are 1700 names, and an index beyond gets none |
| `Scatter.EveryNameIsUsed` | apps/api/prisma/seed.ts:4098-4112 | every first and last name combination is given out |
| `Scatter.Rng.constructor` | apps/api/prisma/seed-performance-tenant.ts:157-158 | the state starts as the seed modulo 2^32 |
| `Scatter.Rng.Next` | apps/api/prisma/seed-performance-tenant.ts:159-160 | every draw keeps the state at seed plus draws times the step |
| `Scatter.GeneratorPeriod` | apps/api/prisma/seed-performance-tenant.ts:157-165 | two states agree iff their draw counts agree modulo 2^32 |
| `Scatter.GeneratorFirstRepeat` | apps/api/prisma/seed-performance-tenant.ts:157-165 | the state first repeats after exactly 2^32 draws |
| `MostRecent.TouchRefinesHistory` | apps/web/lib/recently-viewed.ts:74-87 | touching a bounded trail equals the bounded, deduplicated, reversed history |
| `MostRecent.CutThenRemove` | apps/web/lib/recently-viewed.ts:77-87 | cutting before removing a repeated key loses nothing |
| `RecentlyViewed.RecentlyViewedStore.Read` | apps/web/lib/recently-viewed.ts:51-59 | a scoped read returns that scope's entries, an unscoped one all |
| `RecentlyViewed.RecentlyViewedStore.Record` | apps/web/lib/recently-viewed.ts:69-95 | the stored list after a recording, and the returned trail as every later read sees it |
| `RecentlyViewed.RecentlyViewedStore.Clear` | apps/web/lib/recently-viewed.ts:97-99 | nothing is left to read |
| `RecentlyViewed.RecordChangesOneScope` | apps/web/lib/recently-viewed.ts:74-93 | recording touches its own scope's trail and leaves every other scope's as it was |
| `RecentlyViewed.RecordDropsOnly` | apps/web/lib/recently-viewed.ts:74-93 | a recording heads its trail and drops only the same record, or one of its scope with eight before it: never one of another scope, nor for its id alone one of another kind |
| `RecentlyViewed.TrailRefinesHistory` | apps/web/lib/recently-viewed.ts:51-95 | after any interleaving a scope's trail is the first 8 of its reversed history without repeats |
| `OfflineReadCache.SortIsPermutation` | apps/web/lib/offline-read-cache.ts:52-56 | the eviction sort orders by save time and loses no record |
| `OfflineReadCache.ReadCache.Write` | apps/web/lib/offline-read-cache.ts:30-62 | the write transaction's new rows, for any order the store lists them in |
| `OfflineReadCache.ReadCache.Clear` | apps/web/lib/offline-read-cache.ts:93-104 | the store is empty |
| `OfflineReadCache.VictimsFallOffTrail` | apps/web/lib/offline-read-cache.ts:52-58 | what a write evicts is exactly what falls off the end of the trail |
| `OfflineReadCache.StoreRefinesHistory` | apps/web/lib/offline-read-cache.ts:30-62 | after any writes the store holds exactly the 64 most recently written distinct keys with their latest records |
| `OfflineReadCache.ReadReturnsLatest` | apps/web/lib/offline-read-cache.ts:64-91 | a read returns the last payload iff the identity matches and it is at most 8 hours old and not from the future |
| `StringOrder.SortIsCanonical` | apps/web/lib/offline-auth-lease.ts:26-27 | two lists sort alike iff one rearranges the other |
| `StringOrder.RankIsUnitOrder` | apps/web/lib/offline-auth-lease.ts:26-27 | characters are ordered as their UTF-16 code units |
| `AuthLease.FingerprintIdentifiesUpToIds` | apps/web/lib/offline-auth-lease.ts:17-29 | for clean names and any ids, fingerprints are equal iff the ids with a bar between them read the same and the multisets are equal |
| `AuthLease.FingerprintIdentifies` | apps/web/lib/offline-auth-lease.ts:17-29 | if the tenant ids or the user ids hold no bar, fingerprints are equal iff ids, role multisets and permission multisets are |
| `AuthLease.JoinedNameCollides` | apps/web/lib/offline-auth-lease.ts:17-29 | any roles or permissions share their fingerprint with the one name that is their sorted join, another list unless there was one name |
| `AuthLease.BarredIdCollides` | apps/web/lib/offline-auth-lease.ts:17-29 | text after a bar can be moved from the tenant id to the user id without changing the fingerprint |
| `AuthLease.FingerprintNeedsCleanNames` | apps/web/lib/offline-auth-lease.ts:17-29 | the smallest collisions with a comma, an empty name and a bar |
| `AuthLease.ValidLeaseIsRecent` | apps/web/lib/offline-auth-lease.ts:93-137 | any lease judged valid was captured within the last eight hours |
| `AuthLease.CreatedLeaseIsValidExactly` | apps/web/lib/offline-auth-lease.ts:31-50 | a created lease is valid iff the session is the same school session and now lies in a window of at most eight hours |
| `AuthorizationContract.RoundTrip` | packages/core/src/authorization-contract.ts:112-157 | a projection comes back from its JSON form unchanged |
| `AuthorizationContract.BuiltDecisionsAreExact` | packages/core/src/authorization-contract.ts:65-181 | a built projection allows an action or section iff the module is enabled and the server's map says true |
| `AuthorizationContract.BuildIgnoresDeclarationOrder` | packages/core/src/authorization-contract.ts:75-98 | the projection does not depend on the order in which the vocabulary was declared |
| `AuthorizationContract.ReadableIsEquivalentToBuilt` | packages/core/src/authorization-contract.ts:112-181 | any JSON value decides as some projection built with the very entitlement it was read with, a disabled one if it is malformed |
| `AuthorizationContract.AllowNeedsWellFormedContract` | packages/core/src/authorization-contract.ts:160-171 | for any JSON value an allow needs the version, ENABLED, the listed action and a true flag |
| `AuthorizationContract.AuthorizedSectionNeedsWellFormedContract` | packages/core/src/authorization-contract.ts:173-181 | for any JSON value an authorized section needs the version, ENABLED and the listed section |
| `AuthorizationContract.NothingUnlessEnabled` | packages/core/src/authorization-contract.ts:160-181 | for any JSON value nothing is allowed or authorized unless its state is ENABLED |
| `AuthorizationContract.ReadIsExact` | packages/core/src/authorization-contract.ts:112-157 | a value is read as a projection iff it carries exactly that projection's fields, whatever else it holds |
| `AuthorizationContract.BuiltProjectionReadsBack` | packages/core/src/authorization-contract.ts:65-157 | the lifecycle and entitlement as given, one flag for every declared action and no other, the flagged actions and the granted sections, sorted |
| `SmsSegments.InsertingNeverLowers` | apps/web/lib/sms-segments.ts:30-63 | inserting a character anywhere never lowers the segments, even when it switches the encoding |
| `SmsSegments.EstimateFitsMessages` | apps/web/lib/sms-segments.ts:30-63 | the estimate is GSM-7 iff every character is in a table, its limit fills the 140 octets of one message, and it is one segment or none iff the text is within it |
| `SmsSegments.PartsFitBesideHeader` | apps/web/lib/sms-segments.ts:48-58 | a part is the most that fits a message beside a header of six octets |
| `SmsSegments.BasicTableIsSevenBit` | apps/web/lib/sms-segments.ts:15-16 | the basic table has 128 entries, with letters and digits where ASCII has them |
| `SmsSegments.ExtendedCharactersCostTwo` | apps/web/lib/sms-segments.ts:17-46 | exactly the nine characters behind the escape cost two septets |
| `SmsSegments.EstimateIsLowerBound` | apps/web/lib/sms-segments.ts:41-54 | no split into parts of 153 septets with whole escape pairs has fewer parts than the estimate |
| `SmsSegments.GreedyIsBest` | apps/web/lib/sms-segments.ts:41-54 | the greedy split has the fewest parts |
| `SmsSegments.EstimateBracketsTheBestSplit` | apps/web/lib/sms-segments.ts:41-54 | the best split lies between the estimate and the septets over 152 rounded up |
| `SmsSegments.EstimateIsExactCondition` | apps/web/lib/sms-segments.ts:41-54 | the GSM-7 estimate is the number of parts needed iff fewer parts close one septet short for an escape pair than the last part holds septets |
| `SmsSegments.GreedyAccounting` | apps/web/lib/sms-segments.ts:41-54 | all parts but the last hold 153 septets, or 152 before an escape pair |
| `SmsSegments.PlainEstimateIsExact` | apps/web/lib/sms-segments.ts:41-54 | without escaped characters the estimate is the number of parts needed |
| `SmsSegments.EstimateCanBeTooLow` | apps/web/lib/sms-segments.ts:41-54 | a concrete case: 153 escaped characters are estimated as two parts and every split needs three |
| `SmsSegments.UcsEstimateCountsCodePoints` | apps/web/lib/sms-segments.ts:56-62 | the UCS-2 estimate never exceeds the count in 16-bit units and equals it inside the basic plane |
| `SmsSegments.UcsEstimateIsExactCondition` | apps/web/lib/sms-segments.ts:56-62 | the UCS-2 estimate equals the count in 16-bit units iff all units fit one message, or the extra units fit the room left in the last estimated one |
| `SmsSegments.UcsEstimateBracketsTheBestSplit` | apps/web/lib/sms-segments.ts:56-62 | with surrogate pairs kept whole, the estimate and the count in units are at most the fewest parts, which the greedy split reaches |
| `SmsSegments.UcsEstimateIsExactForParts` | apps/web/lib/sms-segments.ts:56-62 | the estimate is the fewest such parts iff the text exceeds 70 code points and its pairs and short parts together are fewer than the last part's units |
| `SmsSegments.UnitCountCanBeTooLow` | apps/web/lib/sms-segments.ts:56-62 | a concrete case: 67 pairs are 134 units, counted as two, and need three parts |
| `SmsSegments.UcsEstimateCanBeTooLow` | apps/web/lib/sms-segments.ts:56-62 | a concrete case: seventy characters outside the basic plane are estimated as one segment and fill three |
| `SchoolDays.DaysEndingToday` | apps/api/prisma/seed-performance-tenant.ts:245-256 | the cursor loop from today terminates with the recent school days in ascending order |
| `SchoolDays.DaysBeforeToday` | apps/api/prisma/seed.ts:4132-4143 | the same from yesterday |
| `SchoolDays.DaysByOffset` | apps/api/prisma/demo-school.seed.ts:763-775 | the offset loop lists them newest first |
| `SchoolDays.ListIsExact` | apps/api/prisma/seed.ts:4132-4143 | exactly the requested number of distinct school days, none skipped, none a Saturday |
| `SchoolDays.ClosedDaysAreSaturdays` | apps/api/prisma/seed.ts:4132-4143 | the closed days are 3 January 1970, a Saturday, and every seventh day before and after it |
| `SchoolDays.RecentInClosedForm` | apps/api/prisma/seed.ts:4132-4143 | every entry in closed form, six school days for seven days |
| `SchoolDays.CompareScripts` | apps/api/prisma/demo-school.seed.ts:763-775 | the offset loop is the reverse of the cursor loop, and starting today is starting yesterday a day later |

## Left out

- DraftBarriers.NoResurrectionInListings: covers listings that merge while no unreadable barrier entry is stored, the exact condition for the scan by `DraftBarriers.ScanCompletenessCondition`; `DraftBarriers.OwnListingsShowBarrier` derives it from the run.
- SessionProvider.CommitsFollowCleanup: compares with the session the task captured, as the code does; `SessionSwitches.RunSwitchIsExact` is about the displayed one.
- OfflineReadCache.StoreRefinesHistory: asks for increasing save times, because the eviction sort does not determine the order of equal ones, and starts from the empty store that a clear leaves.
- AuthLease.FingerprintIdentifies: asks for clean names; `AuthLease.JoinedNameCollides` and `AuthLease.BarredIdCollides` show how it fails without.
- The real IndexedDB, localStorage, Promise and Cache interfaces: a transaction is one atomic action that commits or not, a synchronous stretch is one atomic action, a promise chain is a queue.
- Storage exceptions inside a synchronous stretch, such as an exhausted quota: a stretch of the model runs to its end.
- JSON encoding of drafts is taken as a bijection and the encoded size as an arbitrary function; reading a date field is an arbitrary function too.
- Upper-casing of statuses and lower-casing of query keys are modelled exactly where the result is plain letters, ligatures and the Kelvin sign included; other characters stand for themselves, which no comparison with a listed status or key can tell apart.
- Tickets inside the draft store of several tabs: there any task may stop at any turn, which includes every rejection by a fence; one tab's fence over the storage, with the other tabs as arbitrary changes, is in `TabTeardown`.
- Support override contexts in the session provider are a confirmed flag that is only possible for the same user; their scopes, expiry and tenant are not modelled.
- Rendering and navigation effects of the session provider, and the stores its cleanup empties besides attendance drafts.
- The install and activate handlers of the service worker, navigation fallbacks, and cache matching by Vary headers.
- Cascading and nulling references in the purge, and the final deletion of the tenant rows themselves, which also runs when the passes are used up.
- Subject names, pool keys and the choice of class teachers are inputs of the timetable; the writes of slots to the database are the returned list.
- The mixing of the generator's state into a number between 0 and 1: only the state is modelled.
- Unparsable save times in the read cache, and its fallback on transport errors.
- The storage of the lease as one JSON value, and dates outside the range a timestamp can have.
- Values that are not JSON handed to the authorization readers, and the fixed vocabularies of student profiles.
- Unpaired surrogates in an SMS text.
- Permission catalogues, fee rounding, calendars and fixture data: tables or arithmetic without a property across functions.
