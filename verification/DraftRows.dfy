/**
 * IndexedDB rows over whole runs: protected rows outlive everything but a teardown, authoritative
 * outcomes are always backed by a server receipt, and pending rows stay within the bound.
 */
module DraftRows {
  import opened Foundations
  import opened ReceiptFence
  import opened AttendanceDrafts
  import opened DraftStore
  import opened DraftBarriers

  function Id(d: Draft): string { IdOf(ReceiptOf(d)) }

  function Status(d: Draft): string { StatusOf(ReceiptOf(d)) }

  // ---- One transaction ----

  /** What may become of a protected row in one step, given the outcomes supplied so far. */
  predicate RowStep(before: Draft, after: Draft, supplied: set<(string, string)>) {
    && Id(after) == Id(before)
    && (IsTerminal(before) ==> IsTerminal(after))
    && (IsProtected(after) || (Status(after) == "REJECTED" && (Id(after), "REJECTED") in supplied))
  }

  predicate ProtectedRowsKept(before: Rows, after: Rows, supplied: set<(string, string)>) {
    forall k :: k in before && IsProtected(before[k]) ==> k in after && RowStep(before[k], after[k], supplied)
  }

  predicate OutcomeSupplied(outcome: Option<Outcome>, supplied: set<(string, string)>) {
    outcome.Some? ==> OutcomePair(outcome.value) in supplied
  }

  predicate Backed(d: Draft, supplied: set<(string, string)>) {
    Status(d) in AUTHORITATIVE_STATUSES ==> (Id(d), Status(d)) in supplied && IsPurposeLimited(d)
  }

  predicate RowsBacked(rows: Rows, supplied: set<(string, string)>) {
    forall k :: k in rows ==> Backed(rows[k], supplied)
  }

  lemma TerminalRowIsProtected(d: Draft)
    ensures IsTerminal(d) ==> IsProtected(d)
  {
    if IsTerminal(d) { TerminalIsProtected(Status(d)); }
  }

  lemma WriteKeepsProtectedRows(b: Browser, now: int, rows: Rows, key: string, d: Draft, outcome: Option<Outcome>,
                                supplied: set<(string, string)>)
    requires OutcomeSupplied(outcome, supplied)
    ensures ProtectedRowsKept(rows, WriteRow(b, now, rows, key, d, outcome).0, supplied)
  {
    hide DecideWrite, IdOf, StatusOf, MatchesOutcome, Protected, Terminal, CanStorePending, Invalid, Expired;
    var after := WriteRow(b, now, rows, key, d, outcome).0;
    forall k | k in rows && IsProtected(rows[k])
      ensures k in after && RowStep(rows[k], after[k], supplied)
    {
      if k == key && DecideWrite(RowReceipt(rows, key), ReceiptOf(d), outcome) == Allowed {
        ProtectedRowWrite(rows[k], d, outcome, supplied);
      }
    }
  }

  lemma ProtectedRowWrite(before: Draft, after: Draft, outcome: Option<Outcome>, supplied: set<(string, string)>)
    requires IsProtected(before) && OutcomeSupplied(outcome, supplied)
    requires DecideWrite(Some(ReceiptOf(before)), ReceiptOf(after), outcome) == Allowed
    ensures RowStep(before, after, supplied)
  {
    AllowedWriteOverProtected(ReceiptOf(before), ReceiptOf(after), outcome);
  }

  lemma WriteKeepsRowsBacked(b: Browser, now: int, rows: Rows, key: string, d: Draft, outcome: Option<Outcome>,
                             supplied: set<(string, string)>)
    requires OutcomeSupplied(outcome, supplied) && RowsBacked(rows, supplied)
    ensures RowsBacked(WriteRow(b, now, rows, key, d, outcome).0, supplied)
  {
    hide Invalid, Expired, Protected, Terminal, CanStorePending;
    if DecideWrite(RowReceipt(rows, key), ReceiptOf(d), outcome) == Allowed {
      AllowedWriteIsBacked(RowReceipt(rows, key), d, outcome, supplied);
    }
  }

  lemma AllowedWriteIsBacked(existing: Option<Receipt>, d: Draft, outcome: Option<Outcome>,
                             supplied: set<(string, string)>)
    requires OutcomeSupplied(outcome, supplied)
    requires DecideWrite(existing, ReceiptOf(d), outcome) == Allowed
    ensures Backed(d, supplied)
  {
    if Status(d) in AUTHORITATIVE_STATUSES {
      AllowedAuthoritativeWriteIsBacked(existing, ReceiptOf(d), outcome);
    }
  }

  /**
   * A write keeps the pending rows within the bound; its garbage collection deletes no protected row;
   * and a permitted write over a protected pending row is never refused for capacity.
   */
  lemma WriteKeepsCapacity(b: Browser, now: int, rows: Rows, key: string, d: Draft, outcome: Option<Outcome>)
    requires |PendingKeys(rows)| <= MAX_RECORDS
    ensures var (after, result) := WriteRow(b, now, rows, key, d, outcome);
      && |PendingKeys(after)| <= MAX_RECORDS
      && (forall k :: k in rows && IsProtected(rows[k]) ==> k in after)
      && (key != "" && key in rows && IsProtected(rows[key]) && !IsTerminal(rows[key]) ==> result != CapacityExceeded)
  {
    hide DecideWrite, IsTerminal, IsProtected, Invalid, Expired;
    var kept := Surviving(b, now, rows);
    var pending := PendingKeys(kept);
    SubsetCardinality(pending, PendingKeys(rows));
    SubsetCardinality(PendingKeys(kept[key := d]), pending + {key});
  }

  /** A row that keeps its pending slot: not terminal, and either protected or neither invalid nor expired. */
  predicate KeepsSlot(b: Browser, now: int, key: string, d: Draft) {
    !IsTerminal(d) && (IsProtected(d) || (!Invalid(key, d) && !Expired(b, now, d)))
  }

  /**
   * When a write that the status machine allows is refused for capacity: exactly when its key has no
   * pending row left after garbage collection and the rows left fill every pending slot, or the key is empty.
   */
  lemma CapacityRefusalIsExact(b: Browser, now: int, rows: Rows, key: string, d: Draft, outcome: Option<Outcome>)
    requires DecideWrite(RowReceipt(rows, key), ReceiptOf(d), outcome) == Allowed
    ensures var pending := PendingKeys(Surviving(b, now, rows));
      && (WriteRow(b, now, rows, key, d, outcome).1 == CapacityExceeded <==>
            key == "" || (key !in pending && |pending| >= 20))
      && (WriteRow(b, now, rows, key, d, outcome).1 == Written <==>
            key != "" && (key in pending || |pending| < 20))
      && (forall k :: k in pending <==> k in rows && KeepsSlot(b, now, k, rows[k]))
  {
    hide DecideWrite, IsTerminal, IsProtected, Invalid, Expired, Surviving;
    PendingAfterCollection(b, now, rows);
  }

  lemma PendingAfterCollection(b: Browser, now: int, rows: Rows)
    ensures forall k :: k in PendingKeys(Surviving(b, now, rows)) <==> k in rows && KeepsSlot(b, now, k, rows[k])
  {
    hide IsTerminal, IsProtected, Invalid, Expired;
  }

  /**
   * A terminal outcome takes no pending slot, yet it is refused whenever its key has no pending row, be
   * it absent or already terminal, and the slots are taken by rows that garbage collection keeps.
   */
  lemma TerminalOutcomeRefusedAtCapacity(b: Browser, now: int, rows: Rows, key: string, d: Draft,
                                         outcome: Option<Outcome>)
    requires IsTerminal(d) && key != "" && DecideWrite(RowReceipt(rows, key), ReceiptOf(d), outcome) == Allowed
    ensures PendingKeys(rows[key := d]) == PendingKeys(rows) - {key}
    ensures var pending := PendingKeys(Surviving(b, now, rows));
      WriteRow(b, now, rows, key, d, outcome).1 == CapacityExceeded <==> key !in pending && |pending| >= MAX_RECORDS
  {
    CapacityRefusalIsExact(b, now, rows, key, d, outcome);
    hide DecideWrite, IsTerminal, Surviving, WriteRow;
  }

  /** Storing once more the very receipt a key already holds is refused while twenty others are pending. */
  lemma IdenticalReceiptRefusedAtCapacity(b: Browser, now: int, rows: Rows, key: string, outcome: Option<Outcome>)
    requires key in rows && key != "" && IsTerminal(rows[key]) && IsPurposeLimited(rows[key]) && Id(rows[key]) != ""
    requires Status(rows[key]) in AUTHORITATIVE_STATUSES ==> MatchesOutcome(ReceiptOf(rows[key]), outcome)
    ensures DecideWrite(RowReceipt(rows, key), ReceiptOf(rows[key]), outcome) == Allowed
    ensures WriteRow(b, now, rows, key, rows[key], outcome).1 == CapacityExceeded <==>
      |PendingKeys(Surviving(b, now, rows))| >= MAX_RECORDS
  {
    TerminalIsProtected(Status(rows[key]));
    CapacityRefusalIsExact(b, now, rows, key, rows[key], outcome);
    hide WriteRow, Surviving;
  }

  // ---- One turn ----

  /** What a task carries: outcomes that were supplied, and tombstones that claim no outcome. */
  predicate TaskSound(t: Task, supplied: set<(string, string)>) {
    && (t.StoreStart? || t.StoreWrite? ==> OutcomeSupplied(t.outcome, supplied))
    && (t.RevokeFinish? ==> Status(t.tombstone) !in AUTHORITATIVE_STATUSES)
  }

  predicate ClearsRows(tick: Tick, t: Task) { t.TeardownStart? && tick.commits }

  lemma RevocationRow(live: Option<Draft>, fallback: Draft, status: RevocationStatus, supplied: set<(string, string)>)
    ensures var r := RevocationReceipt(live, fallback, status);
      && IsTerminal(r) && IsPurposeLimited(r) && Backed(r, supplied) && Status(r) !in AUTHORITATIVE_STATUSES
      && Status(r) == RevocationText(status)
      && (live.Some? ==> RowStep(live.value, r, supplied))
  {
    RevocationReceiptIsTerminal(live, fallback, status);
    hide RevocationReceipt, StatusOf, IdOf, Terminal, Protected;
  }

  lemma PuttingTerminalRow(rows: Rows, key: string, r: Draft, supplied: set<(string, string)>)
    requires IsTerminal(r) && Backed(r, supplied) && RowsBacked(rows, supplied)
    requires key in rows ==> RowStep(rows[key], r, supplied)
    ensures ProtectedRowsKept(rows, rows[key := r], supplied)
    ensures RowsBacked(rows[key := r], supplied)
    ensures PendingKeys(rows[key := r]) <= PendingKeys(rows)
  {
    hide IsTerminal, IsProtected, Status, Id, Backed;
  }

  lemma RevocationKeepsRows(b: Browser, tick: Tick, disk: Disk, task: Task, supplied: set<(string, string)>)
    requires task.RevokeWrite? && RowsBacked(disk.rows, supplied)
    ensures var (disk', task') := Turn(b, tick, disk, task);
      && ProtectedRowsKept(disk.rows, disk'.rows, supplied)
      && RowsBacked(disk'.rows, supplied)
      && PendingKeys(disk'.rows) <= PendingKeys(disk.rows)
      && TaskSound(task', supplied)
      && (if task'.RevokeFinish? then
            && task.key in disk'.rows && IsTerminal(disk'.rows[task.key]) && IsPurposeLimited(disk'.rows[task.key])
            && Status(disk'.rows[task.key]) == RevocationText(task.status)
            && disk'.rows - {task.key} == disk.rows - {task.key}
          else disk' == disk)
  {
    hide RevocationText, RevocationReceipt, StorableShape, RowsBacked, PendingKeys, IsTerminal, IsProtected, Id, Status,
         MayPersistBarrier,
         Backed, ProtectedRowsKept, RowStep, StoreTurn, ReadTurn, DeleteTurn, TeardownTurn, ListTurn, BarrierOf;
    var live := if task.key in disk.rows then Some(disk.rows[task.key]) else None;
    var receipt := RevocationReceipt(live, task.fallback, task.status);
    RevocationRow(live, task.fallback, task.status, supplied);
    NothingChanged(disk.rows, supplied);
    PuttingTerminalRow(disk.rows, task.key, receipt, supplied);
  }

  lemma NothingChanged(rows: Rows, supplied: set<(string, string)>)
    ensures ProtectedRowsKept(rows, rows, supplied)
  {
    hide IsTerminal, IsProtected, Status, Id;
  }

  lemma DeletionKeepsRows(b: Browser, tick: Tick, disk: Disk, task: Task, supplied: set<(string, string)>)
    requires task.DeleteRow? || task.ListDiscard?
    ensures var rows' := Turn(b, tick, disk, task).0.rows;
      && ProtectedRowsKept(disk.rows, rows', supplied)
      && (RowsBacked(disk.rows, supplied) ==> RowsBacked(rows', supplied))
      && PendingKeys(rows') <= PendingKeys(disk.rows)
      && (Turn(b, tick, disk, task).1.DeleteFinish? ==> rows' == disk.rows - {task.key})
      && (task.ListDiscard? && rows' != disk.rows ==> rows' == disk.rows - {tick.pick} && tick.pick in task.todo)
  {
    hide StatusOf, IdOf, Backed;
    forall k ensures k in disk.rows ==> (IsTerminal(disk.rows[k]) ==> IsProtected(disk.rows[k])) {
      if k in disk.rows { TerminalRowIsProtected(disk.rows[k]); }
    }
  }

  predicate TouchesRows(t: Task) {
    t.ReadMigrate? || t.ReadUpgrade? || t.StoreWrite? || t.RevokeWrite? || t.DeleteRow? || t.ListDiscard? ||
      t.TeardownStart?
  }

  lemma OtherTurnsLeaveRows(b: Browser, tick: Tick, disk: Disk, task: Task)
    requires !TouchesRows(task)
    ensures Turn(b, tick, disk, task).0.rows == disk.rows
  {
    hide DecideWrite, MayPersistBarrier, IsBarrier, WithinStoragePolicy, Invalid, Expired, IsProtected, ScanBarriers,
         RevocationReceipt;
  }

  lemma TaskStaysSound(b: Browser, tick: Tick, disk: Disk, task: Task, supplied: set<(string, string)>)
    requires TaskSound(task, supplied) && !task.RevokeWrite?
    ensures TaskSound(Turn(b, tick, disk, task).1, supplied)
  {
    hide DecideWrite, MayPersistBarrier, IsBarrier, WithinStoragePolicy, Invalid, Expired, IsProtected, ScanBarriers,
         RevocationReceipt, WriteRow, OutcomeSupplied;
  }

  /** Every turn keeps protected rows, backed outcomes and the pending bound. */
  lemma TurnKeepsRows(b: Browser, tick: Tick, disk: Disk, task: Task, supplied: set<(string, string)>)
    requires TaskSound(task, supplied) && RowsBacked(disk.rows, supplied)
    ensures var (disk', task') := Turn(b, tick, disk, task);
      && (ClearsRows(tick, task) || ProtectedRowsKept(disk.rows, disk'.rows, supplied))
      && RowsBacked(disk'.rows, supplied)
      && (|PendingKeys(disk.rows)| <= MAX_RECORDS ==> |PendingKeys(disk'.rows)| <= MAX_RECORDS)
      && TaskSound(task', supplied)
  {
    var (disk', task') := Turn(b, tick, disk, task);
    if !task.RevokeWrite? { TaskStaysSound(b, tick, disk, task, supplied); }
    hide RowsBacked, WriteRow, PendingKeys, RevocationReceipt, StorableShape;
    if task.ReadMigrate? || task.ReadUpgrade? {
      WriteKeepsProtectedRows(b, tick.now, disk.rows, task.key, task.upgraded, None, supplied);
      WriteKeepsRowsBacked(b, tick.now, disk.rows, task.key, task.upgraded, None, supplied);
      if |PendingKeys(disk.rows)| <= MAX_RECORDS {
        WriteKeepsCapacity(b, tick.now, disk.rows, task.key, task.upgraded, None);
      }
    } else if task.StoreWrite? {
      WriteKeepsProtectedRows(b, tick.now, disk.rows, task.key, task.draft, task.outcome, supplied);
      WriteKeepsRowsBacked(b, tick.now, disk.rows, task.key, task.draft, task.outcome, supplied);
      if |PendingKeys(disk.rows)| <= MAX_RECORDS {
        WriteKeepsCapacity(b, tick.now, disk.rows, task.key, task.draft, task.outcome);
      }
    } else if task.RevokeWrite? {
      RevocationKeepsRows(b, tick, disk, task, supplied);
      SubsetCardinality(PendingKeys(disk'.rows), PendingKeys(disk.rows));
    } else if task.DeleteRow? || task.ListDiscard? {
      DeletionKeepsRows(b, tick, disk, task, supplied);
      SubsetCardinality(PendingKeys(disk'.rows), PendingKeys(disk.rows));
    } else if task.TeardownStart? {
      TeardownKeepsRows(b, tick, disk, supplied);
    } else {
      OtherTurnsLeaveRows(b, tick, disk, task);
    }
  }

  lemma TeardownKeepsRows(b: Browser, tick: Tick, disk: Disk, supplied: set<(string, string)>)
    ensures var rows' := Turn(b, tick, disk, TeardownStart).0.rows;
      && (tick.commits ==> rows' == map[] && PendingKeys(rows') == {} && RowsBacked(rows', supplied))
      && (!tick.commits ==> rows' == disk.rows)
  {
  }

  // ---- Barriers are backed too ----

  predicate BarrierBacked(local: Local, key: string, supplied: set<(string, string)>) {
    BarrierOf(local, key).Some? ==> Backed(BarrierOf(local, key).value, supplied)
  }

  /** A standing barrier that claims an accepted, synced or conflicted outcome was given that outcome. */
  lemma TurnKeepsBarrierBacked(b: Browser, tick: Tick, disk: Disk, task: Task, supplied: set<(string, string)>,
                               key: string)
    requires TaskSound(task, supplied) && BarrierBacked(disk.local, key, supplied)
    ensures BarrierBacked(Turn(b, tick, disk, task).0.local, key, supplied)
  {
    if task.StoreStart? {
      StoreKeepsBarrierBacked(b, tick, disk, task, supplied, key);
    } else if task.RevokeStart? || task.RevokeFinish? {
      RevokeKeepsBarrierBacked(b, tick, disk, task, supplied, key);
    } else {
      OtherTurnsAddNothing(b, tick, disk, task, BarrierKey(key));
      hide Turn, Backed, IsBarrier;
    }
  }

  /** A barrier read or persisted at one key leaves, at any key, nothing but an old or the new barrier. */
  lemma BarrierChoices(local: Local, at: string, d: Draft, key: string)
    ensures BarrierOf(AfterBarrierRead(local, at), key) in {None, BarrierOf(local, key)}
    ensures BarrierOf(local[BarrierKey(at) := Json(d)], key) in {BarrierOf(local, key), None, Some(d)}
    ensures BarrierOf(AfterBarrierRead(local, at)[BarrierKey(at) := Json(d)], key)
      in {BarrierOf(local, key), None, Some(d)}
  {
    hide Invalid, IsTerminal, IsPurposeLimited;
    BarrierKeyInjective(key, at);
  }

  lemma RemovalChoices(local: Local, at: string, expected: Entry, key: string)
    ensures BarrierOf(RemoveIfUnchanged(local, at, expected), key) in {None, BarrierOf(local, key)}
  {
    hide IsBarrier;
  }

  lemma StoreKeepsBarrierBacked(b: Browser, tick: Tick, disk: Disk, task: Task, supplied: set<(string, string)>,
                                key: string)
    requires task.StoreStart?
    requires TaskSound(task, supplied) && BarrierBacked(disk.local, key, supplied)
    ensures BarrierBacked(StoreTurn(b, tick, disk, task).0.local, key, supplied)
  {
    hide DecideWrite, MayPersistBarrier, WithinStoragePolicy, BarrierOf, AfterBarrierRead, Backed, BarrierKey,
         IsTerminal, WriteRow;
    BarrierChoices(disk.local, task.key, task.draft, key);
    var barrier := OptionalReceipt(BarrierOf(disk.local, task.key));
    if DecideWrite(barrier, ReceiptOf(task.draft), task.outcome) == Allowed {
      AllowedWriteIsBacked(barrier, task.draft, task.outcome, supplied);
    }
  }

  lemma RevokeKeepsBarrierBacked(b: Browser, tick: Tick, disk: Disk, task: Task, supplied: set<(string, string)>,
                                 key: string)
    requires task.RevokeStart? || task.RevokeFinish?
    requires TaskSound(task, supplied) && BarrierBacked(disk.local, key, supplied)
    ensures BarrierBacked(RevokeTurn(b, tick, disk, task).0.local, key, supplied)
  {
    hide RevocationReceipt, MayPersistBarrier, StorableShape, BarrierOf, AfterBarrierRead, BarrierKey,
         RemoveIfUnchanged, Status, Id, IsPurposeLimited, IsTerminal;
    if task.RevokeStart? {
      var receipt := RevocationReceipt(BarrierOf(disk.local, task.key), task.fallback, task.status);
      RevocationRow(BarrierOf(disk.local, task.key), task.fallback, task.status, supplied);
      BarrierChoices(disk.local, task.key, receipt, key);
    } else {
      BarrierChoices(disk.local, task.key, task.tombstone, key);
      if task.legacy.Some? {
        RemovalChoices(disk.local[BarrierKey(task.key) := Json(task.tombstone)], task.key, task.legacy.value, key);
      }
    }
  }

  lemma {:induction false} ScanAddsNothing(order: seq<string>, local: Local, index: nat, at: string)
    requires index <= |order|
    ensures at in ScanBarriers(order, local, index).0 ==>
      at in local && ScanBarriers(order, local, index).0[at] == local[at]
    decreases |order| - index
  {
    if index < |order| {
      if BARRIER_PREFIX < order[index] && Discardable(local, order[index][|BARRIER_PREFIX|..]) {
        var shifted := order[..index] + order[index + 1..];
        var smaller := local - {BarrierKey(order[index][|BARRIER_PREFIX|..])};
        if index + 1 <= |shifted| { ScanAddsNothing(shifted, smaller, index + 1, at); }
      } else {
        ScanAddsNothing(order, local, index + 1, at);
      }
    }
  }

  lemma OtherTurnsAddNothing(b: Browser, tick: Tick, disk: Disk, task: Task, at: string)
    requires !task.StoreStart? && !task.RevokeStart? && !task.RevokeFinish?
    ensures var local' := Turn(b, tick, disk, task).0.local;
      at in local' ==> at in disk.local && local'[at] == disk.local[at]
  {
    if task.ListGot? { ScanAddsNothing(tick.order, disk.local, 0, at); }
    hide DecideWrite, MayPersistBarrier, IsBarrier, WithinStoragePolicy, Invalid, Expired, IsProtected, ScanBarriers,
         RevocationReceipt, WriteRow, Discardable, BeginDelete, ReadFound;
    if task.ReadGot? && task.stored.Some? {
      FoundAddsNothing(b, tick, disk, task.key, task.stored.value, at);
    } else if task.ReadMigrated? {
      var local := RemoveIfUnchanged(disk.local, task.key, task.legacyRaw);
      FoundAddsNothing(b, tick, disk.(local := local), task.key, task.upgraded, at);
    } else if task.ClearStart? {
      DeletionAddsNothing(disk, task.key, Completed, at);
    }
  }

  lemma DeletionAddsNothing(disk: Disk, key: string, result: Result, at: string)
    ensures var local' := BeginDelete(disk, key, result).0.local;
      at in local' ==> at in disk.local && local'[at] == disk.local[at]
  {
    hide Discardable, BarrierOf, DeleteAllowed;
  }

  lemma FoundAddsNothing(b: Browser, tick: Tick, disk: Disk, key: string, parsed: Draft, at: string)
    ensures var local' := ReadFound(b, tick, disk, key, parsed).0.local;
      at in local' ==> at in disk.local && local'[at] == disk.local[at]
  {
    DeletionAddsNothing(disk, key, NotFound, at);
    hide BeginDelete, Expired, Invalid, IsProtected, WithinStoragePolicy, WithId;
  }

  // ---- Whole runs ----

  /** Holds of an empty store with no tasks, and of every state reachable from it. */
  ghost predicate StoreInvariant(s: System) {
    && RowsBacked(s.disk.rows, s.supplied)
    && (forall key :: BarrierBacked(s.disk.local, key, s.supplied))
    && |PendingKeys(s.disk.rows)| <= MAX_RECORDS
    && (forall id :: id in s.tasks ==> TaskSound(s.tasks[id], s.supplied))
  }

  lemma EmptyStoreSatisfiesInvariant(local: Local)
    requires forall key :: BarrierOf(local, key).None?
    ensures StoreInvariant(System(Disk(local, map[]), map[], {}))
  {
    assert PendingKeys(map[]) == {};
  }

  lemma StepKeepsInvariant(b: Browser, s: System, a: Action)
    requires StoreInvariant(s) && Enabled(s, a)
    ensures StoreInvariant(Step(b, s, a)) && s.supplied <= Step(b, s, a).supplied
  {
    hide Turn, PendingKeys, BarrierOf, Id, Status, IsPurposeLimited;
    if a.Resume? {
      TurnKeepsRows(b, a.tick, s.disk, s.tasks[a.id], s.supplied);
      forall key ensures BarrierBacked(Step(b, s, a).disk.local, key, s.supplied) {
        TurnKeepsBarrierBacked(b, a.tick, s.disk, s.tasks[a.id], s.supplied, key);
      }
    } else {
      forall key ensures BarrierBacked(s.disk.local, key, Step(b, s, a).supplied) {
        assert BarrierBacked(s.disk.local, key, s.supplied);
      }
    }
  }

  /**
   * Capacity and authority over whole runs: at every point of a run at most 20 rows are pending, and
   * every accepted, synced or conflicted record, row or barrier, was given that outcome by the server.
   */
  lemma {:induction false} RunsKeepInvariant(b: Browser, states: seq<System>, actions: seq<Action>, i: nat, j: nat)
    requires IsRun(b, states, actions) && i <= j <= |actions|
    requires StoreInvariant(states[i])
    ensures StoreInvariant(states[j]) && states[i].supplied <= states[j].supplied
    decreases j
  {
    hide StoreInvariant, Step;
    if i < j {
      RunsKeepInvariant(b, states, actions, i, j - 1);
      assert Enabled(states[j - 1], actions[j - 1]) && states[j - 1 + 1] == Step(b, states[j - 1], actions[j - 1]);
      StepKeepsInvariant(b, states[j - 1], actions[j - 1]);
    }
  }

  predicate ClearsRowsAt(s: System, a: Action) {
    a.Resume? && a.id in s.tasks && ClearsRows(a.tick, s.tasks[a.id])
  }

  /** The row under `key` still guards the receipt of `before`. */
  predicate Guards(s: System, key: string, before: Draft) {
    && key in s.disk.rows
    && Id(s.disk.rows[key]) == Id(before)
    && IsProtected(s.disk.rows[key])
    && (IsTerminal(before) ==> IsTerminal(s.disk.rows[key]))
  }

  /** The server outcomes this very turn was handed with its draft. */
  function OwnOutcome(t: Task): set<(string, string)> {
    if t.StoreWrite? && t.outcome.Some? then {OutcomePair(t.outcome.value)} else {}
  }

  /** A store of the key that was handed REJECTED for the receipt's id makes the row editable, in place. */
  predicate ReleasesAt(s: System, a: Action, after: System, key: string, before: Draft) {
    && !IsTerminal(before)
    && a.Resume? && a.id in s.tasks && (Id(before), "REJECTED") in OwnOutcome(s.tasks[a.id])
    && key in after.disk.rows && Id(after.disk.rows[key]) == Id(before) && Status(after.disk.rows[key]) == "REJECTED"
  }

  function NotRejected(supplied: set<(string, string)>): set<(string, string)> {
    set p | p in supplied && p.1 != "REJECTED"
  }

  /** A turn releases a protected row only by the REJECTED outcome it was itself handed. */
  lemma TurnReleasesByOwnOutcome(b: Browser, tick: Tick, disk: Disk, task: Task, supplied: set<(string, string)>)
    requires TaskSound(task, supplied) && RowsBacked(disk.rows, supplied) && !ClearsRows(tick, task)
    ensures ProtectedRowsKept(disk.rows, Turn(b, tick, disk, task).0.rows, NotRejected(supplied) + OwnOutcome(task))
  {
    hide Turn, IsTerminal, IsProtected, Id, IsPurposeLimited, PendingKeys;
    var own := NotRejected(supplied) + OwnOutcome(task);
    if task.StoreStart? {
      assert ProtectedRowsKept(disk.rows, Turn(b, tick, disk, task).0.rows, own) by {
        OtherTurnsLeaveRows(b, tick, disk, task);
        NothingChanged(disk.rows, own);
      }
    } else {
      TurnKeepsRows(b, tick, disk, task, own);
    }
  }

  lemma StepKeepsGuard(b: Browser, s: System, a: Action, key: string, before: Draft)
    requires StoreInvariant(s) && Enabled(s, a) && !ClearsRowsAt(s, a)
    requires Guards(s, key, before)
    ensures Guards(Step(b, s, a), key, before) || ReleasesAt(s, a, Step(b, s, a), key, before)
  {
    hide Turn, Id, Status, IsTerminal, IsProtected, PendingKeys, Backed, BarrierBacked, OwnOutcome;
    if a.Resume? {
      TurnReleasesByOwnOutcome(b, a.tick, s.disk, s.tasks[a.id], s.supplied);
      assert RowStep(s.disk.rows[key], Step(b, s, a).disk.rows[key],
        NotRejected(s.supplied) + OwnOutcome(s.tasks[a.id]));
    }
    TerminalRowIsProtected(Step(b, s, a).disk.rows[key]);
  }

  /**
   * A protected row stays, protected and with its submission id, through every run without a teardown
   * clear, up to the step at which a store handed REJECTED for that very id makes it editable in place;
   * a terminal row stays terminal regardless.
   */
  lemma {:induction false} ProtectedRowPersists(b: Browser, states: seq<System>, actions: seq<Action>, i: nat, j: nat,
                                                key: string)
    returns (released: Option<nat>)
    requires IsRun(b, states, actions) && i <= j <= |actions| && StoreInvariant(states[i])
    requires key in states[i].disk.rows && IsProtected(states[i].disk.rows[key])
    requires forall n :: i <= n < j ==> !ClearsRowsAt(states[n], actions[n])
    ensures var before := states[i].disk.rows[key];
      match released
      case None => Guards(states[j], key, before)
      case Some(n) => i <= n < j && Guards(states[n], key, before)
                      && ReleasesAt(states[n], actions[n], states[n + 1], key, before)
    decreases j
  {
    released := None;
    if i == j {
      assert Guards(states[j], key, states[i].disk.rows[key]);
    } else {
      hide Step, Enabled, IsProtected, IsTerminal, Id, Guards, StoreInvariant, ClearsRowsAt, ReleasesAt;
      released := ProtectedRowPersists(b, states, actions, i, j - 1, key);
      if released.None? {
        var s, a, before := states[j - 1], actions[j - 1], states[i].disk.rows[key];
        RunsKeepInvariant(b, states, actions, i, j - 1);
        assert Enabled(s, a) && states[j - 1 + 1] == Step(b, s, a) && !ClearsRowsAt(s, a);
        StepKeepsGuard(b, s, a, key, before);
        if !Guards(states[j], key, before) { released := Some(j - 1); }
      }
    }
  }
}
