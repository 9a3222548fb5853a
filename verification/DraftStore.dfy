/**
 * The attendance-draft store of session.ts as a step system. Browser tabs share one localStorage
 * (receipt barriers and legacy drafts) and one IndexedDB object store (rows). Every public operation
 * is a task; one turn of a task is one synchronous localStorage stretch or one IndexedDB transaction.
 */
module DraftStore {
  import opened Foundations
  import opened ReceiptFence
  import opened AttendanceDrafts

  /** A localStorage value: an encoded record, or text that is not one. */
  datatype Entry = Json(draft: Draft) | Garbage(text: string)

  type Local = map<string, Entry>
  type Rows = map<string, Draft>

  datatype Disk = Disk(local: Local, rows: Rows)

  const DRAFT_PREFIX := "schoolos.attendance-draft:"
  const BARRIER_PREFIX := "schoolos.attendance-draft-receipt-barrier:"

  function BarrierKey(key: string): string {
    BARRIER_PREFIX + key
  }

  // ---- localStorage helpers ----

  function Lookup(local: Local, key: string): Option<Entry> {
    if key in local then Some(local[key]) else None
  }

  predicate EmptyText(e: Entry) { e == Garbage("") }

  function RemoveIfUnchanged(local: Local, key: string, expected: Entry): Local {
    if Lookup(local, key) == Some(expected) then local - {key} else local
  }

  predicate IsBarrier(key: string, e: Entry) {
    e.Json? && !Invalid(key, e.draft) && IsTerminal(e.draft) && IsPurposeLimited(e.draft)
  }

  /** The barrier a read of `key` returns, if there is one. */
  function BarrierOf(local: Local, key: string): Option<Draft> {
    if BarrierKey(key) in local && IsBarrier(key, local[BarrierKey(key)])
    then Some(local[BarrierKey(key)].draft) else None
  }

  /** A barrier entry that the next read of `key` throws away. */
  predicate Discardable(local: Local, key: string) {
    && BarrierKey(key) in local
    && !EmptyText(local[BarrierKey(key)])
    && !IsBarrier(key, local[BarrierKey(key)])
  }

  function AfterBarrierRead(local: Local, key: string): Local {
    if Discardable(local, key) then local - {BarrierKey(key)} else local
  }

  predicate MayPersistBarrier(b: Browser, d: Draft) {
    IsTerminal(d) && IsPurposeLimited(d) && StorableShape(b, d)
  }

  // ---- IndexedDB transactions ----

  datatype WriteOutcome = Written | FenceRefused(reason: RejectionReason) | CapacityExceeded

  function RowReceipt(rows: Rows, key: string): Option<Receipt> {
    if key in rows then Some(ReceiptOf(rows[key])) else None
  }

  /** Garbage collection drops invalid or expired rows that no receipt protects. */
  predicate Collectable(b: Browser, now: int, key: string, d: Draft) {
    !IsTerminal(d) && (Invalid(key, d) || Expired(b, now, d)) && !IsProtected(d)
  }

  function Surviving(b: Browser, now: int, rows: Rows): Rows {
    map k | k in rows && !Collectable(b, now, k, rows[k]) :: rows[k]
  }

  /** The keys that take up one of the bounded pending slots. */
  function PendingKeys(rows: Rows): set<string> {
    set k | k in rows && !IsTerminal(rows[k])
  }

  predicate CanStorePending(existing: set<string>, target: string, maxRecords: int) {
    target != "" && maxRecords >= 1 && (target in existing || |existing| < maxRecords)
  }

  function WriteRow(b: Browser, now: int, rows: Rows, key: string, d: Draft, outcome: Option<Outcome>)
    : (Rows, WriteOutcome)
  {
    var decision := DecideWrite(RowReceipt(rows, key), ReceiptOf(d), outcome);
    if decision.Refused? then (rows, FenceRefused(decision.reason))
    else
      var kept := Surviving(b, now, rows);
      if CanStorePending(PendingKeys(kept), key, MAX_RECORDS) then (kept[key := d], Written)
      else (kept, CapacityExceeded)
  }

  // ---- Tasks ----

  datatype Result = NotFound | Found(draft: Draft) | Listed(visible: map<string, Draft>) | Completed | Failed

  datatype Task =
    | ReadStart(key: string)
    | ReadGet(key: string)
    | ReadGot(key: string, stored: Option<Draft>)
    | ReadMigrate(key: string, upgraded: Draft, legacyRaw: Entry)
    | ReadMigrated(key: string, upgraded: Draft, legacyRaw: Entry)
    | ReadUpgrade(key: string, upgraded: Draft)
    | StoreStart(key: string, draft: Draft, outcome: Option<Outcome>)
    | StoreWrite(key: string, draft: Draft, outcome: Option<Outcome>)
    | RevokeStart(key: string, fallback: Draft, status: RevocationStatus)
    | RevokeWrite(key: string, fallback: Draft, status: RevocationStatus, legacy: Option<Entry>)
    | RevokeFinish(key: string, tombstone: Draft, legacy: Option<Entry>)
    | ClearStart(key: string)
    | DeleteRow(key: string, legacy: Option<Entry>, result: Result)
    | DeleteFinish(key: string, legacy: Option<Entry>, result: Result)
    | TeardownStart
    | TeardownSweep
    | ListStart(tenantId: string, userId: string)
    | ListGot(prefix: string, listed: Rows)
    | ListDiscard(todo: set<string>, visible: Rows)
    | Done(result: Result)

  /** What one turn takes from outside: the clock, a fresh id, whether its transaction commits, and orders. */
  datatype Tick = Tick(now: int, freshId: string, commits: bool, pick: string, order: seq<string>)

  function WithId(d: Draft, freshId: string): Draft {
    if Truthy(d.clientSubmissionId) then d else d.(clientSubmissionId := Text(freshId))
  }

  /** First stretch of deleting a draft: both localStorage copies must allow it. */
  function BeginDelete(disk: Disk, key: string, result: Result): (Disk, Task) {
    var local := AfterBarrierRead(disk.local, key);
    var legacy := Lookup(local, key);
    if !DeleteAllowed(OptionalReceipt(BarrierOf(disk.local, key))) then
      (disk.(local := local), Done(Failed))
    else if legacy.Some? && legacy.value.Json? && !DeleteAllowed(Some(ReceiptOf(legacy.value.draft))) then
      (disk.(local := local), Done(Failed))
    else
      (disk.(local := local), DeleteRow(key, legacy, result))
  }

  /** What a read does with the record it found in IndexedDB or migrated from localStorage. */
  function ReadFound(b: Browser, tick: Tick, disk: Disk, key: string, parsed: Draft): (Disk, Task) {
    if Invalid(key, parsed) then
      BeginDelete(disk, key, NotFound)
    else if Expired(b, tick.now, parsed) then
      if IsProtected(parsed) then (disk, Done(Found(parsed))) else BeginDelete(disk, key, NotFound)
    else if !Truthy(parsed.clientSubmissionId) then
      var upgraded := WithId(parsed, tick.freshId);
      (disk, if WithinStoragePolicy(b, tick.now, upgraded) then ReadUpgrade(key, upgraded) else Done(Failed))
    else
      (disk, Done(Found(parsed)))
  }

  function ReadTurn(b: Browser, tick: Tick, disk: Disk, task: Task): (Disk, Task)
    requires task.ReadStart? || task.ReadGet? || task.ReadGot? || task.ReadMigrate? || task.ReadMigrated? ||
      task.ReadUpgrade?
  {
    match task
    case ReadStart(key) =>
      if key == "" then (disk, Done(NotFound))
      else
        var barrier := BarrierOf(disk.local, key);
        (disk.(local := AfterBarrierRead(disk.local, key)),
         if barrier.Some? then Done(Found(barrier.value)) else ReadGet(key))
    case ReadGet(key) =>
      (disk, if !tick.commits then Done(Failed)
             else ReadGot(key, if key in disk.rows then Some(disk.rows[key]) else None))
    case ReadGot(key, stored) =>
      if stored.Some? then ReadFound(b, tick, disk, key, stored.value)
      else
        var legacy := Lookup(disk.local, key);
        if legacy.None? || EmptyText(legacy.value) then (disk, Done(NotFound))
        else if legacy.value.Json?
             && WithinStoragePolicy(b, tick.now, WithId(legacy.value.draft, tick.freshId)) then
          (disk, ReadMigrate(key, WithId(legacy.value.draft, tick.freshId), legacy.value))
        else (disk.(local := disk.local - {key}), Done(NotFound))
    case ReadMigrate(key, upgraded, legacyRaw) =>
      if !tick.commits then (disk, Done(Failed))
      else
        var (rows, outcome) := WriteRow(b, tick.now, disk.rows, key, upgraded, None);
        (disk.(rows := rows), if outcome == Written then ReadMigrated(key, upgraded, legacyRaw) else Done(Failed))
    case ReadMigrated(key, upgraded, legacyRaw) =>
      ReadFound(b, tick, disk.(local := RemoveIfUnchanged(disk.local, key, legacyRaw)), key, upgraded)
    case ReadUpgrade(key, upgraded) =>
      if !tick.commits then (disk, Done(Failed))
      else
        var (rows, outcome) := WriteRow(b, tick.now, disk.rows, key, upgraded, None);
        (disk.(rows := rows), if outcome == Written then Done(Found(upgraded)) else Done(Failed))
  }

  function StoreTurn(b: Browser, tick: Tick, disk: Disk, task: Task): (Disk, Task)
    requires task.StoreStart? || task.StoreWrite?
  {
    match task
    case StoreStart(key, draft, outcome) =>
      if key == "" then (disk, Done(Completed))
      else if !WithinStoragePolicy(b, tick.now, draft) then (disk, Done(Failed))
      else
        var local := AfterBarrierRead(disk.local, key);
        var barrier := OptionalReceipt(BarrierOf(disk.local, key));
        if DecideWrite(barrier, ReceiptOf(draft), outcome).Refused? then (disk.(local := local), Done(Failed))
        else if !IsTerminal(draft) then (disk.(local := local), StoreWrite(key, draft, outcome))
        else if !MayPersistBarrier(b, draft) then (disk.(local := local), Done(Failed))
        else (disk.(local := local[BarrierKey(key) := Json(draft)]), StoreWrite(key, draft, outcome))
    case StoreWrite(key, draft, outcome) =>
      if !tick.commits then (disk, Done(Failed))
      else
        var (rows, result) := WriteRow(b, tick.now, disk.rows, key, draft, outcome);
        (disk.(rows := rows), if result == Written then Done(Completed) else Done(Failed))
  }

  function RevokeTurn(b: Browser, tick: Tick, disk: Disk, task: Task): (Disk, Task)
    requires task.RevokeStart? || task.RevokeWrite? || task.RevokeFinish?
  {
    match task
    case RevokeStart(key, fallback, status) =>
      if key == "" then (disk, Done(Found(RevocationReceipt(None, fallback, status))))
      else
        var legacy := Lookup(disk.local, key);
        var local := AfterBarrierRead(disk.local, key);
        var receipt := RevocationReceipt(BarrierOf(disk.local, key), fallback, status);
        if !MayPersistBarrier(b, receipt) then (disk.(local := local), Done(Failed))
        else (disk.(local := local[BarrierKey(key) := Json(receipt)]), RevokeWrite(key, receipt, status, legacy))
    case RevokeWrite(key, fallback, status, legacy) =>
      var live := if key in disk.rows then Some(disk.rows[key]) else None;
      var tombstone := RevocationReceipt(live, fallback, status);
      if !tick.commits || !StorableShape(b, tombstone) then (disk, Done(Failed))
      else (disk.(rows := disk.rows[key := tombstone]), RevokeFinish(key, tombstone, legacy))
    case RevokeFinish(key, tombstone, legacy) =>
      if !MayPersistBarrier(b, tombstone) then (disk, Done(Failed))
      else
        var local := disk.local[BarrierKey(key) := Json(tombstone)];
        (disk.(local := if legacy.Some? then RemoveIfUnchanged(local, key, legacy.value) else local),
         Done(Found(tombstone)))
  }

  function DeleteTurn(tick: Tick, disk: Disk, task: Task): (Disk, Task)
    requires task.ClearStart? || task.DeleteRow? || task.DeleteFinish?
  {
    match task
    case ClearStart(key) =>
      if key == "" then (disk, Done(Completed)) else BeginDelete(disk, key, Completed)
    case DeleteRow(key, legacy, result) =>
      if !tick.commits || !DeleteAllowed(RowReceipt(disk.rows, key)) then (disk, Done(Failed))
      else (disk.(rows := disk.rows - {key}), DeleteFinish(key, legacy, result))
    case DeleteFinish(key, legacy, result) =>
      (disk.(local := if legacy.Some? then RemoveIfUnchanged(disk.local, key, legacy.value) else disk.local),
       Done(result))
  }

  /** The localStorage keys a session teardown removes. */
  predicate Swept(key: string) {
    DRAFT_PREFIX <= key || BARRIER_PREFIX <= key
  }

  function Sweep(local: Local): Local {
    map k | k in local && !Swept(k) :: local[k]
  }

  function TeardownTurn(tick: Tick, disk: Disk, task: Task): (Disk, Task)
    requires task.TeardownStart? || task.TeardownSweep?
  {
    match task
    case TeardownStart => (if tick.commits then disk.(rows := map[]) else disk, TeardownSweep)
    case TeardownSweep => (disk.(local := Sweep(disk.local)), Done(Completed))
  }

  /**
   * The index loop over localStorage keys that lists barriers. Discarding an entry shifts the keys
   * after it down by one, but the index still advances.
   */
  function ScanBarriers(order: seq<string>, local: Local, index: nat): (Local, Rows)
    requires index <= |order|
    decreases |order| - index
  {
    if index == |order| then (local, map[])
    else if !(BARRIER_PREFIX < order[index]) then ScanBarriers(order, local, index + 1)
    else
      var key := order[index][|BARRIER_PREFIX|..];
      if Discardable(local, key) then
        var shifted := order[..index] + order[index + 1..];
        if index + 1 <= |shifted| then ScanBarriers(shifted, local - {BarrierKey(key)}, index + 1)
        else (local - {BarrierKey(key)}, map[])
      else
        var (rest, found) := ScanBarriers(order, local, index + 1);
        var barrier := BarrierOf(local, key);
        (rest, if barrier.Some? then found[key := barrier.value] else found)
  }

  ghost predicate Enumerates(order: seq<string>, local: Local) {
    && (forall k :: k in local <==> k in order)
    && (forall i, j :: 0 <= i < j < |order| ==> order[i] != order[j])
  }

  function ListTurn(b: Browser, tick: Tick, disk: Disk, task: Task): (Disk, Task)
    requires task.ListStart? || task.ListGot? || task.ListDiscard?
  {
    match task
    case ListStart(tenantId, userId) =>
      if Blank(tenantId) || Blank(userId) then (disk, Done(Listed(map[])))
      else if !tick.commits then (disk, Done(Failed))
      else (disk, ListGot(DRAFT_PREFIX + tenantId + ":" + userId + ":", disk.rows))
    case ListGot(prefix, listed) =>
      var (local, barriers) := ScanBarriers(tick.order, disk.local, 0);
      var merged := listed + barriers;
      var discarded := set k | k in listed && !IsProtected(listed[k])
                              && (Invalid(k, listed[k]) || Expired(b, tick.now, listed[k]));
      var visible := map k | k in merged && !Invalid(k, merged[k])
                            && (!Expired(b, tick.now, merged[k]) || IsProtected(merged[k]))
                            && prefix <= k :: merged[k];
      (disk.(local := local), ListDiscard(discarded, visible))
    case ListDiscard(todo, visible) =>
      if tick.pick !in todo then
        (disk, if todo == {} then Done(Listed(visible)) else task)
      else if tick.commits && DeleteAllowed(RowReceipt(disk.rows, tick.pick)) then
        (disk.(rows := disk.rows - {tick.pick}), ListDiscard(todo - {tick.pick}, visible))
      else
        (disk, ListDiscard(todo - {tick.pick}, visible))
  }

  /** One turn of a task. */
  function Turn(b: Browser, tick: Tick, disk: Disk, task: Task): (Disk, Task) {
    match task
    case Done(_) => (disk, task)
    case StoreStart(_, _, _) => StoreTurn(b, tick, disk, task)
    case StoreWrite(_, _, _) => StoreTurn(b, tick, disk, task)
    case RevokeStart(_, _, _) => RevokeTurn(b, tick, disk, task)
    case RevokeWrite(_, _, _, _) => RevokeTurn(b, tick, disk, task)
    case RevokeFinish(_, _, _) => RevokeTurn(b, tick, disk, task)
    case ClearStart(_) => DeleteTurn(tick, disk, task)
    case DeleteRow(_, _, _) => DeleteTurn(tick, disk, task)
    case DeleteFinish(_, _, _) => DeleteTurn(tick, disk, task)
    case TeardownStart => TeardownTurn(tick, disk, task)
    case TeardownSweep => TeardownTurn(tick, disk, task)
    case ListStart(_, _) => ListTurn(b, tick, disk, task)
    case ListGot(_, _) => ListTurn(b, tick, disk, task)
    case ListDiscard(_, _) => ListTurn(b, tick, disk, task)
    case _ => ReadTurn(b, tick, disk, task)
  }

  // ---- Runs ----

  /** All tabs' tasks over the shared disk, with a record of every server outcome handed to a store. */
  datatype System = System(disk: Disk, tasks: map<nat, Task>, supplied: set<(string, string)>)

  datatype Action = Begin(id: nat, task: Task) | Resume(id: nat, tick: Tick) | Abandon(id: nat)

  /** The tasks the public operations begin with. */
  predicate Startable(t: Task) {
    t.ReadStart? || t.StoreStart? || t.RevokeStart? || t.ClearStart? || t.TeardownStart? || t.ListStart?
  }

  function OutcomePair(outcome: Outcome): (string, string) {
    (NormalizeId(outcome.clientSubmissionId), NormalizeStatus(outcome.syncStatus))
  }

  function SuppliedBy(t: Task): set<(string, string)> {
    if t.StoreStart? && t.outcome.Some? then {OutcomePair(t.outcome.value)} else {}
  }

  ghost predicate Enabled(s: System, a: Action) {
    match a
    case Begin(id, task) => id !in s.tasks && Startable(task)
    case Resume(id, tick) => id in s.tasks && (s.tasks[id].ListGot? ==> Enumerates(tick.order, s.disk.local))
    case Abandon(id) => id in s.tasks
  }

  /** Tasks begin, take a turn or are cut off (a closed page, a stale ticket) in any interleaving. */
  function Step(b: Browser, s: System, a: Action): System
    requires Enabled(s, a)
  {
    match a
    case Begin(id, task) => System(s.disk, s.tasks[id := task], s.supplied + SuppliedBy(task))
    case Resume(id, tick) =>
      var (disk, task) := Turn(b, tick, s.disk, s.tasks[id]);
      System(disk, s.tasks[id := task], s.supplied)
    case Abandon(id) => s.(tasks := s.tasks - {id})
  }

  ghost predicate IsRun(b: Browser, states: seq<System>, actions: seq<Action>) {
    && |states| == |actions| + 1
    && forall i :: 0 <= i < |actions| ==>
      Enabled(states[i], actions[i]) && states[i + 1] == Step(b, states[i], actions[i])
  }
}
