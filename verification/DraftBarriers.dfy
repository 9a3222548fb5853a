/**
 * Receipt barriers over whole runs: a persisted barrier survives every interleaving of every tab's
 * operations until a session teardown, and while it stands no read or listing of its key returns
 * anything but a terminal, roster-free record.
 */
module DraftBarriers {
  import opened Foundations
  import opened ReceiptFence
  import opened AttendanceDrafts
  import opened DraftStore

  lemma BarrierKeyInjective(a: string, c: string)
    ensures BarrierKey(a) == BarrierKey(c) ==> a == c
    ensures BarrierKey(a) != a
  {
    assert BarrierKey(a)[|BARRIER_PREFIX|..] == a;
    assert BarrierKey(c)[|BARRIER_PREFIX|..] == c;
    assert |BarrierKey(a)| == |BARRIER_PREFIX| + |a|;
  }

  function TaskKey(t: Task): Option<string> {
    match t
    case ReadStart(key) => Some(key)
    case ReadGet(key) => Some(key)
    case ReadGot(key, _) => Some(key)
    case ReadMigrate(key, _, _) => Some(key)
    case ReadMigrated(key, _, _) => Some(key)
    case ReadUpgrade(key, _) => Some(key)
    case StoreStart(key, _, _) => Some(key)
    case StoreWrite(key, _, _) => Some(key)
    case RevokeStart(key, _, _) => Some(key)
    case RevokeWrite(key, _, _, _) => Some(key)
    case RevokeFinish(key, _, _) => Some(key)
    case ClearStart(key) => Some(key)
    case DeleteRow(key, _, _) => Some(key)
    case DeleteFinish(key, _, _) => Some(key)
    case _ => None
  }

  predicate Revokes(t: Task, key: string) {
    (t.RevokeStart? || t.RevokeFinish?) && t.key == key
  }

  predicate SameReceipt(d: Draft, e: Draft) {
    IdOf(ReceiptOf(d)) == IdOf(ReceiptOf(e)) && StatusOf(ReceiptOf(d)) == StatusOf(ReceiptOf(e))
  }

  // ---- Persisting and reading one barrier ----

  /**
   * The check at persist time implies the check at read time: a persisted barrier is read back
   * unchanged exactly when its key is not blank; under a blank key the next read discards it.
   */
  lemma PersistedBarrierIsReadable(b: Browser, local: Local, key: string, d: Draft)
    requires MayPersistBarrier(b, d)
    ensures var after := local[BarrierKey(key) := Json(d)];
      && (BarrierOf(after, key) == Some(d) <==> !Blank(key))
      && (Discardable(after, key) <==> Blank(key))
  {
  }

  /** What a barrier shows: a terminal receipt whose roster is empty. */
  lemma BarrierIsRosterFree(local: Local, key: string)
    requires BarrierOf(local, key).Some?
    ensures key != ""
    ensures var d := BarrierOf(local, key).value;
      IsTerminal(d) && IsProtected(d) && d.exceptions == Entries(map[]) && d.remarks == Entries(map[])
  {
    var d := BarrierOf(local, key).value;
    TerminalIsProtected(StatusOf(ReceiptOf(d)));
    assert d.exceptions.items == map[] && d.remarks.items == map[];
  }

  // ---- The listing scan ----

  lemma {:induction false} ScanKeepsBarrier(order: seq<string>, local: Local, index: nat, key: string)
    requires index <= |order|
    requires BarrierOf(local, key).Some?
    ensures BarrierOf(ScanBarriers(order, local, index).0, key) == BarrierOf(local, key)
    decreases |order| - index
  {
    if index == |order| {
    } else if !(BARRIER_PREFIX < order[index]) {
      ScanKeepsBarrier(order, local, index + 1, key);
    } else {
      var other := order[index][|BARRIER_PREFIX|..];
      if Discardable(local, other) {
        BarrierKeyInjective(key, other);
        var shifted := order[..index] + order[index + 1..];
        if index + 1 <= |shifted| {
          ScanKeepsBarrier(shifted, local - {BarrierKey(other)}, index + 1, key);
        }
      } else {
        ScanKeepsBarrier(order, local, index + 1, key);
      }
    }
  }

  // ---- One turn ----

  lemma DeletionKeepsBarrier(disk: Disk, at: string, result: Result, key: string)
    requires BarrierOf(disk.local, key).Some?
    ensures BarrierOf(BeginDelete(disk, at, result).0.local, key) == BarrierOf(disk.local, key)
    ensures TaskKey(BeginDelete(disk, at, result).1) in {None, Some(at)}
  {
    BarrierKeyInjective(key, at);
  }

  lemma RemovalKeepsBarrier(local: Local, at: string, expected: Entry, key: string)
    requires BarrierOf(local, key).Some? && at != BarrierKey(key)
    ensures BarrierOf(RemoveIfUnchanged(local, at, expected), key) == BarrierOf(local, key)
  {
  }

  lemma KeptByBarrierRead(local: Local, at: string, key: string)
    requires BarrierOf(local, key).Some?
    ensures BarrierOf(AfterBarrierRead(local, at), key) == BarrierOf(local, key)
  {
    BarrierKeyInjective(key, at);
  }

  lemma PersistingKeepsBarriers(b: Browser, local: Local, at: string, d: Draft, key: string)
    requires BarrierOf(local, key).Some? && MayPersistBarrier(b, d)
    ensures BarrierOf(local[BarrierKey(at) := Json(d)], key) == if at == key then Some(d) else BarrierOf(local, key)
    ensures BarrierOf(AfterBarrierRead(local, at)[BarrierKey(at) := Json(d)], key)
      == if at == key then Some(d) else BarrierOf(local, key)
  {
    BarrierKeyInjective(key, at);
  }

  lemma ReadTurnKeepsBarrier(b: Browser, tick: Tick, disk: Disk, task: Task, key: string)
    requires task.ReadStart? || task.ReadGet? || task.ReadGot? || task.ReadMigrate? || task.ReadMigrated? ||
      task.ReadUpgrade?
    requires BarrierOf(disk.local, key).Some? && task.key != BarrierKey(key)
    ensures var (disk', task') := ReadTurn(b, tick, disk, task);
      BarrierOf(disk'.local, key) == BarrierOf(disk.local, key) && TaskKey(task') in {None, Some(task.key)}
  {
    hide WriteRow, WithinStoragePolicy, Expired, IsProtected, Invalid, IsBarrier, BarrierKey;
    BarrierKeyInjective(key, task.key);
    if task.ReadMigrated? {
      var local := RemoveIfUnchanged(disk.local, task.key, task.legacyRaw);
      RemovalKeepsBarrier(disk.local, task.key, task.legacyRaw, key);
      DeletionKeepsBarrier(disk.(local := local), task.key, NotFound, key);
    } else if task.ReadGot? {
      DeletionKeepsBarrier(disk, task.key, NotFound, key);
    }
  }

  lemma StoreTurnKeepsBarrier(b: Browser, tick: Tick, disk: Disk, task: Task, key: string)
    requires task.StoreStart? || task.StoreWrite?
    requires BarrierOf(disk.local, key).Some?
    ensures var (disk', task') := StoreTurn(b, tick, disk, task);
      && BarrierOf(disk'.local, key).Some?
      && SameReceipt(BarrierOf(disk.local, key).value, BarrierOf(disk'.local, key).value)
      && TaskKey(task') in {None, Some(task.key)}
  {
    hide WriteRow, WithinStoragePolicy, DecideWrite, MayPersistBarrier, IsBarrier, BarrierKey, Protected, Terminal,
         PurposeLimited, IdOf, StatusOf;
    BarrierIsRosterFree(disk.local, key);
    if task.StoreStart? {
      KeptByBarrierRead(disk.local, task.key, key);
      if MayPersistBarrier(b, task.draft) {
        PersistingKeepsBarriers(b, disk.local, task.key, task.draft, key);
      }
      if task.key == key {
        var existing := ReceiptOf(BarrierOf(disk.local, key).value);
        if DecideWrite(Some(existing), ReceiptOf(task.draft), task.outcome) == Allowed {
          AllowedWriteOverProtected(existing, ReceiptOf(task.draft), task.outcome);
        }
      }
    }
  }

  lemma RevokeTurnKeepsBarrier(b: Browser, tick: Tick, disk: Disk, task: Task, key: string)
    requires task.RevokeStart? || task.RevokeWrite? || task.RevokeFinish?
    requires BarrierOf(disk.local, key).Some? && task.key != BarrierKey(key)
    ensures var (disk', task') := RevokeTurn(b, tick, disk, task);
      && BarrierOf(disk'.local, key).Some?
      && (!Revokes(task, key) ==> BarrierOf(disk'.local, key) == BarrierOf(disk.local, key))
      && TaskKey(task') in {None, Some(task.key)}
  {
    hide RevocationReceipt, StorableShape, BarrierKey, BarrierOf, MayPersistBarrier, RemoveIfUnchanged,
         AfterBarrierRead;
    if task.RevokeStart? {
      KeptByBarrierRead(disk.local, task.key, key);
      var receipt := RevocationReceipt(BarrierOf(disk.local, task.key), task.fallback, task.status);
      if MayPersistBarrier(b, receipt) {
        PersistingKeepsBarriers(b, disk.local, task.key, receipt, key);
      }
    } else if task.RevokeFinish? && MayPersistBarrier(b, task.tombstone) {
      PersistingKeepsBarriers(b, disk.local, task.key, task.tombstone, key);
      if task.legacy.Some? {
        var local := disk.local[BarrierKey(task.key) := Json(task.tombstone)];
        RemovalKeepsBarrier(local, task.key, task.legacy.value, key);
      }
    }
  }

  /** No turn but a teardown sweep, and no task working on the barrier's own storage key, loses a barrier. */
  lemma TurnKeepsBarrier(b: Browser, tick: Tick, disk: Disk, task: Task, key: string)
    requires BarrierOf(disk.local, key).Some?
    requires !task.TeardownSweep? && (task.StoreStart? || task.StoreWrite? || TaskKey(task) != Some(BarrierKey(key)))
    ensures var (disk', task') := Turn(b, tick, disk, task);
      && BarrierOf(disk'.local, key).Some?
      && (!Revokes(task, key) ==> SameReceipt(BarrierOf(disk.local, key).value, BarrierOf(disk'.local, key).value))
      && TaskKey(task') in {None, TaskKey(task)}
  {
    hide BarrierOf, ReadTurn, StoreTurn, RevokeTurn, BeginDelete, RemoveIfUnchanged, ScanBarriers, Expired, Invalid,
         IsProtected, RowReceipt, IdOf, StatusOf;
    if task.ReadStart? || task.ReadGet? || task.ReadGot? || task.ReadMigrate? || task.ReadMigrated? ||
      task.ReadUpgrade? {
      ReadTurnKeepsBarrier(b, tick, disk, task, key);
    } else if task.StoreStart? || task.StoreWrite? {
      StoreTurnKeepsBarrier(b, tick, disk, task, key);
    } else if task.RevokeStart? || task.RevokeWrite? || task.RevokeFinish? {
      RevokeTurnKeepsBarrier(b, tick, disk, task, key);
    } else if task.ClearStart? {
      DeletionKeepsBarrier(disk, task.key, Completed, key);
    } else if task.DeleteFinish? {
      if task.legacy.Some? {
        RemovalKeepsBarrier(disk.local, task.key, task.legacy.value, key);
      }
    } else if task.ListGot? {
      ScanKeepsBarrier(tick.order, disk.local, 0, key);
    }
  }

  // ---- When a turn does lose a barrier ----

  /**
   * The turn takes away the barrier of `key`: a teardown sweep, or a task given the barrier's storage
   * key as its own draft key that removes the entry it takes for that draft's legacy copy.
   */
  predicate DropsBarrier(b: Browser, tick: Tick, local: Local, task: Task, key: string) {
    || task.TeardownSweep?
    || (TaskKey(task) == Some(BarrierKey(key)) && BarrierKey(key) in local &&
      RemovesLegacy(b, tick, task, local[BarrierKey(key)]))
  }

  predicate RemovesLegacy(b: Browser, tick: Tick, task: Task, entry: Entry) {
    || (task.ReadGot? && task.stored.None? && entry.Json? &&
      !WithinStoragePolicy(b, tick.now, WithId(entry.draft, tick.freshId)))
    || (task.ReadMigrated? && task.legacyRaw == entry)
    || (task.DeleteFinish? && task.legacy == Some(entry))
    || (task.RevokeFinish? && task.legacy == Some(entry) && MayPersistBarrier(b, task.tombstone))
  }

  lemma RemovalAtBarrier(local: Local, expected: Entry, key: string)
    requires BarrierOf(local, key).Some?
    ensures BarrierOf(RemoveIfUnchanged(local, BarrierKey(key), expected), key)
      == if local[BarrierKey(key)] == expected then None else BarrierOf(local, key)
  {
    hide IsBarrier, BarrierKey;
  }

  predicate AliasedOutcome(b: Browser, tick: Tick, before: Local, task: Task, after: Local, next: Task, key: string)
    requires BarrierKey(key) in before
  {
    && BarrierOf(after, key) ==
      (if RemovesLegacy(b, tick, task, before[BarrierKey(key)]) then None else BarrierOf(before, key))
    && TaskKey(next) in {None, TaskKey(task)}
  }

  lemma BarrierEntry(local: Local, key: string)
    requires BarrierOf(local, key).Some?
    ensures BarrierKey(key) in local && local[BarrierKey(key)].Json?
  {
  }

  /** What a read does to localStorage with a record it found: nothing, or the beginning of a deletion. */
  lemma FoundLocal(b: Browser, tick: Tick, disk: Disk, key: string, parsed: Draft)
    ensures var (disk', task') := ReadFound(b, tick, disk, key, parsed);
      && (disk'.local == disk.local || disk'.local == BeginDelete(disk, key, NotFound).0.local)
      && TaskKey(task') in {None, Some(key)}
  {
    hide Expired, IsProtected, Invalid, WithinStoragePolicy, WithId, AfterBarrierRead, BarrierOf, DeleteAllowed;
  }

  lemma GotLegacyLocal(b: Browser, tick: Tick, disk: Disk, task: Task)
    requires task.ReadGot? && task.stored.None? && task.key in disk.local && disk.local[task.key].Json?
    ensures var (disk', task') := ReadTurn(b, tick, disk, task);
      && disk'.local == (if WithinStoragePolicy(b, tick.now, WithId(disk.local[task.key].draft, tick.freshId))
                         then disk.local else disk.local - {task.key})
      && TaskKey(task') in {None, Some(task.key)}
  {
    hide WithinStoragePolicy, WithId;
  }

  lemma AliasedReadGot(b: Browser, tick: Tick, disk: Disk, task: Task, key: string)
    requires task.ReadGot? && task.key == BarrierKey(key) && BarrierOf(disk.local, key).Some?
    ensures BarrierKey(key) in disk.local
    ensures var (disk', task') := ReadTurn(b, tick, disk, task);
      AliasedOutcome(b, tick, disk.local, task, disk'.local, task', key)
  {
    hide WithinStoragePolicy, ReadFound, BarrierKey, WithId, BarrierOf, RemoveIfUnchanged, BeginDelete;
    BarrierEntry(disk.local, key);
    if task.stored.Some? {
      FoundLocal(b, tick, disk, task.key, task.stored.value);
      DeletionLeavesBarrier(disk, task.key, NotFound, key);
    } else {
      GotLegacyLocal(b, tick, disk, task);
      RemovalAtBarrier(disk.local, disk.local[BarrierKey(key)], key);
      RemovedWhole(disk.local, BarrierKey(key));
      hide ReadTurn;
    }
  }

  lemma AliasedReadMigrated(b: Browser, tick: Tick, disk: Disk, task: Task, key: string)
    requires task.ReadMigrated? && task.key == BarrierKey(key) && BarrierOf(disk.local, key).Some?
    ensures BarrierKey(key) in disk.local
    ensures var (disk', task') := ReadTurn(b, tick, disk, task);
      AliasedOutcome(b, tick, disk.local, task, disk'.local, task', key)
  {
    hide WithinStoragePolicy, ReadFound, BarrierKey, WithId, BarrierOf, RemoveIfUnchanged, BeginDelete;
    var local := RemoveIfUnchanged(disk.local, task.key, task.legacyRaw);
    BarrierEntry(disk.local, key);
    RemovalAtBarrier(disk.local, task.legacyRaw, key);
    FoundLocal(b, tick, disk.(local := local), task.key, task.upgraded);
    DeletionLeavesBarrier(disk.(local := local), task.key, NotFound, key);
  }

  lemma AliasedReadTurn(b: Browser, tick: Tick, disk: Disk, task: Task, key: string)
    requires task.ReadStart? || task.ReadGet? || task.ReadGot? || task.ReadMigrate? || task.ReadMigrated? ||
      task.ReadUpgrade?
    requires BarrierOf(disk.local, key).Some? && task.key == BarrierKey(key)
    ensures BarrierKey(key) in disk.local
    ensures var (disk', task') := ReadTurn(b, tick, disk, task);
      AliasedOutcome(b, tick, disk.local, task, disk'.local, task', key)
  {
    hide WriteRow, WithinStoragePolicy, BarrierKey, WithId, BarrierOf, AfterBarrierRead, ReadFound;
    BarrierEntry(disk.local, key);
    if task.ReadGot? {
      hide ReadTurn;
      AliasedReadGot(b, tick, disk, task, key);
    } else if task.ReadMigrated? {
      hide ReadTurn;
      AliasedReadMigrated(b, tick, disk, task, key);
    } else {
      KeptByBarrierRead(disk.local, task.key, key);
    }
  }

  lemma RemovedWhole(local: Local, at: string)
    requires at in local
    ensures RemoveIfUnchanged(local, at, local[at]) == local - {at}
  {
  }

  /** Beginning a deletion under any key neither adds nor loses a barrier. */
  lemma DeletionLeavesBarrier(disk: Disk, at: string, result: Result, key: string)
    ensures BarrierOf(disk.local, key).Some? || at == BarrierKey(key) ==>
      BarrierOf(BeginDelete(disk, at, result).0.local, key) == BarrierOf(disk.local, key)
    ensures TaskKey(BeginDelete(disk, at, result).1) in {None, Some(at)}
  {
    BarrierKeyInjective(key, at);
    assert |BarrierKey(BarrierKey(key))| > |BarrierKey(key)|;
  }

  lemma AliasedRevokeTurn(b: Browser, tick: Tick, disk: Disk, task: Task, key: string)
    requires task.RevokeStart? || task.RevokeWrite? || task.RevokeFinish?
    requires BarrierOf(disk.local, key).Some? && task.key == BarrierKey(key)
    ensures BarrierKey(key) in disk.local
    ensures var (disk', task') := RevokeTurn(b, tick, disk, task);
      AliasedOutcome(b, tick, disk.local, task, disk'.local, task', key)
  {
    hide RevocationReceipt, StorableShape, BarrierKey, BarrierOf, MayPersistBarrier, RemoveIfUnchanged,
         AfterBarrierRead, WithinStoragePolicy;
    BarrierEntry(disk.local, key);
    if task.RevokeStart? {
      KeptByBarrierRead(disk.local, task.key, key);
      var receipt := RevocationReceipt(BarrierOf(disk.local, task.key), task.fallback, task.status);
      if MayPersistBarrier(b, receipt) {
        PersistingKeepsBarriers(b, disk.local, task.key, receipt, key);
        assert task.key != key by { BarrierKeyInjective(key, key); }
      }
    } else if task.RevokeFinish? && MayPersistBarrier(b, task.tombstone) {
      PersistedThenRemoved(b, disk.local, task.key, task.tombstone, task.legacy, key);
    }
  }

  lemma PersistedThenRemoved(b: Browser, local: Local, at: string, d: Draft, legacy: Option<Entry>, key: string)
    requires BarrierOf(local, key).Some? && at == BarrierKey(key) && MayPersistBarrier(b, d)
    ensures BarrierKey(key) in local
    ensures var persisted := local[BarrierKey(at) := Json(d)];
      BarrierOf(if legacy.Some? then RemoveIfUnchanged(persisted, at, legacy.value) else persisted, key)
        == if legacy == Some(local[BarrierKey(key)]) then None else BarrierOf(local, key)
  {
    BarrierEntry(local, key);
    BarrierKeyInjective(at, key);
    BarrierKeyInjective(key, key);
    PersistingKeepsBarriers(b, local, at, d, key);
    hide BarrierOf, MayPersistBarrier, RemoveIfUnchanged, BarrierKey;
    if legacy.Some? { RemovalAtBarrier(local[BarrierKey(at) := Json(d)], legacy.value, key); }
  }

  lemma AliasedTurn(b: Browser, tick: Tick, disk: Disk, task: Task, key: string)
    requires BarrierOf(disk.local, key).Some? && TaskKey(task) == Some(BarrierKey(key))
    requires !task.StoreStart? && !task.StoreWrite?
    ensures BarrierKey(key) in disk.local
    ensures var (disk', task') := Turn(b, tick, disk, task);
      AliasedOutcome(b, tick, disk.local, task, disk'.local, task', key)
  {
    assert BarrierKey(key) in disk.local;
    hide BarrierOf, ReadTurn, RevokeTurn, BeginDelete, RemoveIfUnchanged, RowReceipt, WithinStoragePolicy,
         MayPersistBarrier, BarrierKey, AliasedOutcome, WithId;
    if task.ReadStart? || task.ReadGet? || task.ReadGot? || task.ReadMigrate? || task.ReadMigrated? ||
      task.ReadUpgrade? {
      AliasedReadTurn(b, tick, disk, task, key);
    } else if task.RevokeStart? || task.RevokeWrite? || task.RevokeFinish? {
      AliasedRevokeTurn(b, tick, disk, task, key);
    } else {
      AliasedDeleteTurn(b, tick, disk, task, key);
    }
  }

  lemma AliasedDeleteTurn(b: Browser, tick: Tick, disk: Disk, task: Task, key: string)
    requires task.ClearStart? || task.DeleteRow? || task.DeleteFinish?
    requires BarrierOf(disk.local, key).Some? && task.key == BarrierKey(key)
    ensures BarrierKey(key) in disk.local
    ensures var (disk', task') := DeleteTurn(tick, disk, task);
      AliasedOutcome(b, tick, disk.local, task, disk'.local, task', key)
  {
    assert BarrierKey(key) in disk.local;
    hide BarrierOf, BeginDelete, RemoveIfUnchanged, RowReceipt, WithinStoragePolicy, MayPersistBarrier, BarrierKey,
         DeleteAllowed;
    if task.ClearStart? {
      DeletionKeepsBarrier(disk, task.key, Completed, key);
    } else if task.DeleteFinish? && task.legacy.Some? {
      RemovalAtBarrier(disk.local, task.legacy.value, key);
    }
  }

  lemma SweepDropsBarrier(b: Browser, tick: Tick, disk: Disk, key: string)
    ensures BarrierOf(Turn(b, tick, disk, TeardownSweep).0.local, key).None?
    ensures TaskKey(Turn(b, tick, disk, TeardownSweep).1) == None
  {
    hide IsBarrier, Swept, BarrierKey, ReadTurn, StoreTurn, RevokeTurn, DeleteTurn, ListTurn;
    assert Swept(BarrierKey(key)) by { BarrierKeyIsSwept(key); }
  }

  lemma BarrierKeyIsSwept(key: string)
    ensures Swept(BarrierKey(key))
  {
  }

  /**
   * A turn loses a barrier exactly when it is one of these; every other turn keeps its id and status,
   * unless it revokes the key.
   */
  lemma BarrierLossIsExact(b: Browser, tick: Tick, disk: Disk, task: Task, key: string)
    requires BarrierOf(disk.local, key).Some?
    ensures var (disk', task') := Turn(b, tick, disk, task);
      && (BarrierOf(disk'.local, key).None? <==> DropsBarrier(b, tick, disk.local, task, key))
      && (BarrierOf(disk'.local, key).Some? && !Revokes(task, key) ==>
            SameReceipt(BarrierOf(disk.local, key).value, BarrierOf(disk'.local, key).value))
      && TaskKey(task') in {None, TaskKey(task)}
  {
    hide BarrierOf, Turn, MayPersistBarrier, WithinStoragePolicy, WithId, BarrierKey, IdOf, StatusOf;
    if task.TeardownSweep? {
      SweepDropsBarrier(b, tick, disk, key);
    } else if task.StoreStart? || task.StoreWrite? || TaskKey(task) != Some(BarrierKey(key)) {
      TurnKeepsBarrier(b, tick, disk, task, key);
    } else {
      AliasedTurn(b, tick, disk, task, key);
      hide RemovesLegacy;
    }
  }

  // ---- Whole runs ----

  predicate DropsAt(b: Browser, s: System, a: Action, key: string) {
    a.Resume? && a.id in s.tasks && DropsBarrier(b, a.tick, s.disk.local, s.tasks[a.id], key)
  }

  predicate RevokesAt(s: System, a: Action, key: string) {
    a.Resume? && a.id in s.tasks && Revokes(s.tasks[a.id], key)
  }

  /**
   * A barrier standing at some point of a run stands at every later point up to the first turn that drops
   * it; only an access revocation of the same key may change its submission id or status.
   */
  lemma {:induction false} BarrierSurvives(b: Browser, states: seq<System>, actions: seq<Action>, i: nat, j: nat,
                                           key: string)
    requires IsRun(b, states, actions) && i <= j <= |actions|
    requires BarrierOf(states[i].disk.local, key).Some?
    requires forall n :: i <= n < j ==> !DropsAt(b, states[n], actions[n], key)
    ensures BarrierOf(states[j].disk.local, key).Some?
    ensures (forall n :: i <= n < j ==> !RevokesAt(states[n], actions[n], key)) ==>
      SameReceipt(BarrierOf(states[i].disk.local, key).value, BarrierOf(states[j].disk.local, key).value)
    decreases j
  {
    hide BarrierOf, Turn, DropsBarrier;
    if i < j {
      var m := j - 1;
      BarrierSurvives(b, states, actions, i, m, key);
      var s, a := states[m], actions[m];
      assert Enabled(s, a) && states[m + 1] == Step(b, s, a);
      assert !DropsAt(b, s, a, key);
      if a.Resume? {
        BarrierLossIsExact(b, a.tick, s.disk, s.tasks[a.id], key);
      }
    }
  }

  /** Over a run the barrier stands throughout exactly when no turn of it is a dropping one. */
  lemma BarrierStandsExactly(b: Browser, states: seq<System>, actions: seq<Action>, i: nat, j: nat, key: string)
    requires IsRun(b, states, actions) && i <= j <= |actions|
    requires BarrierOf(states[i].disk.local, key).Some?
    ensures (forall n :: i <= n <= j ==> BarrierOf(states[n].disk.local, key).Some?) <==>
      (forall n :: i <= n < j ==> !DropsAt(b, states[n], actions[n], key))
  {
    hide BarrierOf, Turn, DropsBarrier;
    if forall n :: i <= n < j ==> !DropsAt(b, states[n], actions[n], key) {
      forall n | i <= n <= j ensures BarrierOf(states[n].disk.local, key).Some? {
        BarrierSurvives(b, states, actions, i, n, key);
      }
    }
    if forall n :: i <= n <= j ==> BarrierOf(states[n].disk.local, key).Some? {
      forall n | i <= n < j ensures !DropsAt(b, states[n], actions[n], key) {
        var s, a := states[n], actions[n];
        assert Enabled(s, a) && states[n + 1] == Step(b, s, a) && BarrierOf(states[n + 1].disk.local, key).Some?;
        if a.Resume? { BarrierLossIsExact(b, a.tick, s.disk, s.tasks[a.id], key); }
      }
    }
  }

  predicate NoAlias(s: System, key: string) {
    forall id :: id in s.tasks ==> TaskKey(s.tasks[id]) != Some(BarrierKey(key))
  }

  /** The action neither runs a teardown sweep nor begins work on the barrier's own storage key. */
  predicate Harmless(s: System, a: Action, key: string) {
    match a
    case Begin(_, task) => TaskKey(task) != Some(BarrierKey(key))
    case Resume(id, _) => id in s.tasks ==> !s.tasks[id].TeardownSweep?
    case Abandon(_) => true
  }

  /** No turn drops the barrier in a run without teardown sweeps whose callers never pass its storage key. */
  lemma {:induction false} HarmlessRunsDropNothing(b: Browser, states: seq<System>, actions: seq<Action>, i: nat,
                                                   j: nat, key: string)
    requires IsRun(b, states, actions) && i <= j <= |actions|
    requires BarrierOf(states[i].disk.local, key).Some? && NoAlias(states[i], key)
    requires forall n :: i <= n < j ==> Harmless(states[n], actions[n], key)
    ensures forall n :: i <= n < j ==> !DropsAt(b, states[n], actions[n], key)
    ensures NoAlias(states[j], key)
    decreases j
  {
    hide BarrierOf, Turn, RemovesLegacy;
    if i < j {
      var m := j - 1;
      HarmlessRunsDropNothing(b, states, actions, i, m, key);
      BarrierSurvives(b, states, actions, i, m, key);
      var s, a := states[m], actions[m];
      assert Harmless(s, a, key) && Enabled(s, a) && states[m + 1] == Step(b, s, a);
      if a.Resume? { BarrierLossIsExact(b, a.tick, s.disk, s.tasks[a.id], key); }
    }
  }

  /** The keys the application builds never are the storage key of a barrier. */
  lemma DraftKeysNeverAlias(draftKey: string, key: string)
    requires DRAFT_PREFIX <= draftKey
    ensures draftKey != BarrierKey(key)
  {
    var at := |DRAFT_PREFIX| - 1;
    assert draftKey[at] == ':' && BARRIER_PREFIX[at] == '-';
    assert BarrierKey(key)[at] == '-';
  }

  // ---- What reads and listings return while a barrier stands ----

  predicate TerminalAndRosterFree(d: Draft) {
    IsTerminal(d) && d.exceptions == Entries(map[]) && d.remarks == Entries(map[])
  }

  predicate Resumes(s: System, a: Action, task: Task) {
    a.Resume? && a.id in s.tasks && s.tasks[a.id] == task
  }

  /**
   * No resurrection: after a barrier for `key` stood at step i, every read of that key that starts
   * at a later step j, in any tab, returns a terminal record without roster data.
   */
  lemma NoResurrection(b: Browser, states: seq<System>, actions: seq<Action>, i: nat, j: nat, key: string)
    requires IsRun(b, states, actions) && i <= j < |actions|
    requires BarrierOf(states[i].disk.local, key).Some?
    requires forall n :: i <= n < j ==> !DropsAt(b, states[n], actions[n], key)
    requires Resumes(states[j], actions[j], ReadStart(key))
    ensures var task := states[j + 1].tasks[actions[j].id];
      task.Done? && task.result.Found? && TerminalAndRosterFree(task.result.draft)
  {
    hide Invalid, IsTerminal, IsPurposeLimited;
    BarrierSurvives(b, states, actions, i, j, key);
    BarrierIsRosterFree(states[j].disk.local, key);
    assert Enabled(states[j], actions[j]) && states[j + 1] == Step(b, states[j], actions[j]);
  }

  function ScannedBarriers(order: seq<string>, local: Local, index: nat): Rows
    requires index <= |order|
  {
    ScanBarriers(order, local, index).1
  }

  /** The scan reports only standing barriers, each found at or after the starting index. */
  lemma {:induction false} ScanIsSound(order: seq<string>, local: Local, index: nat, key: string)
    requires index <= |order|
    requires key in ScannedBarriers(order, local, index)
    ensures BarrierKey(key) in order[index..]
    ensures BarrierOf(local, key) == Some(ScannedBarriers(order, local, index)[key])
    decreases |order| - index
  {
    hide IsBarrier;
    if !(BARRIER_PREFIX < order[index]) {
      ScanIsSound(order, local, index + 1, key);
    } else {
      var other := order[index][|BARRIER_PREFIX|..];
      assert order[index] == BarrierKey(other);
      BarrierKeyInjective(key, other);
      if Discardable(local, other) {
        var shifted := order[..index] + order[index + 1..];
        ScanIsSound(shifted, local - {BarrierKey(other)}, index + 1, key);
        assert shifted[index + 1..] == order[index + 2..];
      } else if key in ScannedBarriers(order, local, index + 1) {
        ScanIsSound(order, local, index + 1, key);
      }
    }
  }

  /** Where no entry is discarded, the scan reports every barrier it passes. */
  lemma {:induction false} ScanIsComplete(order: seq<string>, local: Local, index: nat, key: string)
    requires index <= |order|
    requires forall k :: k != "" ==> !Discardable(local, k)
    requires BarrierOf(local, key).Some? && BarrierKey(key) in order[index..]
    ensures key in ScannedBarriers(order, local, index)
    decreases |order| - index
  {
    hide Invalid, IsTerminal, IsPurposeLimited;
    BarrierIsRosterFree(local, key);
    BarrierKeyInjective(key, key);
    assert order[index..] == [order[index]] + order[index + 1..];
    if order[index] == BarrierKey(key) {
      assert key != "";
      assert order[index][|BARRIER_PREFIX|..] == key;
    } else {
      ScanIsComplete(order, local, index + 1, key);
      if BARRIER_PREFIX < order[index] {
        assert order[index] == BarrierKey(order[index][|BARRIER_PREFIX|..]);
      }
    }
  }

  /** A sequence with each element of a finite set once. */
  lemma {:induction false} EnumerationExists(keys: set<string>) returns (order: seq<string>)
    ensures forall k :: k in order <==> k in keys
    ensures forall i, j :: 0 <= i < j < |order| ==> order[i] != order[j]
  {
    if keys == {} {
      order := [];
    } else {
      var k :| k in keys;
      var rest := EnumerationExists(keys - {k});
      order := [k] + rest;
    }
  }

  /** Every key order the browser may choose lets the scan report every standing barrier. */
  ghost predicate ScanAlwaysComplete(local: Local) {
    forall order, key :: Enumerates(order, local) && BarrierOf(local, key).Some? ==>
      key in ScannedBarriers(order, local, 0)
  }

  lemma DiscardShiftsScan(order: seq<string>, local: Local, bad: string)
    requires |order| >= 2 && order[0] == BarrierKey(bad)
    requires bad != "" && Discardable(local, bad)
    ensures ScannedBarriers(order, local, 0) == ScannedBarriers(order[1..], local - {BarrierKey(bad)}, 1)
  {
    hide IsBarrier, EmptyText;
    assert order[0][|BARRIER_PREFIX|..] == bad;
    assert order[..0] + order[1..] == order[1..];
  }

  /** A key order that begins with two given keys. */
  lemma OrderBeginningWith(local: Local, first: string, second: string) returns (order: seq<string>)
    requires first in local && second in local && first != second
    ensures Enumerates(order, local) && |order| >= 2 && order[0] == first && second !in order[1..][1..]
    ensures order[1] == second
  {
    var rest := EnumerationExists(local.Keys - {first, second});
    order := [first, second] + rest;
    assert order[1..][1..] == rest;
    forall k ensures k in order <==> k in local {
      assert k in order <==> k in {first, second} || k in rest;
    }
  }

  /** An entry discarded just before a standing barrier makes the scan step over that barrier. */
  lemma ScanSkipsAfterDiscard(local: Local, bad: string, key: string) returns (order: seq<string>)
    requires bad != "" && Discardable(local, bad) && BarrierOf(local, key).Some?
    ensures Enumerates(order, local) && key !in ScannedBarriers(order, local, 0)
  {
    BarrierKeyInjective(bad, key);
    hide ScannedBarriers, IsBarrier, BarrierKey, EmptyText;
    order := OrderBeginningWith(local, BarrierKey(bad), BarrierKey(key));
    DiscardShiftsScan(order, local, bad);
    if key in ScannedBarriers(order[1..], local - {BarrierKey(bad)}, 1) {
      ScanIsSound(order[1..], local - {BarrierKey(bad)}, 1, key);
    }
  }

  /**
   * When the listing scan can be relied on: it reports every barrier under every key order exactly
   * when no barrier entry is there to be discarded, or no barrier is there to be missed.
   */
  lemma ScanCompletenessCondition(local: Local)
    ensures ScanAlwaysComplete(local) <==>
      (forall bad :: bad != "" ==> !Discardable(local, bad)) || (forall key :: BarrierOf(local, key).None?)
  {
    if forall bad :: bad != "" ==> !Discardable(local, bad) {
      forall order, key | Enumerates(order, local) && BarrierOf(local, key).Some?
        ensures key in ScannedBarriers(order, local, 0)
      {
        assert BarrierKey(key) in local && order[0..] == order;
        ScanIsComplete(order, local, 0, key);
      }
    } else if exists key :: BarrierOf(local, key).Some? {
      var bad :| bad != "" && Discardable(local, bad);
      var key :| BarrierOf(local, key).Some?;
      var order := ScanSkipsAfterDiscard(local, bad, key);
    }
  }

  lemma ListingShowsBarrier(b: Browser, tick: Tick, disk: Disk, prefix: string, listed: Rows, key: string)
    requires Enumerates(tick.order, disk.local) && BarrierOf(disk.local, key).Some?
    requires forall bad :: bad != "" ==> !Discardable(disk.local, bad)
    ensures var task := Turn(b, tick, disk, ListGot(prefix, listed)).1;
      && task.ListDiscard?
      && (prefix <= key <==> key in task.visible)
      && (key in task.visible ==> TerminalAndRosterFree(task.visible[key]))
  {
    hide IsTerminal, IsPurposeLimited, IsProtected, ScanBarriers, Discardable, Invalid, Expired;
    BarrierIsRosterFree(disk.local, key);
    assert BarrierKey(key) in disk.local && tick.order[0..] == tick.order;
    ScanIsComplete(tick.order, disk.local, 0, key);
    ScanIsSound(tick.order, disk.local, 0, key);
    assert ScannedBarriers(tick.order, disk.local, 0) == ScanBarriers(tick.order, disk.local, 0).1;
  }

  /**
   * Listings while a barrier stands: if no discardable entry is stored when the listing merges,
   * it shows the key when it is in scope, with a terminal record without roster data.
   */
  lemma NoResurrectionInListings(b: Browser, states: seq<System>, actions: seq<Action>, i: nat, j: nat,
                                 key: string, prefix: string, listed: Rows)
    requires IsRun(b, states, actions) && i <= j < |actions|
    requires BarrierOf(states[i].disk.local, key).Some?
    requires forall n :: i <= n < j ==> !DropsAt(b, states[n], actions[n], key)
    requires Resumes(states[j], actions[j], ListGot(prefix, listed))
    requires forall bad :: bad != "" ==> !Discardable(states[j].disk.local, bad)
    ensures var task := states[j + 1].tasks[actions[j].id];
      && task.ListDiscard?
      && (prefix <= key <==> key in task.visible)
      && (key in task.visible ==> TerminalAndRosterFree(task.visible[key]))
  {
    hide Turn, BarrierOf, Discardable;
    BarrierSurvives(b, states, actions, i, j, key);
    assert Enabled(states[j], actions[j]) && states[j + 1] == Step(b, states[j], actions[j]);
    ListingShowsBarrier(b, actions[j].tick, states[j].disk, prefix, listed, key);
  }

  // ---- Storage that only this code has written ----

  /** No stored barrier entry would be thrown away by a read. */
  ghost predicate Tidy(local: Local) {
    forall key :: !Discardable(local, key)
  }

  predicate NonBlankKeys(s: System) {
    forall id :: id in s.tasks && TaskKey(s.tasks[id]).Some? ==> !Blank(TaskKey(s.tasks[id]).value)
  }

  lemma PersistingStaysTidy(b: Browser, local: Local, at: string, d: Draft)
    requires Tidy(local) && MayPersistBarrier(b, d) && !Blank(at)
    ensures Tidy(local[BarrierKey(at) := Json(d)])
  {
    var after := local[BarrierKey(at) := Json(d)];
    forall key ensures !Discardable(after, key) {
      BarrierKeyInjective(at, key);
      assert !Discardable(local, key);
    }
  }

  lemma ShrinkingStaysTidy(local: Local, smaller: Local)
    requires Tidy(local)
    requires forall k :: k in smaller ==> k in local && smaller[k] == local[k]
    ensures Tidy(smaller)
  {
    forall key ensures !Discardable(smaller, key) {
      assert !Discardable(local, key);
    }
  }

  lemma {:induction false} ScanOfTidyRemovesNothing(order: seq<string>, local: Local, index: nat)
    requires index <= |order| && Tidy(local)
    ensures ScanBarriers(order, local, index).0 == local
    decreases |order| - index
  {
    if index < |order| {
      ScanOfTidyRemovesNothing(order, local, index + 1);
    }
  }

  /** A turn on a non-blank key leaves tidy storage tidy. */
  lemma TurnStaysTidy(b: Browser, tick: Tick, disk: Disk, task: Task)
    requires Tidy(disk.local)
    requires TaskKey(task).Some? ==> !Blank(TaskKey(task).value)
    ensures Tidy(Turn(b, tick, disk, task).0.local)
    ensures TaskKey(Turn(b, tick, disk, task).1) in {None, TaskKey(task)}
  {
    hide Discardable, MayPersistBarrier, WriteRow, DecideWrite, Invalid, Expired, Blank, IsProtected,
         RevocationReceipt, BarrierOf, WithinStoragePolicy, ScanBarriers;
    if task.StoreStart? {
      if MayPersistBarrier(b, task.draft) { PersistingStaysTidy(b, disk.local, task.key, task.draft); }
    } else if task.RevokeStart? {
      var receipt := RevocationReceipt(BarrierOf(disk.local, task.key), task.fallback, task.status);
      if MayPersistBarrier(b, receipt) { PersistingStaysTidy(b, disk.local, task.key, receipt); }
    } else if task.RevokeFinish? {
      if MayPersistBarrier(b, task.tombstone) {
        PersistingStaysTidy(b, disk.local, task.key, task.tombstone);
        var local := disk.local[BarrierKey(task.key) := Json(task.tombstone)];
        if task.legacy.Some? { ShrinkingStaysTidy(local, RemoveIfUnchanged(local, task.key, task.legacy.value)); }
      }
    } else if task.ListGot? {
      ScanOfTidyRemovesNothing(tick.order, disk.local, 0);
    } else {
      ShrinkingStaysTidy(disk.local, Turn(b, tick, disk, task).0.local);
    }
  }

  /** Storage that starts tidy stays tidy when every operation is given a non-blank key. */
  lemma {:induction false} RunsStayTidy(b: Browser, states: seq<System>, actions: seq<Action>, j: nat)
    requires IsRun(b, states, actions) && j <= |actions|
    requires Tidy(states[0].disk.local) && NonBlankKeys(states[0])
    requires forall n :: 0 <= n < j && actions[n].Begin? && TaskKey(actions[n].task).Some? ==>
      !Blank(TaskKey(actions[n].task).value)
    ensures Tidy(states[j].disk.local) && NonBlankKeys(states[j])
  {
    hide Turn, Blank;
    if j > 0 {
      RunsStayTidy(b, states, actions, j - 1);
      var s, a := states[j - 1], actions[j - 1];
      assert Enabled(s, a) && states[j - 1 + 1] == Step(b, s, a);
      if a.Resume? {
        TurnStaysTidy(b, a.tick, s.disk, s.tasks[a.id]);
      }
    }
  }

  /**
   * Listings over storage that only this code has written under non-blank keys: whatever the tabs did
   * since the barrier was raised, a listing that merges before a turn drops it shows the key, when it is
   * in scope, with a terminal record without roster data.
   */
  lemma OwnListingsShowBarrier(b: Browser, states: seq<System>, actions: seq<Action>, i: nat, j: nat,
                               key: string, prefix: string, listed: Rows)
    requires IsRun(b, states, actions) && i <= j < |actions|
    requires Tidy(states[0].disk.local) && NonBlankKeys(states[0])
    requires forall n :: 0 <= n < j && actions[n].Begin? && TaskKey(actions[n].task).Some? ==>
      !Blank(TaskKey(actions[n].task).value)
    requires BarrierOf(states[i].disk.local, key).Some?
    requires forall n :: i <= n < j ==> !DropsAt(b, states[n], actions[n], key)
    requires Resumes(states[j], actions[j], ListGot(prefix, listed))
    ensures var task := states[j + 1].tasks[actions[j].id];
      && task.ListDiscard?
      && (prefix <= key <==> key in task.visible)
      && (key in task.visible ==> TerminalAndRosterFree(task.visible[key]))
  {
    hide Turn, BarrierOf, Discardable, Blank, TerminalAndRosterFree, DropsBarrier;
    RunsStayTidy(b, states, actions, j);
    NoResurrectionInListings(b, states, actions, i, j, key, prefix, listed);
  }
}
