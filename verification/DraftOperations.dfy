/**
 * Whole operations of the draft store that nothing interferes with: when each goes through, what it
 * leaves, and what the next read of the key is given.
 */
module DraftOperations {
  import opened Foundations
  import opened ReceiptFence
  import opened AttendanceDrafts
  import opened DraftStore
  import opened DraftBarriers
  import opened DraftRows
  import opened DraftReads
  import opened DraftWrites

  /** A task takes turns alone; once done it stays as it is. */
  function Alone(b: Browser, ticks: seq<Tick>, disk: Disk, task: Task): (Disk, Task) {
    if ticks == [] then (disk, task)
    else
      var (disk', task') := Turn(b, ticks[0], disk, task);
      Alone(b, ticks[1..], disk', task')
  }

  lemma {:induction false} AloneDone(b: Browser, ticks: seq<Tick>, disk: Disk, result: Result)
    ensures Alone(b, ticks, disk, Done(result)) == (disk, Done(result))
  {
    if ticks != [] { AloneDone(b, ticks[1..], disk, result); }
  }

  // ---- Deleting, then reading ----

  /** No barrier stands, and neither the legacy copy nor the row is protected by a receipt. */
  predicate Deletable(disk: Disk, key: string) {
    && BarrierOf(disk.local, key).None?
    && (key in disk.local && disk.local[key].Json? ==> !IsProtected(disk.local[key].draft))
    && (key in disk.rows ==> !IsProtected(disk.rows[key]))
  }

  /** Nothing of the draft is left, and nothing else has changed. */
  ghost predicate Deleted(before: Disk, after: Disk, key: string) {
    && key !in after.rows && key !in after.local
    && BarrierOf(after.local, key).None? && !Discardable(after.local, key)
    && (forall k :: k != key ==> SameRow(before.rows, after.rows, k))
    && (forall k :: k != key && k != BarrierKey(key) ==> SameEntry(before.local, after.local, k))
  }

  /** Both copies of the draft, and every row, are as they were. */
  predicate Undeleted(before: Disk, after: Disk, key: string) {
    after.rows == before.rows && SameEntry(before.local, after.local, key)
      && BarrierOf(after.local, key) == BarrierOf(before.local, key)
  }

  lemma BarrierReadTidies(local: Local, key: string)
    ensures var after := AfterBarrierRead(local, key);
      && BarrierOf(after, key) == BarrierOf(local, key) && !Discardable(after, key)
      && forall k :: k != BarrierKey(key) ==> SameEntry(local, after, k)
  {
    hide IsBarrier;
    BarrierKeyInjective(key, key);
  }

  lemma BarrierProtects(local: Local, key: string)
    ensures DeleteAllowed(OptionalReceipt(BarrierOf(local, key))) <==> BarrierOf(local, key).None?
  {
    if BarrierOf(local, key).Some? { BarrierIsRosterFree(local, key); }
    hide BarrierOf, StatusOf;
  }

  lemma BeginDeleteIsExact(disk: Disk, key: string, result: Result)
    ensures BeginDelete(disk, key, result) ==
      (disk.(local := AfterBarrierRead(disk.local, key)),
       if BarrierOf(disk.local, key).None?
          && (key in disk.local && disk.local[key].Json? ==> !IsProtected(disk.local[key].draft))
       then DeleteRow(key, Lookup(disk.local, key), result) else Done(Failed))
  {
    BarrierProtects(disk.local, key);
    BarrierReadTidies(disk.local, key);
    BarrierKeyInjective(key, key);
    hide BarrierOf, AfterBarrierRead, StatusOf, BarrierKey;
    assert SameEntry(disk.local, AfterBarrierRead(disk.local, key), key);
  }

  lemma DeleteTurns(b: Browser, tick: Tick, later: Tick, disk: Disk, key: string, legacy: Option<Entry>, result: Result)
    ensures Turn(b, tick, disk, DeleteRow(key, legacy, result)) ==
      if tick.commits && (key in disk.rows ==> !IsProtected(disk.rows[key]))
      then (disk.(rows := disk.rows - {key}), DeleteFinish(key, legacy, result)) else (disk, Done(Failed))
    ensures Turn(b, later, disk, DeleteFinish(key, legacy, result)) ==
      (disk.(local := if legacy.Some? then RemoveIfUnchanged(disk.local, key, legacy.value) else disk.local),
       Done(result))
  {
    hide StatusOf;
  }

  lemma LegacyRemoved(local: Local, key: string)
    ensures var after := AfterBarrierRead(local, key);
      var legacy := Lookup(local, key);
      var gone := if legacy.Some? then RemoveIfUnchanged(after, key, legacy.value) else after;
      && key !in gone && BarrierOf(gone, key) == BarrierOf(local, key) && !Discardable(gone, key)
      && forall k :: k != key && k != BarrierKey(key) ==> SameEntry(local, gone, k)
  {
    BarrierReadTidies(local, key);
    BarrierKeyInjective(key, key);
    hide AfterBarrierRead, IsBarrier, BarrierKey;
    var after, legacy := AfterBarrierRead(local, key), Lookup(local, key);
    assert SameEntry(local, after, key);
    var gone := if legacy.Some? then RemoveIfUnchanged(after, key, legacy.value) else after;
    assert gone == after - {key};
    assert BarrierOf(gone, key) == BarrierOf(after, key);
    forall k | k != key && k != BarrierKey(key) ensures SameEntry(local, gone, k) {
      assert SameEntry(local, after, k);
    }
  }

  /** A deletion left alone, from its first stretch on: it goes through exactly when it may, and then wholly. */
  lemma DeletionAlone(b: Browser, ticks: seq<Tick>, disk: Disk, key: string, result: Result)
    requires |ticks| >= 2 && result != Failed
    ensures var (begun, task) := BeginDelete(disk, key, result);
      var (after, end) := Alone(b, ticks, begun, task);
      if Deletable(disk, key) && ticks[0].commits then end == Done(result) && Deleted(disk, after, key)
      else end == Done(Failed) && Undeleted(disk, after, key)
  {
    hide BarrierOf, AfterBarrierRead, Turn, IsProtected, RemoveIfUnchanged, Discardable, BeginDelete;
    var (begun, task) := BeginDelete(disk, key, result);
    BeginDeleteIsExact(disk, key, result);
    BarrierReadTidies(disk.local, key);
    BarrierKeyInjective(key, key);
    assert SameEntry(disk.local, begun.local, key);
    if task.Done? {
      AloneDone(b, ticks, begun, Failed);
    } else {
      var gone := begun.(rows := begun.rows - {key});
      DeleteTurns(b, ticks[0], ticks[1], begun, key, task.legacy, result);
      DeleteTurns(b, ticks[0], ticks[1], gone, key, task.legacy, result);
      LegacyRemoved(disk.local, key);
      AloneTwo(b, ticks, begun, task);
    }
  }

  lemma AloneTwo(b: Browser, ticks: seq<Tick>, disk: Disk, task: Task)
    requires |ticks| >= 2
    ensures var (d1, t1) := Turn(b, ticks[0], disk, task);
      var (d2, t2) := Turn(b, ticks[1], d1, t1);
      && Alone(b, ticks, disk, task) == Alone(b, ticks[2..], d2, t2)
      && (t1.Done? ==> Alone(b, ticks, disk, task) == (d1, t1))
      && (t2.Done? ==> Alone(b, ticks, disk, task) == (d2, t2))
  {
    var (d1, t1) := Turn(b, ticks[0], disk, task);
    var (d2, t2) := Turn(b, ticks[1], d1, t1);
    assert ticks[1..][1..] == ticks[2..] && ticks[1..][0] == ticks[1];
    assert Alone(b, ticks[1..], d1, t1) == Alone(b, ticks[1..][1..], d2, t2);
    if t1.Done? { AloneDone(b, ticks[1..], d1, t1.result); }
    if t2.Done? { AloneDone(b, ticks[2..], d2, t2.result); }
    hide Turn;
  }

  lemma AloneOne(b: Browser, ticks: seq<Tick>, disk: Disk, task: Task)
    requires ticks != []
    ensures var (d1, t1) := Turn(b, ticks[0], disk, task);
      && Alone(b, ticks, disk, task) == Alone(b, ticks[1..], d1, t1)
      && (t1.Done? ==> Alone(b, ticks, disk, task) == (d1, t1))
  {
    var (d1, t1) := Turn(b, ticks[0], disk, task);
    if t1.Done? { AloneDone(b, ticks[1..], d1, t1.result); }
    hide Turn;
  }

  /** A read of a key without barrier, as far as its look into IndexedDB. */
  lemma ReadFirstTurns(b: Browser, ticks: seq<Tick>, disk: Disk, key: string)
    requires |ticks| >= 2 && ticks[1].commits && key != "" && BarrierOf(disk.local, key).None?
    ensures var read := disk.(local := AfterBarrierRead(disk.local, key));
      Alone(b, ticks, disk, ReadStart(key)) == Alone(b, ticks[2..], read, ReadGot(key, LiveDraft(disk.rows, key)))
  {
    var read := disk.(local := AfterBarrierRead(disk.local, key));
    AloneTwo(b, ticks, disk, ReadStart(key));
    assert Turn(b, ticks[0], disk, ReadStart(key)) == (read, ReadGet(key)) by {
      hide Alone, BarrierOf, AfterBarrierRead, WriteRow, ReadFound;
    }
    ReadLooksUpRow(b, ticks[1], read, key);
    hide Turn, Alone;
  }

  lemma NothingToRead(b: Browser, tick: Tick, disk: Disk, key: string)
    requires key !in disk.local
    ensures Turn(b, tick, disk, ReadGot(key, None)) == (disk, Done(NotFound))
  {
  }

  lemma ReadOfDeleted(b: Browser, later: seq<Tick>, disk: Disk, key: string)
    requires |later| >= 3 && later[1].commits && key != ""
    requires key !in disk.rows && key !in disk.local && BarrierOf(disk.local, key).None?
    ensures Alone(b, later, disk, ReadStart(key)).1 == Done(NotFound)
    ensures Alone(b, later, disk, ReadStart(key)).0.rows == disk.rows
  {
    hide Turn, Alone, AfterBarrierRead, BarrierOf;
    var read := disk.(local := AfterBarrierRead(disk.local, key));
    ReadFirstTurns(b, later, disk, key);
    BarrierReadTidies(disk.local, key);
    BarrierKeyInjective(key, key);
    assert SameEntry(disk.local, read.local, key);
    NothingToRead(b, later[2], read, key);
    AloneOne(b, later[2..], read, ReadGot(key, None));
  }

  /**
   * Clearing a draft with nothing in between goes through exactly when neither a barrier nor a receipt on
   * the row or the legacy copy stands in the way and its transaction commits. Then nothing of the draft is
   * left, nothing else has changed, and the next read finds nothing; otherwise every copy is as it was.
   */
  lemma ClearThenRead(b: Browser, ticks: seq<Tick>, later: seq<Tick>, disk: Disk, key: string)
    requires |ticks| >= 3 && |later| >= 3 && later[1].commits && key != ""
    ensures var (after, end) := Alone(b, ticks, disk, ClearStart(key));
      if Deletable(disk, key) && ticks[1].commits then
        && end == Done(Completed) && Deleted(disk, after, key)
        && Alone(b, later, after, ReadStart(key)).1 == Done(NotFound)
      else
        end == Done(Failed) && Undeleted(disk, after, key)
  {
    hide Turn, Alone, BeginDelete, Deletable, BarrierOf, Discardable;
    var (begun, task) := BeginDelete(disk, key, Completed);
    assert Turn(b, ticks[0], disk, ClearStart(key)) == (begun, task) by { ClearTurn(b, ticks[0], disk, key); }
    AloneOne(b, ticks, disk, ClearStart(key));
    DeletionAlone(b, ticks[1..], disk, key, Completed);
    if Deletable(disk, key) && ticks[1].commits {
      ReadOfDeleted(b, later, Alone(b, ticks, disk, ClearStart(key)).0, key);
    }
  }

  lemma ClearTurn(b: Browser, tick: Tick, disk: Disk, key: string)
    requires key != ""
    ensures Turn(b, tick, disk, ClearStart(key)) == BeginDelete(disk, key, Completed)
  {
    hide BeginDelete;
  }

  /** The row a read finds is thrown away: it is invalid, or expired without a receipt. */
  predicate Discards(b: Browser, now: int, key: string, d: Draft) {
    Invalid(key, d) || (Expired(b, now, d) && !IsProtected(d))
  }

  lemma FoundIsDiscarded(b: Browser, tick: Tick, disk: Disk, key: string, d: Draft)
    requires Discards(b, tick.now, key, d)
    ensures Turn(b, tick, disk, ReadGot(key, Some(d))) == BeginDelete(disk, key, NotFound)
  {
    hide BeginDelete, Invalid, Expired, IsProtected;
  }

  /**
   * A read that comes upon an invalid row, or an expired one that no receipt protects, deletes the draft
   * whole and reports nothing found, exactly when the deletion may go through; otherwise the read fails and
   * every copy is as it was. An invalid row under a receipt therefore fails every read until it is replaced.
   */
  lemma DiscardingReadIsExact(b: Browser, ticks: seq<Tick>, disk: Disk, key: string)
    requires |ticks| >= 5 && ticks[1].commits && key != "" && BarrierOf(disk.local, key).None?
    requires key in disk.rows && Discards(b, ticks[2].now, key, disk.rows[key])
    ensures var (after, end) := Alone(b, ticks, disk, ReadStart(key));
      if Deletable(disk, key) && ticks[3].commits then end == Done(NotFound) && Deleted(disk, after, key)
      else end == Done(Failed) && Undeleted(disk, after, key)
  {
    hide Turn, Alone, BeginDelete, BarrierOf, Discards, AfterBarrierRead, IsProtected, Discardable;
    var read := disk.(local := AfterBarrierRead(disk.local, key));
    ReadFirstTurns(b, ticks, disk, key);
    FoundIsDiscarded(b, ticks[2], read, key, disk.rows[key]);
    AloneOne(b, ticks[2..], read, ReadGot(key, Some(disk.rows[key])));
    assert ticks[2..][1..] == ticks[3..];
    DeletionAlone(b, ticks[3..], read, key, NotFound);
    BarrierReadTidies(disk.local, key);
    BarrierKeyInjective(key, key);
    assert SameEntry(disk.local, read.local, key);
    var after := Alone(b, ticks, disk, ReadStart(key)).0;
    if Deletable(disk, key) && ticks[3].commits {
      forall k | k != key && k != BarrierKey(key) ensures SameEntry(disk.local, after.local, k) {
        assert SameEntry(disk.local, read.local, k) && SameEntry(read.local, after.local, k);
      }
    }
  }

  // ---- Reading twice ----

  /** What a read of the key that is not interfered with knows at each of its turns. */
  predicate ReadKnows(b: Browser, now: int, disk: Disk, task: Task, key: string) {
    match task
    case ReadStart(at) => at == key
    case ReadGet(at) => at == key && BarrierOf(disk.local, key).None?
    case ReadGot(at, stored) =>
      at == key && BarrierOf(disk.local, key).None? && stored == LiveDraft(disk.rows, key)
    case ReadMigrate(at, upgraded, _) => at == key && BarrierOf(disk.local, key).None?
    case ReadMigrated(at, upgraded, _) =>
      at == key && BarrierOf(disk.local, key).None? && LiveDraft(disk.rows, key) == Some(upgraded)
    case ReadUpgrade(at, upgraded) =>
      at == key && BarrierOf(disk.local, key).None? && !Invalid(key, upgraded) && Truthy(upgraded.clientSubmissionId)
    case DeleteRow(at, _, result) => at == key && result == NotFound
    case DeleteFinish(at, _, result) => at == key && result == NotFound
    case Done(result) => result.Found? ==> Durable(b, now, disk, key, result.draft)
    case _ => false
  }

  /** The draft is what a later read will find: a barrier, or a valid row that needs no new submission id. */
  predicate Durable(b: Browser, now: int, disk: Disk, key: string, d: Draft) {
    || BarrierOf(disk.local, key) == Some(d)
    || (BarrierOf(disk.local, key).None? && LiveDraft(disk.rows, key) == Some(d) && !Invalid(key, d)
        && (Truthy(d.clientSubmissionId) || (IsProtected(d) && Expired(b, now, d))))
  }

  lemma DeletionKnows(b: Browser, now: int, disk: Disk, key: string)
    ensures var (disk', task') := BeginDelete(disk, key, NotFound); ReadKnows(b, now, disk', task', key)
  {
    hide AfterBarrierRead, BarrierOf, DeleteAllowed, Durable;
  }

  lemma RowIsDurable(b: Browser, now: int, disk: Disk, key: string, d: Draft)
    requires BarrierOf(disk.local, key).None? && LiveDraft(disk.rows, key) == Some(d) && !Invalid(key, d)
    requires Truthy(d.clientSubmissionId) || (IsProtected(d) && Expired(b, now, d))
    ensures Durable(b, now, disk, key, d)
  {
  }

  lemma FoundIsDurable(b: Browser, tick: Tick, disk: Disk, key: string, d: Draft)
    requires BarrierOf(disk.local, key).None? && LiveDraft(disk.rows, key) == Some(d)
    ensures var (disk', task') := ReadFound(b, tick, disk, key, d); ReadKnows(b, tick.now, disk', task', key)
  {
    hide BarrierOf, Invalid, Expired, IsProtected, StorableShape, WithId, BeginDelete, Truthy, Durable;
    DeletionKnows(b, tick.now, disk, key);
    if !Invalid(key, d) && (Truthy(d.clientSubmissionId) || (IsProtected(d) && Expired(b, tick.now, d))) {
      RowIsDurable(b, tick.now, disk, key, d);
    }
    FilledIn(b, key, d, tick.freshId);
  }

  lemma FilledIn(b: Browser, key: string, d: Draft, freshId: string)
    ensures Invalid(key, WithId(d, freshId)) == Invalid(key, d)
    ensures StorableShape(b, WithId(d, freshId)) ==> Truthy(WithId(d, freshId).clientSubmissionId)
  {
    WithIdKeeps(d, freshId, key);
    hide WithId, Invalid;
  }

  lemma RemovalLeavesBarrier(local: Local, key: string, expected: Entry)
    ensures BarrierOf(RemoveIfUnchanged(local, key, expected), key) == BarrierOf(local, key)
    ensures BarrierOf(local - {key}, key) == BarrierOf(local, key)
  {
    BarrierKeyInjective(key, key);
    hide IsBarrier, BarrierKey;
  }

  lemma ReadTurnKnows(b: Browser, tick: Tick, disk: Disk, task: Task, key: string)
    requires Reads(task) && ReadKnows(b, tick.now, disk, task, key)
    ensures var (disk', task') := Turn(b, tick, disk, task); ReadKnows(b, tick.now, disk', task', key)
  {
    hide BarrierOf, Invalid, Expired, IsProtected, StorableShape, WithId, BeginDelete, AfterBarrierRead, Truthy,
         ReadFound, WriteRow, RemoveIfUnchanged, StoreTurn, RevokeTurn, DeleteTurn, TeardownTurn, ListTurn, Durable,
         BarrierKey;
    BarrierReadTidies(disk.local, key);
    if task.ReadGot? && task.stored.Some? {
      FoundIsDurable(b, tick, disk, key, task.stored.value);
    } else if task.ReadMigrated? {
      RemovalLeavesBarrier(disk.local, key, task.legacyRaw);
      FoundIsDurable(b, tick, disk.(local := RemoveIfUnchanged(disk.local, key, task.legacyRaw)), key, task.upgraded);
    } else if task.ReadMigrate? || task.ReadUpgrade? {
      WriteIsExact(b, tick.now, disk.rows, key, task.upgraded, None, key);
      hide SameEntry;
      if task.ReadUpgrade? {
        UpgradeIsDurable(b, tick, disk.(rows := WriteRow(b, tick.now, disk.rows, key, task.upgraded, None).0), key,
          task.upgraded);
      }
    } else if task.ReadStart? && BarrierOf(disk.local, key).Some? {
      BarrierIsDurable(b, tick, disk.(local := AfterBarrierRead(disk.local, key)), key,
        BarrierOf(disk.local, key).value);
    }
  }

  lemma UpgradeIsDurable(b: Browser, tick: Tick, disk: Disk, key: string, d: Draft)
    requires BarrierOf(disk.local, key).None? && !Invalid(key, d) && Truthy(d.clientSubmissionId)
    ensures key in disk.rows && disk.rows[key] == d ==> Durable(b, tick.now, disk, key, d)
  {
  }

  lemma BarrierIsDurable(b: Browser, tick: Tick, disk: Disk, key: string, d: Draft)
    requires BarrierOf(disk.local, key) == Some(d)
    ensures Durable(b, tick.now, disk, key, d)
  {
  }

  lemma OtherTurnKnows(b: Browser, tick: Tick, disk: Disk, task: Task, key: string)
    requires !Reads(task) && ReadKnows(b, tick.now, disk, task, key)
    ensures var (disk', task') := Turn(b, tick, disk, task); ReadKnows(b, tick.now, disk', task', key)
  {
    hide BarrierOf, DeleteAllowed, Durable, RemoveIfUnchanged, RowReceipt;
  }

  /** Time passing does not change what a read knows. */
  lemma LaterKnows(b: Browser, now: int, later: int, disk: Disk, task: Task, key: string)
    requires ReadKnows(b, now, disk, task, key) && now <= later
    ensures ReadKnows(b, later, disk, task, key)
  {
    hide BarrierOf, Invalid, Truthy, IsProtected, LiveDraft;
  }

  predicate InOrder(ticks: seq<Tick>) {
    forall i, j :: 0 <= i < j < |ticks| ==> ticks[i].now <= ticks[j].now
  }

  lemma {:induction false} ReadAloneKnows(b: Browser, ticks: seq<Tick>, now: int, disk: Disk, task: Task, key: string)
    requires ReadKnows(b, now, disk, task, key) && InOrder(ticks)
    requires ticks != [] ==> now <= ticks[0].now
    ensures var (after, end) := Alone(b, ticks, disk, task);
      ReadKnows(b, if ticks == [] then now else ticks[|ticks| - 1].now, after, end, key)
    decreases |ticks|
  {
    hide ReadKnows, Turn;
    if ticks != [] {
      var (disk', task') := Turn(b, ticks[0], disk, task);
      LaterKnows(b, now, ticks[0].now, disk, task, key);
      if Reads(task) {
        ReadTurnKnows(b, ticks[0], disk, task, key);
      } else {
        OtherTurnKnows(b, ticks[0], disk, task, key);
      }
      ReadAloneKnows(b, ticks[1..], ticks[0].now, disk', task', key);
    }
  }

  /**
   * A read's answer is durable: whatever a read with nothing in between was given, barrier, row, migrated
   * legacy draft or draft with a new submission id, the next read is given the very same draft, unless in the
   * meantime it expired without a receipt to protect it.
   */
  lemma ReadIsRepeatable(b: Browser, ticks: seq<Tick>, later: seq<Tick>, disk: Disk, key: string, d: Draft)
    requires ticks != [] && |later| >= 3 && InOrder(ticks + later) && later[1].commits && key != ""
    requires Alone(b, ticks, disk, ReadStart(key)).1 == Done(Found(d))
    requires IsProtected(d) || !Expired(b, later[2].now, d)
    ensures var after := Alone(b, ticks, disk, ReadStart(key)).0;
      Alone(b, later, after, ReadStart(key)).1 == Done(Found(d)) &&
      Alone(b, later, after, ReadStart(key)).0.rows == after.rows
  {
    hide Turn, Alone, BarrierOf, AfterBarrierRead, IsProtected, Expired, Invalid, Truthy, LiveDraft;
    var after := Alone(b, ticks, disk, ReadStart(key)).0;
    assert forall i :: 0 <= i < |ticks| ==> (ticks + later)[i] == ticks[i];
    assert forall i :: 0 <= i < |later| ==> (ticks + later)[|ticks| + i] == later[i];
    var now := ticks[|ticks| - 1].now;
    assert (ticks + later)[|ticks| - 1].now <= (ticks + later)[|ticks| + 2].now;
    ReadAloneKnows(b, ticks, ticks[0].now, disk, ReadStart(key), key);
    assert Durable(b, now, after, key, d);
    if BarrierOf(after.local, key) == Some(d) {
      AloneOne(b, later, after, ReadStart(key));
      ReadGivesBarrier(b, later[0], after, key);
      ReadStartLeavesRows(b, later[0], after, key);
    } else {
      var read := after.(local := AfterBarrierRead(after.local, key));
      ReadFirstTurns(b, later, after, key);
      StillExpired(b, now, later[2].now, d);
      DurableIsFound(b, later[2], read, key, d);
      AloneOne(b, later[2..], read, ReadGot(key, Some(d)));
    }
  }

  lemma StillExpired(b: Browser, now: int, later: int, d: Draft)
    requires now <= later
    ensures Expired(b, now, d) ==> Expired(b, later, d)
  {
  }

  lemma ReadStartLeavesRows(b: Browser, tick: Tick, disk: Disk, key: string)
    ensures Turn(b, tick, disk, ReadStart(key)).0.rows == disk.rows
  {
  }

  lemma DurableIsFound(b: Browser, tick: Tick, disk: Disk, key: string, d: Draft)
    requires !Invalid(key, d) && (IsProtected(d) || !Expired(b, tick.now, d))
    requires Truthy(d.clientSubmissionId) || (IsProtected(d) && Expired(b, tick.now, d))
    ensures Turn(b, tick, disk, ReadGot(key, Some(d))) == (disk, Done(Found(d)))
  {
    hide Invalid, IsProtected, Expired, Truthy, BeginDelete;
  }

  // ---- No key ----

  /** Without a key nothing is touched: reads find nothing, and stores, clears and revocations are no failure. */
  lemma EmptyKeyTouchesNothing(b: Browser, tick: Tick, disk: Disk, d: Draft, outcome: Option<Outcome>,
                               status: RevocationStatus)
    ensures Turn(b, tick, disk, ReadStart("")) == (disk, Done(NotFound))
    ensures Turn(b, tick, disk, StoreStart("", d, outcome)) == (disk, Done(Completed))
    ensures Turn(b, tick, disk, ClearStart("")) == (disk, Done(Completed))
    ensures var (disk', next) := Turn(b, tick, disk, RevokeStart("", d, status));
      disk' == disk && next.Done? && next.result.Found? && IsRevocationOf(next.result.draft, d, status)
  {
    RevocationReceiptIsRevocation(None, d, status);
    hide RevocationReceipt, IsRevocationOf;
  }
}
