/**
 * What reads and listings hand out: drafts that are valid and either recent or protected, and, when
 * nothing interferes, exactly the draft that was stored or migrated.
 */
module DraftReads {
  import opened Foundations
  import opened ReceiptFence
  import opened AttendanceDrafts
  import opened DraftStore
  import opened DraftBarriers

  /** Valid under its key, and at most 48 hours old unless a receipt protects it. */
  predicate Presentable(b: Browser, now: int, key: string, d: Draft) {
    && !Invalid(key, d)
    && (IsProtected(d) || (b.timeOf(d.savedAt).Some? && now - b.timeOf(d.savedAt).value <= 48 * 60 * 60 * 1000))
  }

  /** The task is a read of the key, at any of its turns. */
  predicate Reads(task: Task) {
    task.ReadStart? || task.ReadGet? || task.ReadGot? || task.ReadMigrate? || task.ReadMigrated? || task.ReadUpgrade?
  }

  /**
   * What one turn of a read hands out, or keeps to hand out after storing its new submission id, is
   * presentable at that moment.
   */
  lemma ReadsArePresentable(b: Browser, tick: Tick, disk: Disk, task: Task, d: Draft)
    requires Reads(task) && !task.ReadUpgrade?
    requires var next := ReadTurn(b, tick, disk, task).1; next == Done(Found(d)) || next == ReadUpgrade(task.key, d)
    ensures Presentable(b, tick.now, task.key, d)
    ensures Truthy(d.clientSubmissionId) || IsProtected(d)
  {
    hide Invalid, IsProtected, IsTerminal, IsPurposeLimited, StorableShape, WriteRow;
    if task.ReadStart? {
      BarrierIsRosterFree(disk.local, task.key);
    } else if task.ReadGot? && task.stored.Some? {
      FoundIsPresentable(b, tick, disk, task.key, task.stored.value, d);
    } else if task.ReadMigrated? {
      FoundIsPresentable(b, tick, disk.(local := RemoveIfUnchanged(disk.local, task.key, task.legacyRaw)), task.key,
        task.upgraded, d);
    }
  }

  lemma FoundIsPresentable(b: Browser, tick: Tick, disk: Disk, key: string, parsed: Draft, d: Draft)
    requires var next := ReadFound(b, tick, disk, key, parsed).1; next == Done(Found(d)) || next == ReadUpgrade(key, d)
    ensures Presentable(b, tick.now, key, d)
    ensures Truthy(d.clientSubmissionId) || IsProtected(d)
  {
    WithIdKeeps(parsed, tick.freshId, key);
    assert StorableShape(b, d) ==> Truthy(d.clientSubmissionId);
    hide Invalid, IsProtected, StorableShape, WithId, AfterBarrierRead, BarrierOf, DeleteAllowed;
  }

  /** Filling in a submission id changes neither validity, nor protection, nor age. */
  lemma WithIdKeeps(d: Draft, freshId: string, key: string)
    ensures Invalid(key, WithId(d, freshId)) == Invalid(key, d)
    ensures IsProtected(WithId(d, freshId)) == IsProtected(d) && WithId(d, freshId).savedAt == d.savedAt
    ensures WithId(d, freshId).(clientSubmissionId := d.clientSubmissionId) == d
    ensures Truthy(d.clientSubmissionId) ==> WithId(d, freshId) == d
  {
  }

  /** At step m the task's turn found the draft to be presentable. */
  predicate FoundAt(b: Browser, actions: seq<Action>, m: nat, id: nat, key: string, d: Draft)
    requires m < |actions|
  {
    actions[m].Resume? && actions[m].id == id && Presentable(b, actions[m].tick.now, key, d)
  }

  /** Every task about to store a found draft with its new id found it presentable on an earlier turn. */
  lemma {:induction false} UpgradesWerePresentable(b: Browser, states: seq<System>, actions: seq<Action>, j: nat,
                                                   id: nat)
    returns (m: nat)
    requires IsRun(b, states, actions) && j <= |actions| && states[0].tasks == map[]
    requires id in states[j].tasks && states[j].tasks[id].ReadUpgrade?
    ensures m < j && FoundAt(b, actions, m, id, states[j].tasks[id].key, states[j].tasks[id].upgraded)
  {
    hide Turn, Presentable;
    var s, a := states[j - 1], actions[j - 1];
    assert Enabled(s, a) && states[j - 1 + 1] == Step(b, s, a);
    if a.Resume? && a.id == id {
      UpgradeComesFromRead(b, a.tick, s.disk, s.tasks[id]);
      m := j - 1;
    } else {
      m := UpgradesWerePresentable(b, states, actions, j - 1, id);
    }
  }

  lemma UpgradeComesFromRead(b: Browser, tick: Tick, disk: Disk, task: Task)
    requires Turn(b, tick, disk, task).1.ReadUpgrade?
    ensures var next := Turn(b, tick, disk, task).1; Presentable(b, tick.now, next.key, next.upgraded)
  {
    var next := Turn(b, tick, disk, task).1;
    OnlyReadsUpgrade(b, tick, disk, task);
    hide Presentable, Turn, ReadTurn;
    ReadsArePresentable(b, tick, disk, task, next.upgraded);
  }

  lemma OnlyReadsUpgrade(b: Browser, tick: Tick, disk: Disk, task: Task)
    requires Turn(b, tick, disk, task).1.ReadUpgrade?
    ensures Reads(task) && !task.ReadUpgrade? && ReadTurn(b, tick, disk, task).1 == Turn(b, tick, disk, task).1
    ensures Turn(b, tick, disk, task).1.key == task.key
  {
    hide Invalid, Expired, IsProtected, WithinStoragePolicy, WriteRow, DecideWrite, MayPersistBarrier, BarrierOf,
         RevocationReceipt, StorableShape, ScanBarriers, DeleteAllowed, AfterBarrierRead;
  }

  /**
   * In every run from a start without open tasks, whatever a read of a key hands out was presentable at
   * one of that read's own turns, the last one unless it stored a new submission id in between.
   */
  lemma ReadsHandOutPresentable(b: Browser, states: seq<System>, actions: seq<Action>, j: nat, d: Draft)
    returns (m: nat)
    requires IsRun(b, states, actions) && j < |actions| && states[0].tasks == map[]
    requires actions[j].Resume? && actions[j].id in states[j].tasks && Reads(states[j].tasks[actions[j].id])
    requires states[j + 1].tasks[actions[j].id] == Done(Found(d))
    ensures m <= j && FoundAt(b, actions, m, actions[j].id, states[j].tasks[actions[j].id].key, d)
    ensures !states[j].tasks[actions[j].id].ReadUpgrade? ==> m == j
  {
    var s, a := states[j], actions[j];
    var task := s.tasks[a.id];
    assert Enabled(s, a) && states[j + 1] == Step(b, s, a);
    if task.ReadUpgrade? {
      assert ReadTurn(b, a.tick, s.disk, task).1 == Done(Found(d)) ==> d == task.upgraded by { hide WriteRow; }
      m := UpgradesWerePresentable(b, states, actions, j, a.id);
    } else {
      hide ReadTurn, Presentable;
      ReadsArePresentable(b, a.tick, s.disk, task, d);
      m := j;
    }
  }

  /**
   * What a listing shows: drafts of the signed-in school and person that are presentable, each a listed
   * row or, where one stands, the key's receipt barrier instead.
   */
  lemma ListingsArePresentable(b: Browser, tick: Tick, disk: Disk, prefix: string, listed: Rows, key: string)
    requires Enumerates(tick.order, disk.local)
    ensures var task := Turn(b, tick, disk, ListGot(prefix, listed)).1;
      && task.ListDiscard?
      && (key in task.visible ==>
            && prefix <= key && Presentable(b, tick.now, key, task.visible[key])
            && (BarrierOf(disk.local, key) == Some(task.visible[key]) ||
              (key in listed && task.visible[key] == listed[key])))
      && ((BarrierOf(disk.local, key).None? && key in listed && prefix <= key
           && Presentable(b, tick.now, key, listed[key])) ==>
            key in task.visible && task.visible[key] == listed[key])
      && (key in task.todo ==> key in listed && !Presentable(b, tick.now, key, listed[key]))
  {
    hide Invalid, IsProtected, ScanBarriers, BarrierOf;
    if key in ScannedBarriers(tick.order, disk.local, 0) {
      ScanIsSound(tick.order, disk.local, 0, key);
    }
    assert ScannedBarriers(tick.order, disk.local, 0) == ScanBarriers(tick.order, disk.local, 0).1;
  }

  /** An editable draft that the status machine and the capacity bound let through is read back as it was stored. */
  lemma StoreThenRead(b: Browser, tick: Tick, disk: Disk, key: string, d: Draft, outcome: Option<Outcome>)
    requires tick.commits && !Blank(key) && key != "" && BarrierOf(disk.local, key).None?
    requires WithinStoragePolicy(b, tick.now, d) && !IsTerminal(d)
    requires DecideWrite(None, ReceiptOf(d), outcome) == Allowed
    requires WriteRow(b, tick.now, disk.rows, key, d, outcome).1 == Written
    ensures var (d1, t1) := Turn(b, tick, disk, StoreStart(key, d, outcome));
      var (d2, t2) := Turn(b, tick, d1, t1);
      var (d3, t3) := Turn(b, tick, d2, ReadStart(key));
      var (d4, t4) := Turn(b, tick, d3, t3);
      var (d5, t5) := Turn(b, tick, d4, t4);
      t2 == Done(Completed) && t5 == Done(Found(d)) && d5.rows == d2.rows
  {
    hide Turn, WriteRow, DecideWrite, BarrierOf, AfterBarrierRead, IsTerminal, WithinStoragePolicy;
    var local, rows := AfterBarrierRead(disk.local, key), WriteRow(b, tick.now, disk.rows, key, d, outcome).0;
    WrittenRow(b, tick.now, disk.rows, key, d, outcome);
    NoBarrierAfterRead(disk.local, key);
    StoringTurns(b, tick, disk, key, d, outcome);
    ReadingTurns(b, tick, Disk(local, rows), key, d);
  }

  lemma WrittenRow(b: Browser, now: int, rows: Rows, key: string, d: Draft, outcome: Option<Outcome>)
    requires WriteRow(b, now, rows, key, d, outcome).1 == Written
    ensures var after := WriteRow(b, now, rows, key, d, outcome).0; key in after && after[key] == d
  {
    hide DecideWrite, CanStorePending, PendingKeys, Surviving;
  }

  lemma StoringTurns(b: Browser, tick: Tick, disk: Disk, key: string, d: Draft, outcome: Option<Outcome>)
    requires tick.commits && key != "" && BarrierOf(disk.local, key).None?
    requires WithinStoragePolicy(b, tick.now, d) && !IsTerminal(d)
    requires DecideWrite(None, ReceiptOf(d), outcome) == Allowed
    requires WriteRow(b, tick.now, disk.rows, key, d, outcome).1 == Written
    ensures var local := AfterBarrierRead(disk.local, key);
      && Turn(b, tick, disk, StoreStart(key, d, outcome)) == (Disk(local, disk.rows), StoreWrite(key, d, outcome))
      && Turn(b, tick, Disk(local, disk.rows), StoreWrite(key, d, outcome))
          == (Disk(local, WriteRow(b, tick.now, disk.rows, key, d, outcome).0), Done(Completed))
  {
    hide WriteRow, DecideWrite, BarrierOf, AfterBarrierRead, IsTerminal, WithinStoragePolicy;
  }

  /** A read of a stored draft under no barrier, turn by turn. */
  lemma ReadingTurns(b: Browser, tick: Tick, disk: Disk, key: string, d: Draft)
    requires tick.commits && key != "" && !Blank(key)
    requires BarrierOf(disk.local, key).None? && AfterBarrierRead(disk.local, key) == disk.local
    requires key in disk.rows && disk.rows[key] == d && WithinStoragePolicy(b, tick.now, d)
    ensures Turn(b, tick, disk, ReadStart(key)) == (disk, ReadGet(key))
    ensures Turn(b, tick, disk, ReadGet(key)) == (disk, ReadGot(key, Some(d)))
    ensures Turn(b, tick, disk, ReadGot(key, Some(d))) == (disk, Done(Found(d)))
  {
    FoundIsReturned(b, tick, disk, key, d);
    hide BarrierOf, AfterBarrierRead, WithinStoragePolicy, ReadFound, WriteRow;
  }

  lemma FoundIsReturned(b: Browser, tick: Tick, disk: Disk, key: string, d: Draft)
    requires WithinStoragePolicy(b, tick.now, d) && !Blank(key)
    ensures ReadFound(b, tick, disk, key, d) == (disk, Done(Found(d)))
  {
    StorableIsValid(b, key, d);
    assert NonBlank(d.clientSubmissionId) && Truthy(d.clientSubmissionId);
    hide Invalid, StorableShape;
  }

  lemma NoBarrierAfterRead(local: Local, key: string)
    requires BarrierOf(local, key).None?
    ensures BarrierOf(AfterBarrierRead(local, key), key).None?
    ensures AfterBarrierRead(AfterBarrierRead(local, key), key) == AfterBarrierRead(local, key)
    ensures Lookup(AfterBarrierRead(local, key), key) == Lookup(local, key)
  {
    BarrierKeyInjective(key, key);
  }

  /**
   * A legacy localStorage draft moves to IndexedDB whole: the read that finds it returns it with its
   * submission id filled in, stores it as a row, and removes the legacy copy.
   */
  lemma MigrationKeepsDraft(b: Browser, tick: Tick, disk: Disk, key: string, legacy: Draft)
    requires tick.commits && !Blank(key) && key != "" && BarrierOf(disk.local, key).None?
    requires key !in disk.rows && key in disk.local && disk.local[key] == Json(legacy)
    requires WithinStoragePolicy(b, tick.now, WithId(legacy, tick.freshId))
    requires WriteRow(b, tick.now, disk.rows, key, WithId(legacy, tick.freshId), None).1 == Written
    ensures var (d1, t1) := Turn(b, tick, disk, ReadStart(key));
      var (d2, t2) := Turn(b, tick, d1, t1);
      var (d3, t3) := Turn(b, tick, d2, t2);
      var (d4, t4) := Turn(b, tick, d3, t3);
      var (d5, t5) := Turn(b, tick, d4, t4);
      && t5 == Done(Found(WithId(legacy, tick.freshId)))
      && key in d5.rows && d5.rows[key] == WithId(legacy, tick.freshId) && key !in d5.local
  {
    hide Turn, WriteRow, BarrierOf, AfterBarrierRead, WithinStoragePolicy, WithId, RemoveIfUnchanged;
    var local, upgraded := AfterBarrierRead(disk.local, key), WithId(legacy, tick.freshId);
    WrittenRow(b, tick.now, disk.rows, key, upgraded, None);
    NoBarrierAfterRead(disk.local, key);
    LegacyTurns(b, tick, disk, key, legacy);
    MigratingTurns(b, tick, Disk(local, disk.rows), key, legacy, upgraded);
  }

  lemma LegacyTurns(b: Browser, tick: Tick, disk: Disk, key: string, legacy: Draft)
    requires tick.commits && key != "" && BarrierOf(disk.local, key).None?
    requires key !in disk.rows && Lookup(AfterBarrierRead(disk.local, key), key) == Some(Json(legacy))
    requires WithinStoragePolicy(b, tick.now, WithId(legacy, tick.freshId))
    ensures var before := Disk(AfterBarrierRead(disk.local, key), disk.rows);
      && Turn(b, tick, disk, ReadStart(key)) == (before, ReadGet(key))
      && Turn(b, tick, before, ReadGet(key)) == (before, ReadGot(key, None))
      && Turn(b, tick, before, ReadGot(key, None)) ==
        (before, ReadMigrate(key, WithId(legacy, tick.freshId), Json(legacy)))
  {
    hide BarrierOf, AfterBarrierRead, WithinStoragePolicy, WithId, ReadFound, WriteRow;
  }

  lemma MigratingTurns(b: Browser, tick: Tick, disk: Disk, key: string, legacy: Draft, upgraded: Draft)
    requires tick.commits && !Blank(key) && key != "" && Lookup(disk.local, key) == Some(Json(legacy))
    requires WithinStoragePolicy(b, tick.now, upgraded)
    requires WriteRow(b, tick.now, disk.rows, key, upgraded, None).1 == Written
    ensures var moved := disk.(rows := WriteRow(b, tick.now, disk.rows, key, upgraded, None).0);
      && Turn(b, tick, disk, ReadMigrate(key, upgraded, Json(legacy))) ==
        (moved, ReadMigrated(key, upgraded, Json(legacy)))
      && Turn(b, tick, moved, ReadMigrated(key, upgraded, Json(legacy)))
          == (moved.(local := disk.local - {key}), Done(Found(upgraded)))
  {
    hide WithinStoragePolicy, ReadFound, WriteRow;
    var moved := disk.(rows := WriteRow(b, tick.now, disk.rows, key, upgraded, None).0);
    FoundIsReturned(b, tick, moved.(local := disk.local - {key}), key, upgraded);
  }

  lemma OutcomeRaisesBarrier(b: Browser, tick: Tick, disk: Disk, key: string, d: Draft, outcome: Option<Outcome>)
    requires IsTerminal(d) && !Blank(key) && key != ""
    requires Turn(b, tick, disk, StoreStart(key, d, outcome)).1.StoreWrite?
    ensures BarrierOf(Turn(b, tick, disk, StoreStart(key, d, outcome)).0.local, key) == Some(d)
  {
    if MayPersistBarrier(b, d) {
      PersistedBarrierIsReadable(b, AfterBarrierRead(disk.local, key), key, d);
    }
    hide BarrierOf, MayPersistBarrier, AfterBarrierRead, WithinStoragePolicy, DecideWrite, IsTerminal, Blank;
  }

  /**
   * A terminal outcome is kept even when its row is not: once a store's first stretch let it through,
   * then whether its transaction commits, aborts, never runs or is refused for capacity, every later read
   * returns a terminal roster-free record, with the outcome's own id and status unless the key is revoked.
   */
  lemma OutcomeIsCrashSafe(b: Browser, states: seq<System>, actions: seq<Action>, i: nat, j: nat,
                           key: string, d: Draft, outcome: Option<Outcome>)
    requires IsRun(b, states, actions) && i < j < |actions|
    requires Resumes(states[i], actions[i], StoreStart(key, d, outcome)) && IsTerminal(d) && !Blank(key)
    requires states[i + 1].tasks[actions[i].id].StoreWrite?
    requires forall n :: i < n < j ==> !DropsAt(b, states[n], actions[n], key)
    requires Resumes(states[j], actions[j], ReadStart(key))
    ensures var task := states[j + 1].tasks[actions[j].id];
      && task.Done? && task.result.Found? && TerminalAndRosterFree(task.result.draft)
      && ((forall n :: i < n < j ==> !RevokesAt(states[n], actions[n], key)) ==> SameReceipt(d, task.result.draft))
  {
    assert key != "";
    hide Turn, Blank, TerminalAndRosterFree, DropsBarrier, IsTerminal, SameReceipt;
    assert Enabled(states[i], actions[i]) && states[i + 1] == Step(b, states[i], actions[i]);
    OutcomeRaisesBarrier(b, actions[i].tick, states[i].disk, key, d, outcome);
    BarrierSurvives(b, states, actions, i + 1, j, key);
    NoResurrection(b, states, actions, i + 1, j, key);
    assert Enabled(states[j], actions[j]) && states[j + 1] == Step(b, states[j], actions[j]);
    ReadGivesBarrier(b, actions[j].tick, states[j].disk, key);
  }

  lemma ReadGivesBarrier(b: Browser, tick: Tick, disk: Disk, key: string)
    requires BarrierOf(disk.local, key).Some? && key != ""
    ensures Turn(b, tick, disk, ReadStart(key)).1 == Done(Found(BarrierOf(disk.local, key).value))
  {
    hide BarrierOf, AfterBarrierRead;
  }
}
