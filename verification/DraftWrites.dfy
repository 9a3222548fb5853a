/**
 * What the turns of the draft store write and remove, row by row: a transaction changes its own key's row
 * and drops what may be collected; a revocation's put leaves a roster-free record that stays for good; a
 * deletion leaves nothing to be found until the key is written again.
 */
module DraftWrites {
  import opened Foundations
  import opened ReceiptFence
  import opened AttendanceDrafts
  import opened DraftStore
  import opened DraftBarriers
  import opened DraftRows
  import opened DraftReads

  /** Both stores of rows agree about one key. */
  predicate SameRow(before: Rows, after: Rows, k: string) {
    (k in before <==> k in after) && (k in before && k in after ==> before[k] == after[k])
  }

  predicate SameEntry(before: Local, after: Local, k: string) {
    Lookup(before, k) == Lookup(after, k)
  }

  // ---- One write ----

  /** A row that garbage collection leaves: a receipt protects it, or it is valid and recent. */
  predicate Stays(b: Browser, now: int, key: string, d: Draft) {
    IsProtected(d) || (!Invalid(key, d) && !Expired(b, now, d))
  }

  /**
   * A write goes as far as the status machine lets it: refused, it changes nothing; otherwise exactly the
   * rows that are protected, or valid and recent, are left, and the key's own row is the new draft exactly
   * when the write reports so.
   */
  lemma WriteIsExact(b: Browser, now: int, rows: Rows, key: string, d: Draft, outcome: Option<Outcome>, k: string)
    ensures var (after, result) := WriteRow(b, now, rows, key, d, outcome);
      && (result.FenceRefused? <==> DecideWrite(RowReceipt(rows, key), ReceiptOf(d), outcome).Refused?)
      && (result.FenceRefused? ==> after == rows)
      && (result == Written ==> key in after && after[key] == d)
      && (!result.FenceRefused? && (k != key || result != Written) ==>
            && (k in after <==> k in rows && Stays(b, now, k, rows[k]))
            && (k in after ==> after[k] == rows[k]))
  {
    hide DecideWrite, CanStorePending, PendingKeys, IsTerminal, IsProtected, Invalid, Expired;
    if k in rows { TerminalRowIsProtected(rows[k]); }
  }

  // ---- Revocation ----

  /** What a revocation leaves of a draft: its own submission id and scope under the requested status, no roster. */
  predicate IsRevocationOf(r: Draft, source: Draft, status: RevocationStatus) {
    && TerminalAndRosterFree(r)
    && Status(r) == RevocationText(status) && Id(r) == Id(source)
    && r.academicYearId == source.academicYearId && r.classId == source.classId
    && r.sectionId == source.sectionId && r.attendanceDate == source.attendanceDate && r.savedAt == source.savedAt
  }

  lemma RevocationReceiptIsRevocation(live: Option<Draft>, fallback: Draft, status: RevocationStatus)
    ensures IsRevocationOf(RevocationReceipt(live, fallback, status),
      if live.Some? then live.value else fallback, status)
  {
    RevocationReceiptIsTerminal(live, fallback, status);
    hide IsTerminal, IdOf, StatusOf;
  }

  function LiveDraft(rows: Rows, key: string): Option<Draft> {
    if key in rows then Some(rows[key]) else None
  }

  /**
   * The transaction of a revocation either fails and changes nothing, or leaves in the key's row a
   * roster-free record of the requested status, made from the stored draft if there is one and else from
   * the one it carries, and leaves every other row and all of localStorage as they were.
   */
  lemma RevocationStoresReceipt(b: Browser, tick: Tick, disk: Disk, task: Task, k: string)
    requires task.RevokeWrite?
    ensures var (disk', next) := Turn(b, tick, disk, task);
      var source := if task.key in disk.rows then disk.rows[task.key] else task.fallback;
      var receipt := RevocationReceipt(LiveDraft(disk.rows, task.key), task.fallback, task.status);
      && (next.RevokeFinish? <==> tick.commits && StorableShape(b, receipt))
      && (!next.RevokeFinish? ==> next == Done(Failed) && disk' == disk)
      && (next.RevokeFinish? ==>
            && task.key in disk'.rows && IsRevocationOf(disk'.rows[task.key], source, task.status)
            && next == RevokeFinish(task.key, disk'.rows[task.key], task.legacy)
            && disk'.local == disk.local && (k != task.key ==> SameRow(disk.rows, disk'.rows, k)))
  {
    hide Turn, RevocationReceipt, StorableShape, IsRevocationOf;
    RevocationReceiptIsRevocation(LiveDraft(disk.rows, task.key), task.fallback, task.status);
    RevocationTurn(b, tick, disk, task.key, task.fallback, task.status, task.legacy);
  }

  lemma RevocationTurn(b: Browser, tick: Tick, disk: Disk, key: string, fallback: Draft, status: RevocationStatus,
                       legacy: Option<Entry>)
    ensures var receipt := RevocationReceipt(LiveDraft(disk.rows, key), fallback, status);
      Turn(b, tick, disk, RevokeWrite(key, fallback, status, legacy)) ==
        if tick.commits && StorableShape(b, receipt) then
          (disk.(rows := disk.rows[key := receipt]), RevokeFinish(key, receipt, legacy))
        else (disk, Done(Failed))
  {
    hide RevocationReceipt, StorableShape, ReadTurn, StoreTurn, DeleteTurn, TeardownTurn, ListTurn, BarrierOf,
         MayPersistBarrier, AfterBarrierRead, RemoveIfUnchanged;
  }

  // ---- Everything stored has passed the storage check ----

  /** The record a task is about to store, if any, passed the storage check. */
  predicate CarriesStorable(b: Browser, t: Task) {
    && (t.StoreWrite? ==> StorableShape(b, t.draft))
    && (t.ReadMigrate? || t.ReadMigrated? || t.ReadUpgrade? ==> StorableShape(b, t.upgraded))
    && (t.RevokeFinish? ==> StorableShape(b, t.tombstone))
  }

  /** Every row is of storable shape, and so is what open tasks are about to store. */
  ghost predicate StorableStore(b: Browser, s: System) {
    && (forall k :: k in s.disk.rows ==> StorableShape(b, s.disk.rows[k]))
    && StorableTasks(b, s)
  }

  ghost predicate StorableTasks(b: Browser, s: System) {
    forall id :: id in s.tasks ==> CarriesStorable(b, s.tasks[id])
  }

  lemma TurnCarriesStorable(b: Browser, tick: Tick, disk: Disk, task: Task)
    requires CarriesStorable(b, task)
    ensures CarriesStorable(b, Turn(b, tick, disk, task).1)
  {
    hide StorableShape, DecideWrite, MayPersistBarrier, BarrierOf, AfterBarrierRead, Invalid, Expired, IsProtected,
         ScanBarriers, RevocationReceipt, WriteRow, WithId, DeleteAllowed, RemoveIfUnchanged, IsTerminal;
  }

  lemma {:induction false} RunsCarryStorable(b: Browser, states: seq<System>, actions: seq<Action>, i: nat, j: nat)
    requires IsRun(b, states, actions) && i <= j <= |actions| && StorableTasks(b, states[i])
    ensures StorableTasks(b, states[j])
    decreases j
  {
    hide Turn, CarriesStorable;
    if i < j {
      RunsCarryStorable(b, states, actions, i, j - 1);
      var s, a := states[j - 1], actions[j - 1];
      assert Enabled(s, a) && states[j - 1 + 1] == Step(b, s, a);
      if a.Resume? { TurnCarriesStorable(b, a.tick, s.disk, s.tasks[a.id]); }
      if a.Begin? { assert CarriesStorable(b, a.task) by { StartsEmptyHanded(b, a.task); } }
    }
  }

  lemma StartsEmptyHanded(b: Browser, t: Task)
    requires Startable(t)
    ensures CarriesStorable(b, t)
  {
  }

  // ---- What one turn does to one row ----

  /** The turn runs a garbage-collecting write transaction. */
  predicate Writes(t: Task) {
    t.StoreWrite? || t.ReadMigrate? || t.ReadUpgrade?
  }

  function Carried(t: Task): Draft
    requires Writes(t)
  {
    if t.StoreWrite? then t.draft else t.upgraded
  }

  function CarriedOutcome(t: Task): Option<Outcome>
    requires Writes(t)
  {
    if t.StoreWrite? then t.outcome else None
  }

  /** The turn is the transaction of a revocation of the key. */
  predicate RevokesRow(t: Task, key: string) {
    t.RevokeWrite? && t.key == key
  }

  /** The record a turn puts in the row of `k`. */
  function PutBy(b: Browser, tick: Tick, rows: Rows, t: Task, k: string): Option<Draft> {
    if !tick.commits then None
    else if RevokesRow(t, k) then
      var receipt := RevocationReceipt(LiveDraft(rows, k), t.fallback, t.status);
      if StorableShape(b, receipt) then Some(receipt) else None
    else if Writes(t) && t.key == k
         && WriteRow(b, tick.now, rows, k, Carried(t), CarriedOutcome(t)).1 == Written then
      Some(Carried(t))
    else None
  }

  /**
   * The turn deletes the row of `k`: a teardown clear, the removal of an unprotected row by a deletion or by
   * a listing, or a write of any key that the status machine allows, once the row may be collected.
   */
  predicate Removes(b: Browser, tick: Tick, rows: Rows, t: Task, k: string)
    requires k in rows
  {
    && tick.commits
    && (|| t.TeardownStart?
        || (t.DeleteRow? && t.key == k && !IsProtected(rows[k]))
        || (t.ListDiscard? && tick.pick == k && k in t.todo && !IsProtected(rows[k]))
        || (Writes(t) && !Stays(b, tick.now, k, rows[k])
            && !DecideWrite(RowReceipt(rows, t.key), ReceiptOf(Carried(t)), CarriedOutcome(t)).Refused?))
  }

  /** Every change of every row by every turn: put, deleted, or left as it was. */
  lemma RowChangeIsExact(b: Browser, tick: Tick, disk: Disk, task: Task, k: string)
    ensures var rows' := Turn(b, tick, disk, task).0.rows;
      var put := PutBy(b, tick, disk.rows, task, k);
      if put.Some? then k in rows' && rows'[k] == put.value
      else if k in disk.rows && Removes(b, tick, disk.rows, task, k) then k !in rows'
      else SameRow(disk.rows, rows', k)
  {
    hide Turn, WriteRow, DecideWrite, RevocationReceipt, StorableShape, Stays, IsProtected;
    if Writes(task) {
      WritingTurn(b, tick, disk, task);
      WriteIsExact(b, tick.now, disk.rows, task.key, Carried(task), CarriedOutcome(task), k);
    } else if task.RevokeWrite? {
      RevocationTurn(b, tick, disk, task.key, task.fallback, task.status, task.legacy);
    } else if task.DeleteRow? || task.ListDiscard? || task.TeardownStart? {
      DeletingTurn(b, tick, disk, task, k);
    } else {
      OtherTurnsLeaveRows(b, tick, disk, task);
    }
  }

  lemma WritingTurn(b: Browser, tick: Tick, disk: Disk, task: Task)
    requires Writes(task)
    ensures Turn(b, tick, disk, task).0.local == disk.local
    ensures Turn(b, tick, disk, task).0.rows ==
      if tick.commits then WriteRow(b, tick.now, disk.rows, task.key, Carried(task), CarriedOutcome(task)).0
      else disk.rows
  {
    hide WriteRow, ReadFound, WithinStoragePolicy, WithId, BarrierOf, AfterBarrierRead, DecideWrite;
  }

  lemma DeletingTurn(b: Browser, tick: Tick, disk: Disk, task: Task, k: string)
    requires task.DeleteRow? || task.ListDiscard? || task.TeardownStart?
    ensures PutBy(b, tick, disk.rows, task, k).None?
    ensures var rows' := Turn(b, tick, disk, task).0.rows;
      if k in disk.rows && Removes(b, tick, disk.rows, task, k) then k !in rows' else SameRow(disk.rows, rows', k)
  {
    hide StatusOf, Stays, WriteRow, DecideWrite;
  }

  // ---- Whole runs: a revoked row stays revoked ----

  predicate RevokesRowAt(s: System, a: Action, key: string) {
    a.Resume? && a.id in s.tasks && RevokesRow(s.tasks[a.id], key)
  }

  /** The row of `key` holds a terminal record without roster data for the submission of `before`. */
  predicate HoldsReceipt(s: System, key: string, before: Draft) {
    key in s.disk.rows && TerminalAndRosterFree(s.disk.rows[key]) && Id(s.disk.rows[key]) == Id(before)
  }

  lemma WriteKeepsReceipt(b: Browser, before: Draft, after: Draft, outcome: Option<Outcome>)
    requires TerminalAndRosterFree(before) && StorableShape(b, after)
    requires DecideWrite(Some(ReceiptOf(before)), ReceiptOf(after), outcome) == Allowed
    ensures TerminalAndRosterFree(after) && Id(after) == Id(before) && Status(after) == Status(before)
  {
    TerminalRowIsProtected(before);
    AllowedWriteOverProtected(ReceiptOf(before), ReceiptOf(after), outcome);
    assert after.exceptions.items == map[] && after.remarks.items == map[];
  }

  lemma TurnKeepsReceipt(b: Browser, tick: Tick, disk: Disk, task: Task, key: string)
    requires CarriesStorable(b, task) && !ClearsRows(tick, task)
    requires key in disk.rows && TerminalAndRosterFree(disk.rows[key])
    ensures var rows' := Turn(b, tick, disk, task).0.rows;
      && key in rows' && TerminalAndRosterFree(rows'[key]) && Id(rows'[key]) == Id(disk.rows[key])
      && (!RevokesRow(task, key) ==> Status(rows'[key]) == Status(disk.rows[key]))
  {
    hide Turn, WriteRow, DecideWrite, RevocationReceipt, StorableShape, IsTerminal, IsProtected, Id, Status;
    var before := disk.rows[key];
    RowChangeIsExact(b, tick, disk, task, key);
    TerminalRowIsProtected(before);
    if PutBy(b, tick, disk.rows, task, key).Some? {
      if RevokesRow(task, key) {
        RevocationReceiptIsRevocation(Some(before), task.fallback, task.status);
      } else {
        WriteIsExact(b, tick.now, disk.rows, key, Carried(task), CarriedOutcome(task), key);
        WriteKeepsReceipt(b, before, Carried(task), CarriedOutcome(task));
      }
    }
  }

  /**
   * A row that holds a terminal record without roster data does so at every later point of the run up to a
   * teardown clear, for the same submission, and with the same status unless the key is revoked again.
   */
  lemma {:induction false} ReceiptRowStays(b: Browser, states: seq<System>, actions: seq<Action>, i: nat, j: nat,
                                           key: string)
    requires IsRun(b, states, actions) && i <= j <= |actions| && StorableTasks(b, states[i])
    requires key in states[i].disk.rows && TerminalAndRosterFree(states[i].disk.rows[key])
    requires forall n :: i <= n < j ==> !ClearsRowsAt(states[n], actions[n])
    ensures HoldsReceipt(states[j], key, states[i].disk.rows[key])
    ensures (forall n :: i <= n < j ==> !RevokesRowAt(states[n], actions[n], key)) ==>
      Status(states[j].disk.rows[key]) == Status(states[i].disk.rows[key])
    decreases j
  {
    hide Turn, TerminalAndRosterFree, Id, Status, CarriesStorable, ClearsRows, RevokesRow;
    if i < j {
      ReceiptRowStays(b, states, actions, i, j - 1, key);
      RunsCarryStorable(b, states, actions, i, j - 1);
      var s, a := states[j - 1], actions[j - 1];
      assert Enabled(s, a) && states[j - 1 + 1] == Step(b, s, a) && !ClearsRowsAt(s, a);
      if a.Resume? { TurnKeepsReceipt(b, a.tick, s.disk, s.tasks[a.id], key); }
    }
  }

  /**
   * Revocation is for good: once its transaction went through at step i, then at every later point up to a
   * teardown clear the key's row is a terminal record without roster data, for the submission that was
   * stored there (or else the one the revocation carried), and of the requested status unless the key is
   * revoked again.
   */
  lemma RevocationIsForGood(b: Browser, states: seq<System>, actions: seq<Action>, i: nat, j: nat, key: string,
                            fallback: Draft, status: RevocationStatus, legacy: Option<Entry>)
    requires IsRun(b, states, actions) && i < j <= |actions| && StorableTasks(b, states[i])
    requires Resumes(states[i], actions[i], RevokeWrite(key, fallback, status, legacy))
    requires states[i + 1].tasks[actions[i].id].RevokeFinish?
    requires forall n :: i < n < j ==> !ClearsRowsAt(states[n], actions[n])
    ensures HoldsReceipt(states[j], key, if key in states[i].disk.rows then states[i].disk.rows[key] else fallback)
    ensures (forall n :: i < n < j ==> !RevokesRowAt(states[n], actions[n], key)) ==>
      Status(states[j].disk.rows[key]) == RevocationText(status)
  {
    hide Turn, TerminalAndRosterFree, Id, Status, CarriesStorable, ClearsRows, RevokesRow, StorableShape;
    assert Enabled(states[i], actions[i]) && states[i + 1] == Step(b, states[i], actions[i]);
    RevocationStoresReceipt(b, actions[i].tick, states[i].disk, states[i].tasks[actions[i].id], key);
    RunsCarryStorable(b, states, actions, i, i + 1);
    ReceiptRowStays(b, states, actions, i + 1, j, key);
  }

  // ---- Whole runs: a deleted row stays deleted ----

  predicate PutsAt(b: Browser, s: System, a: Action, key: string) {
    a.Resume? && a.id in s.tasks && PutBy(b, a.tick, s.disk.rows, s.tasks[a.id], key).Some?
  }

  lemma StepRow(b: Browser, s: System, a: Action, key: string)
    requires Enabled(s, a)
    ensures PutsAt(b, s, a, key) ==> key in Step(b, s, a).disk.rows
    ensures key !in s.disk.rows && !PutsAt(b, s, a, key) ==> key !in Step(b, s, a).disk.rows
  {
    hide Turn, PutBy;
    if a.Resume? { RowChangeIsExact(b, a.tick, s.disk, s.tasks[a.id], key); }
  }

  /** A row that is gone stays away throughout exactly when no turn puts it. */
  lemma {:induction false} RowStaysGoneExactly(b: Browser, states: seq<System>, actions: seq<Action>, i: nat, j: nat,
                                               key: string)
    requires IsRun(b, states, actions) && i <= j <= |actions| && key !in states[i].disk.rows
    ensures (forall n :: i <= n <= j ==> key !in states[n].disk.rows) <==>
      (forall n :: i <= n < j ==> !PutsAt(b, states[n], actions[n], key))
    decreases j
  {
    hide Step, PutsAt, Enabled;
    if i < j {
      RowStaysGoneExactly(b, states, actions, i, j - 1, key);
      assert Enabled(states[j - 1], actions[j - 1]) && states[j - 1 + 1] == Step(b, states[j - 1], actions[j - 1]);
      StepRow(b, states[j - 1], actions[j - 1], key);
      if forall n :: i <= n <= j ==> key !in states[n].disk.rows {
        assert key !in states[j].disk.rows;
        forall n | i <= n < j ensures !PutsAt(b, states[n], actions[n], key) {}
      }
      if forall n :: i <= n < j ==> !PutsAt(b, states[n], actions[n], key) {
        assert key !in states[j - 1].disk.rows;
        forall n | i <= n <= j ensures key !in states[n].disk.rows {}
      }
    }
  }

  /** The turn takes the row of `key` away for a deletion or a listing. */
  predicate DeletesAt(s: System, a: Action, after: System, key: string) {
    && a.Resume? && a.id in s.tasks && a.id in after.tasks
    && (|| (s.tasks[a.id].DeleteRow? && s.tasks[a.id].key == key && after.tasks[a.id].DeleteFinish?)
        || (s.tasks[a.id].ListDiscard? && a.tick.pick == key && key in s.tasks[a.id].todo && a.tick.commits
            && (key in s.disk.rows ==> !IsProtected(s.disk.rows[key]))))
  }

  /**
   * A deletion's transaction goes through exactly when it commits and no receipt protects the row, and then,
   * as when a listing discards the row, the row is gone and every other row is as it was; otherwise nothing
   * changes.
   */
  lemma DeletionRemovesRow(b: Browser, tick: Tick, disk: Disk, task: Task, k: string)
    requires task.DeleteRow?
    ensures var (disk', next) := Turn(b, tick, disk, task);
      && (next.DeleteFinish? <==> tick.commits && (task.key in disk.rows ==> !IsProtected(disk.rows[task.key])))
      && (next.DeleteFinish? ==>
            && next == DeleteFinish(task.key, task.legacy, task.result) && disk'.local == disk.local
            && task.key !in disk'.rows && (k != task.key ==> SameRow(disk.rows, disk'.rows, k)))
      && (!next.DeleteFinish? ==> next == Done(Failed) && disk' == disk)
  {
    hide StatusOf;
  }

  lemma DiscardRemovesRow(b: Browser, tick: Tick, disk: Disk, task: Task, k: string)
    requires task.ListDiscard? && tick.pick in task.todo
    ensures var (disk', next) := Turn(b, tick, disk, task);
      && next == ListDiscard(task.todo - {tick.pick}, task.visible) && disk'.local == disk.local
      && (k != tick.pick ==> SameRow(disk.rows, disk'.rows, k))
      && (if tick.commits && (tick.pick in disk.rows ==> !IsProtected(disk.rows[tick.pick]))
          then tick.pick !in disk'.rows else disk' == disk)
  {
    hide StatusOf;
  }

  lemma DeletingStep(b: Browser, s: System, a: Action, key: string)
    requires Enabled(s, a) && DeletesAt(s, a, Step(b, s, a), key)
    ensures key !in Step(b, s, a).disk.rows
  {
    hide Turn, IsProtected;
    if s.tasks[a.id].DeleteRow? {
      DeletionRemovesRow(b, a.tick, s.disk, s.tasks[a.id], key);
    } else {
      DiscardRemovesRow(b, a.tick, s.disk, s.tasks[a.id], key);
    }
  }

  lemma ReadLooksUpRow(b: Browser, tick: Tick, disk: Disk, key: string)
    ensures Turn(b, tick, disk, ReadGet(key)) == (disk,
      if !tick.commits then Done(Failed) else ReadGot(key, LiveDraft(disk.rows, key)))
  {
  }

  /**
   * What is deleted stays deleted: after a deletion or a listing took the row away at step i, a read of the
   * key finds no row at any later step j up to the first turn that puts one.
   */
  lemma DeletedRowIsNotFound(b: Browser, states: seq<System>, actions: seq<Action>, i: nat, j: nat, key: string)
    requires IsRun(b, states, actions) && i < j < |actions|
    requires DeletesAt(states[i], actions[i], states[i + 1], key)
    requires forall n :: i < n < j ==> !PutsAt(b, states[n], actions[n], key)
    ensures key !in states[j].disk.rows
    ensures Resumes(states[j], actions[j], ReadGet(key)) ==>
      states[j + 1].tasks[actions[j].id] in {ReadGot(key, None), Done(Failed)}
  {
    hide Turn, PutsAt, DeletesAt;
    assert Enabled(states[i], actions[i]) && states[i + 1] == Step(b, states[i], actions[i]);
    assert Enabled(states[j], actions[j]) && states[j + 1] == Step(b, states[j], actions[j]);
    DeletingStep(b, states[i], actions[i], key);
    RowStaysGoneExactly(b, states, actions, i + 1, j, key);
    if Resumes(states[j], actions[j], ReadGet(key)) { ReadLooksUpRow(b, actions[j].tick, states[j].disk, key); }
  }

  // ---- Whole runs: only storable records are stored ----

  lemma TurnPutsStorable(b: Browser, tick: Tick, disk: Disk, task: Task, k: string)
    requires CarriesStorable(b, task) && (k in disk.rows ==> StorableShape(b, disk.rows[k]))
    ensures var rows' := Turn(b, tick, disk, task).0.rows; k in rows' ==> StorableShape(b, rows'[k])
  {
    hide Turn, WriteRow, RevocationReceipt, StorableShape, Removes;
    RowChangeIsExact(b, tick, disk, task, k);
  }

  /**
   * In a store that only this code has written, from empty on, every row passed the storage check: it is at
   * most 64 KiB in size, has a submission id, and is valid under its key unless that is blank.
   */
  lemma {:induction false} RunsStoreStorable(b: Browser, states: seq<System>, actions: seq<Action>, i: nat, j: nat)
    requires IsRun(b, states, actions) && i <= j <= |actions| && StorableStore(b, states[i])
    ensures StorableStore(b, states[j])
    ensures forall k :: k in states[j].disk.rows ==>
      var d := states[j].disk.rows[k];
      b.encodedSize(d) <= 64 * 1024 && NonBlank(d.clientSubmissionId) && (Invalid(k, d) <==> Blank(k))
    decreases j
  {
    hide Turn, StorableShape, CarriesStorable, Invalid, Blank;
    if i < j {
      RunsStoreStorable(b, states, actions, i, j - 1);
      RunsCarryStorable(b, states, actions, i, j);
      var s, a := states[j - 1], actions[j - 1];
      assert Enabled(s, a) && states[j - 1 + 1] == Step(b, s, a);
      if a.Resume? {
        forall k | k in states[j].disk.rows ensures StorableShape(b, states[j].disk.rows[k]) {
          TurnPutsStorable(b, a.tick, s.disk, s.tasks[a.id], k);
        }
      }
    }
    forall k | k in states[j].disk.rows
      ensures b.encodedSize(states[j].disk.rows[k]) <= 64 * 1024
        && NonBlank(states[j].disk.rows[k].clientSubmissionId) && (Invalid(k, states[j].disk.rows[k]) <==> Blank(k))
    {
      StorableIsValid(b, k, states[j].disk.rows[k]);
      StorableHasId(b, states[j].disk.rows[k]);
    }
  }

  lemma StorableHasId(b: Browser, d: Draft)
    requires StorableShape(b, d)
    ensures b.encodedSize(d) <= 64 * 1024 && NonBlank(d.clientSubmissionId)
  {
  }
}
