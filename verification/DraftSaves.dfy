/**
 * Storing a draft and revoking access to one, with nothing in between: exactly when each goes through, what
 * both stores hold afterwards, and what the next read is given.
 */
module DraftSaves {
  import opened Foundations
  import opened ReceiptFence
  import opened AttendanceDrafts
  import opened DraftStore
  import opened DraftBarriers
  import opened DraftRows
  import opened DraftReads
  import opened DraftWrites
  import opened DraftOperations
  import opened DraftRevocation

  // ---- Storing ----

  /** What a store checks in its first stretch. */
  predicate MayBegin(b: Browser, now: int, local: Local, key: string, d: Draft, outcome: Option<Outcome>) {
    && WithinStoragePolicy(b, now, d)
    && DecideWrite(OptionalReceipt(BarrierOf(local, key)), ReceiptOf(d), outcome) == Allowed
    && (IsTerminal(d) ==> IsPurposeLimited(d))
  }

  /** What its transaction checks: the status machine once more, and the pending slots. */
  predicate MayStore(b: Browser, now: int, rows: Rows, key: string, d: Draft, outcome: Option<Outcome>) {
    var pending := PendingKeys(Surviving(b, now, rows));
    && DecideWrite(RowReceipt(rows, key), ReceiptOf(d), outcome) == Allowed
    && (key in pending || |pending| < MAX_RECORDS)
  }

  /** The local storage after a store's first stretch: a terminal receipt stands as the key's barrier. */
  ghost predicate Marked(before: Local, after: Local, key: string, d: Draft) {
    && (IsTerminal(d) ==> Lookup(after, BarrierKey(key)) == Some(Json(d)))
    && (!IsTerminal(d) ==> BarrierOf(after, key) == BarrierOf(before, key) && !Discardable(after, key))
    && forall k :: k != BarrierKey(key) ==> SameEntry(before, after, k)
  }

  lemma StoreBegins(b: Browser, tick: Tick, disk: Disk, key: string, d: Draft, outcome: Option<Outcome>)
    requires key != ""
    ensures var (disk', next) := Turn(b, tick, disk, StoreStart(key, d, outcome));
      && disk'.rows == disk.rows
      && (if MayBegin(b, tick.now, disk.local, key, d, outcome)
          then next == StoreWrite(key, d, outcome) && Marked(disk.local, disk'.local, key, d)
          else next == Done(Failed) && disk'.local in {disk.local, AfterBarrierRead(disk.local, key)})
  {
    BarrierReadTidies(disk.local, key);
    hide DecideWrite, BarrierOf, AfterBarrierRead, IsTerminal, IsPurposeLimited, StorableShape, Expired, WriteRow,
         Discardable, ReadTurn, RevokeTurn, DeleteTurn, TeardownTurn, ListTurn, BarrierKey;
    if MayBegin(b, tick.now, disk.local, key, d, outcome) {
      forall k | k != BarrierKey(key)
        ensures SameEntry(disk.local, Turn(b, tick, disk, StoreStart(key, d, outcome)).0.local, k)
      {
        assert SameEntry(disk.local, AfterBarrierRead(disk.local, key), k);
      }
    }
  }

  lemma StoreEnds(b: Browser, tick: Tick, disk: Disk, key: string, d: Draft, outcome: Option<Outcome>)
    requires key != ""
    ensures var (disk', next) := Turn(b, tick, disk, StoreWrite(key, d, outcome));
      && disk'.local == disk.local
      && disk'.rows ==
        (if tick.commits then WriteRow(b, tick.now, disk.rows, key, d, outcome).0 else disk.rows)
      && next == (if tick.commits && MayStore(b, tick.now, disk.rows, key, d, outcome) then Done(Completed)
                  else Done(Failed))
  {
    if DecideWrite(RowReceipt(disk.rows, key), ReceiptOf(d), outcome) == Allowed {
      CapacityRefusalIsExact(b, tick.now, disk.rows, key, d, outcome);
    } else {
      assert WriteRow(b, tick.now, disk.rows, key, d, outcome).1 != Written;
    }
    hide DecideWrite, BarrierOf, AfterBarrierRead, IsTerminal, IsPurposeLimited, WriteRow, PendingKeys, Surviving,
         ReadTurn, RevokeTurn, DeleteTurn, TeardownTurn, ListTurn;
  }

  /** The row is as it was, unless garbage collection may drop it. */
  predicate Kept(b: Browser, now: int, before: Rows, after: Rows, k: string) {
    || LiveDraft(after, k) == LiveDraft(before, k)
    || (LiveDraft(after, k).None? && k in before && !Stays(b, now, k, before[k]))
  }

  function Collected(b: Browser, now: int, before: Rows, k: string): Option<Draft> {
    if k in before && Stays(b, now, k, before[k]) then Some(before[k]) else None
  }

  /**
   * A store with nothing in between completes exactly when the draft may be kept, the status machine lets it
   * over the barrier and over the row, and a pending slot is free or already the key's. Then the row is the
   * draft; the other rows are those that are protected, or valid and recent, as they were; a terminal receipt
   * stands as barrier too; and every other entry of localStorage is as it was. A store that fails changes no
   * row but those that may be collected.
   */
  lemma StoreIsExact(b: Browser, ticks: seq<Tick>, disk: Disk, key: string, d: Draft, outcome: Option<Outcome>)
    requires |ticks| >= 2 && key != ""
    ensures var (after, end) := Alone(b, ticks, disk, StoreStart(key, d, outcome));
      if MayBegin(b, ticks[0].now, disk.local, key, d, outcome) && ticks[1].commits
         && MayStore(b, ticks[1].now, disk.rows, key, d, outcome)
      then
        && end == Done(Completed) && LiveDraft(after.rows, key) == Some(d) && Marked(disk.local, after.local, key, d)
        && forall k :: k != key ==> LiveDraft(after.rows, k) == Collected(b, ticks[1].now, disk.rows, k)
      else end == Done(Failed) && forall k :: Kept(b, ticks[1].now, disk.rows, after.rows, k)
  {
    hide Turn, Alone, WriteRow, MayBegin, Marked, Kept, Collected, LiveDraft, MayStore;
    var (begun, task) := Turn(b, ticks[0], disk, StoreStart(key, d, outcome));
    StoreBegins(b, ticks[0], disk, key, d, outcome);
    AloneTwo(b, ticks, disk, StoreStart(key, d, outcome));
    StoreEnds(b, ticks[1], begun, key, d, outcome);
    forall k
      ensures MayStore(b, ticks[1].now, disk.rows, key, d, outcome) ==>
        LiveDraft(WriteRow(b, ticks[1].now, disk.rows, key, d, outcome).0, k)
          == if k == key then Some(d) else Collected(b, ticks[1].now, disk.rows, k)
      ensures !MayStore(b, ticks[1].now, disk.rows, key, d, outcome) ==>
        Kept(b, ticks[1].now, disk.rows, WriteRow(b, ticks[1].now, disk.rows, key, d, outcome).0, k)
      ensures Kept(b, ticks[1].now, disk.rows, disk.rows, k)
    {
      StoredRow(b, ticks[1].now, disk.rows, key, d, outcome, k);
    }
  }

  lemma StoredRow(b: Browser, now: int, rows: Rows, key: string, d: Draft, outcome: Option<Outcome>, k: string)
    requires key != ""
    ensures MayStore(b, now, rows, key, d, outcome) ==>
      LiveDraft(WriteRow(b, now, rows, key, d, outcome).0, k) ==
        if k == key then Some(d) else Collected(b, now, rows, k)
    ensures !MayStore(b, now, rows, key, d, outcome) ==>
      Kept(b, now, rows, WriteRow(b, now, rows, key, d, outcome).0, k)
    ensures Kept(b, now, rows, rows, k)
  {
    WriteIsExact(b, now, rows, key, d, outcome, k);
    if DecideWrite(RowReceipt(rows, key), ReceiptOf(d), outcome) == Allowed {
      CapacityRefusalIsExact(b, now, rows, key, d, outcome);
    }
    hide WriteRow, DecideWrite, PendingKeys, Surviving, Stays;
  }

  // ---- Revoking access ----

  /** The draft a revocation is made from: the stored row, else the barrier, else what the caller passed. */
  function RevocationSource(disk: Disk, key: string, fallback: Draft): Draft {
    if key in disk.rows then disk.rows[key]
    else if BarrierOf(disk.local, key).Some? then BarrierOf(disk.local, key).value
    else fallback
  }

  function StoredReceipt(disk: Disk, key: string, fallback: Draft, status: RevocationStatus): Draft {
    RevocationReceipt(LiveDraft(disk.rows, key), FirstReceipt(disk, key, fallback, status), status)
  }

  lemma StoredReceiptIsRevocation(disk: Disk, key: string, fallback: Draft, status: RevocationStatus)
    ensures IsRevocationOf(StoredReceipt(disk, key, fallback, status), RevocationSource(disk, key, fallback), status)
  {
    hide RevocationReceipt, BarrierOf, TerminalAndRosterFree, Id, Status;
    RevocationReceiptIsRevocation(BarrierOf(disk.local, key), fallback, status);
    RevocationReceiptIsRevocation(LiveDraft(disk.rows, key), FirstReceipt(disk, key, fallback, status), status);
  }

  lemma RevocationMayPersist(b: Browser, d: Draft, source: Draft, status: RevocationStatus)
    requires IsRevocationOf(d, source, status)
    ensures MayPersistBarrier(b, d) <==> StorableShape(b, d)
  {
    hide StorableShape, IsTerminal, Status, Id;
  }

  /** What a finished revocation leaves: the receipt in both stores, no legacy copy, and nothing else changed. */
  ghost predicate Revoked(before: Disk, after: Disk, key: string, receipt: Draft) {
    && LiveDraft(after.rows, key) == Some(receipt)
    && Lookup(after.local, BarrierKey(key)) == Some(Json(receipt)) && key !in after.local
    && (forall k :: k != key ==> SameRow(before.rows, after.rows, k))
    && (forall k :: k != key && k != BarrierKey(key) ==> SameEntry(before.local, after.local, k))
  }

  lemma RevocationBegins(b: Browser, tick: Tick, disk: Disk, key: string, fallback: Draft, status: RevocationStatus)
    requires key != ""
    ensures var first := FirstReceipt(disk, key, fallback, status);
      var local := AfterBarrierRead(disk.local, key);
      Turn(b, tick, disk, RevokeStart(key, fallback, status)) ==
        if StorableShape(b, first) then
          (disk.(local := local[BarrierKey(key) := Json(first)]),
           RevokeWrite(key, first, status, Lookup(disk.local, key)))
        else (disk.(local := local), Done(Failed))
  {
    FirstReceiptMayPersist(b, disk, key, fallback, status);
    hide RevocationReceipt, StorableShape, MayPersistBarrier, BarrierOf, AfterBarrierRead, IsRevocationOf, BarrierKey,
         ReadTurn, StoreTurn, DeleteTurn, TeardownTurn, ListTurn;
  }

  lemma FirstReceiptMayPersist(b: Browser, disk: Disk, key: string, fallback: Draft, status: RevocationStatus)
    ensures var first := FirstReceipt(disk, key, fallback, status);
      MayPersistBarrier(b, first) <==> StorableShape(b, first)
  {
    hide RevocationReceipt, MayPersistBarrier, StorableShape, BarrierOf, IsRevocationOf;
    var barrier := BarrierOf(disk.local, key);
    RevocationReceiptIsRevocation(barrier, fallback, status);
    RevocationMayPersist(b, FirstReceipt(disk, key, fallback, status),
      if barrier.Some? then barrier.value else fallback, status);
  }

  lemma RevocationEnds(b: Browser, tick: Tick, disk: Disk, key: string, receipt: Draft, legacy: Option<Entry>,
                       source: Draft, status: RevocationStatus)
    requires IsRevocationOf(receipt, source, status) && StorableShape(b, receipt)
    ensures var local := disk.local[BarrierKey(key) := Json(receipt)];
      Turn(b, tick, disk, RevokeFinish(key, receipt, legacy)) ==
        (disk.(local := if legacy.Some? then RemoveIfUnchanged(local, key, legacy.value) else local),
         Done(Found(receipt)))
  {
    hide Turn, RemoveIfUnchanged, BarrierKey;
    RevocationMayPersist(b, receipt, source, status);
    FinishTurn(b, tick, disk, key, receipt, legacy);
  }

  lemma FinishTurn(b: Browser, tick: Tick, disk: Disk, key: string, receipt: Draft, legacy: Option<Entry>)
    requires MayPersistBarrier(b, receipt)
    ensures var local := disk.local[BarrierKey(key) := Json(receipt)];
      Turn(b, tick, disk, RevokeFinish(key, receipt, legacy)) ==
        (disk.(local := if legacy.Some? then RemoveIfUnchanged(local, key, legacy.value) else local),
         Done(Found(receipt)))
  {
    hide MayPersistBarrier, BarrierKey, RemoveIfUnchanged, ReadTurn, StoreTurn, DeleteTurn, TeardownTurn, ListTurn,
         RevocationReceipt, BarrierOf, AfterBarrierRead;
  }

  lemma MarkedTwice(local: Local, key: string, first: Draft, receipt: Draft)
    ensures var legacy := Lookup(local, key);
      var marked := AfterBarrierRead(local, key)[BarrierKey(key) := Json(first)][BarrierKey(key) := Json(receipt)];
      var gone := if legacy.Some? then RemoveIfUnchanged(marked, key, legacy.value) else marked;
      && key !in gone && Lookup(gone, BarrierKey(key)) == Some(Json(receipt))
      && forall k :: k != key && k != BarrierKey(key) ==> SameEntry(local, gone, k)
  {
    BarrierReadTidies(local, key);
    BarrierKeyInjective(key, key);
    hide AfterBarrierRead, BarrierOf, Discardable, BarrierKey;
    assert SameEntry(local, AfterBarrierRead(local, key), key);
    var marked := AfterBarrierRead(local, key)[BarrierKey(key) := Json(first)][BarrierKey(key) := Json(receipt)];
    var legacy := Lookup(local, key);
    var gone := if legacy.Some? then RemoveIfUnchanged(marked, key, legacy.value) else marked;
    forall k | k != key && k != BarrierKey(key) ensures SameEntry(local, gone, k) {
      assert SameEntry(local, AfterBarrierRead(local, key), k);
    }
  }

  lemma AloneThree(b: Browser, ticks: seq<Tick>, disk: Disk, task: Task)
    requires |ticks| >= 3
    ensures var (d1, t1) := Turn(b, ticks[0], disk, task);
      var (d2, t2) := Turn(b, ticks[1], d1, t1);
      var (d3, t3) := Turn(b, ticks[2], d2, t2);
      && (t1.Done? ==> Alone(b, ticks, disk, task) == (d1, t1))
      && (t2.Done? ==> Alone(b, ticks, disk, task) == (d2, t2))
      && (t3.Done? ==> Alone(b, ticks, disk, task) == (d3, t3))
  {
    hide Turn, Alone;
    var (d1, t1) := Turn(b, ticks[0], disk, task);
    var (d2, t2) := Turn(b, ticks[1], d1, t1);
    AloneTwo(b, ticks, disk, task);
    AloneOne(b, ticks[2..], d2, t2);
  }

  /**
   * A revocation with nothing in between goes through exactly when the receipts it makes, from what was found
   * in each store, may be stored and its transaction commits. Then row and barrier are the same roster-free
   * receipt of the requested status for the stored submission, the legacy copy is gone, and nothing else has
   * changed; otherwise rows and legacy copy are as they were.
   */
  lemma RevocationIsExact(b: Browser, ticks: seq<Tick>, disk: Disk, key: string, fallback: Draft,
                          status: RevocationStatus)
    requires |ticks| >= 3 && key != ""
    ensures var (after, end) := Alone(b, ticks, disk, RevokeStart(key, fallback, status));
      var receipt := StoredReceipt(disk, key, fallback, status);
      if StorableShape(b, FirstReceipt(disk, key, fallback, status)) && ticks[1].commits && StorableShape(b, receipt)
      then
        && end == Done(Found(receipt)) && Revoked(disk, after, key, receipt)
        && IsRevocationOf(receipt, RevocationSource(disk, key, fallback), status)
      else
        end == Done(Failed) && after.rows == disk.rows && SameEntry(disk.local, after.local, key)
  {
    hide Turn, Alone, StorableShape, RevocationReceipt, IsRevocationOf, RevocationSource, AfterBarrierRead,
         RemoveIfUnchanged, BarrierOf, FirstReceipt, BarrierKey;
    var first := FirstReceipt(disk, key, fallback, status);
    var receipt, legacy := StoredReceipt(disk, key, fallback, status), Lookup(disk.local, key);
    var local := AfterBarrierRead(disk.local, key);
    var marked := disk.(local := local[BarrierKey(key) := Json(first)]);
    RevocationBegins(b, ticks[0], disk, key, fallback, status);
    RevocationTurn(b, ticks[1], marked, key, first, status, legacy);
    AloneThree(b, ticks, disk, RevokeStart(key, fallback, status));
    BarrierReadTidies(disk.local, key);
    BarrierKeyInjective(key, key);
    assert SameEntry(disk.local, local, key);
    if StorableShape(b, first) && ticks[1].commits && StorableShape(b, receipt) {
      StoredReceiptIsRevocation(disk, key, fallback, status);
      FinishedRevocation(b, ticks[2], disk, key, first, receipt, RevocationSource(disk, key, fallback), status);
      hide LiveDraft, SameRow, SameEntry, Revoked;
    }
  }

  lemma FinishedRevocation(b: Browser, tick: Tick, disk: Disk, key: string, first: Draft, receipt: Draft,
                           source: Draft, status: RevocationStatus)
    requires IsRevocationOf(receipt, source, status) && StorableShape(b, receipt)
    ensures var stored := Disk(AfterBarrierRead(disk.local, key)[BarrierKey(key) := Json(first)],
                               disk.rows[key := receipt]);
      var (after, end) := Turn(b, tick, stored, RevokeFinish(key, receipt, Lookup(disk.local, key)));
      end == Done(Found(receipt)) && Revoked(disk, after, key, receipt)
  {
    hide Turn, StorableShape, IsRevocationOf, AfterBarrierRead, RemoveIfUnchanged, BarrierKey;
    var stored := Disk(AfterBarrierRead(disk.local, key)[BarrierKey(key) := Json(first)], disk.rows[key := receipt]);
    RevocationEnds(b, tick, stored, key, receipt, Lookup(disk.local, key), source, status);
    MarkedTwice(disk.local, key, first, receipt);
  }

  /** After such a revocation, under a non-blank key, the next read is given that receipt. */
  lemma RevokeThenRead(b: Browser, ticks: seq<Tick>, later: seq<Tick>, disk: Disk, key: string, fallback: Draft,
                       status: RevocationStatus)
    requires |ticks| >= 3 && later != [] && !Blank(key) && key != ""
    ensures var (after, end) := Alone(b, ticks, disk, RevokeStart(key, fallback, status));
      end != Done(Failed) ==>
        && end == Done(Found(StoredReceipt(disk, key, fallback, status)))
        && Alone(b, later, after, ReadStart(key)).1 == end
  {
    hide Turn, Alone, StorableShape, RevocationReceipt, RevocationSource, BarrierOf, FirstReceipt, BarrierKey, Blank,
         TerminalAndRosterFree, Id, Status, MayPersistBarrier;
    var (after, end) := Alone(b, ticks, disk, RevokeStart(key, fallback, status));
    var receipt := StoredReceipt(disk, key, fallback, status);
    RevocationIsExact(b, ticks, disk, key, fallback, status);
    if end != Done(Failed) {
      RevocationMayPersist(b, receipt, RevocationSource(disk, key, fallback), status);
      StandingEntry(b, after.local, key, receipt);
      AloneOne(b, later, after, ReadStart(key));
      ReadGivesBarrier(b, later[0], after, key);
    }
  }

  lemma StandingEntry(b: Browser, local: Local, key: string, d: Draft)
    requires MayPersistBarrier(b, d) && Lookup(local, BarrierKey(key)) == Some(Json(d)) && !Blank(key)
    ensures BarrierOf(local, key) == Some(d)
  {
    PersistedBarrierIsReadable(b, local, key, d);
    hide MayPersistBarrier, Blank, IsBarrier;
    assert local[BarrierKey(key) := Json(d)] == local;
  }

  /**
   * A receipt may be stored exactly when the draft it is made from has a submission id and a scope, no odd
   * authorization version, and the receipt is not too large.
   */
  lemma ReceiptIsStorableExactly(b: Browser, d: Draft, status: RevocationStatus)
    ensures var receipt := RevocationReceipt(Some(d), d, status);
      StorableShape(b, receipt) <==>
        && NonBlank(d.clientSubmissionId) && NonBlank(d.academicYearId) && NonBlank(d.classId)
        && NonBlank(d.attendanceDate) && NonBlank(d.savedAt)
        && (Truthy(d.authorizationVersion) ==> NonBlank(d.authorizationVersion))
        && b.encodedSize(receipt) <= 64 * 1024
  {
    assert NonBlank(d.authorizationVersion) ==> Truthy(d.authorizationVersion);
    hide Trim;
  }

  /**
   * A stored draft cannot be revoked while it has no submission id: every attempt fails and leaves the row,
   * roster included, as it was.
   */
  lemma RowWithoutIdKeepsRoster(b: Browser, ticks: seq<Tick>, disk: Disk, key: string, fallback: Draft,
                                status: RevocationStatus)
    requires |ticks| >= 3 && key != "" && key in disk.rows && !NonBlank(disk.rows[key].clientSubmissionId)
    ensures var (after, end) := Alone(b, ticks, disk, RevokeStart(key, fallback, status));
      end == Done(Failed) && LiveDraft(after.rows, key) == Some(disk.rows[key])
  {
    hide Turn, Alone, RevocationReceipt, FirstReceipt, StorableShape;
    RevocationIsExact(b, ticks, disk, key, fallback, status);
    ReceiptIsStorableExactly(b, disk.rows[key], status);
    SameReceiptWhenLive(disk.rows[key], FirstReceipt(disk, key, fallback, status), status);
  }

  lemma SameReceiptWhenLive(d: Draft, fallback: Draft, status: RevocationStatus)
    ensures RevocationReceipt(Some(d), fallback, status) == RevocationReceipt(Some(d), d, status)
  {
  }
}
