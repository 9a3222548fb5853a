/**
 * Access revocation, and the limits of the barrier guarantee: what happens when the page stops half
 * way through a revocation, and which caller keys the guarantee does not cover.
 */
module DraftRevocation {
  import opened Foundations
  import opened ReceiptFence
  import opened AttendanceDrafts
  import opened DraftStore
  import opened DraftBarriers

  function FirstReceipt(disk: Disk, key: string, fallback: Draft, status: RevocationStatus): Draft {
    RevocationReceipt(BarrierOf(disk.local, key), fallback, status)
  }

  /**
   * The first synchronous stretch of a revocation goes through exactly when its receipt has a
   * storable shape, and then, under a non-blank key, leaves that receipt as a standing barrier.
   */
  lemma RevocationRaisesBarrier(b: Browser, tick: Tick, disk: Disk, key: string, fallback: Draft,
                                status: RevocationStatus)
    requires key != ""
    ensures var (disk', task') := Turn(b, tick, disk, RevokeStart(key, fallback, status));
      var receipt := FirstReceipt(disk, key, fallback, status);
      && (task'.RevokeWrite? <==> StorableShape(b, receipt))
      && (task'.RevokeWrite? && !Blank(key) ==> BarrierOf(disk'.local, key) == Some(receipt))
      && disk'.rows == disk.rows
  {
    RevocationReceiptIsTerminal(BarrierOf(disk.local, key), fallback, status);
    hide RevocationReceipt, StorableShape, Terminal, IsPurposeLimited;
    if MayPersistBarrier(b, FirstReceipt(disk, key, fallback, status)) {
      StorableIsReadable(b, AfterBarrierRead(disk.local, key), key, FirstReceipt(disk, key, fallback, status));
    }
  }

  lemma StorableIsReadable(b: Browser, local: Local, key: string, d: Draft)
    requires MayPersistBarrier(b, d)
    ensures !Blank(key) ==> BarrierOf(local[BarrierKey(key) := Json(d)], key) == Some(d)
  {
  }

  /**
   * Crash safety: once a revocation's first stretch went through, then whether its IndexedDB
   * transaction commits, aborts or never runs, every later read of the key returns a terminal record
   * without roster data.
   */
  lemma RevocationIsCrashSafe(b: Browser, states: seq<System>, actions: seq<Action>, i: nat, j: nat,
                              key: string, fallback: Draft, status: RevocationStatus)
    requires IsRun(b, states, actions) && i < j < |actions|
    requires Resumes(states[i], actions[i], RevokeStart(key, fallback, status)) && !Blank(key)
    requires states[i + 1].tasks[actions[i].id].RevokeWrite?
    requires forall n :: i < n < j ==> !DropsAt(b, states[n], actions[n], key)
    requires Resumes(states[j], actions[j], ReadStart(key))
    ensures var task := states[j + 1].tasks[actions[j].id];
      task.Done? && task.result.Found? && TerminalAndRosterFree(task.result.draft)
  {
    assert key != "";
    hide Turn, Blank, TerminalAndRosterFree, DropsBarrier;
    assert Enabled(states[i], actions[i]) && states[i + 1] == Step(b, states[i], actions[i]);
    RevocationRaisesBarrier(b, actions[i].tick, states[i].disk, key, fallback, status);
    NoResurrection(b, states, actions, i + 1, j, key);
  }

  /** The same for listings, while no discardable entry is stored when the listing merges. */
  lemma RevocationIsCrashSafeInListings(b: Browser, states: seq<System>, actions: seq<Action>, i: nat, j: nat,
                                        key: string,
                                        fallback: Draft, status: RevocationStatus, prefix: string, listed: Rows)
    requires IsRun(b, states, actions) && i < j < |actions|
    requires Resumes(states[i], actions[i], RevokeStart(key, fallback, status)) && !Blank(key)
    requires states[i + 1].tasks[actions[i].id].RevokeWrite?
    requires forall n :: i < n < j ==> !DropsAt(b, states[n], actions[n], key)
    requires Resumes(states[j], actions[j], ListGot(prefix, listed))
    requires forall bad :: bad != "" ==> !Discardable(states[j].disk.local, bad)
    ensures var task := states[j + 1].tasks[actions[j].id];
      && task.ListDiscard?
      && (prefix <= key <==> key in task.visible)
      && (key in task.visible ==> TerminalAndRosterFree(task.visible[key]))
  {
    assert key != "";
    hide Turn, Blank, TerminalAndRosterFree, DropsBarrier, Discardable;
    assert Enabled(states[i], actions[i]) && states[i + 1] == Step(b, states[i], actions[i]);
    RevocationRaisesBarrier(b, actions[i].tick, states[i].disk, key, fallback, status);
    NoResurrectionInListings(b, states, actions, i + 1, j, key, prefix, listed);
  }

  /**
   * In storage that only this code has written under non-blank keys, every listing that merges after a
   * revocation's first stretch, and before a turn drops the barrier, is safe too.
   */
  lemma RevocationIsCrashSafeInOwnListings(b: Browser, states: seq<System>, actions: seq<Action>, i: nat, j: nat,
                                           key: string,
                                           fallback: Draft, status: RevocationStatus, prefix: string, listed: Rows)
    requires IsRun(b, states, actions) && i < j < |actions|
    requires Tidy(states[0].disk.local) && NonBlankKeys(states[0])
    requires forall n :: 0 <= n < j && actions[n].Begin? && TaskKey(actions[n].task).Some? ==>
      !Blank(TaskKey(actions[n].task).value)
    requires Resumes(states[i], actions[i], RevokeStart(key, fallback, status)) && !Blank(key)
    requires states[i + 1].tasks[actions[i].id].RevokeWrite?
    requires forall n :: i < n < j ==> !DropsAt(b, states[n], actions[n], key)
    requires Resumes(states[j], actions[j], ListGot(prefix, listed))
    ensures var task := states[j + 1].tasks[actions[j].id];
      && task.ListDiscard?
      && (prefix <= key <==> key in task.visible)
      && (key in task.visible ==> TerminalAndRosterFree(task.visible[key]))
  {
    hide Turn, Blank, TerminalAndRosterFree, DropsBarrier, Discardable;
    RunsStayTidy(b, states, actions, j);
    RevocationIsCrashSafeInListings(b, states, actions, i, j, key, fallback, status, prefix, listed);
  }

  /** A tab begins a revocation and closes after its first stretch; another tab then reads the key. */
  function CrashActions(tick: Tick, key: string, fallback: Draft, status: RevocationStatus): seq<Action> {
    [Begin(0, RevokeStart(key, fallback, status)), Resume(0, tick), Abandon(0),
     Begin(1, ReadStart(key)), Resume(1, tick)]
  }

  function CrashStates(key: string, fallback: Draft, status: RevocationStatus): seq<System> {
    var receipt := RevocationReceipt(None, fallback, status);
    var empty, marked := Disk(map[], map[]), Disk(map[BarrierKey(key) := Json(receipt)], map[]);
    [System(empty, map[], {}),
     System(empty, map[0 := RevokeStart(key, fallback, status)], {}),
     System(marked, map[0 := RevokeWrite(key, receipt, status, None)], {}),
     System(marked, map[], {}),
     System(marked, map[1 := ReadStart(key)], {}),
     System(marked, map[1 := Done(Found(receipt))], {})]
  }

  /** Such a run exists for every storable revocation, and its read is given the revocation receipt. */
  lemma PageClosesDuringRevocation(b: Browser, tick: Tick, key: string, fallback: Draft, status: RevocationStatus)
    requires !Blank(key) && key != "" && StorableShape(b, RevocationReceipt(None, fallback, status))
    ensures IsRun(b, CrashStates(key, fallback, status), CrashActions(tick, key, fallback, status))
  {
    hide Turn, Step, Enabled, RevocationReceipt, StorableShape, MayPersistBarrier, Blank, BarrierKey;
    var receipt := RevocationReceipt(None, fallback, status);
    var empty, marked := Disk(map[], map[]), Disk(map[BarrierKey(key) := Json(receipt)], map[]);
    FirstStretchFromNothing(b, tick, key, fallback, status);
    ReadOfBarrier(b, tick, key, receipt);
    BeginningStep(b, empty, 0, RevokeStart(key, fallback, status));
    ResumingStep(b, empty, 0, tick, RevokeStart(key, fallback, status), marked,
      RevokeWrite(key, receipt, status, None));
    AbandoningStep(b, marked, 0, RevokeWrite(key, receipt, status, None));
    BeginningStep(b, marked, 1, ReadStart(key));
    ResumingStep(b, marked, 1, tick, ReadStart(key), marked, Done(Found(receipt)));
    FiveSteps(b, CrashStates(key, fallback, status), CrashActions(tick, key, fallback, status));
  }

  lemma FiveSteps(b: Browser, s: seq<System>, a: seq<Action>)
    requires |s| == 6 && |a| == 5
    requires Enabled(s[0], a[0]) && s[1] == Step(b, s[0], a[0])
    requires Enabled(s[1], a[1]) && s[2] == Step(b, s[1], a[1])
    requires Enabled(s[2], a[2]) && s[3] == Step(b, s[2], a[2])
    requires Enabled(s[3], a[3]) && s[4] == Step(b, s[3], a[3])
    requires Enabled(s[4], a[4]) && s[5] == Step(b, s[4], a[4])
    ensures IsRun(b, s, a)
  {
    hide Step, Enabled;
  }

  lemma BeginningStep(b: Browser, disk: Disk, id: nat, task: Task)
    requires task.ReadStart? || task.RevokeStart?
    ensures Enabled(System(disk, map[], {}), Begin(id, task))
    ensures Step(b, System(disk, map[], {}), Begin(id, task)) == System(disk, map[id := task], {})
  {
  }

  lemma ResumingStep(b: Browser, disk: Disk, id: nat, tick: Tick, task: Task, disk': Disk, task': Task)
    requires !task.ListGot? && Turn(b, tick, disk, task) == (disk', task')
    ensures Enabled(System(disk, map[id := task], {}), Resume(id, tick))
    ensures Step(b, System(disk, map[id := task], {}), Resume(id, tick)) == System(disk', map[id := task'], {})
  {
    hide Turn;
    assert (map[id := task])[id := task'] == map[id := task'];
  }

  lemma AbandoningStep(b: Browser, disk: Disk, id: nat, task: Task)
    ensures Enabled(System(disk, map[id := task], {}), Abandon(id))
    ensures Step(b, System(disk, map[id := task], {}), Abandon(id)) == System(disk, map[], {})
  {
    assert map[id := task] - {id} == map[];
  }

  lemma FirstStretchFromNothing(b: Browser, tick: Tick, key: string, fallback: Draft, status: RevocationStatus)
    requires !Blank(key) && key != "" && StorableShape(b, RevocationReceipt(None, fallback, status))
    ensures MayPersistBarrier(b, RevocationReceipt(None, fallback, status))
    ensures var receipt := RevocationReceipt(None, fallback, status);
      Turn(b, tick, Disk(map[], map[]), RevokeStart(key, fallback, status))
        == (Disk(map[BarrierKey(key) := Json(receipt)], map[]), RevokeWrite(key, receipt, status, None))
  {
    RevocationReceiptIsTerminal(None, fallback, status);
    hide RevocationReceipt, StorableShape, Terminal, IsTerminal, IsPurposeLimited, IsBarrier, EmptyText, Blank,
         BarrierKey, ReadTurn, StoreTurn, DeleteTurn, TeardownTurn, ListTurn, StatusOf, IdOf, Protected, IsProtected;
    var receipt := RevocationReceipt(None, fallback, status);
    var nothing: Local := map[];
    assert MayPersistBarrier(b, receipt) && BarrierOf(nothing, key) == None &&
      AfterBarrierRead(nothing, key) == nothing;
    assert nothing[BarrierKey(key) := Json(receipt)] == map[BarrierKey(key) := Json(receipt)];
  }

  lemma ReadOfBarrier(b: Browser, tick: Tick, key: string, receipt: Draft)
    requires !Blank(key) && key != "" && MayPersistBarrier(b, receipt)
    ensures var marked := Disk(map[BarrierKey(key) := Json(receipt)], map[]);
      Turn(b, tick, marked, ReadStart(key)) == (marked, Done(Found(receipt)))
  {
    var nothing: Local := map[];
    var local: Local := map[BarrierKey(key) := Json(receipt)];
    assert local == nothing[BarrierKey(key) := Json(receipt)];
    PersistedBarrierIsReadable(b, nothing, key, receipt);
    hide IsBarrier, Discardable, Blank, MayPersistBarrier, StoreTurn, RevokeTurn, DeleteTurn, TeardownTurn, ListTurn,
         BarrierOf, ReadFound, WriteRow;
    assert AfterBarrierRead(local, key) == local;
  }

  // ---- Caller keys the guarantee leaves out ----

  /**
   * A read given the storage key of another draft's barrier mistakes that barrier for a legacy draft,
   * migrates it and removes it: five turns of the read leave the other draft without its barrier.
   */
  lemma AliasedReadDropsBarrier(b: Browser, tick: Tick, local: Local, key: string)
    requires BarrierOf(local, key).Some? && tick.commits
    requires WithinStoragePolicy(b, tick.now, BarrierOf(local, key).value)
    requires Truthy(BarrierOf(local, key).value.clientSubmissionId)
    requires StatusOf(ReceiptOf(BarrierOf(local, key).value)) !in AUTHORITATIVE_STATUSES
    requires BarrierKey(BarrierKey(key)) !in local
    ensures var d0, t0 := Disk(local, map[]), ReadStart(BarrierKey(key));
      var (d1, t1) := Turn(b, tick, d0, t0);
      var (d2, t2) := Turn(b, tick, d1, t1);
      var (d3, t3) := Turn(b, tick, d2, t2);
      var (d4, t4) := Turn(b, tick, d3, t3);
      var (d5, t5) := Turn(b, tick, d4, t4);
      t4.ReadMigrated? && BarrierOf(d5.local, key).None?
  {
    hide Turn, WriteRow, WithinStoragePolicy, StatusOf, Truthy, Invalid, IsTerminal, IsPurposeLimited;
    var barrier, at := BarrierOf(local, key).value, BarrierKey(key);
    assert at != "" && local[at] == Json(barrier);
    AliasedReadFindsBarrier(b, tick, local, at, barrier);
    AliasedReadMigrates(b, tick, local, at, barrier);
    MigratedReadRemoves(b, tick, Disk(local, WriteRow(b, tick.now, map[], at, barrier, None).0), at, barrier);
  }

  lemma AliasedReadMigrates(b: Browser, tick: Tick, local: Local, at: string, barrier: Draft)
    requires at != "" && tick.commits && StatusOf(ReceiptOf(barrier)) !in AUTHORITATIVE_STATUSES
    ensures Turn(b, tick, Disk(local, map[]), ReadMigrate(at, barrier, Json(barrier)))
      == (Disk(local, WriteRow(b, tick.now, map[], at, barrier, None).0), ReadMigrated(at, barrier, Json(barrier)))
  {
    FirstWriteIsAccepted(b, tick.now, at, barrier);
    hide WriteRow, StatusOf, ReadFound, StoreTurn, RevokeTurn, DeleteTurn, TeardownTurn, ListTurn;
  }

  lemma AliasedReadFindsBarrier(b: Browser, tick: Tick, local: Local, at: string, barrier: Draft)
    requires at != "" && BarrierKey(at) !in local && at in local && local[at] == Json(barrier)
    requires tick.commits && Truthy(barrier.clientSubmissionId) && WithinStoragePolicy(b, tick.now, barrier)
    ensures var d0 := Disk(local, map[]);
      && Turn(b, tick, d0, ReadStart(at)) == (d0, ReadGet(at))
      && Turn(b, tick, d0, ReadGet(at)) == (d0, ReadGot(at, None))
      && Turn(b, tick, d0, ReadGot(at, None)) == (d0, ReadMigrate(at, barrier, Json(barrier)))
  {
    hide IsBarrier, WithinStoragePolicy, WriteRow, ReadFound, StoreTurn, RevokeTurn, DeleteTurn, TeardownTurn, ListTurn;
  }

  lemma FirstWriteIsAccepted(b: Browser, now: int, key: string, d: Draft)
    requires key != "" && StatusOf(ReceiptOf(d)) !in AUTHORITATIVE_STATUSES
    ensures WriteRow(b, now, map[], key, d, None).1 == Written
  {
    assert PendingKeys(Surviving(b, now, map[])) == {};
  }

  lemma MigratedReadRemoves(b: Browser, tick: Tick, disk: Disk, key: string, d: Draft)
    requires key in disk.local && disk.local[key] == Json(d)
    ensures key !in Turn(b, tick, disk, ReadMigrated(key, d, Json(d))).0.local
  {
    hide Invalid, Expired, IsProtected, WithinStoragePolicy, IsBarrier, DeleteAllowed;
  }
}
