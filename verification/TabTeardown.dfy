/**
 * Session teardown of one tab over the real draft storage: the tab's fence orders its operations, each
 * turn of the running one changes localStorage and IndexedDB as in the draft store, and other tabs may
 * change both at any moment. Every stored draft and barrier remembers who wrote it last.
 */
module TabTeardown {
  import opened Foundations
  import opened AttendanceDrafts
  import opened DraftStore
  import Fence = StorageFence

  datatype Writer = Own(generation: nat) | Elsewhere

  /**
   * `work` holds what each operation of this tab does next; `rowWriter` and `localWriter` tell who wrote
   * each row and each localStorage entry.
   */
  datatype Tab = Tab(
    fence: Fence.Fence,
    work: map<nat, Task>,
    disk: Disk,
    rowWriter: map<string, Writer>,
    localWriter: map<string, Writer>)

  datatype Action =
    | Queue(generation: nat, task: Task)   // any operation but the clear, with a ticket captured now or earlier
    | Teardown                             // invalidate, and enqueue the clear with the new ticket
    | Start
    | Turn(tick: Tick)                     // one turn of the running operation
    | Finish
    | OtherTabs(disk: Disk)                // other tabs change storage in any way

  /** Who wrote each entry, after `writer` changed a map. */
  function Written<V(==)>(before: map<string, V>, after: map<string, V>, owners: map<string, Writer>, writer: Writer)
    : map<string, Writer>
  {
    map k | k in after :: if k in before && k in owners && before[k] == after[k] then owners[k] else writer
  }

  ghost predicate Enabled(t: Tab, a: Action) {
    match a
    case Queue(generation, task) =>
      generation <= t.fence.generation && Startable(task) && !task.TeardownStart?
    case Teardown => true
    case Start => t.fence.queue != [] && t.fence.running.None? && t.fence.queue[0].id in t.work
    case Turn(tick) =>
      && t.fence.running.Some? && t.fence.running.value.id in t.work
      && (t.work[t.fence.running.value.id].ListGot? ==> Enumerates(tick.order, t.disk.local))
    case Finish =>
      t.fence.running.Some? && t.fence.running.value.id in t.work && t.work[t.fence.running.value.id].Done?
    case OtherTabs(_) => true
  }

  function Changed(t: Tab, disk: Disk, writer: Writer): Tab {
    t.(disk := disk,
       rowWriter := Written(t.disk.rows, disk.rows, t.rowWriter, writer),
       localWriter := Written(t.disk.local, disk.local, t.localWriter, writer))
  }

  function Step(b: Browser, t: Tab, a: Action): Tab
    requires Enabled(t, a)
  {
    match a
    case Queue(generation, task) =>
      t.(fence := Fence.Enqueued(t.fence, generation, Fence.Work), work := t.work[t.fence.enqueued := task])
    case Teardown =>
      var invalidated := Fence.Invalidated(t.fence);
      t.(fence := Fence.Enqueued(invalidated, invalidated.generation, Fence.Clear),
         work := t.work[t.fence.enqueued := TeardownStart])
    case Start => t.(fence := Fence.Started(t.fence))
    case Turn(tick) =>
      var op := t.fence.running.value;
      var (disk, next) := DraftStore.Turn(b, tick, t.disk, t.work[op.id]);
      Changed(t, disk, Own(op.generation)).(work := t.work[op.id := next])
    case Finish => t.(fence := Fence.Finished(t.fence))
    case OtherTabs(disk) => Changed(t, disk, Elsewhere)
  }

  ghost predicate IsRun(b: Browser, states: seq<Tab>, actions: seq<Action>) {
    && |states| == |actions| + 1
    && states[0].fence == Fence.Fence(0, [], None, 0) && states[0].work == map[]
    && states[0].rowWriter.Keys == states[0].disk.rows.Keys && states[0].localWriter.Keys == states[0].disk.local.Keys
    && forall i :: 0 <= i < |actions| ==>
      Enabled(states[i], actions[i]) && states[i + 1] == Step(b, states[i], actions[i])
  }

  // ---- What is left of earlier work ----

  /** Written by another tab, or by this one under a ticket of generation g or later. */
  predicate Recent(w: Writer, g: nat) {
    w.Elsewhere? || w.generation >= g
  }

  ghost predicate RowsSince(t: Tab, g: nat) {
    t.rowWriter.Keys == t.disk.rows.Keys && forall k :: k in t.rowWriter ==> Recent(t.rowWriter[k], g)
  }

  /** The draft and barrier entries of localStorage. */
  ghost predicate EntriesSince(t: Tab, g: nat) {
    t.localWriter.Keys == t.disk.local.Keys && forall k :: k in t.localWriter && Swept(k) ==>
      Recent(t.localWriter[k], g)
  }

  /** The tab works under tickets of generation g or later from now on. */
  predicate TicketsSince(t: Tab, g: nat) {
    t.fence.generation >= g && (t.fence.running.Some? ==> t.fence.running.value.generation >= g)
  }

  ghost predicate Sane(t: Tab) {
    && t.rowWriter.Keys == t.disk.rows.Keys && t.localWriter.Keys == t.disk.local.Keys
    && (t.fence.running.Some? ==> t.fence.running.value.generation <= t.fence.generation)
  }

  lemma {:induction false} RunsStaySane(b: Browser, states: seq<Tab>, actions: seq<Action>, j: nat)
    requires IsRun(b, states, actions) && j <= |actions|
    ensures Sane(states[j])
  {
    hide DraftStore.Turn;
    if j > 0 {
      RunsStaySane(b, states, actions, j - 1);
      assert Enabled(states[j - 1], actions[j - 1]) && states[j - 1 + 1] == Step(b, states[j - 1], actions[j - 1]);
    }
  }

  /** Nothing from before generation g comes back, once its rows are gone and its tickets are out of date. */
  lemma StepKeepsSince(b: Browser, t: Tab, a: Action, g: nat)
    requires Enabled(t, a) && TicketsSince(t, g)
    ensures TicketsSince(Step(b, t, a), g)
    ensures RowsSince(t, g) ==> RowsSince(Step(b, t, a), g)
    ensures EntriesSince(t, g) ==> EntriesSince(Step(b, t, a), g)
  {
    hide DraftStore.Turn, Swept;
  }

  lemma {:induction false} RunKeepsSince(b: Browser, states: seq<Tab>, actions: seq<Action>, i: nat, j: nat, g: nat)
    requires IsRun(b, states, actions) && i <= j <= |actions| && TicketsSince(states[i], g)
    ensures TicketsSince(states[j], g)
    ensures RowsSince(states[i], g) ==> RowsSince(states[j], g)
    ensures EntriesSince(states[i], g) ==> EntriesSince(states[j], g)
    decreases j
  {
    hide Step, Enabled, TicketsSince, RowsSince, EntriesSince;
    if i < j {
      RunKeepsSince(b, states, actions, i, j - 1, g);
      assert Enabled(states[j - 1], actions[j - 1]) && states[j - 1 + 1] == Step(b, states[j - 1], actions[j - 1]);
      StepKeepsSince(b, states[j - 1], actions[j - 1], g);
    }
  }

  /** The step is one turn of the operation, whose task is at this point. */
  predicate TurnsAt(t: Tab, a: Action, op: Fence.Operation, task: Task) {
    a.Turn? && t.fence.running == Some(op) && op.id in t.work && t.work[op.id] == task
  }

  lemma ClearedRows(b: Browser, t: Tab, a: Action, op: Fence.Operation)
    requires Sane(t) && Enabled(t, a) && TurnsAt(t, a, op, TeardownStart) && a.tick.commits
    ensures TicketsSince(Step(b, t, a), op.generation) && RowsSince(Step(b, t, a), op.generation)
  {
    assert DraftStore.Turn(b, a.tick, t.disk, TeardownStart).0.rows == map[];
    hide DraftStore.Turn;
  }

  lemma SweptEntries(b: Browser, t: Tab, a: Action, op: Fence.Operation)
    requires Sane(t) && Enabled(t, a) && TurnsAt(t, a, op, TeardownSweep)
    ensures TicketsSince(Step(b, t, a), op.generation) && EntriesSince(Step(b, t, a), op.generation)
  {
    assert DraftStore.Turn(b, a.tick, t.disk, TeardownSweep).0.local == Sweep(t.disk.local);
    hide DraftStore.Turn, Swept;
  }

  /**
   * Session teardown over the real storage. Let step n be a teardown and `op` the clear it enqueued. Once
   * the clear has emptied IndexedDB at step i and swept localStorage at step s, then at every later point
   * every row, and every draft or barrier entry, was written by another tab, or by this one under a
   * ticket newer than the teardown, whatever was queued, in flight or interleaved.
   */
  lemma TeardownLeavesOnlyNewWork(b: Browser, states: seq<Tab>, actions: seq<Action>, n: nat, i: nat, s: nat, j: nat,
                                  op: Fence.Operation)
    requires IsRun(b, states, actions) && n < i < s < j <= |actions| && actions[n] == Teardown
    requires op == Fence.Operation(states[n].fence.enqueued, states[n].fence.generation + 1, Fence.Clear)
    requires TurnsAt(states[i], actions[i], op, TeardownStart) && TurnsAt(states[s], actions[s], op, TeardownSweep)
    ensures forall k :: k in states[j].disk.local && (DRAFT_PREFIX <= k || BARRIER_PREFIX <= k) ==>
      k in states[j].localWriter && Recent(states[j].localWriter[k], states[n].fence.generation + 1)
    ensures actions[i].tick.commits ==> forall k :: k in states[j].disk.rows ==>
      k in states[j].rowWriter && Recent(states[j].rowWriter[k], states[n].fence.generation + 1)
    ensures states[j].fence.running.Some? ==> states[j].fence.running.value.generation > states[n].fence.generation
  {
    assert forall k :: DRAFT_PREFIX <= k || BARRIER_PREFIX <= k ==> Swept(k);
    hide Step, Enabled, Swept;
    assert Enabled(states[i], actions[i]) && states[i + 1] == Step(b, states[i], actions[i]);
    assert Enabled(states[s], actions[s]) && states[s + 1] == Step(b, states[s], actions[s]);
    RunsStaySane(b, states, actions, i);
    RunsStaySane(b, states, actions, s);
    SweptEntries(b, states[s], actions[s], op);
    RunKeepsSince(b, states, actions, s + 1, j, op.generation);
    if actions[i].tick.commits {
      ClearedRows(b, states[i], actions[i], op);
      RunKeepsSince(b, states, actions, i + 1, j, op.generation);
    }
  }

  /** Right after the sweep no draft or barrier entry is left at all, not even another tab's. */
  lemma SweepLeavesNothing(b: Browser, t: Tab, a: Action, op: Fence.Operation)
    requires Enabled(t, a) && TurnsAt(t, a, op, TeardownSweep)
    ensures forall k :: k in Step(b, t, a).disk.local ==>
      && !(DRAFT_PREFIX <= k) && !(BARRIER_PREFIX <= k)
      && k in t.disk.local && Step(b, t, a).disk.local[k] == t.disk.local[k]
    ensures forall k :: k in t.disk.local && !(DRAFT_PREFIX <= k) && !(BARRIER_PREFIX <= k) ==>
      k in Step(b, t, a).disk.local
  {
    assert DraftStore.Turn(b, a.tick, t.disk, TeardownSweep).0.local == Sweep(t.disk.local);
    hide DraftStore.Turn, Swept;
  }
}
