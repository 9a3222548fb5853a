/**
 * apps/web/lib/attendance-draft-storage-fence.ts: a generation counter and a serial operation queue.
 * The class carries the fields; the step system adds the storage the queued operations write to, so
 * that session teardown (invalidate, then enqueue the clear) can be followed through whole runs.
 */
module StorageFence {
  import opened Foundations

  datatype Kind = Work | Clear

  /** A queued operation: its place in the enqueue order, and the generation of its ticket. */
  datatype Operation = Operation(id: nat, generation: nat, kind: Kind)

  datatype Fence = Fence(generation: nat, queue: seq<Operation>, running: Option<Operation>, enqueued: nat)

  predicate IsCurrent(f: Fence, generation: nat) {
    generation == f.generation
  }

  function Invalidated(f: Fence): Fence {
    f.(generation := f.generation + 1)
  }

  function Enqueued(f: Fence, generation: nat, kind: Kind): Fence {
    f.(queue := f.queue + [Operation(f.enqueued, generation, kind)], enqueued := f.enqueued + 1)
  }

  /** The promise chain reaches the head of the queue: it starts if its ticket is current, else it rejects. */
  function Started(f: Fence): Fence
    requires f.queue != [] && f.running.None?
  {
    f.(queue := f.queue[1..], running := if IsCurrent(f, f.queue[0].generation) then Some(f.queue[0]) else None)
  }

  function Finished(f: Fence): Fence
    requires f.running.Some?
  {
    f.(running := None)
  }

  class AttendanceDraftStorageFence {
    var generation: nat
    var queue: seq<Operation>
    var running: Option<Operation>
    var enqueued: nat

    ghost function State(): Fence
      reads this
    {
      Fence(generation, queue, running, enqueued)
    }

    constructor ()
      ensures State() == Fence(0, [], None, 0)
    {
      generation, queue, running, enqueued := 0, [], None, 0;
    }

    method CaptureTicket() returns (ticket: nat)
      ensures IsCurrent(State(), ticket)
    {
      ticket := generation;
    }

    /** A ticket captured before an invalidation is never current after it. */
    method Invalidate() returns (ticket: nat)
      modifies this
      ensures State() == Invalidated(old(State()))
      ensures IsCurrent(State(), ticket)
      ensures forall older: nat :: older <= old(generation) ==> !IsCurrent(State(), older)
    {
      generation := generation + 1;
      ticket := CaptureTicket();
    }

    method Run(ticket: nat, kind: Kind) returns (id: nat)
      modifies this
      ensures State() == Enqueued(old(State()), ticket, kind) && id == old(enqueued)
    {
      id := enqueued;
      queue := queue + [Operation(id, ticket, kind)];
      enqueued := enqueued + 1;
    }

    /** `started` tells whether the operation body runs; otherwise its promise rejects untouched. */
    method StartNext() returns (started: bool)
      requires queue != [] && running == None
      modifies this
      ensures State() == Started(old(State()))
      ensures started <==> old(queue)[0].generation == generation
      ensures started ==> running == Some(old(queue)[0])
    {
      var next := queue[0];
      queue := queue[1..];
      started := next.generation == generation;
      if started {
        running := Some(next);
      }
    }

    /** The caller gets the value only if the ticket is still current when the body ends. */
    method Finish() returns (delivered: bool)
      requires running.Some?
      modifies this
      ensures State() == Finished(old(State()))
      ensures delivered <==> old(running).value.generation == generation
    {
      delivered := running.value.generation == generation;
      running := None;
    }
  }

  // ---- Runs of one tab ----

  /**
   * `writer` tells, for every stored key, the generation of the ticket its last writer held;
   * `settled` lists the operations that started or were rejected, in that order.
   */
  datatype Tab = Tab(fence: Fence, writer: map<string, nat>, settled: seq<Operation>)

  datatype Action =
    | Queue(generation: nat)        // any operation, with a ticket captured now or earlier
    | Teardown                      // invalidate, and enqueue the clear with the new ticket
    | Start
    | Write(key: string)            // the running operation writes to storage
    | Wipe                          // the running clear empties storage
    | Finish

  ghost predicate Enabled(t: Tab, a: Action) {
    match a
    case Queue(generation) => generation <= t.fence.generation
    case Teardown => true
    case Start => t.fence.queue != [] && t.fence.running.None?
    case Write(_) => t.fence.running.Some? && t.fence.running.value.kind == Work
    case Wipe => t.fence.running.Some? && t.fence.running.value.kind == Clear
    case Finish => t.fence.running.Some?
  }

  function Step(t: Tab, a: Action): Tab
    requires Enabled(t, a)
  {
    match a
    case Queue(generation) => t.(fence := Enqueued(t.fence, generation, Work))
    case Teardown =>
      var invalidated := Invalidated(t.fence);
      t.(fence := Enqueued(invalidated, invalidated.generation, Clear))
    case Start => t.(fence := Started(t.fence), settled := t.settled + [t.fence.queue[0]])
    case Write(key) => t.(writer := t.writer[key := t.fence.running.value.generation])
    case Wipe => t.(writer := map[])
    case Finish => t.(fence := Finished(t.fence))
  }

  ghost predicate IsRun(states: seq<Tab>, actions: seq<Action>) {
    && |states| == |actions| + 1
    && states[0] == Tab(Fence(0, [], None, 0), map[], [])
    && forall i :: 0 <= i < |actions| ==> Enabled(states[i], actions[i]) && states[i + 1] == Step(states[i], actions[i])
  }

  /** Operations settle in enqueue order; whatever runs is the last settled; tickets are never from the future. */
  ghost predicate Orderly(t: Tab) {
    && |t.settled| + |t.fence.queue| == t.fence.enqueued
    && (forall i :: 0 <= i < |t.settled| ==> t.settled[i].id == i)
    && (forall i :: 0 <= i < |t.fence.queue| ==> t.fence.queue[i].id == |t.settled| + i)
    && (forall i :: 0 <= i < |t.fence.queue| ==> t.fence.queue[i].generation <= t.fence.generation)
    && (t.fence.running.Some? ==>
          t.settled != [] && t.settled[|t.settled| - 1] == t.fence.running.value
          && t.fence.running.value.generation <= t.fence.generation)
  }

  /**
   * One at a time and first in, first out: in every run the operations that have left the queue are
   * exactly the earliest enqueued, in that order, and a running one is the latest of them.
   */
  lemma {:induction false} OperationsAreSerial(states: seq<Tab>, actions: seq<Action>, j: nat)
    requires IsRun(states, actions) && j <= |actions|
    ensures Orderly(states[j])
  {
    if j > 0 {
      OperationsAreSerial(states, actions, j - 1);
      assert Enabled(states[j - 1], actions[j - 1]) && states[j - 1 + 1] == Step(states[j - 1], actions[j - 1]);
    }
  }

  lemma {:induction false} GenerationGrows(states: seq<Tab>, actions: seq<Action>, i: nat, j: nat)
    requires IsRun(states, actions) && i <= j <= |actions|
    ensures states[i].fence.generation <= states[j].fence.generation
    ensures |states[i].settled| <= |states[j].settled|
    ensures states[i].settled == states[j].settled[..|states[i].settled|]
    decreases j
  {
    if i < j {
      GenerationGrows(states, actions, i, j - 1);
      assert Enabled(states[j - 1], actions[j - 1]) && states[j - 1 + 1] == Step(states[j - 1], actions[j - 1]);
    }
  }

  /** The running operation either was in flight at step i, or holds a ticket at least as new as step i. */
  lemma {:induction false} LateStartsAreNew(states: seq<Tab>, actions: seq<Action>, i: nat, j: nat)
    requires IsRun(states, actions) && i <= j <= |actions|
    ensures states[j].fence.running.Some? ==>
      || (states[j].fence.running == states[i].fence.running && |states[j].settled| == |states[i].settled|)
      || (states[j].fence.running.value.generation >= states[i].fence.generation
          && |states[j].settled| > |states[i].settled|)
    decreases j
  {
    if i < j {
      LateStartsAreNew(states, actions, i, j - 1);
      GenerationGrows(states, actions, i, j - 1);
      assert Enabled(states[j - 1], actions[j - 1]) && states[j - 1 + 1] == Step(states[j - 1], actions[j - 1]);
    }
  }

  /**
   * Teardown fencing. Let step i be a teardown. At every later point, if its clear has left the queue,
   * an operation that holds an older ticket is not running: the one that may have been in flight at the
   * teardown has finished before the clear, and no other old one ever starts.
   */
  lemma NoOldWorkAfterClear(states: seq<Tab>, actions: seq<Action>, i: nat, j: nat)
    requires IsRun(states, actions) && i < j <= |actions|
    requires actions[i] == Teardown
    requires |states[j].settled| > states[i].fence.enqueued
    ensures states[j].settled[states[i].fence.enqueued].kind == Clear
    ensures states[j].fence.running.Some? ==> states[j].fence.running.value.generation > states[i].fence.generation
  {
    OperationsAreSerial(states, actions, i);
    OperationsAreSerial(states, actions, i + 1);
    LateStartsAreNew(states, actions, i + 1, j);
    assert Enabled(states[i], actions[i]) && states[i + 1] == Step(states[i], actions[i]);
    QueuedOperationSettles(states, actions, i + 1, j, states[i].fence.enqueued);
  }

  /** The operation enqueued as number `id` is the one that settles as number `id`. */
  lemma {:induction false} QueuedOperationSettles(states: seq<Tab>, actions: seq<Action>, i: nat, j: nat, id: nat)
    requires IsRun(states, actions) && i <= j <= |actions|
    requires |states[i].settled| <= id < states[i].fence.enqueued
    ensures Orderly(states[i])
    ensures var op := states[i].fence.queue[id - |states[i].settled|];
      if id < |states[j].settled| then states[j].settled[id] == op
      else id - |states[j].settled| < |states[j].fence.queue| && states[j].fence.queue[id - |states[j].settled|] == op
    decreases j
  {
    OperationsAreSerial(states, actions, i);
    if i < j {
      QueuedOperationSettles(states, actions, i, j - 1, id);
      OperationsAreSerial(states, actions, j - 1);
      assert Enabled(states[j - 1], actions[j - 1]) && states[j - 1 + 1] == Step(states[j - 1], actions[j - 1]);
    }
  }

  /**
   * What is left in storage. Once a clear has emptied it, everything stored at any later point was
   * written under a ticket at least as new as that clear's own.
   */
  lemma {:induction false} StorageBelongsToNewTickets(states: seq<Tab>, actions: seq<Action>, i: nat, j: nat)
    requires IsRun(states, actions) && i < j <= |actions|
    requires actions[i] == Wipe
    ensures states[i].fence.running.Some?
    ensures forall key :: key in states[j].writer ==> states[j].writer[key] >= states[i].fence.running.value.generation
    decreases j
  {
    assert Enabled(states[i], actions[i]) && states[i + 1] == Step(states[i], actions[i]);
    if i + 1 < j {
      StorageBelongsToNewTickets(states, actions, i, j - 1);
      OperationsAreSerial(states, actions, i);
      LateStartsAreNew(states, actions, i, j - 1);
      assert Enabled(states[j - 1], actions[j - 1]) && states[j - 1 + 1] == Step(states[j - 1], actions[j - 1]);
    }
  }
}
