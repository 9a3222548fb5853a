/**
 * What a listing leaves behind and whom it serves, and what other tabs' listings and reads may do to a
 * draft that was stored in the meantime.
 */
module DraftListings {
  import opened Foundations
  import opened ReceiptFence
  import opened AttendanceDrafts
  import opened DraftStore
  import opened DraftBarriers
  import opened DraftRows
  import opened DraftReads
  import opened DraftWrites
  import opened DraftOperations

  // ---- Whose drafts are listed ----

  /** The beginning of every draft key of one person at one school. */
  function ScopePrefix(tenantId: string, userId: string): string {
    DRAFT_PREFIX + tenantId + ":" + userId + ":"
  }

  lemma ListingBegins(b: Browser, tick: Tick, disk: Disk, tenantId: string, userId: string)
    ensures Turn(b, tick, disk, ListStart(tenantId, userId)) == (disk,
      if Blank(tenantId) || Blank(userId) then Done(Listed(map[]))
      else if !tick.commits then Done(Failed)
      else ListGot(ScopePrefix(tenantId, userId), disk.rows))
  {
    hide Blank, ScanBarriers;
  }

  /** No key is listed for two persons: with ids free of colons the scopes do not overlap. */
  lemma ScopesDoNotOverlap(tenant1: string, user1: string, tenant2: string, user2: string, key: string)
    requires ':' !in tenant1 && ':' !in tenant2 && ':' !in user1 && ':' !in user2
    requires ScopePrefix(tenant1, user1) <= key && ScopePrefix(tenant2, user2) <= key
    ensures tenant1 == tenant2 && user1 == user2
  {
    var p1, p2 := ScopePrefix(tenant1, user1), ScopePrefix(tenant2, user2);
    var rest := key[|DRAFT_PREFIX|..];
    var x, y := key[|p1|..], key[|p2|..];
    assert key == p1 + x && key == p2 + y;
    assert rest == tenant1 + ":" + (user1 + ":" + x);
    assert rest == tenant2 + ":" + (user2 + ":" + y);
    FirstPart(tenant1, user1 + ":" + x, tenant2, user2 + ":" + y, ':');
    FirstPart(user1, x, user2, y, ':');
  }

  // ---- What a listing throws away ----

  /** The rows a listing marks: invalid or expired, and not protected by a receipt. */
  lemma ListingMarks(b: Browser, tick: Tick, disk: Disk, prefix: string, listed: Rows, k: string)
    ensures var (disk', next) := Turn(b, tick, disk, ListGot(prefix, listed));
      && next.ListDiscard? && disk'.rows == disk.rows
      && (k in next.todo <==> k in listed && !Stays(b, tick.now, k, listed[k]))
  {
    hide IsProtected, Invalid, Expired, ScanBarriers, BarrierOf;
  }

  predicate AllCommit(ticks: seq<Tick>) {
    forall i :: 0 <= i < |ticks| ==> ticks[i].commits
  }

  /** Left alone, a listing that ends has deleted every marked row that no receipt protects, and no other. */
  lemma {:induction false} DiscardsAlone(b: Browser, ticks: seq<Tick>, disk: Disk, todo: set<string>, visible: Rows,
                                         k: string)
    requires AllCommit(ticks)
    ensures var (after, end) := Alone(b, ticks, disk, ListDiscard(todo, visible));
      && (end.Done? ==>
            && end == Done(Listed(visible))
            && LiveDraft(after.rows, k) ==
               if k in todo && k in disk.rows && !IsProtected(disk.rows[k]) then None else LiveDraft(disk.rows, k))
      && after.local == disk.local
    decreases |ticks|
  {
    hide Turn, IsProtected;
    if ticks != [] {
      var (next, task) := Turn(b, ticks[0], disk, ListDiscard(todo, visible));
      if ticks[0].pick in todo {
        DiscardRemovesRow(b, ticks[0], disk, ListDiscard(todo, visible), k);
        DiscardRemovesRow(b, ticks[0], disk, ListDiscard(todo, visible), ticks[0].pick);
        DiscardsAlone(b, ticks[1..], next, todo - {ticks[0].pick}, visible, k);
      } else {
        IdleDiscard(b, ticks[0], disk, todo, visible);
        if todo == {} {
          AloneDone(b, ticks[1..], disk, Listed(visible));
        } else {
          DiscardsAlone(b, ticks[1..], disk, todo, visible, k);
        }
      }
    }
  }

  lemma IdleDiscard(b: Browser, tick: Tick, disk: Disk, todo: set<string>, visible: Rows)
    requires tick.pick !in todo
    ensures Turn(b, tick, disk, ListDiscard(todo, visible)) ==
      (disk, if todo == {} then Done(Listed(visible)) else ListDiscard(todo, visible))
  {
    hide IsProtected;
  }

  /**
   * A listing with nothing in between leaves exactly the rows that are protected, or valid and recent, each as
   * it was: whatever else was stored is gone when it ends.
   */
  lemma ListingLeavesExactly(b: Browser, ticks: seq<Tick>, disk: Disk, tenantId: string, userId: string, k: string)
    requires |ticks| >= 2 && AllCommit(ticks) && !Blank(tenantId) && !Blank(userId)
    ensures var (after, end) := Alone(b, ticks, disk, ListStart(tenantId, userId));
      end.Done? ==>
        && end.result.Listed?
        && LiveDraft(after.rows, k) ==
           if k in disk.rows && Stays(b, ticks[1].now, k, disk.rows[k]) then LiveDraft(disk.rows, k) else None
  {
    hide Turn, Alone, Stays, Blank;
    ListingBegins(b, ticks[0], disk, tenantId, userId);
    var got := ListGot(ScopePrefix(tenantId, userId), disk.rows);
    AloneTwo(b, ticks, disk, ListStart(tenantId, userId));
    var (marked, task) := Turn(b, ticks[1], disk, got);
    ListingMarks(b, ticks[1], disk, ScopePrefix(tenantId, userId), disk.rows, k);
    DiscardsAlone(b, ticks[2..], marked, task.todo, task.visible, k);
    if k in disk.rows && !Stays(b, ticks[1].now, k, disk.rows[k]) {
      MarkedIsUnprotected(b, ticks[1].now, k, disk.rows[k]);
    }
  }

  lemma MarkedIsUnprotected(b: Browser, now: int, k: string, d: Draft)
    requires !Stays(b, now, k, d)
    ensures !IsProtected(d)
  {
  }

  // ---- Drafts stored in the meantime ----

  /** The turn changes the row of `key`, by putting another draft or by deleting it. */
  predicate ChangesRow(b: Browser, tick: Tick, rows: Rows, task: Task, key: string)
    requires key in rows
  {
    var put := PutBy(b, tick, rows, task, key);
    if put.Some? then put.value != rows[key] else Removes(b, tick, rows, task, key)
  }

  predicate ChangesRowAt(b: Browser, s: System, a: Action, key: string) {
    a.Resume? && a.id in s.tasks && key in s.disk.rows
    && ChangesRow(b, a.tick, s.disk.rows, s.tasks[a.id], key)
  }

  lemma StepChangesRow(b: Browser, s: System, a: Action, key: string)
    requires Enabled(s, a) && key in s.disk.rows
    ensures SameRow(s.disk.rows, Step(b, s, a).disk.rows, key) <==> !ChangesRowAt(b, s, a, key)
  {
    hide Turn, PutBy, Removes;
    if a.Resume? { RowChangeIsExact(b, a.tick, s.disk, s.tasks[a.id], key); }
  }

  /** A stored draft stays in its row throughout exactly when no turn puts another one or deletes it. */
  lemma {:induction false} RowStaysExactly(b: Browser, states: seq<System>, actions: seq<Action>, i: nat, j: nat,
                                           key: string)
    requires IsRun(b, states, actions) && i <= j <= |actions| && key in states[i].disk.rows
    ensures (forall n :: i <= n <= j ==> SameRow(states[i].disk.rows, states[n].disk.rows, key)) <==>
      (forall n :: i <= n < j ==> !ChangesRowAt(b, states[n], actions[n], key))
    decreases j
  {
    hide Step, ChangesRowAt, Enabled;
    if i < j {
      RowStaysExactly(b, states, actions, i, j - 1, key);
      assert Enabled(states[j - 1], actions[j - 1]) && states[j - 1 + 1] == Step(b, states[j - 1], actions[j - 1]);
      if SameRow(states[i].disk.rows, states[j - 1].disk.rows, key) {
        StepChangesRow(b, states[j - 1], actions[j - 1], key);
      }
      if forall n :: i <= n <= j ==> SameRow(states[i].disk.rows, states[n].disk.rows, key) {
        assert SameRow(states[i].disk.rows, states[j - 1].disk.rows, key);
        assert SameRow(states[i].disk.rows, states[j].disk.rows, key);
        forall n | i <= n < j ensures !ChangesRowAt(b, states[n], actions[n], key) {}
      }
      if forall n :: i <= n < j ==> !ChangesRowAt(b, states[n], actions[n], key) {
        assert SameRow(states[i].disk.rows, states[j - 1].disk.rows, key);
        forall n | i <= n <= j ensures SameRow(states[i].disk.rows, states[n].disk.rows, key) {}
      }
    }
  }

  /**
   * A listing deletes by key what it marked earlier: if another tab stores a new editable draft between the
   * listing's look at the rows and its deletions, the listing deletes that draft, whose store had completed.
   */
  lemma ListingMayDropNewerDraft(b: Browser, tick: Tick, disk: Disk, prefix: string, key: string, d: Draft)
    requires tick.commits && tick.pick == key && key != ""
    requires key in disk.rows && !Stays(b, tick.now, key, disk.rows[key])
    requires !IsProtected(d) && WriteRow(b, tick.now, disk.rows, key, d, None).1 == Written
    ensures var (d1, listing) := Turn(b, tick, disk, ListGot(prefix, disk.rows));
      var (d2, store) := Turn(b, tick, d1, StoreWrite(key, d, None));
      var (d3, listing') := Turn(b, tick, d2, listing);
      && store == Done(Completed) && LiveDraft(d2.rows, key) == Some(d)
      && key !in d3.rows
  {
    hide Turn, WriteRow, Stays, IsProtected;
    var (d1, listing) := Turn(b, tick, disk, ListGot(prefix, disk.rows));
    ListingMarks(b, tick, disk, prefix, disk.rows, key);
    WriteIsExact(b, tick.now, disk.rows, key, d, None, key);
    CommittedStore(b, tick, d1, key, d);
    DiscardRemovesRow(b, tick, Turn(b, tick, d1, StoreWrite(key, d, None)).0, listing, key);
  }

  lemma CommittedStore(b: Browser, tick: Tick, disk: Disk, key: string, d: Draft)
    requires tick.commits && WriteRow(b, tick.now, disk.rows, key, d, None).1 == Written
    ensures Turn(b, tick, disk, StoreWrite(key, d, None)) ==
      (disk.(rows := WriteRow(b, tick.now, disk.rows, key, d, None).0), Done(Completed))
  {
    hide WriteRow, WithinStoragePolicy, DecideWrite, MayPersistBarrier, BarrierOf, AfterBarrierRead;
  }

  /**
   * What is stored is found: once a store's transaction of the key completed at step i, a read that looks for
   * its row at any later step j finds that very draft, up to the first turn that changes the row.
   */
  lemma StoredDraftIsFound(b: Browser, states: seq<System>, actions: seq<Action>, i: nat, j: nat, key: string, d: Draft,
                           outcome: Option<Outcome>)
    requires IsRun(b, states, actions) && i < j < |actions|
    requires Resumes(states[i], actions[i], StoreWrite(key, d, outcome))
    requires states[i + 1].tasks[actions[i].id] == Done(Completed)
    requires forall n :: i < n < j ==> !ChangesRowAt(b, states[n], actions[n], key)
    ensures LiveDraft(states[j].disk.rows, key) == Some(d)
    ensures Resumes(states[j], actions[j], ReadGet(key)) ==>
      states[j + 1].tasks[actions[j].id] in {ReadGot(key, Some(d)), Done(Failed)}
  {
    hide Turn, ChangesRowAt;
    assert Enabled(states[i], actions[i]) && states[i + 1] == Step(b, states[i], actions[i]);
    assert Enabled(states[j], actions[j]) && states[j + 1] == Step(b, states[j], actions[j]);
    CompletedStore(b, actions[i].tick, states[i].disk, key, d, outcome);
    RowStaysExactly(b, states, actions, i + 1, j, key);
    assert SameRow(states[i + 1].disk.rows, states[j].disk.rows, key);
    if Resumes(states[j], actions[j], ReadGet(key)) { ReadLooksUpRow(b, actions[j].tick, states[j].disk, key); }
  }

  lemma CompletedStore(b: Browser, tick: Tick, disk: Disk, key: string, d: Draft, outcome: Option<Outcome>)
    requires Turn(b, tick, disk, StoreWrite(key, d, outcome)).1 == Done(Completed)
    ensures LiveDraft(Turn(b, tick, disk, StoreWrite(key, d, outcome)).0.rows, key) == Some(d)
  {
    WriteIsExact(b, tick.now, disk.rows, key, d, outcome, key);
    hide WriteRow, WithinStoragePolicy, DecideWrite, MayPersistBarrier, BarrierOf, AfterBarrierRead;
  }
}
