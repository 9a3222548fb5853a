/**
 * The asynchronous session tasks of apps/web/components/session-provider.tsx. A task captures the
 * session generation when it begins; between its awaits every other task may run. One action below is
 * one synchronous stretch: the beginning of a task, the server's reply to it, or the end of the
 * cleanup it waits for.
 */
module SessionProvider {
  import opened Foundations
  import ReceiptFence

  datatype Session = Session(tenantId: string, userId: string, supportOverride: bool)

  datatype Status = Loading | Authenticated | OfflineLocked | VerificationFailed | Anonymous

  datatype Kind = Bootstrap | Revalidation | Refresh | Login | StorageSync | Logout | Teardown

  /** Where a task waits. A cleanup is followed by committing `next`, by a revalidation, or by nothing. */
  datatype Wait =
    | ForServer
    | ForCleanup(next: Session)
    | ForSyncCleanup
    | ForTeardownCleanup
    | Settled

  datatype Task = Task(kind: Kind, generation: nat, captured: Option<Session>, wait: Wait, cancelled: bool)

  /** A committed session: the task's captured session, and whether the task's cleanup had finished. */
  datatype Commit = Commit(generation: nat, captured: Option<Session>, next: Session, cleaned: bool,
                           supportConfirmed: bool)

  datatype State = State(
    generation: nat,
    session: Option<Session>,
    status: Status,
    stored: Option<Session>,
    revalidation: Option<nat>,
    tasks: map<nat, Task>,
    commits: seq<Commit>)

  /** What the server answered, with the status shown for an error that does not confirm a logout. */
  datatype Reply =
    | Profile(next: Session, supportConfirmed: bool)
    | Unauthorized
    | Unconfirmed(shown: Status)

  predicate IsBlankText(s: string) {
    forall i :: 0 <= i < |s| ==> ReceiptFence.IsBlankChar(s[i])
  }

  predicate HasIdentity(s: Session) {
    !IsBlankText(s.tenantId) && !IsBlankText(s.userId)
  }

  predicate SameIdentity(left: Option<Session>, right: Session) {
    && left.Some? && HasIdentity(left.value) && HasIdentity(right)
    && left.value.tenantId == right.tenantId && left.value.userId == right.userId
  }

  // ---- Synchronous stretches ----

  function Invalidated(s: State): State {
    s.(generation := s.generation + 1, revalidation := None)
  }

  function TornDown(s: State): State {
    Invalidated(s).(stored := None, session := None, status := Anonymous)
  }

  function Waiting(s: State, id: nat, wait: Wait): State
    requires id in s.tasks
  {
    s.(tasks := s.tasks[id := s.tasks[id].(wait := wait)])
  }

  function Committed(s: State, id: nat, next: Session, cleaned: bool, supportConfirmed: bool): State
    requires id in s.tasks
  {
    var t := s.tasks[id];
    Waiting(s, id, Settled).(
      stored := if supportConfirmed then s.stored else Some(next),
      session := Some(next),
      status := Authenticated,
      commits := s.commits + [Commit(t.generation, t.captured, next, cleaned, supportConfirmed)])
  }

  /** acceptAuthenticatedBrowserSession up to its first await, called with a current generation. */
  function Accepted(s: State, id: nat, next: Session, supportConfirmed: bool): State
    requires id in s.tasks
  {
    if next.supportOverride && !supportConfirmed then
      Waiting(s, id, Settled).(session := None, status := VerificationFailed)
    else if !SameIdentity(s.tasks[id].captured, next) && !supportConfirmed then
      Waiting(s, id, ForCleanup(next)).(session := None, status := Loading)
    else
      Committed(s, id, next, false, supportConfirmed)
  }

  /** revalidateSession up to its first await. */
  function RevalidationBegun(s: State, id: nat): State {
    if s.revalidation.Some? then s
    else if s.stored.None? then s.(session := None, status := Anonymous)
    else
      s.(tasks := s.tasks[id := Task(Revalidation, s.generation, s.stored, ForServer, false)],
         revalidation := Some(id))
  }

  /** The catch block shared by bootstrap, revalidation and refresh, once the generation is current. */
  function ErrorShown(s: State, id: nat, shown: Status): State
    requires id in s.tasks
  {
    Waiting(s, id, Settled).(session := s.tasks[id].captured, status := shown)
  }

  /** The generation fence: the task's captured generation is current and its component still mounted. */
  predicate MayAct(s: State, t: Task) {
    t.generation == s.generation && !t.cancelled
  }

  function Replied(s: State, id: nat, reply: Reply): State
    requires id in s.tasks
  {
    var t := s.tasks[id];
    if t.kind == Logout then Waiting(TornDown(s), id, ForTeardownCleanup)
    else if !MayAct(s, t) then Waiting(s, id, Settled)
    else
      match reply
      case Profile(next, supportConfirmed) => Accepted(s, id, next, supportConfirmed)
      case Unauthorized => Waiting(TornDown(s), id, ForTeardownCleanup)
      case Unconfirmed(shown) => ErrorShown(s, id, shown)
  }

  /** The cleanup a task waits for has ended, or has failed and thrown. */
  function CleanedUp(s: State, id: nat, ok: bool, shown: Status, followUp: nat): State
    requires id in s.tasks
  {
    var t := s.tasks[id];
    match t.wait
    case ForCleanup(next) =>
      if !MayAct(s, t) || (!ok && t.kind == Login) then Waiting(s, id, Settled)
      else if ok then Committed(s, id, next, true, false)
      else ErrorShown(s, id, shown)
    case ForSyncCleanup =>
      if !ok || !MayAct(s, t) then Waiting(s, id, Settled)
      else RevalidationBegun(Waiting(s, id, Settled), followUp)
    case _ => Waiting(s, id, Settled)
  }

  function Begun(s: State, id: nat, kind: Kind, captured: Option<Session>, wait: Wait): State {
    s.(tasks := s.tasks[id := Task(kind, s.generation, captured, wait, false)])
  }

  // ---- Actions ----

  datatype Action =
    | BeginBootstrap(id: nat)
    | BeginRevalidation(id: nat)
    | BeginRefresh(id: nat, supportActive: bool)
    | BeginLogin(id: nat, next: Session, supportConfirmed: bool)
    | BeginStorageSync(id: nat)
    | BeginLogout(id: nat)
    | BeginTeardown(id: nat)
    | ServerReplies(id: nat, reply: Reply)
    | CleanupEnds(id: nat, ok: bool, shown: Status, followUp: nat)
    | RevalidationSettles(id: nat)
    | Unmount(id: nat)
    | OtherTabStores(session: Option<Session>)

  predicate Begins(a: Action) {
    a.BeginBootstrap? || a.BeginRevalidation? || a.BeginRefresh? || a.BeginLogin? || a.BeginStorageSync?
    || a.BeginLogout? || a.BeginTeardown?
  }

  /** A support transition can be confirmed only from an existing session of the same user. */
  predicate Confirmable(captured: Option<Session>, next: Session) {
    next.supportOverride && captured.Some? && captured.value.userId == next.userId
  }

  predicate ShownFor(captured: Option<Session>, shown: Status) {
    shown == VerificationFailed || shown == OfflineLocked || (shown == Authenticated && captured.Some?)
  }

  ghost predicate Enabled(s: State, a: Action) {
    match a
    case BeginLogin(id, next, supportConfirmed) =>
      && id !in s.tasks
      && (supportConfirmed ==> Confirmable(if s.session.Some? then s.session else s.stored, next))
    case BeginStorageSync(id) =>
      id !in s.tasks && s.stored.Some? && HasIdentity(s.stored.value) && !SameIdentity(s.session, s.stored.value)
    case ServerReplies(id, reply) =>
      && id in s.tasks && s.tasks[id].wait == ForServer
      && (reply.Profile? && reply.supportConfirmed ==> Confirmable(s.tasks[id].captured, reply.next))
      && (reply.Unconfirmed? ==> ShownFor(s.tasks[id].captured, reply.shown))
    case CleanupEnds(id, _, shown, followUp) =>
      && id in s.tasks && followUp !in s.tasks
      && (s.tasks[id].wait.ForCleanup? || s.tasks[id].wait.ForSyncCleanup? || s.tasks[id].wait.ForTeardownCleanup?)
      && ShownFor(s.tasks[id].captured, shown)
    case RevalidationSettles(id) => id in s.tasks && s.tasks[id].wait == Settled
    case Unmount(id) => id in s.tasks && s.tasks[id].kind == Bootstrap
    case OtherTabStores(_) => true
    case _ => a.id !in s.tasks
  }

  function Step(s: State, a: Action): State
    requires Enabled(s, a)
  {
    match a
    case BeginBootstrap(id) =>
      if s.stored.Some? then Begun(s, id, Bootstrap, s.stored, ForServer).(session := s.stored, status := Loading)
      else Begun(s, id, Bootstrap, None, Settled).(session := None, status := Anonymous)
    case BeginRevalidation(id) => RevalidationBegun(s, id)
    case BeginRefresh(id, supportActive) =>
      if supportActive then RevalidationBegun(s, id)
      else
        var begun := Begun(Invalidated(s), id, Refresh, s.stored, ForServer);
        if s.stored.None? then begun.(status := Loading) else begun
    case BeginLogin(id, next, supportConfirmed) =>
      var captured := if s.session.Some? then s.session else s.stored;
      Accepted(Begun(Invalidated(s), id, Login, captured, Settled), id, next, supportConfirmed)
    case BeginStorageSync(id) =>
      Begun(Invalidated(s), id, StorageSync, None, ForSyncCleanup).(session := None, status := Loading)
    case BeginLogout(id) => Begun(Invalidated(s), id, Logout, None, ForServer)
    case BeginTeardown(id) => Begun(TornDown(s), id, Teardown, None, ForTeardownCleanup)
    case ServerReplies(id, reply) => Replied(s, id, reply)
    case CleanupEnds(id, ok, shown, followUp) => CleanedUp(s, id, ok, shown, followUp)
    case RevalidationSettles(id) => if s.revalidation == Some(id) then s.(revalidation := None) else s
    case Unmount(id) => s.(tasks := s.tasks[id := s.tasks[id].(cancelled := true)])
    case OtherTabStores(session) => s.(stored := session)
  }

  /** Stretches that tear the session down: the event itself, a logout's reply, or a confirmed failure. */
  predicate TearsDown(s: State, a: Action) {
    || a.BeginTeardown?
    || (a.ServerReplies? && a.id in s.tasks && s.tasks[a.id].kind == Logout)
    || (a.ServerReplies? && a.id in s.tasks && a.reply.Unauthorized? && MayAct(s, s.tasks[a.id]))
  }

  ghost predicate IsRun(states: seq<State>, actions: seq<Action>) {
    && |states| == |actions| + 1
    && (exists stored :: states[0] == State(0, None, Loading, stored, None, map[], []))
    && forall i :: 0 <= i < |actions| ==> Enabled(states[i], actions[i]) && states[i + 1] == Step(states[i], actions[i])
  }

  // ---- Invariants ----

  predicate CommitAllowed(c: Commit) {
    && (SameIdentity(c.captured, c.next) || c.cleaned || c.supportConfirmed)
    && (c.supportConfirmed ==> Confirmable(c.captured, c.next))
    && (c.next.supportOverride ==> c.supportConfirmed)
  }

  ghost predicate Invariant(s: State) {
    && (forall id :: id in s.tasks ==> s.tasks[id].generation <= s.generation)
    && (forall id :: id in s.tasks && s.tasks[id].wait.ForCleanup? ==> !s.tasks[id].wait.next.supportOverride)
    && (s.revalidation.Some? ==>
          && s.revalidation.value in s.tasks
          && s.tasks[s.revalidation.value].kind == Revalidation
          && s.tasks[s.revalidation.value].generation == s.generation)
    && (forall id :: id in s.tasks && Unsettled(s.tasks[id]) && s.tasks[id].generation == s.generation ==>
          s.revalidation == Some(id))
    && (forall c :: c in s.commits ==> CommitAllowed(c))
  }

  predicate Unsettled(t: Task) {
    t.kind == Revalidation && t.wait != Settled
  }

  lemma WaitingKeepsInvariant(s: State, id: nat, wait: Wait)
    requires Invariant(s) && id in s.tasks
    requires wait.ForCleanup? ==> !wait.next.supportOverride
    requires Unsettled(s.tasks[id]) || wait == Settled || s.tasks[id].kind != Revalidation
    ensures Invariant(Waiting(s, id, wait))
  {
    hide CommitAllowed;
  }

  lemma InvalidationKeepsInvariant(s: State)
    requires Invariant(s)
    ensures Invariant(Invalidated(s)) && Invariant(TornDown(s))
  {
    hide CommitAllowed;
  }

  lemma BegunKeepsInvariant(s: State, id: nat, kind: Kind, captured: Option<Session>, wait: Wait)
    requires Invariant(s) && id !in s.tasks && kind != Revalidation && !wait.ForCleanup?
    ensures Invariant(Begun(s, id, kind, captured, wait))
  {
    hide CommitAllowed;
  }

  lemma RevalidationKeepsInvariant(s: State, id: nat)
    requires Invariant(s) && id !in s.tasks
    ensures Invariant(RevalidationBegun(s, id))
  {
    hide CommitAllowed;
  }

  lemma CommitKeepsInvariant(s: State, id: nat, next: Session, cleaned: bool, supportConfirmed: bool)
    requires Invariant(s) && id in s.tasks
    requires CommitAllowed(Commit(s.tasks[id].generation, s.tasks[id].captured, next, cleaned, supportConfirmed))
    ensures Invariant(Committed(s, id, next, cleaned, supportConfirmed))
  {
    hide CommitAllowed;
    WaitingKeepsInvariant(s, id, Settled);
  }

  lemma AcceptKeepsInvariant(s: State, id: nat, next: Session, supportConfirmed: bool)
    requires Invariant(s) && id in s.tasks
    requires supportConfirmed ==> Confirmable(s.tasks[id].captured, next)
    requires Unsettled(s.tasks[id]) || s.tasks[id].kind != Revalidation
    ensures Invariant(Accepted(s, id, next, supportConfirmed))
  {
    hide Committed;
    if next.supportOverride && !supportConfirmed {
      WaitingKeepsInvariant(s, id, Settled);
    } else if !SameIdentity(s.tasks[id].captured, next) && !supportConfirmed {
      WaitingKeepsInvariant(s, id, ForCleanup(next));
    } else {
      CommitKeepsInvariant(s, id, next, false, supportConfirmed);
    }
  }

  lemma ReplyKeepsInvariant(s: State, id: nat, reply: Reply)
    requires Invariant(s) && Enabled(s, ServerReplies(id, reply))
    ensures Invariant(Replied(s, id, reply))
  {
    hide Accepted, CommitAllowed, SameIdentity;
    InvalidationKeepsInvariant(s);
    WaitingKeepsInvariant(s, id, Settled);
    WaitingKeepsInvariant(TornDown(s), id, ForTeardownCleanup);
    if reply.Profile? {
      AcceptKeepsInvariant(s, id, reply.next, reply.supportConfirmed);
    }
  }

  lemma CleanupKeepsInvariant(s: State, id: nat, ok: bool, shown: Status, followUp: nat)
    requires Invariant(s) && Enabled(s, CleanupEnds(id, ok, shown, followUp))
    ensures Invariant(CleanedUp(s, id, ok, shown, followUp))
  {
    WaitingKeepsInvariant(s, id, Settled);
    RevalidationKeepsInvariant(Waiting(s, id, Settled), followUp);
    match s.tasks[id].wait {
      case ForCleanup(next) => CommitKeepsInvariant(s, id, next, true, false);
      case _ =>
    }
    hide Committed, RevalidationBegun, CommitAllowed, SameIdentity;
  }

  /** Every action keeps the invariant. */
  lemma StepKeepsInvariant(s: State, a: Action)
    requires Invariant(s) && Enabled(s, a)
    ensures Invariant(Step(s, a))
  {
    hide Invariant, Accepted, Replied, CleanedUp, RevalidationBegun, Begun, CommitAllowed, SameIdentity;
    match a {
      case BeginBootstrap(id) => BeginningsKeepInvariant(s, a, id);
      case BeginRevalidation(id) => RevalidationKeepsInvariant(s, id);
      case BeginRefresh(id, _) => BeginningsKeepInvariant(s, a, id);
      case BeginLogin(id, _, _) => BeginningsKeepInvariant(s, a, id);
      case BeginStorageSync(id) => BeginningsKeepInvariant(s, a, id);
      case BeginLogout(id) => BeginningsKeepInvariant(s, a, id);
      case BeginTeardown(id) => BeginningsKeepInvariant(s, a, id);
      case ServerReplies(id, reply) => ReplyKeepsInvariant(s, id, reply);
      case CleanupEnds(id, ok, shown, followUp) => CleanupKeepsInvariant(s, id, ok, shown, followUp);
      case _ => RemainingKeepInvariant(s, a);
    }
  }

  lemma BeginningsKeepInvariant(s: State, a: Action, id: nat)
    requires Invariant(s) && Enabled(s, a) && Begins(a) && a.id == id && !a.BeginRevalidation?
    ensures Invariant(Step(s, a))
  {
    hide Accepted, SameIdentity, CommitAllowed;
    InvalidationKeepsInvariant(s);
    match a {
      case BeginBootstrap(_) =>
        BegunKeepsInvariant(s, id, Bootstrap, s.stored, ForServer);
        BegunKeepsInvariant(s, id, Bootstrap, None, Settled);
      case BeginRefresh(_, _) =>
        RevalidationKeepsInvariant(s, id);
        BegunKeepsInvariant(Invalidated(s), id, Refresh, s.stored, ForServer);
      case BeginLogin(_, next, supportConfirmed) =>
        var captured := if s.session.Some? then s.session else s.stored;
        BegunKeepsInvariant(Invalidated(s), id, Login, captured, Settled);
        AcceptKeepsInvariant(Begun(Invalidated(s), id, Login, captured, Settled), id, next, supportConfirmed);
      case BeginStorageSync(_) => BegunKeepsInvariant(Invalidated(s), id, StorageSync, None, ForSyncCleanup);
      case BeginLogout(_) => BegunKeepsInvariant(Invalidated(s), id, Logout, None, ForServer);
      case BeginTeardown(_) => BegunKeepsInvariant(TornDown(s), id, Teardown, None, ForTeardownCleanup);
    }
  }

  lemma RemainingKeepInvariant(s: State, a: Action)
    requires Invariant(s) && Enabled(s, a)
    requires a.RevalidationSettles? || a.Unmount? || a.OtherTabStores?
    ensures Invariant(Step(s, a))
  {
    hide CommitAllowed;
  }

  lemma {:induction false} RunsKeepInvariant(states: seq<State>, actions: seq<Action>, j: nat)
    requires IsRun(states, actions) && j <= |actions|
    ensures Invariant(states[j])
  {
    if j > 0 {
      RunsKeepInvariant(states, actions, j - 1);
      assert Enabled(states[j - 1], actions[j - 1]) && states[j - 1 + 1] == Step(states[j - 1], actions[j - 1]);
      StepKeepsInvariant(states[j - 1], actions[j - 1]);
    }
  }

  // ---- Theorems ----

  /**
   * A task's reply or cleanup, once the session work it belongs to was invalidated or its component is gone,
   * leaves everything but its own wait untouched.
   */
  lemma StaleWorkIsInert(s: State, a: Action)
    requires Enabled(s, a) && (a.ServerReplies? || a.CleanupEnds?)
    requires (s.tasks[a.id].generation != s.generation || s.tasks[a.id].cancelled) && s.tasks[a.id].kind != Logout
    ensures Step(s, a) == Waiting(s, a.id, Settled)
  {
  }

  /** At any point of any run, at most one unsettled revalidation holds the current generation. */
  lemma OneCurrentRevalidation(states: seq<State>, actions: seq<Action>, j: nat, id1: nat, id2: nat)
    requires IsRun(states, actions) && j <= |actions|
    requires id1 in states[j].tasks && Unsettled(states[j].tasks[id1]) &&
      states[j].tasks[id1].generation == states[j].generation
    requires id2 in states[j].tasks && Unsettled(states[j].tasks[id2]) &&
      states[j].tasks[id2].generation == states[j].generation
    ensures id1 == id2
  {
    RunsKeepInvariant(states, actions, j);
  }

  /**
   * Every session ever committed is the identity its task had captured, or a confirmed support
   * transition of the same user, or was committed after that task's own cleanup had finished.
   */
  lemma CommitsFollowCleanup(states: seq<State>, actions: seq<Action>, j: nat, n: nat)
    requires IsRun(states, actions) && j <= |actions| && n < |states[j].commits|
    ensures CommitAllowed(states[j].commits[n])
    ensures var c := states[j].commits[n];
      !c.cleaned && !c.supportConfirmed ==>
        && c.captured.Some? && c.captured.value.tenantId == c.next.tenantId && c.captured.value.userId == c.next.userId
        && !IsBlankText(c.next.tenantId) && !IsBlankText(c.next.userId)
  {
    RunsKeepInvariant(states, actions, j);
    assert states[j].commits[n] in states[j].commits;
  }

  /** Nobody is signed in, and no task that could change that holds the current generation. */
  ghost predicate Fenced(s: State) {
    && s.session == None && s.status == Anonymous
    && forall id :: id in s.tasks ==>
         s.tasks[id].generation < s.generation || s.tasks[id].wait in {ForTeardownCleanup, Settled}
  }

  lemma TeardownFences(s: State, a: Action)
    requires Invariant(s) && Enabled(s, a) && TearsDown(s, a)
    ensures Fenced(Step(s, a)) && SignedOut(Step(s, a))
  {
  }

  lemma FenceHolds(s: State, a: Action)
    requires Fenced(s) && Enabled(s, a) && !Begins(a)
    ensures Fenced(Step(s, a))
    ensures !a.OtherTabStores? ==> Step(s, a).stored in {s.stored, None}
  {
  }

  /** Nobody is signed in or stored, and no task is on its way to sign anybody in. */
  ghost predicate SignedOut(s: State) {
    && s.session == None && s.status == Anonymous && s.stored == None
    && forall id :: id in s.tasks ==>
         || s.tasks[id].generation < s.generation || s.tasks[id].wait in {ForTeardownCleanup, Settled}
         || (s.tasks[id].kind == Logout && s.tasks[id].wait == ForServer)
  }

  /** Another tab stores a session, or a login or a refresh outside support begins. */
  predicate MaySignIn(a: Action) {
    (a.OtherTabStores? && a.session.Some?) || a.BeginLogin? || (a.BeginRefresh? && !a.supportActive)
  }

  /** Bootstraps, revalidations, logouts, replies and cleanups show nobody as long as no session is stored. */
  lemma SignedOutHolds(s: State, a: Action)
    requires SignedOut(s) && Enabled(s, a) && !MaySignIn(a)
    ensures SignedOut(Step(s, a))
  {
    hide SameIdentity, HasIdentity;
  }

  /** The commits made since step i, all by tasks begun at or after the generation of step i. */
  ghost predicate CommitsAreLater(first: State, later: State) {
    && first.generation <= later.generation
    && |first.commits| <= |later.commits|
    && forall n :: |first.commits| <= n < |later.commits| ==> later.commits[n].generation >= first.generation
  }

  lemma StepCommitsCurrent(s: State, a: Action)
    requires Enabled(s, a)
    ensures s.generation <= Step(s, a).generation
    ensures Step(s, a).commits == s.commits
      || (|Step(s, a).commits| == |s.commits| + 1 && s.commits <= Step(s, a).commits
          && Step(s, a).commits[|s.commits|].generation == Step(s, a).generation)
  {
  }

  lemma {:induction false} LaterCommitsAreCurrent(states: seq<State>, actions: seq<Action>, i: nat, j: nat)
    requires IsRun(states, actions) && i <= j <= |actions|
    ensures CommitsAreLater(states[i], states[j])
    decreases j
  {
    hide Step, Enabled;
    if i < j {
      LaterCommitsAreCurrent(states, actions, i, j - 1);
      var s, a := states[j - 1], actions[j - 1];
      assert Enabled(s, a) && states[j - 1 + 1] == Step(s, a);
      StepCommitsCurrent(s, a);
    }
  }

  /**
   * After a teardown the tab stays signed out through any interleaving of replies, cleanups and other
   * tabs' writes, until a task begins; and no session committed afterwards comes from a task begun
   * before the teardown.
   */
  lemma {:induction false} TeardownIsFinal(states: seq<State>, actions: seq<Action>, i: nat, j: nat)
    requires IsRun(states, actions) && i < j <= |actions|
    requires TearsDown(states[i], actions[i])
    ensures (forall n :: i < n < j ==> !Begins(actions[n])) ==>
      states[j].session == None && states[j].status == Anonymous
    ensures (forall n :: i < n < j ==> !Begins(actions[n]) && !actions[n].OtherTabStores?) ==> states[j].stored == None
    ensures forall n :: |states[i + 1].commits| <= n < |states[j].commits| ==>
      states[j].commits[n].generation > states[i].generation
    ensures forall id :: id in states[i].tasks ==> states[i].tasks[id].generation <= states[i].generation
  {
    RunsKeepInvariant(states, actions, i);
    LaterCommitsAreCurrent(states, actions, i + 1, j);
    assert Enabled(states[i], actions[i]) && states[i + 1] == Step(states[i], actions[i]);
    if forall n :: i < n < j ==> !Begins(actions[n]) {
      FencedUntil(states, actions, i, j);
    }
    if forall n :: i < n < j ==> !Begins(actions[n]) && !actions[n].OtherTabStores? {
      forall n | i < n < j ensures !MaySignIn(actions[n]) {
        assert !Begins(actions[n]) && !actions[n].OtherTabStores?;
      }
      SignedOutUntil(states, actions, i, j);
    }
  }

  /**
   * Signed out for good: after a teardown no session is stored or shown at any later point of the run,
   * whatever else happens, bootstraps and revalidations included, until another tab stores a session or a
   * login or refresh begins.
   */
  lemma {:induction false} SignedOutUntil(states: seq<State>, actions: seq<Action>, i: nat, j: nat)
    requires IsRun(states, actions) && i < j <= |actions|
    requires TearsDown(states[i], actions[i])
    requires forall n :: i < n < j ==> !MaySignIn(actions[n])
    ensures states[j].stored == None && states[j].session == None && states[j].status == Anonymous
    ensures SignedOut(states[j])
    decreases j
  {
    hide Step, Enabled, TearsDown;
    assert Enabled(states[j - 1], actions[j - 1]) && states[j - 1 + 1] == Step(states[j - 1], actions[j - 1]);
    if j == i + 1 {
      RunsKeepInvariant(states, actions, i);
      TeardownFences(states[i], actions[i]);
    } else {
      SignedOutUntil(states, actions, i, j - 1);
      SignedOutHolds(states[j - 1], actions[j - 1]);
    }
  }

  lemma {:induction false} FencedUntil(states: seq<State>, actions: seq<Action>, i: nat, j: nat)
    requires IsRun(states, actions) && i < j <= |actions|
    requires TearsDown(states[i], actions[i])
    requires forall n :: i < n < j ==> !Begins(actions[n])
    ensures Fenced(states[j])
    decreases j
  {
    assert Enabled(states[j - 1], actions[j - 1]) && states[j - 1 + 1] == Step(states[j - 1], actions[j - 1]);
    if j == i + 1 {
      RunsKeepInvariant(states, actions, i);
      TeardownFences(states[i], actions[i]);
    } else {
      FencedUntil(states, actions, i, j - 1);
      FenceHolds(states[j - 1], actions[j - 1]);
    }
  }

  lemma FiveSteps(s: seq<State>, a: seq<Action>)
    requires |s| == 6 && |a| == 5 && exists stored :: s[0] == State(0, None, Loading, stored, None, map[], [])
    requires Enabled(s[0], a[0]) && s[1] == Step(s[0], a[0])
    requires Enabled(s[1], a[1]) && s[2] == Step(s[1], a[1])
    requires Enabled(s[2], a[2]) && s[3] == Step(s[2], a[2])
    requires Enabled(s[3], a[3]) && s[4] == Step(s[3], a[3])
    requires Enabled(s[4], a[4]) && s[5] == Step(s[4], a[4])
    ensures IsRun(s, a)
  {
    hide Step, Enabled;
  }

  /** The session the provider itself showed just before commit n, if that commit was the latest action. */
  predicate SwitchesIdentityUncleaned(before: State, after: State) {
    && before.session.Some? && after.session.Some?
    && !SameIdentity(before.session, after.session.value)
    && |after.commits| == |before.commits| + 1
    && !after.commits[|before.commits|].cleaned && !after.commits[|before.commits|].supportConfirmed
  }

  /**
   * The cleanup is decided against the session a task captured, not against the one on display: a
   * bootstrap that captured one user and a revalidation that captured another, both in the same
   * generation, commit one after the other with no cleanup between them.
   */
  lemma DisplayedIdentityCanChangeWithoutCleanup(a: Session, c: Session)
    returns (states: seq<State>, actions: seq<Action>)
    requires HasIdentity(a) && HasIdentity(c) && a.userId != c.userId && !a.supportOverride && !c.supportOverride
    ensures IsRun(states, actions) && |actions| == 5
    ensures SwitchesIdentityUncleaned(states[4], states[5])
  {
    hide Step, Enabled, SwitchesIdentityUncleaned, HasIdentity;
    var t0, t1 := Task(Bootstrap, 0, Some(a), ForServer, false), Task(Revalidation, 0, Some(c), ForServer, false);
    var s0 := State(0, None, Loading, Some(a), None, map[], []);
    var s1 := State(0, Some(a), Loading, Some(a), None, map[0 := t0], []);
    var s2 := s1.(stored := Some(c));
    var s3 := s2.(revalidation := Some(1), tasks := map[0 := t0, 1 := t1]);
    var s4 := s3.(stored := Some(a), status := Authenticated, tasks := map[0 := t0.(wait := Settled), 1 := t1],
                  commits := [Commit(0, Some(a), a, false, false)]);
    FirstStepsOfSwitch(a, c, s0, s1, s2, s3);
    LastStepsOfSwitch(a, c, s3, s4);
    var s5 := Step(s4, ServerReplies(1, Profile(c, false)));
    actions := [BeginBootstrap(0), OtherTabStores(Some(c)), BeginRevalidation(1),
                ServerReplies(0, Profile(a, false)), ServerReplies(1, Profile(c, false))];
    states := [s0, s1, s2, s3, s4, s5];
    FiveSteps(states, actions);
  }

  lemma LastStepsOfSwitch(a: Session, c: Session, s3: State, s4: State)
    requires HasIdentity(a) && HasIdentity(c) && a.userId != c.userId && !a.supportOverride && !c.supportOverride
    requires s3 == State(0, Some(a), Loading, Some(c), Some(1),
      map[0 := Task(Bootstrap, 0, Some(a), ForServer, false), 1 := Task(Revalidation, 0, Some(c), ForServer, false)],
      [])
    requires s4 ==
      s3.(stored := Some(a), status := Authenticated, tasks := s3.tasks[0 := s3.tasks[0].(wait := Settled)],
                       commits := [Commit(0, Some(a), a, false, false)])
    ensures Enabled(s3, ServerReplies(0, Profile(a, false))) && Step(s3, ServerReplies(0, Profile(a, false))) == s4
    ensures Enabled(s4, ServerReplies(1, Profile(c, false)))
    ensures SwitchesIdentityUncleaned(s4, Step(s4, ServerReplies(1, Profile(c, false))))
  {
    hide HasIdentity;
  }

  lemma FirstStepsOfSwitch(a: Session, c: Session, s0: State, s1: State, s2: State, s3: State)
    requires s0 == State(0, None, Loading, Some(a), None, map[], [])
    requires s1 == s0.(session := Some(a), tasks := map[0 := Task(Bootstrap, 0, Some(a), ForServer, false)])
    requires s2 == s1.(stored := Some(c))
    requires s3 ==
      s2.(revalidation := Some(1), tasks := s2.tasks[1 := Task(Revalidation, 0, Some(c), ForServer, false)])
    ensures Enabled(s0, BeginBootstrap(0)) && Step(s0, BeginBootstrap(0)) == s1
    ensures Enabled(s1, OtherTabStores(Some(c))) && Step(s1, OtherTabStores(Some(c))) == s2
    ensures Enabled(s2, BeginRevalidation(1)) && Step(s2, BeginRevalidation(1)) == s3
  {
  }
}
