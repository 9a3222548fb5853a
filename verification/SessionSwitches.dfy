/**
 * When the session provider shows one identity over what another has left in the browser. What a shown
 * session left stays until a cleanup that began after it has ended successfully; each way of showing
 * another identity over it is a condition on the state and on the action about to be taken.
 */
module SessionSwitches {
  import opened Foundations
  import opened SessionProvider

  /** Another identity than `shown` is on display. */
  predicate ShowsOther(shown: Option<Session>, after: State) {
    && shown.Some? && after.session.Some?
    && shown != after.session && !SameIdentity(shown, after.session.value)
  }

  predicate IsOther(shown: Option<Session>, next: Session) {
    shown.Some? && shown != Some(next) && !SameIdentity(shown, next)
  }

  /** The action lets a current task act on a server reply. */
  predicate ActsOnReply(s: State, a: Action) {
    a.ServerReplies? && a.id in s.tasks && s.tasks[a.id].kind != Logout && MayAct(s, s.tasks[a.id])
  }

  /** The action ends the cleanup a current task waited for before committing. */
  predicate EndsCleanup(s: State, a: Action) {
    a.CleanupEnds? && a.id in s.tasks && s.tasks[a.id].wait.ForCleanup? && MayAct(s, s.tasks[a.id])
  }

  function LoginCapture(s: State): Option<Session> {
    if s.session.Some? then s.session else s.stored
  }

  /** An ordinary commit whose task had captured the new identity already, so that no cleanup is asked for. */
  predicate CommitsUncleaned(s: State, a: Action, shown: Option<Session>) {
    || (ActsOnReply(s, a) && a.reply.Profile? && !a.reply.supportConfirmed && !a.reply.next.supportOverride
        && SameIdentity(s.tasks[a.id].captured, a.reply.next) && IsOther(shown, a.reply.next))
    || (a.BeginLogin? && !a.supportConfirmed && !a.next.supportOverride
        && SameIdentity(LoginCapture(s), a.next) && IsOther(shown, a.next))
  }

  /** A commit after a cleanup, over a session shown since that cleanup began. */
  predicate CommitsOvertaken(s: State, a: Action, shown: Option<Session>) {
    EndsCleanup(s, a) && a.ok && IsOther(shown, s.tasks[a.id].wait.next)
  }

  /** An unconfirmed error that puts the session its task had captured back on display. */
  predicate RestoresCaptured(s: State, a: Action, shown: Option<Session>) {
    && ((ActsOnReply(s, a) && a.reply.Unconfirmed?) || (EndsCleanup(s, a) && !a.ok && s.tasks[a.id].kind != Login))
    && s.tasks[a.id].captured.Some? && IsOther(shown, s.tasks[a.id].captured.value)
  }

  /** A bootstrap that shows the stored session while it is being verified. */
  predicate ShowsStored(s: State, a: Action, shown: Option<Session>) {
    a.BeginBootstrap? && s.stored.Some? && IsOther(shown, s.stored.value)
  }

  /** A confirmed support transition, which is meant to keep what the same user has in the browser. */
  predicate EntersSupport(s: State, a: Action, shown: Option<Session>) {
    || (ActsOnReply(s, a) && a.reply.Profile? && a.reply.supportConfirmed && IsOther(shown, a.reply.next))
    || (a.BeginLogin? && a.supportConfirmed && IsOther(shown, a.next))
  }

  predicate MustSwitch(s: State, a: Action, shown: Option<Session>) {
    || CommitsUncleaned(s, a, shown) || CommitsOvertaken(s, a, shown) || RestoresCaptured(s, a, shown)
    || ShowsStored(s, a, shown) || EntersSupport(s, a, shown)
  }

  /** Another identity than `shown` is on display already, and the stretch leaves it there. */
  predicate KeepsShowing(s: State, a: Action, shown: Option<Session>)
    requires Enabled(s, a)
  {
    ShowsOther(shown, s) && Step(s, a).session == s.session
  }

  /** The exact condition for one stretch, whatever session was shown before. */
  lemma SwitchIsExact(s: State, a: Action, shown: Option<Session>)
    requires Enabled(s, a)
    ensures ShowsOther(shown, Step(s, a)) <==> MustSwitch(s, a, shown) || KeepsShowing(s, a, shown)
  {
    hide SameIdentity, HasIdentity;
    match a {
      case ServerReplies(id, reply) => ReplySwitchIsExact(s, id, reply, shown);
      case CleanupEnds(id, ok, status, followUp) => CleanupSwitchIsExact(s, id, ok, status, followUp, shown);
      case _ =>
    }
  }

  lemma ReplySwitchIsExact(s: State, id: nat, reply: Reply, shown: Option<Session>)
    requires Enabled(s, ServerReplies(id, reply))
    ensures ShowsOther(shown, Replied(s, id, reply)) <==>
      MustSwitch(s, ServerReplies(id, reply), shown) || KeepsShowing(s, ServerReplies(id, reply), shown)
  {
    hide SameIdentity, HasIdentity;
  }

  lemma CleanupSwitchIsExact(s: State, id: nat, ok: bool, status: Status, followUp: nat, shown: Option<Session>)
    requires Enabled(s, CleanupEnds(id, ok, status, followUp))
    ensures var a := CleanupEnds(id, ok, status, followUp);
      ShowsOther(shown, CleanedUp(s, id, ok, status, followUp)) <==>
        MustSwitch(s, a, shown) || KeepsShowing(s, a, shown)
  {
    hide SameIdentity, HasIdentity;
  }

  /**
   * A commit without cleanup and without support over the session on display: exactly when the replying
   * task had captured the new identity.
   */
  lemma UncleanedCommitIsExact(s: State, a: Action)
    requires Enabled(s, a)
    ensures SwitchesIdentityUncleaned(s, Step(s, a)) <==>
      && ActsOnReply(s, a) && a.reply.Profile? && !a.reply.supportConfirmed && !a.reply.next.supportOverride
      && s.session.Some? && !SameIdentity(s.session, a.reply.next) && SameIdentity(s.tasks[a.id].captured, a.reply.next)
  {
    hide SameIdentity, HasIdentity;
  }

  // ---- Runs ----

  /** Stretches that start clearing the private browser state. */
  predicate BeginsCleanup(s: State, a: Action)
    requires Enabled(s, a)
  {
    || a.BeginStorageSync? || TearsDown(s, a)
    || ((Begins(a) || a.ServerReplies?) && a.id in Step(s, a).tasks && Step(s, a).tasks[a.id].wait.ForCleanup?)
  }

  function ActionId(a: Action): Option<nat> {
    if a.OtherTabStores? then None else Some(a.id)
  }

  ghost predicate BeginsAt(states: seq<State>, actions: seq<Action>, k: nat)
    requires IsRun(states, actions) && k < |actions|
  {
    assert Enabled(states[k], actions[k]);
    BeginsCleanup(states[k], actions[k])
  }

  /** Step e ends the cleanup that step k began. */
  predicate EndsAs(actions: seq<Action>, k: nat, e: nat, ok: bool) {
    k < e < |actions| && actions[e].CleanupEnds? && ActionId(actions[k]) == Some(actions[e].id) && actions[e].ok == ok
  }

  /** By step n inclusive the cleanup that step k began has ended, successfully or not. */
  ghost predicate EndedBy(actions: seq<Action>, k: nat, n: nat, ok: bool) {
    exists e: nat :: e <= n && EndsAs(actions, k, e, ok)
  }

  /**
   * What the session on display at point m left may still be in the browser at step n: no cleanup begun
   * at or after m has ended successfully by then.
   */
  ghost predicate MayBeLeft(states: seq<State>, actions: seq<Action>, m: nat, n: nat)
    requires IsRun(states, actions) && m <= n < |actions|
  {
    && states[m].session.Some?
    && forall k :: m <= k < n && BeginsAt(states, actions, k) ==> !EndedBy(actions, k, n, true)
  }

  lemma {:induction false} SettledStays(states: seq<State>, actions: seq<Action>, id: nat, i: nat, j: nat)
    requires IsRun(states, actions) && i <= j <= |actions|
    requires id in states[i].tasks && states[i].tasks[id].wait.Settled?
    ensures id in states[j].tasks && states[j].tasks[id].wait.Settled?
    decreases j
  {
    if i < j {
      SettledStays(states, actions, id, i, j - 1);
      var s, a := states[j - 1], actions[j - 1];
      assert Enabled(s, a) && states[j - 1 + 1] == Step(s, a);
      SettledStaysOnce(s, a, id);
      hide Step, Enabled;
    }
  }

  lemma SettledStaysOnce(s: State, a: Action, id: nat)
    requires Enabled(s, a) && id in s.tasks && s.tasks[id].wait.Settled?
    ensures id in Step(s, a).tasks && Step(s, a).tasks[id].wait.Settled?
  {
    hide SameIdentity, HasIdentity;
    if a.BeginLogin? {
      AcceptKeepsSettled(Begun(Invalidated(s), a.id, Login, LoginCapture(s), Settled), a.id, a.next,
        a.supportConfirmed, id);
      hide Accepted;
    } else if a.ServerReplies? {
      ReplyKeepsSettled(s, a.id, a.reply, id);
      hide Replied;
    } else {
      hide Accepted, Replied;
    }
  }

  lemma AcceptKeepsSettled(s: State, at: nat, next: Session, supportConfirmed: bool, id: nat)
    requires at in s.tasks && at != id && id in s.tasks && s.tasks[id].wait.Settled?
    ensures id in Accepted(s, at, next, supportConfirmed).tasks &&
      Accepted(s, at, next, supportConfirmed).tasks[id].wait.Settled?
  {
    hide SameIdentity;
  }

  lemma ReplyKeepsSettled(s: State, at: nat, reply: Reply, id: nat)
    requires at in s.tasks && at != id && id in s.tasks && s.tasks[id].wait.Settled?
    ensures id in Replied(s, at, reply).tasks && Replied(s, at, reply).tasks[id].wait.Settled?
  {
    hide Accepted;
    if reply.Profile? { AcceptKeepsSettled(s, at, reply.next, reply.supportConfirmed, id); }
  }

  /** A cleanup ends at most once, so it is exactly one of successful, failed and still in flight. */
  lemma CleanupEndsOnce(states: seq<State>, actions: seq<Action>, k: nat, n: nat)
    requires IsRun(states, actions) && k < |actions|
    ensures !(EndedBy(actions, k, n, true) && EndedBy(actions, k, n, false))
  {
    if EndedBy(actions, k, n, true) && EndedBy(actions, k, n, false) {
      var e: nat :| e <= n && EndsAs(actions, k, e, true);
      var f: nat :| f <= n && EndsAs(actions, k, f, false);
      if e < f { NoLaterEnd(states, actions, e, f); } else { NoLaterEnd(states, actions, f, e); }
    }
  }

  lemma NoLaterEnd(states: seq<State>, actions: seq<Action>, e: nat, f: nat)
    requires IsRun(states, actions) && e < f < |actions| && actions[e].CleanupEnds?
    ensures actions[f].CleanupEnds? ==> actions[f].id != actions[e].id
  {
    assert Enabled(states[e], actions[e]) && states[e + 1] == Step(states[e], actions[e]);
    assert Enabled(states[f], actions[f]);
    EndingSettles(states[e], actions[e]);
    SettledStays(states, actions, actions[e].id, e + 1, f);
  }

  lemma EndingSettles(s: State, a: Action)
    requires Enabled(s, a) && a.CleanupEnds?
    ensures a.id in Step(s, a).tasks && Step(s, a).tasks[a.id].wait.Settled?
  {
    hide SameIdentity;
  }

  /**
   * Why something is left: no cleanup has begun since it was shown, or every one that has begun has
   * failed or is still in flight.
   */
  lemma LeftForAReason(states: seq<State>, actions: seq<Action>, m: nat, n: nat)
    requires IsRun(states, actions) && m <= n < |actions| && states[m].session.Some?
    ensures MayBeLeft(states, actions, m, n) <==>
      forall k :: m <= k < n && BeginsAt(states, actions, k) ==>
        EndedBy(actions, k, n, false) || (!EndedBy(actions, k, n, false) && !EndedBy(actions, k, n, true))
  {
    hide BeginsAt, EndedBy;
    forall k | m <= k < n ensures !(EndedBy(actions, k, n, true) && EndedBy(actions, k, n, false)) {
      CleanupEndsOnce(states, actions, k, n);
    }
  }

  /** At every step of every run, for the session on display at any earlier point. */
  lemma RunSwitchIsExact(states: seq<State>, actions: seq<Action>, m: nat, n: nat)
    requires IsRun(states, actions) && m <= n < |actions|
    ensures ShowsOther(states[m].session, states[n + 1]) <==>
      || MustSwitch(states[n], actions[n], states[m].session)
      || (ShowsOther(states[m].session, states[n]) && states[n + 1].session == states[n].session)
  {
    assert Enabled(states[n], actions[n]) && states[n + 1] == Step(states[n], actions[n]);
    SwitchIsExact(states[n], actions[n], states[m].session);
    hide MustSwitch, Step, Enabled;
  }

  /** No step shows another identity over what an earlier one may have left. */
  ghost predicate StaysSeparate(states: seq<State>, actions: seq<Action>)
    requires IsRun(states, actions)
  {
    forall m, n :: 0 <= m <= n < |actions| && MayBeLeft(states, actions, m, n) ==>
      !ShowsOther(states[m].session, states[n + 1])
  }

  /** No step is of the five kinds for something that may be left. */
  ghost predicate NeverMustSwitch(states: seq<State>, actions: seq<Action>)
    requires IsRun(states, actions)
  {
    forall m, n :: 0 <= m <= n < |actions| && MayBeLeft(states, actions, m, n) ==>
      !MustSwitch(states[n], actions[n], states[m].session)
  }

  lemma {:induction false} NoSwitchNoOther(states: seq<State>, actions: seq<Action>, m: nat, n: nat)
    requires IsRun(states, actions) && NeverMustSwitch(states, actions)
    requires m <= n < |actions| && MayBeLeft(states, actions, m, n)
    ensures !ShowsOther(states[m].session, states[n + 1])
    decreases n
  {
    hide ShowsOther, MustSwitch, BeginsAt;
    RunSwitchIsExact(states, actions, m, n);
    if m < n {
      LeftEarlier(states, actions, m, n);
      NoSwitchNoOther(states, actions, m, n - 1);
    } else {
      NotOtherThanItself(states[m]);
    }
  }

  lemma NotOtherThanItself(s: State)
    ensures !ShowsOther(s.session, s)
  {
  }

  lemma LeftEarlier(states: seq<State>, actions: seq<Action>, m: nat, n: nat)
    requires IsRun(states, actions) && m < n < |actions| && MayBeLeft(states, actions, m, n)
    ensures MayBeLeft(states, actions, m, n - 1)
  {
    hide BeginsAt, EndsAs;
    forall k | m <= k < n - 1 && BeginsAt(states, actions, k) ensures !EndedBy(actions, k, n - 1, true) {
      assert !EndedBy(actions, k, n, true);
    }
  }

  /**
   * A run never shows one identity over what another may have left, be it because no cleanup began, or
   * because those that did have failed or are in flight, exactly when no step of it is of the five kinds.
   */
  lemma RunsStaySeparateExactly(states: seq<State>, actions: seq<Action>)
    requires IsRun(states, actions)
    ensures StaysSeparate(states, actions) <==> NeverMustSwitch(states, actions)
  {
    hide ShowsOther, MustSwitch, MayBeLeft;
    if StaysSeparate(states, actions) {
      forall m, n | 0 <= m <= n < |actions| && MayBeLeft(states, actions, m, n)
        ensures !MustSwitch(states[n], actions[n], states[m].session)
      {
        RunSwitchIsExact(states, actions, m, n);
      }
    }
    if NeverMustSwitch(states, actions) {
      forall m, n | 0 <= m <= n < |actions| && MayBeLeft(states, actions, m, n)
        ensures !ShowsOther(states[m].session, states[n + 1])
      {
        NoSwitchNoOther(states, actions, m, n);
      }
    }
  }

  // ---- A cleanup that ended well is no guarantee ----

  /** Between a point without a session and one with a session, some step put that session on display. */
  lemma {:induction false} PutOnDisplay(states: seq<State>, i: nat, m: nat) returns (p: nat)
    requires i < m < |states| && states[i].session.None? && states[m].session.Some?
    ensures i <= p < m && states[p].session != states[m].session && states[p + 1].session == states[m].session
  {
    if states[m - 1].session == states[m].session {
      p := PutOnDisplay(states, i, m - 1);
    } else {
      p := m - 1;
    }
  }

  /**
   * The commit that follows its own cleanup and still covers another identity: since that cleanup began,
   * another task of the same generation had put the other identity on display.
   */
  lemma OvertakenByAnotherTask(states: seq<State>, actions: seq<Action>, i: nat, m: nat, n: nat, t: Task)
    returns (p: nat)
    requires IsRun(states, actions) && i < n < |actions| && m <= n
    requires BeginsAt(states, actions, i) && states[i + 1].session.None? && ActionId(actions[i]) == ActionId(actions[n])
    requires MayBeLeft(states, actions, m, n) && CommitsOvertaken(states[n], actions[n], states[m].session)
    requires forall k :: i < k <= n ==> actions[n].id in states[k].tasks && states[k].tasks[actions[n].id] == t
    ensures i < p < m && states[p].session != states[m].session && states[p + 1].session == states[m].session
    ensures states[p].generation == states[p + 1].generation == t.generation
    ensures (actions[p].ServerReplies? || actions[p].CleanupEnds?) ==> actions[p].id != actions[n].id
  {
    assert m > i by {
      assert EndsAs(actions, i, n, true);
      assert EndedBy(actions, i, n, true);
    }
    hide BeginsAt, MayBeLeft, Step, Enabled, CommitsOvertaken;
    assert t.generation == states[n].generation by { OvertakenIsCurrent(states[n], actions[n], states[m].session); }
    p := PutOnDisplay(states, i + 1, m);
    RunsKeepInvariant(states, actions, i + 1);
    LaterCommitsAreCurrent(states, actions, i + 1, p);
    LaterCommitsAreCurrent(states, actions, p, p + 1);
    LaterCommitsAreCurrent(states, actions, p + 1, n);
    assert Enabled(states[p], actions[p]) && states[p + 1] == Step(states[p], actions[p]);
    assert states[p].tasks[actions[n].id] == t && states[p + 1].tasks[actions[n].id] == t;
    if (actions[p].ServerReplies? || actions[p].CleanupEnds?) && actions[p].id == actions[n].id {
      ActingSettles(states[p], actions[p], actions[n].id, t);
    }
  }

  lemma OvertakenIsCurrent(s: State, a: Action, shown: Option<Session>)
    requires CommitsOvertaken(s, a, shown)
    ensures a.CleanupEnds? && a.id in s.tasks && s.tasks[a.id].generation == s.generation &&
      s.tasks[a.id].wait.ForCleanup?
  {
  }

  lemma ActingSettles(s: State, a: Action, id: nat, t: Task)
    requires Enabled(s, a) && id in s.tasks && s.tasks[id] == t && t.wait.ForCleanup?
    requires (a.ServerReplies? || a.CleanupEnds?) && a.id == id
    ensures id in Step(s, a).tasks && Step(s, a).tasks[id] != t
  {
  }

  function OvertakenActions(a: Session, c: Session): seq<Action> {
    [BeginBootstrap(0), BeginRevalidation(1), ServerReplies(0, Profile(c, false)), ServerReplies(1, Profile(a, false)),
     CleanupEnds(0, true, VerificationFailed, 2)]
  }

  function OvertakenStates(a: Session, c: Session): seq<State> {
    var boot, check := Task(Bootstrap, 0, Some(a), ForServer, false), Task(Revalidation, 0, Some(a), ForServer, false);
    var waiting, done := boot.(wait := ForCleanup(c)), check.(wait := Settled);
    var first, second := Commit(0, Some(a), a, false, false), Commit(0, Some(a), c, true, false);
    [State(0, None, Loading, Some(a), None, map[], []),
     State(0, Some(a), Loading, Some(a), None, map[0 := boot], []),
     State(0, Some(a), Loading, Some(a), Some(1), map[0 := boot, 1 := check], []),
     State(0, None, Loading, Some(a), Some(1), map[0 := waiting, 1 := check], []),
     State(0, Some(a), Authenticated, Some(a), Some(1), map[0 := waiting, 1 := done], [first]),
     State(0, Some(c), Authenticated, Some(c), Some(1), map[0 := boot.(wait := Settled), 1 := done], [first, second])]
  }

  /**
   * Such a run: a bootstrap and a revalidation capture one user; the bootstrap's reply names another, so
   * it waits for its cleanup; the revalidation commits the first user meanwhile; then the cleanup ends
   * and the bootstrap commits the other, counted as cleaned.
   */
  lemma OvertakenCleanupHappens(a: Session, c: Session)
    requires HasIdentity(a) && HasIdentity(c) && a.userId != c.userId && !a.supportOverride && !c.supportOverride
    ensures IsRun(OvertakenStates(a, c), OvertakenActions(a, c))
    ensures MayBeLeft(OvertakenStates(a, c), OvertakenActions(a, c), 4, 4) &&
      OvertakenStates(a, c)[4].session == Some(a)
    ensures CommitsOvertaken(OvertakenStates(a, c)[4], OvertakenActions(a, c)[4], Some(a))
  {
    var s, actions := OvertakenStates(a, c), OvertakenActions(a, c);
    OvertakenStepsOne(a, c);
    OvertakenStepsTwo(a, c);
    OvertakenStepsThree(a, c);
    FiveSteps(s, actions);
    assert s[4].session.Some?;
    hide Step, Enabled, HasIdentity;
  }

  lemma OvertakenStepsOne(a: Session, c: Session)
    requires HasIdentity(a) && HasIdentity(c) && a.userId != c.userId && !a.supportOverride && !c.supportOverride
    ensures var s, acts := OvertakenStates(a, c), OvertakenActions(a, c);
      && Enabled(s[0], acts[0]) && s[1] == Step(s[0], acts[0])
      && Enabled(s[1], acts[1]) && s[2] == Step(s[1], acts[1])
  {
    hide HasIdentity;
  }

  lemma OvertakenStepsTwo(a: Session, c: Session)
    requires HasIdentity(a) && HasIdentity(c) && a.userId != c.userId && !a.supportOverride && !c.supportOverride
    ensures var s, acts := OvertakenStates(a, c), OvertakenActions(a, c);
      && Enabled(s[2], acts[2]) && s[3] == Step(s[2], acts[2])
      && Enabled(s[3], acts[3]) && s[4] == Step(s[3], acts[3])
  {
    hide HasIdentity;
  }

  lemma OvertakenStepsThree(a: Session, c: Session)
    requires HasIdentity(a) && HasIdentity(c) && a.userId != c.userId && !a.supportOverride && !c.supportOverride
    ensures var s, acts := OvertakenStates(a, c), OvertakenActions(a, c);
      && Enabled(s[4], acts[4]) && s[5] == Step(s[4], acts[4])
  {
    hide HasIdentity;
  }

  // ---- Runs in which a cleanup failed or is in flight ----

  /** A tab shows one user; another tab stores another one; the cleanup of the synchronisation fails or goes on. */
  function SwitchedAway(a: Session, c: Session): seq<Action> {
    [BeginBootstrap(0), ServerReplies(0, Profile(a, false)), OtherTabStores(Some(c)), BeginStorageSync(1)]
  }

  function SwitchedAwayStates(a: Session, c: Session): seq<State> {
    var boot := Task(Bootstrap, 0, Some(a), ForServer, false);
    var ready, sync := map[0 := boot.(wait := Settled)], Task(StorageSync, 1, None, ForSyncCleanup, false);
    var first := Commit(0, Some(a), a, false, false);
    [State(0, None, Loading, Some(a), None, map[], []),
     State(0, Some(a), Loading, Some(a), None, map[0 := boot], []),
     State(0, Some(a), Authenticated, Some(a), None, ready, [first]),
     State(0, Some(a), Authenticated, Some(c), None, ready, [first]),
     State(1, None, Loading, Some(c), None, ready[1 := sync], [first])]
  }

  lemma SwitchedAwayRuns(a: Session, c: Session)
    requires HasIdentity(a) && HasIdentity(c) && a.userId != c.userId && !a.supportOverride && !c.supportOverride
    ensures IsRun(SwitchedAwayStates(a, c), SwitchedAway(a, c))
  {
    var s, acts := SwitchedAwayStates(a, c), SwitchedAway(a, c);
    SwitchedAwayStepsOne(a, c);
    SwitchedAwayStepsTwo(a, c);
    hide Step, Enabled, HasIdentity;
    forall i | 0 <= i < 4 ensures Enabled(s[i], acts[i]) && s[i + 1] == Step(s[i], acts[i]) {
      if i == 0 { } else if i == 1 { } else if i == 2 { } else { }
    }
  }

  lemma SwitchedAwayStepsOne(a: Session, c: Session)
    requires HasIdentity(a) && HasIdentity(c) && a.userId != c.userId && !a.supportOverride && !c.supportOverride
    ensures var s, acts := SwitchedAwayStates(a, c), SwitchedAway(a, c);
      && Enabled(s[0], acts[0]) && s[1] == Step(s[0], acts[0])
      && Enabled(s[1], acts[1]) && s[2] == Step(s[1], acts[1])
  {
    hide HasIdentity;
  }

  lemma SwitchedAwayStepsTwo(a: Session, c: Session)
    requires HasIdentity(a) && HasIdentity(c) && a.userId != c.userId && !a.supportOverride && !c.supportOverride
    ensures var s, acts := SwitchedAwayStates(a, c), SwitchedAway(a, c);
      && Enabled(s[2], acts[2]) && s[3] == Step(s[2], acts[2])
      && Enabled(s[3], acts[3]) && s[4] == Step(s[3], acts[3])
  {
    hide HasIdentity;
  }

  /** One more action extends a run. */
  lemma RunExtends(states: seq<State>, actions: seq<Action>, a: Action)
    requires IsRun(states, actions) && Enabled(states[|actions|], a)
    ensures IsRun(states + [Step(states[|actions|], a)], actions + [a])
  {
    var s, acts := states + [Step(states[|actions|], a)], actions + [a];
    forall i | 0 <= i < |acts| ensures Enabled(s[i], acts[i]) && s[i + 1] == Step(s[i], acts[i]) {
      if i < |actions| { assert s[i] == states[i] && s[i + 1] == states[i + 1] && acts[i] == actions[i]; }
    }
    hide Step, Enabled;
  }

  /** The other user is committed, uncleaned, while the synchronisation's cleanup is still running. */
  lemma CleanupInFlightHappens(a: Session, c: Session) returns (states: seq<State>, actions: seq<Action>)
    requires HasIdentity(a) && HasIdentity(c) && a.userId != c.userId && !a.supportOverride && !c.supportOverride
    ensures IsRun(states, actions) && |actions| == 6 && BeginsAt(states, actions, 3)
    ensures !EndedBy(actions, 3, 5, true) && !EndedBy(actions, 3, 5, false)
    ensures MayBeLeft(states, actions, 3, 5) && states[3].session == Some(a)
    ensures states[6].session == Some(c) && CommitsUncleaned(states[5], actions[5], Some(a))
  {
    hide HasIdentity;
    SwitchedAwayRuns(a, c);
    var s, acts := SwitchedAwayStates(a, c), SwitchedAway(a, c);
    RunExtends(s, acts, BeginRefresh(2, false));
    states, actions := s + [Step(s[4], BeginRefresh(2, false))], acts + [BeginRefresh(2, false)];
    var reply := ServerReplies(2, Profile(c, false));
    RefreshThenCommit(s[4], c);
    RunExtends(states, actions, reply);
    states, actions := states + [Step(states[5], reply)], actions + [reply];
    assert states[3] == s[3] && states[4] == s[4] && actions[3] == acts[3] && actions[4] == BeginRefresh(2, false);
    NothingEndsWell(states, actions, 3, 5);
    hide Step, Enabled, BeginsAt, EndsAs;
  }

  /** Where no cleanup ends successfully, what was shown stays left. */
  lemma NothingEndsWell(states: seq<State>, actions: seq<Action>, m: nat, n: nat)
    requires IsRun(states, actions) && m <= n < |actions| && states[m].session.Some?
    requires forall e :: 0 <= e < |actions| ==> !actions[e].CleanupEnds? || !actions[e].ok
    ensures MayBeLeft(states, actions, m, n)
    ensures forall k :: 0 <= k < |actions| ==> !EndedBy(actions, k, n, true)
  {
    hide BeginsAt;
  }

  /** The synchronisation's cleanup fails, and the next revalidation commits the other user uncleaned. */
  lemma FailedCleanupHappens(a: Session, c: Session) returns (states: seq<State>, actions: seq<Action>)
    requires HasIdentity(a) && HasIdentity(c) && a.userId != c.userId && !a.supportOverride && !c.supportOverride
    ensures IsRun(states, actions) && |actions| == 7 && BeginsAt(states, actions, 3)
    ensures EndedBy(actions, 3, 6, false)
    ensures MayBeLeft(states, actions, 3, 6) && states[3].session == Some(a)
    ensures states[7].session == Some(c) && CommitsUncleaned(states[6], actions[6], Some(a))
  {
    hide HasIdentity;
    SwitchedAwayRuns(a, c);
    var s, acts := SwitchedAwayStates(a, c), SwitchedAway(a, c);
    var fail, begin, reply :=
      CleanupEnds(1, false, VerificationFailed, 2), BeginRevalidation(2), ServerReplies(2, Profile(c, false));
    FailThenRevalidate(s[4], c);
    RunExtends(s, acts, fail);
    states, actions := s + [Step(s[4], fail)], acts + [fail];
    RunExtends(states, actions, begin);
    states, actions := states + [Step(states[5], begin)], actions + [begin];
    RunExtends(states, actions, reply);
    states, actions := states + [Step(states[6], reply)], actions + [reply];
    assert states[3] == s[3] && states[4] == s[4] && actions[3] == acts[3] && actions[4] == fail && actions[5] == begin;
    NothingEndsWell(states, actions, 3, 6);
    assert EndsAs(actions, 3, 4, false);
    hide Step, Enabled, BeginsAt, EndsAs;
  }

  lemma FailThenRevalidate(s: State, c: Session)
    requires HasIdentity(c) && !c.supportOverride && s.stored == Some(c) && s.session.None? && s.revalidation.None?
    requires 1 in s.tasks && 2 !in s.tasks && s.tasks[1].wait == ForSyncCleanup && s.generation == s.tasks[1].generation
    ensures Enabled(s, CleanupEnds(1, false, VerificationFailed, 2))
    ensures var t := Step(s, CleanupEnds(1, false, VerificationFailed, 2));
      && Enabled(t, BeginRevalidation(2))
      && var u := Step(t, BeginRevalidation(2));
      && Enabled(u, ServerReplies(2, Profile(c, false))) && u.session.None?
      && ActsOnReply(u, ServerReplies(2, Profile(c, false))) && u.tasks[2].captured == Some(c)
      && Step(u, ServerReplies(2, Profile(c, false))).session == Some(c)
  {
    hide HasIdentity;
  }

  lemma RefreshThenCommit(s: State, c: Session)
    requires HasIdentity(c) && !c.supportOverride && s.stored == Some(c) && 2 !in s.tasks && s.session.None?
    ensures Enabled(s, BeginRefresh(2, false))
    ensures var t := Step(s, BeginRefresh(2, false));
      && Enabled(t, ServerReplies(2, Profile(c, false))) && t.session.None?
      && ActsOnReply(t, ServerReplies(2, Profile(c, false))) && t.tasks[2].captured == Some(c)
      && Step(t, ServerReplies(2, Profile(c, false))).session == Some(c)
  {
    hide HasIdentity;
  }
}
