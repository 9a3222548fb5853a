/**
 * What the session provider shows and stores, and which work it lets through, stretch by stretch and over
 * whole runs.
 */
module SessionOutcomes {
  import opened Foundations
  import opened SessionProvider

  // ---- Work that no longer counts ----

  /** Once its component is unmounted, nothing that still reaches a bootstrap changes anything but its own wait. */
  lemma {:induction false} UnmountedBootstrapIsInert(states: seq<State>, actions: seq<Action>, i: nat, j: nat, id: nat)
    requires IsRun(states, actions) && i < j < |actions| && actions[i] == Unmount(id)
    ensures id in states[j].tasks && states[j].tasks[id].cancelled && states[j].tasks[id].kind == Bootstrap
    ensures (actions[j].ServerReplies? || actions[j].CleanupEnds?) && actions[j].id == id ==>
      states[j + 1] == Waiting(states[j], id, Settled)
    decreases j
  {
    hide Accepted, SameIdentity, HasIdentity;
    assert Enabled(states[j - 1], actions[j - 1]) && states[j - 1 + 1] == Step(states[j - 1], actions[j - 1]);
    if j > i + 1 {
      UnmountedBootstrapIsInert(states, actions, i, j - 1, id);
      StepKeepsUnmounted(states[j - 1], actions[j - 1], id);
    }
    assert Enabled(states[j], actions[j]) && states[j + 1] == Step(states[j], actions[j]);
    if (actions[j].ServerReplies? || actions[j].CleanupEnds?) && actions[j].id == id {
      StaleWorkIsInert(states[j], actions[j]);
    }
  }

  lemma StepKeepsUnmounted(s: State, a: Action, id: nat)
    requires Enabled(s, a) && id in s.tasks && s.tasks[id].cancelled && s.tasks[id].kind == Bootstrap
    ensures id in Step(s, a).tasks && Step(s, a).tasks[id].cancelled && Step(s, a).tasks[id].kind == Bootstrap
  {
    hide SameIdentity, HasIdentity, Accepted, Replied, CleanedUp, RevalidationBegun;
    match a {
      case BeginLogin(at, next, supportConfirmed) =>
        var captured := if s.session.Some? then s.session else s.stored;
        AcceptKeepsTask(Begun(Invalidated(s), at, Login, captured, Settled), at, next, supportConfirmed, id);
      case BeginRevalidation(at) => RevalidationKeepsTask(s, at, id);
      case BeginRefresh(at, _) => RevalidationKeepsTask(s, at, id);
      case ServerReplies(at, reply) => ReplyKeepsTask(s, at, reply, id);
      case CleanupEnds(at, ok, shown, followUp) => CleanupKeepsTask(s, at, ok, shown, followUp, id);
      case _ =>
    }
  }

  /** The task may change where it waits, but neither its kind nor whether its component is gone. */
  predicate KeepsTask(before: State, after: State, id: nat) {
    id in before.tasks ==>
      && id in after.tasks && after.tasks[id].kind == before.tasks[id].kind
      && after.tasks[id].cancelled == before.tasks[id].cancelled
  }

  lemma AcceptKeepsTask(s: State, at: nat, next: Session, supportConfirmed: bool, id: nat)
    requires at in s.tasks
    ensures KeepsTask(s, Accepted(s, at, next, supportConfirmed), id)
  {
    hide SameIdentity;
  }

  lemma RevalidationKeepsTask(s: State, at: nat, id: nat)
    requires at !in s.tasks
    ensures KeepsTask(s, RevalidationBegun(s, at), id)
  {
  }

  lemma ReplyKeepsTask(s: State, at: nat, reply: Reply, id: nat)
    requires at in s.tasks
    ensures KeepsTask(s, Replied(s, at, reply), id)
  {
    hide Accepted;
    if reply.Profile? { AcceptKeepsTask(s, at, reply.next, reply.supportConfirmed, id); }
  }

  lemma CleanupKeepsTask(s: State, at: nat, ok: bool, shown: Status, followUp: nat, id: nat)
    requires at in s.tasks && followUp !in s.tasks
    ensures KeepsTask(s, CleanedUp(s, at, ok, shown, followUp), id)
  {
    hide RevalidationBegun;
    RevalidationKeepsTask(Waiting(s, at, Settled), followUp, id);
  }

  /** Signing in, refreshing, a changed stored identity, and signing out each begin by invalidating earlier work. */
  predicate Supersedes(s: State, a: Action) {
    a.BeginLogin? || (a.BeginRefresh? && !a.supportActive) || a.BeginStorageSync? || a.BeginLogout? || TearsDown(s, a)
  }

  /** No session is ever committed by a task begun before the latest of these. */
  lemma SupersededWorkNeverCommits(states: seq<State>, actions: seq<Action>, i: nat, j: nat)
    requires IsRun(states, actions) && i < j <= |actions| && Supersedes(states[i], actions[i])
    ensures forall id :: id in states[i].tasks ==> states[i].tasks[id].generation <= states[i].generation
    ensures forall n :: |states[i].commits| <= n < |states[j].commits| ==>
      states[j].commits[n].generation > states[i].generation
  {
    RunsKeepInvariant(states, actions, i);
    LaterCommitsAreCurrent(states, actions, i + 1, j);
    LaterCommitsAreCurrent(states, actions, i, j);
    assert Enabled(states[i], actions[i]) && states[i + 1] == Step(states[i], actions[i]);
    StepCommitsCurrent(states[i], actions[i]);
    SupersedingStep(states[i], actions[i]);
    CommitsPersist(states, actions, i + 1, j);
    hide Step, Enabled, Supersedes;
  }

  lemma SupersedingStep(s: State, a: Action)
    requires Enabled(s, a) && Supersedes(s, a)
    ensures Step(s, a).generation > s.generation
  {
    hide SameIdentity, HasIdentity;
  }

  lemma {:induction false} CommitsPersist(states: seq<State>, actions: seq<Action>, i: nat, j: nat)
    requires IsRun(states, actions) && i <= j <= |actions|
    ensures states[i].commits <= states[j].commits
    decreases j
  {
    hide Step, Enabled;
    if i < j {
      CommitsPersist(states, actions, i, j - 1);
      assert Enabled(states[j - 1], actions[j - 1]) && states[j - 1 + 1] == Step(states[j - 1], actions[j - 1]);
      StepCommitsCurrent(states[j - 1], actions[j - 1]);
    }
  }

  /** Revalidations share the one in progress; otherwise one begins for a stored session, and none shows nobody. */
  lemma RevalidationIsShared(s: State, id: nat)
    requires id !in s.tasks
    ensures s.revalidation.Some? ==> Step(s, BeginRevalidation(id)) == s
    ensures s.revalidation.None? && s.stored.Some? ==>
      var after := Step(s, BeginRevalidation(id));
      && after.revalidation == Some(id) && id in after.tasks && after.tasks[id].captured == s.stored
      && after.tasks[id].wait == ForServer && MayAct(after, after.tasks[id]) && after.session == s.session
    ensures s.revalidation.None? && s.stored.None? ==>
      Step(s, BeginRevalidation(id)).session == None && Step(s, BeginRevalidation(id)).status == Anonymous
  {
  }

  /** A settled revalidation makes room for the next one; no other task's end does. */
  lemma SettlingMakesRoom(s: State, id: nat)
    requires Enabled(s, RevalidationSettles(id))
    ensures Step(s, RevalidationSettles(id)).revalidation ==
      (if s.revalidation == Some(id) then None else s.revalidation)
    ensures Step(s, RevalidationSettles(id)) == s.(revalidation := Step(s, RevalidationSettles(id)).revalidation)
  {
  }

  /** When the cleanup for a changed stored identity has ended, that identity is revalidated. */
  lemma SyncEndsInRevalidation(s: State, id: nat, shown: Status, followUp: nat)
    requires Enabled(s, CleanupEnds(id, true, shown, followUp)) && s.tasks[id].wait == ForSyncCleanup
    requires MayAct(s, s.tasks[id]) && followUp != id
    ensures var after := Step(s, CleanupEnds(id, true, shown, followUp));
      && (s.stored.Some? ==> after.revalidation.Some?)
      && (s.stored.Some? && s.revalidation.None? ==>
            && followUp in after.tasks && after.tasks[followUp].captured == s.stored
            && after.tasks[followUp].wait == ForServer)
      && (s.stored.None? && s.revalidation.None? ==> after.session == None && after.status == Anonymous)
  {
  }

  predicate WaitsForCleanup(s: State, id: nat) {
    id in s.tasks && (s.tasks[id].wait.ForCleanup? || s.tasks[id].wait.ForSyncCleanup? ||
      s.tasks[id].wait.ForTeardownCleanup?)
  }

  /** The wait for a cleanup that this stretch began comes with nobody on display. */
  predicate HiddenFor(before: State, after: State, id: nat) {
    !WaitsForCleanup(before, id) && WaitsForCleanup(after, id) ==>
      && after.session == None
      && after.status == (if after.tasks[id].wait.ForTeardownCleanup? then Anonymous else Loading)
  }

  lemma AcceptHides(s: State, at: nat, next: Session, supportConfirmed: bool, id: nat)
    requires at in s.tasks
    ensures HiddenFor(s, Accepted(s, at, next, supportConfirmed), id)
  {
    hide SameIdentity;
  }

  lemma RevalidationHides(s: State, at: nat, id: nat)
    requires at !in s.tasks
    ensures HiddenFor(s, RevalidationBegun(s, at), id)
  {
  }

  lemma ReplyHides(s: State, at: nat, reply: Reply, id: nat)
    requires at in s.tasks
    ensures HiddenFor(s, Replied(s, at, reply), id)
  {
    hide Accepted;
    if reply.Profile? { AcceptHides(s, at, reply.next, reply.supportConfirmed, id); }
  }

  lemma CleanupEndHides(s: State, at: nat, ok: bool, shown: Status, followUp: nat, id: nat)
    requires at in s.tasks && followUp !in s.tasks
    ensures HiddenFor(s, CleanedUp(s, at, ok, shown, followUp), id)
  {
    hide RevalidationBegun;
    RevalidationHides(Waiting(s, at, Settled), followUp, id);
  }

  lemma LoginHides(s: State, at: nat, next: Session, supportConfirmed: bool, id: nat)
    requires Enabled(s, BeginLogin(at, next, supportConfirmed))
    ensures HiddenFor(s, Step(s, BeginLogin(at, next, supportConfirmed)), id)
  {
    hide Accepted;
    var captured := if s.session.Some? then s.session else s.stored;
    AcceptHides(Begun(Invalidated(s), at, Login, captured, Settled), at, next, supportConfirmed, id);
  }

  /** A cleanup begins with nobody on display, and neither signed in nor trusted until it has ended. */
  lemma CleanupHidesSession(s: State, a: Action, id: nat)
    requires Enabled(s, a) && !WaitsForCleanup(s, id) && WaitsForCleanup(Step(s, a), id)
    ensures Step(s, a).session == None
    ensures Step(s, a).status == if Step(s, a).tasks[id].wait.ForTeardownCleanup? then Anonymous else Loading
  {
    hide SameIdentity, HasIdentity, Accepted, Replied, CleanedUp, RevalidationBegun;
    match a {
      case BeginLogin(at, next, supportConfirmed) => LoginHides(s, at, next, supportConfirmed, id);
      case BeginRevalidation(at) => RevalidationHides(s, at, id);
      case BeginRefresh(at, _) => RevalidationHides(s, at, id);
      case ServerReplies(at, reply) => ReplyHides(s, at, reply, id);
      case CleanupEnds(at, ok, shown, followUp) => CleanupEndHides(s, at, ok, shown, followUp, id);
      case _ =>
    }
  }

  /** A support session that is not confirmed is refused: nobody is shown, and nothing is committed or stored. */
  lemma UnconfirmedSupportIsRefused(s: State, a: Action)
    requires Enabled(s, a)
    requires (a.BeginLogin? && a.next.supportOverride && !a.supportConfirmed) ||
      (a.ServerReplies? && a.reply.Profile? && a.reply.next.supportOverride && !a.reply.supportConfirmed
       && s.tasks[a.id].kind != Logout && MayAct(s, s.tasks[a.id]))
    ensures var after := Step(s, a);
      && after.session == None && after.status == VerificationFailed
      && after.commits == s.commits && after.stored == s.stored
  {
    hide SameIdentity, HasIdentity;
  }

  // ---- What is shown and what is stored ----

  predicate Commits(s: State, a: Action)
    requires Enabled(s, a)
  {
    |Step(s, a).commits| > |s.commits|
  }

  /**
   * A commit shows its session as authenticated and stores it for the other tabs unless it is a confirmed
   * support transition; besides that only a teardown and other tabs change the stored session.
   */
  lemma StoredSessionIsExact(s: State, a: Action)
    requires Enabled(s, a)
    ensures var after := Step(s, a);
      && (Commits(s, a) ==>
            && after.session == Some(after.commits[|s.commits|].next) && after.status == Authenticated
            && !TearsDown(s, a) && !a.OtherTabStores?)
      && after.stored ==
        (if a.OtherTabStores? then a.session
         else if TearsDown(s, a) then None
         else if Commits(s, a) && !after.commits[|s.commits|].supportConfirmed then after.session
         else s.stored)
  {
    hide SameIdentity, HasIdentity;
  }

  /** An authenticated status comes with a session, and nobody is shown as anonymous. */
  predicate StatusFits(s: State) {
    && (s.status == Authenticated ==> s.session.Some?)
    && (s.status == Anonymous ==> s.session.None?)
  }

  lemma StepKeepsStatusFitting(s: State, a: Action)
    requires StatusFits(s) && Enabled(s, a)
    ensures StatusFits(Step(s, a))
  {
    hide SameIdentity, HasIdentity;
  }

  /** A stored session of a support transition was stored by another tab, or before the run began. */
  predicate StoredElsewhere(states: seq<State>, actions: seq<Action>, j: nat, x: Session)
    requires |states| == |actions| + 1 && j <= |actions|
  {
    states[0].stored == Some(x) || exists n :: 0 <= n < j && actions[n] == OtherTabStores(Some(x))
  }

  /**
   * At every point of every run the status fits the session on display, and what this tab has stored is a
   * session it committed and no support transition: a stored support session comes from elsewhere.
   */
  lemma {:induction false} StatusAndStoredFit(states: seq<State>, actions: seq<Action>, j: nat)
    requires IsRun(states, actions) && j <= |actions|
    ensures StatusFits(states[j])
    ensures states[j].stored.Some? ==>
      || StoredElsewhere(states, actions, j, states[j].stored.value)
      || (!states[j].stored.value.supportOverride
          && exists c :: c in states[j].commits && c.next == states[j].stored.value)
  {
    if j > 0 {
      StatusAndStoredFit(states, actions, j - 1);
      var s, a, after := states[j - 1], actions[j - 1], states[j];
      assert Enabled(s, a) && states[j - 1 + 1] == Step(s, a);
      RunsKeepInvariant(states, actions, j);
      StepCommitsCurrent(s, a);
      StoredSessionIsExact(s, a);
      StepKeepsStatusFitting(s, a);
      hide Step, Enabled, TearsDown, StatusFits, Invariant;
      if after.stored.Some? && !a.OtherTabStores? && !TearsDown(s, a) {
        if Commits(s, a) && !after.commits[|s.commits|].supportConfirmed {
          CommitsFollowCleanup(states, actions, j, |s.commits|);
          assert after.commits[|s.commits|] in after.commits;
        } else if !StoredElsewhere(states, actions, j - 1, after.stored.value) {
          var c :| c in s.commits && c.next == after.stored.value;
          assert c in after.commits;
        }
      }
    }
  }
}
