/**
 * How many passes the purge needs, exactly. A reference is late if the referring table comes after the
 * one it refers to, so that a pass finds the latter still blocked. The purge completes exactly when
 * nothing refers from outside and no chain of references has 50 late ones.
 */
module PurgePasses {
  import opened Foundations
  import opened PurgeTenants

  /** Where a table stands in the list. */
  function Position(tables: seq<Table>, t: Table): nat {
    if tables == [] || tables[0] == t then 0 else 1 + Position(tables[1..], t)
  }

  predicate Distinct(tables: seq<Table>) {
    forall i, j :: 0 <= i < j < |tables| ==> tables[i] != tables[j]
  }

  function Late(order: seq<Table>, from: Table, to: Table): nat {
    if Position(order, from) > Position(order, to) then 1 else 0
  }

  /** The late references of a chain. */
  function LateLinks(order: seq<Table>, walk: seq<Table>): nat {
    if |walk| < 2 then 0 else Late(order, walk[0], walk[1]) + LateLinks(order, walk[1..])
  }

  function PositionIn(order: seq<Table>): Table -> nat {
    t => Position(order, t)
  }

  lemma {:induction false} PositionOf(tables: seq<Table>, i: nat)
    requires Distinct(tables) && i < |tables|
    ensures Position(tables, tables[i]) == i
  {
    if i > 0 {
      PositionOf(tables[1..], i - 1);
    }
  }

  lemma ListIsInOrder(tables: seq<Table>)
    requires Distinct(tables)
    ensures InOrder(tables, PositionIn(tables))
    ensures forall s, t :: s in tables && t in tables && s != t ==> Position(tables, s) != Position(tables, t)
  {
    forall i | 0 <= i < |tables| ensures Position(tables, tables[i]) == i {
      PositionOf(tables, i);
    }
    hide Position;
  }

  // ---- Few late references are enough ----

  lemma {:induction false} LateSnoc(order: seq<Table>, walk: seq<Table>, to: Table)
    requires walk != []
    ensures LateLinks(order, walk + [to]) == LateLinks(order, walk) + Late(order, walk[|walk| - 1], to)
  {
    hide Late;
    if |walk| > 1 {
      assert (walk + [to])[1..] == walk[1..] + [to];
      LateSnoc(order, walk[1..], to);
    }
  }

  /** A chain with `n` late references ends at `t`. */
  ghost predicate EndsLate(live: set<Row>, refs: References, order: seq<Table>, t: Table, n: nat) {
    exists walk :: IsWalk(live, refs, order, walk) && LateLinks(order, walk) == n && walk[|walk| - 1] == t
  }

  /** The most late references, up to a bound, of a chain that ends at `t`. */
  ghost function MostLate(live: set<Row>, refs: References, order: seq<Table>, t: Table, bound: nat): (n: nat)
    ensures n <= bound
    ensures n > 0 ==> EndsLate(live, refs, order, t, n)
    ensures forall k :: n < k <= bound ==> !EndsLate(live, refs, order, t, k)
  {
    if bound == 0 || EndsLate(live, refs, order, t, bound) then bound else MostLate(live, refs, order, t, bound - 1)
  }

  ghost predicate LateAtMost(live: set<Row>, refs: References, order: seq<Table>, bound: nat) {
    forall walk :: IsWalk(live, refs, order, walk) ==> LateLinks(order, walk) <= bound
  }

  lemma EndsLateExtends(live: set<Row>, refs: References, order: seq<Table>, from: Table, to: Table, n: nat)
    requires EndsLate(live, refs, order, from, n) && RefersTo(live, refs, from, to) && to in order
    ensures EndsLate(live, refs, order, to, n + Late(order, from, to))
  {
    hide RefersTo, Late, LateLinks;
    var walk :| IsWalk(live, refs, order, walk) && LateLinks(order, walk) == n && walk[|walk| - 1] == from;
    LateSnoc(order, walk, to);
    assert IsWalk(live, refs, order, walk + [to]) && (walk + [to])[|walk + [to]| - 1] == to;
  }

  lemma EveryTableEndsAChain(live: set<Row>, refs: References, order: seq<Table>, t: Table)
    requires t in order
    ensures EndsLate(live, refs, order, t, 0)
  {
    assert IsWalk(live, refs, order, [t]) && LateLinks(order, [t]) == 0 && [t][0] == t;
  }

  ghost function LateRank(live: set<Row>, refs: References, order: seq<Table>, bound: nat): Table -> nat {
    t => MostLate(live, refs, order, t, bound)
  }

  /** The most late references that lead to a table rank it, with ties in the order of the list. */
  lemma LateRanksTables(live: set<Row>, refs: References, order: seq<Table>, bound: nat)
    requires Distinct(order) && !OutsideReferrer(live, refs, order) && LateAtMost(live, refs, order, bound)
    ensures RankedInOrder(live, refs, order, LateRank(live, refs, order, bound), PositionIn(order))
  {
    ListIsInOrder(order);
    hide Position, OutsideReferrer;
    forall reference, t | reference in refs && t in order && Blocks(live, t, reference)
      ensures reference.0.purged && reference.0.table in order
        && Precedes(reference.0.table, t, LateRank(live, refs, order, bound), PositionIn(order))
    {
      InsideReferrer(live, refs, order, t, reference);
      RankGrows(live, refs, order, bound, reference.0.table, t);
    }
  }

  lemma RankGrows(live: set<Row>, refs: References, order: seq<Table>, bound: nat, from: Table, to: Table)
    requires LateAtMost(live, refs, order, bound) && from in order && to in order && RefersTo(live, refs, from, to)
    ensures MostLate(live, refs, order, from, bound) + Late(order, from, to) <= MostLate(live, refs, order, to, bound)
  {
    var n := MostLate(live, refs, order, from, bound);
    EveryTableEndsAChain(live, refs, order, from);
    EndsLateExtends(live, refs, order, from, to, n);
    hide Late, LateLinks, IsWalk;
    var k := n + Late(order, from, to);
    var walk :| IsWalk(live, refs, order, walk) && LateLinks(order, walk) == k && walk[|walk| - 1] == to;
    assert k <= bound;
  }

  // ---- Many late references are too many ----

  /** A pass keeps what follows a late reference: the referring table is still there when the chain is visited. */
  lemma {:induction false} PassKeepsChain(live: set<Row>, refs: References, order: seq<Table>, todo: seq<Table>,
                                          head: Table, chain: seq<Table>)
    requires InOrder(todo, PositionIn(order)) && IsWalk(live, refs, order, chain)
    requires Position(order, head) > Position(order, chain[0])
    requires chain[0] in todo ==> RefersTo(live, refs, head, chain[0])
    ensures IsWalk(Pass(live, refs, todo).0, refs, order, chain)
    ensures forall t :: t in todo && t in chain ==> t in Pass(live, refs, todo).1
  {
    if todo != [] {
      hide Position, RefersTo, Blocked;
      var t := todo[0];
      assert todo == [t] + todo[1..];
      if t in chain {
        ChainTableIsBlocked(live, refs, order, head, chain, t);
        PassKeepsChain(live, refs, order, todo[1..], head, chain);
      } else if Blocked(live, refs, t) {
        PassKeepsChain(live, refs, order, todo[1..], head, chain);
      } else {
        var rest := live - Target(live, t);
        if chain[0] in todo[1..] {
          var k :| 0 <= k < |todo[1..]| && todo[1..][k] == chain[0];
          assert PositionIn(order)(todo[0]) <= PositionIn(order)(todo[k + 1]);
          OtherTableLinkStays(live, refs, t, head, chain[0]);
        }
        forall i | 0 <= i < |chain| - 1 ensures RefersTo(rest, refs, chain[i], chain[i + 1]) {
          OtherTableLinkStays(live, refs, t, chain[i], chain[i + 1]);
        }
        PassKeepsChain(rest, refs, order, todo[1..], head, chain);
      }
    }
  }

  lemma OtherTableLinkStays(live: set<Row>, refs: References, gone: Table, from: Table, to: Table)
    requires RefersTo(live, refs, from, to) && gone != from && gone != to
    ensures RefersTo(live - Target(live, gone), refs, from, to)
  {
    var reference :| reference in refs && Links(live, from, to, reference);
    assert Links(live - Target(live, gone), from, to, reference);
  }

  lemma ReferredIsBlocked(live: set<Row>, refs: References, from: Table, to: Table)
    requires RefersTo(live, refs, from, to)
    ensures Blocked(live, refs, to)
  {
    var reference :| reference in refs && Links(live, from, to, reference);
    assert Blocks(live, to, reference);
  }

  lemma ChainTableIsBlocked(live: set<Row>, refs: References, order: seq<Table>, head: Table, chain: seq<Table>,
                            t: Table)
    requires IsWalk(live, refs, order, chain) && t in chain && (t == chain[0] ==> RefersTo(live, refs, head, chain[0]))
    ensures Blocked(live, refs, t)
  {
    hide RefersTo, Blocked;
    var k :| 0 <= k < |chain| && chain[k] == t;
    if k == 0 {
      ReferredIsBlocked(live, refs, head, t);
    } else {
      assert RefersTo(live, refs, chain[k - 1], chain[k - 1 + 1]);
      ReferredIsBlocked(live, refs, chain[k - 1], t);
    }
  }

  /** The first late reference of a chain: what follows it has one late reference less. */
  lemma {:induction false} FirstLate(order: seq<Table>, walk: seq<Table>) returns (i: nat)
    requires LateLinks(order, walk) > 0
    ensures i + 1 < |walk| && Position(order, walk[i]) > Position(order, walk[i + 1])
    ensures LateLinks(order, walk[i + 1..]) == LateLinks(order, walk) - 1
  {
    hide Position;
    if Late(order, walk[0], walk[1]) == 1 {
      i := 0;
    } else {
      i := FirstLate(order, walk[1..]);
      assert walk[1..][i + 1..] == walk[i + 2..];
      i := i + 1;
    }
  }

  /** One pass takes at most one late reference off a chain of tables still to purge. */
  lemma PassKeepsLateChain(live: set<Row>, refs: References, order: seq<Table>, remaining: seq<Table>, walk: seq<Table>)
    returns (shorter: seq<Table>)
    requires InOrder(remaining, PositionIn(order)) && (forall t :: t in remaining ==> t in order)
    requires IsWalk(live, refs, remaining, walk) && LateLinks(order, walk) > 0
    ensures var (left, blocked) := Pass(live, refs, remaining); IsWalk(left, refs, blocked, shorter)
    ensures LateLinks(order, shorter) == LateLinks(order, walk) - 1
  {
    hide Position, RefersTo, Pass, LateLinks;
    var i := FirstLate(order, walk);
    shorter := walk[i + 1..];
    assert RefersTo(live, refs, walk[i], walk[i + 1]);
    assert IsWalk(live, refs, order, shorter) by {
      forall k | 0 <= k < |shorter| - 1 ensures RefersTo(live, refs, shorter[k], shorter[k + 1]) {
        assert shorter[k] == walk[i + 1 + k] && shorter[k + 1] == walk[i + 1 + k + 1];
      }
    }
    PassKeepsChain(live, refs, order, remaining, walk[i], shorter);
    forall k | 0 <= k < |shorter| ensures shorter[k] in Pass(live, refs, remaining).1 {
      assert shorter[k] == walk[i + 1 + k] && shorter[k] in shorter;
    }
  }

  /** A chain outlasts as many passes as it has late references. */
  lemma {:induction false} LateChainOutlasts(live: set<Row>, refs: References, order: seq<Table>, remaining: seq<Table>,
                                             pass: nat, walk: seq<Table>)
    requires InOrder(remaining, PositionIn(order)) && (forall t :: t in remaining ==> t in order)
    requires pass <= MAX_PASSES + 1 && IsWalk(live, refs, remaining, walk)
    ensures Passes(live, refs, remaining, pass).1 == Completed ==>
      LateLinks(order, walk) + pass <= LastPass(live, refs, remaining, pass) <= MAX_PASSES
    decreases MAX_PASSES + 1 - pass
  {
    hide LateLinks, PositionIn, RefersTo;
    assert walk[0] in remaining;
    if pass <= MAX_PASSES {
      PassFacts(live, refs, remaining);
      PassKeepsOrder(live, refs, remaining, PositionIn(order));
      var (left, blocked) := Pass(live, refs, remaining);
      if LateLinks(order, walk) > 0 {
        var shorter := PassKeepsLateChain(live, refs, order, remaining, walk);
        LateChainOutlasts(left, refs, order, blocked, pass + 1, shorter);
      } else {
        LastPassBounds(left, refs, blocked, pass + 1);
      }
    }
  }

  lemma {:induction false} LastPassBounds(live: set<Row>, refs: References, remaining: seq<Table>, pass: nat)
    requires pass <= MAX_PASSES + 1
    ensures pass - 1 <= LastPass(live, refs, remaining, pass) <= MAX_PASSES
    decreases MAX_PASSES + 1 - pass
  {
    if remaining != [] && pass <= MAX_PASSES {
      LastPassBounds(Pass(live, refs, remaining).0, refs, Pass(live, refs, remaining).1, pass + 1);
    }
  }

  /** A row from outside the tables keeps what it refers to blocked for ever. */
  lemma {:induction false} PassKeepsOutside(live: set<Row>, refs: References, order: seq<Table>, todo: seq<Table>,
                                            reference: (Row, Row), t: Table)
    requires reference in refs && Blocks(live, t, reference) && (forall u :: u in todo ==> u in order)
    requires !(reference.0.purged && reference.0.table in order)
    ensures Blocks(Pass(live, refs, todo).0, t, reference)
    ensures t in todo ==> t in Pass(live, refs, todo).1
  {
    if todo != [] {
      assert todo == [todo[0]] + todo[1..];
      if Blocked(live, refs, todo[0]) {
        PassKeepsOutside(live, refs, order, todo[1..], reference, t);
      } else {
        PassKeepsOutside(live - Target(live, todo[0]), refs, order, todo[1..], reference, t);
      }
    }
  }

  lemma {:induction false} OutsidePurgeFails(live: set<Row>, refs: References, order: seq<Table>, remaining: seq<Table>,
                                             pass: nat, reference: (Row, Row), t: Table)
    requires reference in refs && Blocks(live, t, reference) && t in remaining &&
      (forall u :: u in remaining ==> u in order)
    requires !(reference.0.purged && reference.0.table in order)
    ensures Passes(live, refs, remaining, pass).1 != Completed
    decreases MAX_PASSES + 1 - pass
  {
    if pass <= MAX_PASSES {
      PassFacts(live, refs, remaining);
      PassKeepsOutside(live, refs, order, remaining, reference, t);
      var (left, blocked) := Pass(live, refs, remaining);
      if !(|blocked| == |remaining| && left == live) {
        OutsidePurgeFails(left, refs, order, blocked, pass + 1, reference, t);
      }
    }
  }

  // ---- Main results ----

  /** A chain with too many late references, or a row from outside, is exactly what keeps the purge from completing. */
  lemma PurgeCompletesExactly(live: set<Row>, refs: References, tables: seq<Table>)
    requires Distinct(tables)
    ensures Passes(live, refs, tables, 1).1 == Completed <==>
      && !OutsideReferrer(live, refs, tables)
      && forall walk :: IsWalk(live, refs, tables, walk) ==> LateLinks(tables, walk) < 50
  {
    ListIsInOrder(tables);
    hide Passes, LastPass, IsWalk, LateLinks, Position, InOrder;
    if !OutsideReferrer(live, refs, tables) && LateAtMost(live, refs, tables, MAX_PASSES - 1) {
      FewLateCompletes(live, refs, tables, MAX_PASSES - 1);
    }
    if Passes(live, refs, tables, 1).1 == Completed {
      if OutsideReferrer(live, refs, tables) {
        var reference, t :| reference in refs && t in tables && Blocks(live, t, reference)
          && !(reference.0.purged && reference.0.table in tables);
        OutsidePurgeFails(live, refs, tables, tables, 1, reference, t);
      }
      forall walk | IsWalk(live, refs, tables, walk) ensures LateLinks(tables, walk) < MAX_PASSES {
        LateChainOutlasts(live, refs, tables, tables, 1, walk);
      }
    }
  }

  lemma FewLateCompletes(live: set<Row>, refs: References, tables: seq<Table>, bound: nat)
    requires Distinct(tables) && !OutsideReferrer(live, refs, tables) && LateAtMost(live, refs, tables, bound)
    ensures bound < MAX_PASSES ==> Passes(live, refs, tables, 1).1 == Completed
    ensures LastPass(live, refs, tables, 1) <= bound + 1
    ensures !Passes(live, refs, tables, 1).1.NoProgress?
  {
    ListIsInOrder(tables);
    LateRanksTables(live, refs, tables, bound);
    hide Passes, LastPass, LateAtMost, OutsideReferrer, RankedInOrder, InOrder;
    var rank, pos := LateRank(live, refs, tables, bound), PositionIn(tables);
    RankedPurgeCompletes(live, refs, tables, tables, rank, pos, 1);
    RankedPassCount(live, refs, tables, tables, rank, pos, 1, bound + 1);
  }

  /** A purge that completes makes one pass more than the most late references of any chain. */
  lemma PassesAreLateLinks(live: set<Row>, refs: References, tables: seq<Table>, passes: nat)
    requires Distinct(tables) && Passes(live, refs, tables, 1).1 == Completed && passes > 0
    ensures LastPass(live, refs, tables, 1) <= passes <==>
      forall walk :: IsWalk(live, refs, tables, walk) ==> LateLinks(tables, walk) < passes
  {
    ListIsInOrder(tables);
    PurgeCompletesExactly(live, refs, tables);
    hide Passes, LastPass, IsWalk, LateLinks, Position, InOrder, OutsideReferrer;
    if forall walk :: IsWalk(live, refs, tables, walk) ==> LateLinks(tables, walk) < passes {
      FewLateCompletes(live, refs, tables, passes - 1);
    }
    forall walk | IsWalk(live, refs, tables, walk) && LastPass(live, refs, tables, 1) <= passes
      ensures LateLinks(tables, walk) < passes
    {
      LateChainOutlasts(live, refs, tables, tables, 1, walk);
    }
  }

  /** Without cycles and outside referrers, running out of passes is exactly having a chain of 50 late references. */
  lemma OutOfPassesExactly(live: set<Row>, refs: References, tables: seq<Table>)
    requires Distinct(tables) && !OutsideReferrer(live, refs, tables) &&
      forall cycle :: !IsCycle(live, refs, tables, cycle)
    ensures Passes(live, refs, tables, 1).1.OutOfPasses? <==>
      exists walk :: IsWalk(live, refs, tables, walk) && LateLinks(tables, walk) >= 50
  {
    PurgeCompletesExactly(live, refs, tables);
    AcyclicPurgeNeverStuck(live, refs, tables);
    hide Passes, IsWalk, LateLinks, OutsideReferrer, IsCycle;
  }

  // ---- Both sides of the cap ----

  /** Tables of which each refers to the one before it in the list. */
  function BackwardTables(n: nat): seq<Table> {
    seq(n, i requires 0 <= i < n => Named(i))
  }

  function Named(i: nat): Table {
    if i == 0 then "" else Named(i - 1) + "x"
  }

  function BackwardRows(n: nat): set<Row> {
    set i | 0 <= i < n :: Row(Named(i), 0, true)
  }

  function Link(i: nat): (Row, Row) {
    (Row(Named(i + 1), 0, true), Row(Named(i), 0, true))
  }

  function BackwardReferences(n: nat): References {
    set i | 0 <= i < n - 1 :: Link(i)
  }

  lemma {:induction false} NamesAreLong(i: nat)
    ensures |Named(i)| == i
  {
    if i > 0 { NamesAreLong(i - 1); }
  }

  lemma BackwardIsDistinct(n: nat)
    ensures Distinct(BackwardTables(n))
    ensures forall i :: 0 <= i < n ==> Position(BackwardTables(n), Named(i)) == i
  {
    var tables := BackwardTables(n);
    forall i: nat ensures |Named(i)| == i { NamesAreLong(i); }
    forall i, j | 0 <= i < j < n ensures tables[i] != tables[j] {
      assert |tables[i]| == i && |tables[j]| == j;
    }
    forall i | 0 <= i < n ensures Position(tables, Named(i)) == i {
      PositionOf(tables, i);
      assert tables[i] == Named(i);
    }
  }

  /** The chain through the first `k` tables, from the last of them to the first. */
  function Backwards(k: nat): seq<Table> {
    seq(k, j requires 0 <= j < k => Named(k - 1 - j))
  }

  lemma BackwardLink(n: nat, i: nat)
    requires i + 1 < n
    ensures RefersTo(BackwardRows(n), BackwardReferences(n), Named(i + 1), Named(i))
  {
    NamesAreLong(i);
    NamesAreLong(i + 1);
    assert Link(i) in BackwardReferences(n);
    assert Links(BackwardRows(n), Named(i + 1), Named(i), Link(i));
  }

  lemma {:induction false} BackwardsIsLate(n: nat, k: nat)
    requires 1 <= k <= n
    ensures IsWalk(BackwardRows(n), BackwardReferences(n), BackwardTables(n), Backwards(k))
    ensures LateLinks(BackwardTables(n), Backwards(k)) == k - 1
  {
    BackwardIsDistinct(n);
    hide RefersTo, BackwardRows, BackwardReferences, Position, Named;
    var walk, tables := Backwards(k), BackwardTables(n);
    forall j | 0 <= j < k ensures walk[j] in tables { assert tables[k - 1 - j] == walk[j]; }
    forall j | 0 <= j < k - 1 ensures RefersTo(BackwardRows(n), BackwardReferences(n), walk[j], walk[j + 1]) {
      BackwardLink(n, k - 2 - j);
    }
    if k > 1 {
      BackwardsIsLate(n, k - 1);
      assert walk[1..] == Backwards(k - 1);
    }
  }

  ghost function BackwardRank(n: nat): Table -> nat {
    t => if |t| < n then n - 1 - |t| else 0
  }

  lemma BackwardIsRanked(n: nat)
    ensures Ranked(BackwardRows(n), BackwardReferences(n), BackwardTables(n), BackwardRank(n))
  {
    var live, refs, tables := BackwardRows(n), BackwardReferences(n), BackwardTables(n);
    forall reference, t | reference in refs && t in tables && Blocks(live, t, reference)
      ensures reference.0.purged && reference.0.table in tables &&
        BackwardRank(n)(reference.0.table) < BackwardRank(n)(t)
    {
      var i: nat :| i < n - 1 && reference == Link(i);
      NamesAreLong(i);
      NamesAreLong(i + 1);
      assert tables[i + 1] == Named(i + 1);
    }
  }

  /** Visited in this order, up to 50 tables are all emptied, and with one more the passes run out. */
  lemma BackwardChainsReachTheCap(n: nat)
    ensures var outcome := Passes(BackwardRows(n), BackwardReferences(n), BackwardTables(n), 1).1;
      if n <= 50 then outcome == Completed else outcome.OutOfPasses?
  {
    var live, refs, tables := BackwardRows(n), BackwardReferences(n), BackwardTables(n);
    BackwardIsRanked(n);
    BackwardIsDistinct(n);
    hide Passes, BackwardRows, BackwardReferences, BackwardTables, Ranked, Distinct, Backwards, IsWalk;
    RankedPurgeSucceeds(live, refs, tables, BackwardRank(n));
    if n > MAX_PASSES {
      BackwardsIsLate(n, n);
      PurgeCompletesExactly(live, refs, tables);
    }
  }
}
