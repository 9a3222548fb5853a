/**
 * The tenant purge of apps/api/prisma/purge-tenants.ts: passes over the tenant-scoped tables, each
 * deleting the tables that no remaining row blocks, until nothing is left or a pass makes no progress.
 */
module PurgeTenants {
  import opened Foundations

  type Table = string

  /** A database row; `purged` tells whether it belongs to one of the tenants being purged. */
  datatype Row = Row(table: Table, id: nat, purged: bool)

  /** Restrict references, as pairs of the referring and the referenced row. */
  type References = set<(Row, Row)>

  const MAX_PASSES := 50

  /** The rows a DELETE on `table` removes. */
  function Target(live: set<Row>, table: Table): set<Row> {
    set r | r in live && r.table == table && r.purged
  }

  /** A live row outside the deleted ones refers to one of them, so the whole DELETE fails. */
  predicate Blocks(live: set<Row>, table: Table, reference: (Row, Row)) {
    reference.1 in Target(live, table) && reference.0 in live && reference.0 !in Target(live, table)
  }

  predicate Blocked(live: set<Row>, refs: References, table: Table) {
    exists reference :: reference in refs && Blocks(live, table, reference)
  }

  /** One pass: the rows left and the tables that stayed blocked. */
  function Pass(live: set<Row>, refs: References, tables: seq<Table>): (set<Row>, seq<Table>) {
    if tables == [] then (live, [])
    else if Blocked(live, refs, tables[0]) then
      var (left, blocked) := Pass(live, refs, tables[1..]);
      (left, [tables[0]] + blocked)
    else Pass(live - Target(live, tables[0]), refs, tables[1..])
  }

  datatype Outcome = Completed | NoProgress(blocked: seq<Table>) | OutOfPasses(left: seq<Table>)

  /** The passes from number `pass` on. */
  function Passes(live: set<Row>, refs: References, remaining: seq<Table>, pass: nat): (set<Row>, Outcome)
    decreases MAX_PASSES + 1 - pass
  {
    if remaining == [] then (live, Completed)
    else if pass > MAX_PASSES then (live, OutOfPasses(remaining))
    else
      var (left, blocked) := Pass(live, refs, remaining);
      if |blocked| == |remaining| && left == live then (live, NoProgress(blocked))
      else Passes(left, refs, blocked, pass + 1)
  }

  /** How many passes have been made when the loop ends. */
  function LastPass(live: set<Row>, refs: References, remaining: seq<Table>, pass: nat): int
    decreases MAX_PASSES + 1 - pass
  {
    if remaining == [] || pass > MAX_PASSES then pass - 1
    else
      var (left, blocked) := Pass(live, refs, remaining);
      if |blocked| == |remaining| && left == live then pass
      else LastPass(left, refs, blocked, pass + 1)
  }

  class Database {
    var live: set<Row>
    const refs: References

    constructor (live: set<Row>, refs: References)
      ensures this.live == live && this.refs == refs
    {
      this.live, this.refs := live, refs;
    }

    method Delete(table: Table) returns (ok: bool, deleted: nat)
      modifies this
      ensures ok <==> !Blocked(old(live), refs, table)
      ensures live == if ok then old(live) - Target(old(live), table) else old(live)
      ensures deleted == if ok then |Target(old(live), table)| else 0
    {
      ok := !Blocked(live, refs, table);
      deleted := 0;
      if ok {
        deleted := |Target(live, table)|;
        live := live - Target(live, table);
      }
    }

    method Purge(tables: seq<Table>) returns (outcome: Outcome, ghost passes: int)
      modifies this
      ensures (live, outcome) == Passes(old(live), refs, tables, 1)
      ensures passes == LastPass(old(live), refs, tables, 1)
    {
      var remaining := tables;
      var pass := 1;
      while pass <= MAX_PASSES && |remaining| > 0
        invariant 1 <= pass <= MAX_PASSES + 1
        invariant Passes(live, refs, remaining, pass) == Passes(old(live), refs, tables, 1)
        invariant LastPass(live, refs, remaining, pass) == LastPass(old(live), refs, tables, 1)
        decreases MAX_PASSES + 1 - pass
      {
        var deletedThisPass := 0;
        var blocked := [];
        ghost var before := live;
        assert remaining[0..] == remaining;
        for i := 0 to |remaining|
          invariant live <= before && deletedThisPass == |before| - |live|
          invariant Pass(before, refs, remaining).0 == Pass(live, refs, remaining[i..]).0
          invariant Pass(before, refs, remaining).1 == blocked + Pass(live, refs, remaining[i..]).1
        {
          assert remaining[i..][1..] == remaining[i + 1..];
          var ok, deleted := Delete(remaining[i]);
          if ok {
            deletedThisPass := deletedThisPass + deleted;
          } else {
            blocked := blocked + [remaining[i]];
          }
        }
        assert remaining[|remaining|..] == [];
        assert Pass(before, refs, remaining).1 == blocked && Pass(before, refs, remaining).0 == live;
        SubsetCardinality(live, before);
        if |blocked| == |remaining| && deletedThisPass == 0 {
          return NoProgress(blocked), pass;
        }
        remaining := blocked;
        pass := pass + 1;
      }
      return if remaining == [] then Completed else OutOfPasses(remaining), pass - 1;
    }
  }

  // ---- Facts about one pass ----

  /** A pass removes nothing but target rows, reports some of its tables as blocked, and empties the others. */
  lemma {:induction false} PassFacts(live: set<Row>, refs: References, tables: seq<Table>)
    ensures var (left, blocked) := Pass(live, refs, tables);
      && left <= live && |blocked| <= |tables|
      && (forall t :: t in blocked ==> t in tables)
      && (forall t :: t in tables && t !in blocked ==> Target(left, t) == {})
      && (|blocked| == |tables| ==> blocked == tables && left == live)
      && (forall r :: r in live && r !in left ==> r.purged && r.table in tables)
  {
    if tables != [] {
      hide Blocked;
      assert tables == [tables[0]] + tables[1..];
      var rest := if Blocked(live, refs, tables[0]) then live else live - Target(live, tables[0]);
      PassFacts(rest, refs, tables[1..]);
    }
  }

  // ---- Acyclic references: the purge completes ----

  /**
   * `rank` orders the tables so that every live row with a Restrict reference to a target row, other
   * than one deleted along with it, is itself a target row of a table of lower rank. It exists when
   * the references among the tables are acyclic and none comes from outside them.
   */
  ghost predicate Ranked(live: set<Row>, refs: References, tables: seq<Table>, rank: Table -> nat) {
    forall reference, t :: reference in refs && t in tables && Blocks(live, t, reference) ==>
      reference.0.purged && reference.0.table in tables && rank(reference.0.table) < rank(t)
  }

  /**
   * The same with ties: a referrer may have the rank of what it refers to, if it comes before it in the
   * order in which a pass visits the tables.
   */
  ghost predicate RankedInOrder(live: set<Row>, refs: References, tables: seq<Table>, rank: Table -> nat,
                                pos: Table -> nat)
  {
    forall reference, t :: reference in refs && t in tables && Blocks(live, t, reference) ==>
      reference.0.purged && reference.0.table in tables && Precedes(reference.0.table, t, rank, pos)
  }

  predicate Precedes(from: Table, to: Table, rank: Table -> nat, pos: Table -> nat) {
    rank(from) < rank(to) || (rank(from) == rank(to) && pos(from) < pos(to))
  }

  /** A pass visits the tables by their position. */
  predicate InOrder(todo: seq<Table>, pos: Table -> nat) {
    forall i, j :: 0 <= i < j < |todo| ==> pos(todo[i]) <= pos(todo[j])
  }

  /** Every table below rank `depth` is emptied, and all that is left to do is in `remaining`. */
  ghost predicate Advanced(live: set<Row>, tables: seq<Table>, remaining: seq<Table>, rank: Table -> nat, depth: nat) {
    && (forall t :: t in remaining ==> t in tables && rank(t) >= depth)
    && (forall t :: t in tables && t !in remaining ==> Target(live, t) == {})
  }

  lemma FewerRowsStayRanked(live: set<Row>, left: set<Row>, refs: References, tables: seq<Table>,
                            rank: Table -> nat, pos: Table -> nat)
    requires RankedInOrder(live, refs, tables, rank, pos)
    requires left <= live && forall r :: r in live && r !in left ==> r.purged
    ensures RankedInOrder(left, refs, tables, rank, pos)
  {
    hide Precedes;
    forall reference, t | reference in refs && t in tables && Blocks(left, t, reference)
      ensures reference.0.purged && reference.0.table in tables && Precedes(reference.0.table, t, rank, pos)
    {
      assert Blocks(live, t, reference);
    }
  }

  lemma {:induction false} PassKeepsOrder(live: set<Row>, refs: References, todo: seq<Table>, pos: Table -> nat)
    requires InOrder(todo, pos)
    ensures InOrder(Pass(live, refs, todo).1, pos)
  {
    if todo != [] {
      hide Blocked;
      var rest := if Blocked(live, refs, todo[0]) then live else live - Target(live, todo[0]);
      PassKeepsOrder(rest, refs, todo[1..], pos);
      PassFacts(rest, refs, todo[1..]);
      var blocked := Pass(rest, refs, todo[1..]).1;
      forall k | 0 <= k < |blocked| ensures pos(todo[0]) <= pos(blocked[k]) {
        assert blocked[k] in todo[1..];
      }
    }
  }

  /** What a pass still has to visit holds every table of rank `depth` with target rows, and none below has any. */
  ghost predicate DepthAhead(live: set<Row>, tables: seq<Table>, todo: seq<Table>, rank: Table -> nat, depth: nat) {
    && (forall t :: t in todo ==> t in tables && rank(t) >= depth)
    && (forall t :: t in tables && rank(t) < depth ==> Target(live, t) == {})
    && (forall t :: t in tables && rank(t) == depth && Target(live, t) != {} ==> t in todo)
  }

  lemma LowestIsFree(live: set<Row>, refs: References, tables: seq<Table>, todo: seq<Table>,
                     rank: Table -> nat, pos: Table -> nat, depth: nat)
    requires RankedInOrder(live, refs, tables, rank, pos) && InOrder(todo, pos) && todo != []
    requires DepthAhead(live, tables, todo, rank, depth)
    ensures Blocked(live, refs, todo[0]) ==> rank(todo[0]) > depth
  {
    var t := todo[0];
    forall reference | reference in refs && Blocks(live, t, reference) ensures rank(t) > depth {
      var from := reference.0.table;
      assert reference.0 in Target(live, from);
      if rank(from) == depth {
        var k :| 0 <= k < |todo| && todo[k] == from;
        assert pos(todo[0]) <= pos(todo[k]) || k == 0;
      }
    }
  }

  /** A pass blocks no table of the lowest rank left. */
  lemma {:induction false} PassAdvances(live: set<Row>, refs: References, tables: seq<Table>, todo: seq<Table>,
                                        rank: Table -> nat, pos: Table -> nat, depth: nat)
    requires RankedInOrder(live, refs, tables, rank, pos) && InOrder(todo, pos)
    requires DepthAhead(live, tables, todo, rank, depth)
    ensures forall t :: t in Pass(live, refs, todo).1 ==> rank(t) > depth
  {
    if todo != [] {
      hide Blocked, RankedInOrder;
      var t := todo[0];
      assert todo == [t] + todo[1..];
      LowestIsFree(live, refs, tables, todo, rank, pos, depth);
      var rest := if Blocked(live, refs, t) then live else live - Target(live, t);
      FewerRowsStayRanked(live, rest, refs, tables, rank, pos);
      assert forall u :: Target(rest, u) <= Target(live, u);
      assert rest != live ==> Target(rest, t) == {};
      PassAdvances(rest, refs, tables, todo[1..], rank, pos, depth);
    }
  }

  /**
   * With ranked references the no-progress exit is never taken, and if every rank is below the number
   * of passes still allowed, the purge completes with every target row gone.
   */
  lemma {:induction false} RankedPurgeCompletes(live: set<Row>, refs: References, tables: seq<Table>,
                                                remaining: seq<Table>, rank: Table -> nat, pos: Table -> nat, pass: nat)
    requires RankedInOrder(live, refs, tables, rank, pos) && InOrder(remaining, pos)
    requires 1 <= pass <= MAX_PASSES + 1 && Advanced(live, tables, remaining, rank, pass - 1)
    ensures !Passes(live, refs, remaining, pass).1.NoProgress?
    ensures (forall t :: t in tables ==> rank(t) < MAX_PASSES) ==>
      var (left, outcome) := Passes(live, refs, remaining, pass);
      outcome == Completed && forall t :: t in tables ==> Target(left, t) == {}
    decreases MAX_PASSES + 1 - pass
  {
    if remaining != [] {
      assert remaining[0] in remaining;
      if pass <= MAX_PASSES {
        PassKeepsAdvanced(live, refs, tables, remaining, rank, pos, pass - 1);
        NotAllBlocked(live, refs, tables, remaining, rank, pos, pass - 1);
        var (left, blocked) := Pass(live, refs, remaining);
        RankedPurgeCompletes(left, refs, tables, blocked, rank, pos, pass + 1);
      }
    }
  }

  /** A pass empties every table of the lowest rank left. */
  lemma PassKeepsAdvanced(live: set<Row>, refs: References, tables: seq<Table>, remaining: seq<Table>,
                          rank: Table -> nat, pos: Table -> nat, depth: nat)
    requires RankedInOrder(live, refs, tables, rank, pos) && InOrder(remaining, pos)
    requires Advanced(live, tables, remaining, rank, depth)
    ensures var (left, blocked) := Pass(live, refs, remaining);
      RankedInOrder(left, refs, tables, rank, pos) && InOrder(blocked, pos) &&
        Advanced(left, tables, blocked, rank, depth + 1)
  {
    PassFacts(live, refs, remaining);
    var (left, blocked) := Pass(live, refs, remaining);
    forall t | t in tables && rank(t) < depth ensures Target(live, t) == {} {
      assert t !in remaining;
    }
    PassAdvances(live, refs, tables, remaining, rank, pos, depth);
    PassKeepsOrder(live, refs, remaining, pos);
    FewerRowsStayRanked(live, left, refs, tables, rank, pos);
    forall t | t in tables && t !in blocked ensures Target(left, t) == {} {
      if t !in remaining { assert Target(left, t) <= Target(live, t); }
    }
  }

  /** One pass for each rank is enough. */
  lemma {:induction false} RankedPassCount(live: set<Row>, refs: References, tables: seq<Table>, remaining: seq<Table>,
                                           rank: Table -> nat, pos: Table -> nat, pass: nat, ranks: nat)
    requires RankedInOrder(live, refs, tables, rank, pos) && InOrder(remaining, pos)
    requires forall t :: t in tables ==> rank(t) < ranks
    requires 1 <= pass <= MAX_PASSES + 1 && pass - 1 <= ranks && Advanced(live, tables, remaining, rank, pass - 1)
    ensures LastPass(live, refs, remaining, pass) <= ranks
    decreases MAX_PASSES + 1 - pass
  {
    if remaining != [] && pass <= MAX_PASSES {
      assert remaining[0] in remaining;
      PassKeepsAdvanced(live, refs, tables, remaining, rank, pos, pass - 1);
      var (left, blocked) := Pass(live, refs, remaining);
      RankedPassCount(left, refs, tables, blocked, rank, pos, pass + 1, ranks);
    }
  }

  /** The first table in rank order is never blocked, so a pass over tables that remain makes progress. */
  lemma NotAllBlocked(live: set<Row>, refs: References, tables: seq<Table>, remaining: seq<Table>,
                      rank: Table -> nat, pos: Table -> nat, depth: nat)
    requires RankedInOrder(live, refs, tables, rank, pos) && InOrder(remaining, pos) && remaining != []
    requires Advanced(live, tables, remaining, rank, depth)
    ensures |Pass(live, refs, remaining).1| < |remaining|
  {
    PassFacts(live, refs, remaining);
    var least := LeastRank(remaining, rank);
    forall t | t in tables && rank(t) < rank(least) ensures Target(live, t) == {} {
      assert t !in remaining;
    }
    PassAdvances(live, refs, tables, remaining, rank, pos, rank(least));
  }

  lemma {:induction false} LeastRank(tables: seq<Table>, rank: Table -> nat) returns (least: Table)
    requires tables != []
    ensures least in tables && forall t :: t in tables ==> rank(least) <= rank(t)
  {
    least := tables[0];
    if |tables| > 1 {
      assert tables == [tables[0]] + tables[1..];
      var other := LeastRank(tables[1..], rank);
      if rank(other) < rank(least) { least := other; }
    }
  }

  // ---- A stuck purge exhibits a cycle or an outside referrer ----

  /** A live target row of `from` refers to a target row of another table `to`. */
  ghost predicate RefersTo(live: set<Row>, refs: References, from: Table, to: Table) {
    from != to && exists reference :: reference in refs && Links(live, from, to, reference)
  }

  predicate Links(live: set<Row>, from: Table, to: Table, reference: (Row, Row)) {
    reference.0 in Target(live, from) && reference.1 in Target(live, to)
  }

  /** A live row that is no target row of the tables blocks one of them. */
  ghost predicate OutsideReferrer(live: set<Row>, refs: References, tables: seq<Table>) {
    exists reference, t :: reference in refs && t in tables && Blocks(live, t, reference)
      && !(reference.0.purged && reference.0.table in tables)
  }

  /** A closed walk of references through the tables. */
  ghost predicate IsCycle(live: set<Row>, refs: References, tables: seq<Table>, cycle: seq<Table>) {
    && |cycle| >= 2 && cycle[0] == cycle[|cycle| - 1]
    && (forall i :: 0 <= i < |cycle| ==> cycle[i] in tables)
    && forall i :: 0 <= i < |cycle| - 1 ==> RefersTo(live, refs, cycle[i], cycle[i + 1])
  }

  ghost predicate HasReferrer(live: set<Row>, refs: References, tables: seq<Table>, t: Table) {
    exists from :: from in tables && RefersTo(live, refs, from, t)
  }

  ghost predicate IsWalk(live: set<Row>, refs: References, tables: seq<Table>, walk: seq<Table>) {
    && walk != []
    && (forall i :: 0 <= i < |walk| ==> walk[i] in tables)
    && forall i :: 0 <= i < |walk| - 1 ==> RefersTo(live, refs, walk[i], walk[i + 1])
  }

  lemma WalkExtends(live: set<Row>, refs: References, tables: seq<Table>, walk: seq<Table>, from: Table)
    requires IsWalk(live, refs, tables, walk) && from in tables && RefersTo(live, refs, from, walk[0])
    ensures IsWalk(live, refs, tables, [from] + walk)
    ensures forall k :: 0 <= k < |walk| && walk[k] == from ==> IsCycle(live, refs, tables, [from] + walk[..k + 1])
  {
    hide RefersTo;
  }

  lemma WalkFits(live: set<Row>, refs: References, tables: seq<Table>, walk: seq<Table>, from: Table)
    requires IsWalk(live, refs, tables, walk) && from in tables
    requires forall i, j :: 0 <= i < j < |walk| ==> walk[i] != walk[j]
    ensures from !in walk ==> |walk| < |set t | t in tables|
  {
    hide RefersTo;
    if from !in walk { DistinctFit([from] + walk, set t | t in tables); }
  }

  /** Walking back along references over finitely many tables, a table comes up again. */
  lemma {:induction false} WalkFindsCycle(live: set<Row>, refs: References, tables: seq<Table>, walk: seq<Table>)
    returns (cycle: seq<Table>)
    requires forall t :: t in tables ==> HasReferrer(live, refs, tables, t)
    requires IsWalk(live, refs, tables, walk)
    requires forall i, j :: 0 <= i < j < |walk| ==> walk[i] != walk[j]
    ensures IsCycle(live, refs, tables, cycle)
    decreases |set t | t in tables| - |walk|
  {
    hide RefersTo, IsCycle;
    assert HasReferrer(live, refs, tables, walk[0]);
    var from :| from in tables && RefersTo(live, refs, from, walk[0]);
    WalkExtends(live, refs, tables, walk, from);
    WalkFits(live, refs, tables, walk, from);
    hide HasReferrer, IsWalk;
    if from in walk {
      var k :| 0 <= k < |walk| && walk[k] == from;
      cycle := [from] + walk[..k + 1];
    } else {
      cycle := WalkFindsCycle(live, refs, tables, [from] + walk);
    }
  }

  lemma {:induction false} DistinctFit(walk: seq<Table>, all: set<Table>)
    requires forall i :: 0 <= i < |walk| ==> walk[i] in all
    requires forall i, j :: 0 <= i < j < |walk| ==> walk[i] != walk[j]
    ensures |walk| <= |all|
  {
    if walk != [] {
      DistinctFit(walk[1..], all - {walk[0]});
    }
  }

  lemma InsideReferrer(live: set<Row>, refs: References, tables: seq<Table>, t: Table, reference: (Row, Row))
    requires !OutsideReferrer(live, refs, tables) && t in tables
    requires reference in refs && Blocks(live, t, reference)
    ensures reference.0.table in tables && RefersTo(live, refs, reference.0.table, t)
  {
    assert reference.0.purged && reference.0.table in tables;
    assert Links(live, reference.0.table, t, reference);
  }

  /** Tables that all stay blocked are blocked from outside, or lie on a cycle of references. */
  lemma AllBlockedHasReason(live: set<Row>, refs: References, tables: seq<Table>) returns (cycle: seq<Table>)
    requires tables != [] && forall t :: t in tables ==> Blocked(live, refs, t)
    ensures OutsideReferrer(live, refs, tables) || IsCycle(live, refs, tables, cycle)
  {
    hide OutsideReferrer, RefersTo, IsCycle, Blocks;
    cycle := [];
    if !OutsideReferrer(live, refs, tables) {
      forall t | t in tables ensures HasReferrer(live, refs, tables, t) {
        var reference :| reference in refs && Blocks(live, t, reference);
        InsideReferrer(live, refs, tables, t, reference);
      }
      hide Blocked, HasReferrer;
      cycle := WalkFindsCycle(live, refs, tables, [tables[0]]);
    }
  }

  lemma {:induction false} UnmovedPassIsBlocked(live: set<Row>, refs: References, tables: seq<Table>)
    requires |Pass(live, refs, tables).1| == |tables|
    ensures forall t :: t in tables ==> Blocked(live, refs, t)
  {
    if tables != [] {
      assert tables == [tables[0]] + tables[1..];
      PassFacts(live, refs, tables[1..]);
      PassFacts(live - Target(live, tables[0]), refs, tables[1..]);
      if Blocked(live, refs, tables[0]) {
        UnmovedPassIsBlocked(live, refs, tables[1..]);
      }
    }
  }

  /**
   * The no-progress exit always has a reason: among the rows left, the tables it reports lie on a
   * cycle of Restrict references, or a row outside them refers to one of them.
   */
  lemma {:induction false} NoProgressHasReason(live: set<Row>, refs: References, remaining: seq<Table>, pass: nat)
    returns (cycle: seq<Table>)
    requires Passes(live, refs, remaining, pass).1.NoProgress?
    ensures var (left, outcome) := Passes(live, refs, remaining, pass);
      && outcome.blocked != []
      && (OutsideReferrer(left, refs, outcome.blocked) || IsCycle(left, refs, outcome.blocked, cycle))
    decreases MAX_PASSES + 1 - pass
  {
    PassFacts(live, refs, remaining);
    var (left, blocked) := Pass(live, refs, remaining);
    if |blocked| == |remaining| && left == live {
      UnmovedPassIsBlocked(live, refs, remaining);
      cycle := AllBlockedHasReason(live, refs, remaining);
    } else {
      cycle := NoProgressHasReason(left, refs, blocked, pass + 1);
    }
  }

  // ---- Cycles are never purged ----

  /** A pass leaves every table of a cycle of references blocked, with all the cycle's references alive. */
  lemma {:induction false} PassKeepsCycle(live: set<Row>, refs: References, todo: seq<Table>, tables: seq<Table>,
                                          cycle: seq<Table>)
    requires IsCycle(live, refs, tables, cycle)
    ensures IsCycle(Pass(live, refs, todo).0, refs, tables, cycle)
    ensures forall t :: t in todo && t in cycle ==> t in Pass(live, refs, todo).1
  {
    if todo != [] {
      var t := todo[0];
      assert todo == [t] + todo[1..];
      if t in cycle {
        CycleTableIsBlocked(live, refs, tables, cycle, t);
        PassKeepsCycle(live, refs, todo[1..], tables, cycle);
      } else if Blocked(live, refs, t) {
        PassKeepsCycle(live, refs, todo[1..], tables, cycle);
      } else {
        var rest := live - Target(live, t);
        forall i | 0 <= i < |cycle| - 1 ensures RefersTo(rest, refs, cycle[i], cycle[i + 1]) {
          assert RefersTo(live, refs, cycle[i], cycle[i + 1]);
          var reference :| reference in refs && Links(live, cycle[i], cycle[i + 1], reference);
          assert cycle[i] in cycle && cycle[i + 1] in cycle && Links(rest, cycle[i], cycle[i + 1], reference);
        }
        PassKeepsCycle(rest, refs, todo[1..], tables, cycle);
      }
    }
  }

  lemma CycleTableIsBlocked(live: set<Row>, refs: References, tables: seq<Table>, cycle: seq<Table>, t: Table)
    requires IsCycle(live, refs, tables, cycle) && t in cycle
    ensures Blocked(live, refs, t)
  {
    var k :| 0 <= k < |cycle| && cycle[k] == t;
    var n := if k == 0 then |cycle| - 1 else k;
    assert RefersTo(live, refs, cycle[n - 1], cycle[n - 1 + 1]);
    var reference :| reference in refs && Links(live, cycle[n - 1], t, reference);
    assert Blocks(live, t, reference);
  }

  /** With a cycle among the tables still to purge, the purge never completes. */
  lemma {:induction false} CyclicPurgeFails(live: set<Row>, refs: References, remaining: seq<Table>, pass: nat,
                                            cycle: seq<Table>)
    requires IsCycle(live, refs, remaining, cycle)
    ensures Passes(live, refs, remaining, pass).1 != Completed
    decreases MAX_PASSES + 1 - pass
  {
    assert cycle[0] in remaining;
    if pass <= MAX_PASSES {
      var (left, blocked) := Pass(live, refs, remaining);
      PassKeepsCycle(live, refs, remaining, remaining, cycle);
      if !(|blocked| == |remaining| && left == live) {
        assert IsCycle(left, refs, blocked, cycle);
        CyclicPurgeFails(left, refs, blocked, pass + 1, cycle);
      }
    }
  }

  // ---- The purge as a whole ----

  /** What any number of passes leaves: fewer rows, and empty tables except those still reported. */
  lemma {:induction false} PassesFacts(live: set<Row>, refs: References, remaining: seq<Table>, pass: nat)
    ensures var (left, outcome) := Passes(live, refs, remaining, pass);
      && left <= live
      && (outcome.NoProgress? ==>
            && (forall t :: t in outcome.blocked ==> t in remaining)
            && (forall t :: t in remaining && t !in outcome.blocked ==> Target(left, t) == {}))
      && (outcome == Completed ==> forall t :: t in remaining ==> Target(left, t) == {})
      && (outcome.OutOfPasses? ==> |remaining| + pass > MAX_PASSES + 1)
    requires pass <= MAX_PASSES + 1
    decreases MAX_PASSES + 1 - pass
  {
    PassFacts(live, refs, remaining);
    var (left, blocked) := Pass(live, refs, remaining);
    if remaining != [] && pass <= MAX_PASSES && !(|blocked| == |remaining| && left == live) {
      PassesFacts(left, refs, blocked, pass + 1);
      var (final, outcome) := Passes(live, refs, remaining, pass);
      forall t | outcome.NoProgress? && t in remaining && t !in outcome.blocked ensures Target(final, t) == {} {
        if t !in blocked { assert Target(final, t) <= Target(left, t); }
      }
      forall t | outcome == Completed && t in remaining ensures Target(final, t) == {} {
        if t !in blocked { assert Target(final, t) <= Target(left, t); }
      }
    }
  }

  /**
   * Without a cycle and without an outside referrer, the no-progress exit is never taken; and since
   * every pass then empties one more table, at most 50 tables are emptied within the cap.
   */
  lemma AcyclicPurgeNeverStuck(live: set<Row>, refs: References, tables: seq<Table>)
    requires !OutsideReferrer(live, refs, tables)
    requires forall cycle :: !IsCycle(live, refs, tables, cycle)
    ensures !Passes(live, refs, tables, 1).1.NoProgress?
    ensures |tables| <= MAX_PASSES ==>
      var (left, outcome) := Passes(live, refs, tables, 1);
      outcome == Completed && forall t :: t in tables ==> Target(left, t) == {}
  {
    PassesFacts(live, refs, tables, 1);
    var (left, outcome) := Passes(live, refs, tables, 1);
    if outcome.NoProgress? {
      var cycle := NoProgressHasReason(live, refs, tables, 1);
      if IsCycle(left, refs, outcome.blocked, cycle) {
        CycleWasThere(live, left, refs, tables, outcome.blocked, cycle);
      } else {
        ReferrerWasThere(live, left, refs, tables, outcome.blocked);
      }
    }
  }

  lemma CycleWasThere(live: set<Row>, left: set<Row>, refs: References, tables: seq<Table>, blocked: seq<Table>,
                      cycle: seq<Table>)
    requires left <= live && (forall t :: t in blocked ==> t in tables) && IsCycle(left, refs, blocked, cycle)
    ensures IsCycle(live, refs, tables, cycle)
  {
    forall i | 0 <= i < |cycle| - 1 ensures RefersTo(live, refs, cycle[i], cycle[i + 1]) {
      assert RefersTo(left, refs, cycle[i], cycle[i + 1]);
      var reference :| reference in refs && Links(left, cycle[i], cycle[i + 1], reference);
      assert Links(live, cycle[i], cycle[i + 1], reference);
    }
  }

  lemma ReferrerWasThere(live: set<Row>, left: set<Row>, refs: References, tables: seq<Table>, blocked: seq<Table>)
    requires left <= live && (forall t :: t in blocked ==> t in tables)
    requires forall t :: t in tables && t !in blocked ==> Target(left, t) == {}
    requires OutsideReferrer(left, refs, blocked)
    ensures OutsideReferrer(live, refs, tables)
  {
    var reference, t :| reference in refs && t in blocked && Blocks(left, t, reference)
      && !(reference.0.purged && reference.0.table in blocked);
    assert Blocks(live, t, reference);
    assert reference.0.purged ==> reference.0 in Target(left, reference.0.table);
  }

  /**
   * With ranked references every run of the purge ends without the no-progress exit; if the ranks stay
   * below the cap of 50 passes, it completes and no target row of any table is left.
   */
  lemma RankedPurgeSucceeds(live: set<Row>, refs: References, tables: seq<Table>, rank: Table -> nat)
    requires Ranked(live, refs, tables, rank)
    ensures !Passes(live, refs, tables, 1).1.NoProgress?
    ensures (forall t :: t in tables ==> rank(t) < MAX_PASSES) ==>
      var (left, outcome) := Passes(live, refs, tables, 1);
      outcome == Completed && forall t :: t in tables ==> Target(left, t) == {}
  {
    RankedPurgeCompletes(live, refs, tables, tables, rank, t => 0, 1);
  }

  // ---- Ranks come from reference chains ----

  /** A chain of references through `n` tables ends at `t`. */
  ghost predicate EndsWalk(live: set<Row>, refs: References, tables: seq<Table>, t: Table, n: nat) {
    exists walk :: IsWalk(live, refs, tables, walk) && |walk| == n && walk[n - 1] == t
  }

  /** The length of the longest chain that ends at `t`, up to a bound. */
  ghost function LongestEnding(live: set<Row>, refs: References, tables: seq<Table>, t: Table, bound: nat): (n: nat)
    ensures n <= bound
    ensures n > 0 ==> EndsWalk(live, refs, tables, t, n)
    ensures forall k :: n < k <= bound ==> !EndsWalk(live, refs, tables, t, k)
  {
    if bound == 0 then 0
    else if EndsWalk(live, refs, tables, t, bound) then bound
    else LongestEnding(live, refs, tables, t, bound - 1)
  }

  ghost predicate ChainsAtMost(live: set<Row>, refs: References, tables: seq<Table>, bound: nat) {
    forall walk :: IsWalk(live, refs, tables, walk) ==> |walk| <= bound
  }

  lemma ChainExtends(live: set<Row>, refs: References, tables: seq<Table>, from: Table, to: Table, n: nat)
    requires EndsWalk(live, refs, tables, from, n) && RefersTo(live, refs, from, to) && to in tables
    ensures EndsWalk(live, refs, tables, to, n + 1)
  {
    hide RefersTo;
    var walk :| IsWalk(live, refs, tables, walk) && |walk| == n && walk[n - 1] == from;
    assert IsWalk(live, refs, tables, walk + [to]) && (walk + [to])[n] == to;
  }

  ghost function ChainRank(live: set<Row>, refs: References, tables: seq<Table>, bound: nat): Table -> nat {
    t => if LongestEnding(live, refs, tables, t, bound) == 0 then 0 else LongestEnding(live, refs, tables, t, bound) - 1
  }

  /** If chains have a longest length and nothing refers from outside, each table's longest chain ranks it. */
  lemma ChainsRankTables(live: set<Row>, refs: References, tables: seq<Table>, bound: nat)
    requires !OutsideReferrer(live, refs, tables) && ChainsAtMost(live, refs, tables, bound)
    ensures Ranked(live, refs, tables, ChainRank(live, refs, tables, bound))
    ensures forall t :: t in tables ==> ChainRank(live, refs, tables, bound)(t) < bound
  {
    forall t | t in tables ensures LongestEnding(live, refs, tables, t, bound) >= 1 {
      assert IsWalk(live, refs, tables, [t]) && [t][0] == t;
      assert EndsWalk(live, refs, tables, t, 1);
    }
    forall reference, t | reference in refs && t in tables && Blocks(live, t, reference)
      ensures reference.0.purged && reference.0.table in tables
        && LongestEnding(live, refs, tables, reference.0.table, bound) < LongestEnding(live, refs, tables, t, bound)
    {
      InsideReferrer(live, refs, tables, t, reference);
      var from := reference.0.table;
      var n := LongestEnding(live, refs, tables, from, bound);
      ChainExtends(live, refs, tables, from, t, n);
      var walk :| IsWalk(live, refs, tables, walk) && |walk| == n + 1 && walk[n] == t;
    }
  }

  /** Going around a cycle makes chains of any length. */
  lemma {:induction false} CycleMakesLongChains(live: set<Row>, refs: References, tables: seq<Table>,
                                                cycle: seq<Table>, n: nat)
    returns (walk: seq<Table>)
    requires IsCycle(live, refs, tables, cycle)
    ensures IsWalk(live, refs, tables, walk) && |walk| > n && walk[0] == cycle[0]
  {
    hide RefersTo;
    if n == 0 {
      walk := cycle;
    } else {
      var shorter := CycleMakesLongChains(live, refs, tables, cycle, n - 1);
      walk := cycle[..|cycle| - 1] + shorter;
      forall i | 0 <= i < |walk| - 1 ensures RefersTo(live, refs, walk[i], walk[i + 1]) {
        if i < |cycle| - 1 {
          assert RefersTo(live, refs, cycle[i], cycle[i + 1]);
        } else {
          var k := i - (|cycle| - 1);
          assert RefersTo(live, refs, shorter[k], shorter[k + 1]);
        }
      }
    }
  }

  /**
   * Without an outside referrer the purge takes no more passes than the longest chain of references has
   * tables, however many tables there are; if that is at most 50, it completes and every table is empty.
   */
  lemma PurgeTakesLongestChain(live: set<Row>, refs: References, tables: seq<Table>, longest: nat)
    requires !OutsideReferrer(live, refs, tables) && ChainsAtMost(live, refs, tables, longest)
    ensures LastPass(live, refs, tables, 1) <= longest
    ensures !Passes(live, refs, tables, 1).1.NoProgress?
    ensures longest <= MAX_PASSES ==>
      var (left, outcome) := Passes(live, refs, tables, 1);
      outcome == Completed && forall t :: t in tables ==> Target(left, t) == {}
  {
    hide OutsideReferrer, ChainsAtMost, Ranked, Passes, LastPass, ChainRank, Target;
    var rank := ChainRank(live, refs, tables, longest);
    ChainsRankTables(live, refs, tables, longest);
    RankedPurgeSucceeds(live, refs, tables, rank);
    RankedPassCount(live, refs, tables, tables, rank, t => 0, 1, longest);
  }

  /** Running out of passes exhibits a chain of more than 50 references, or an outside referrer. */
  lemma OutOfPassesHasReason(live: set<Row>, refs: References, tables: seq<Table>) returns (walk: seq<Table>)
    requires Passes(live, refs, tables, 1).1.OutOfPasses?
    ensures OutsideReferrer(live, refs, tables) || (IsWalk(live, refs, tables, walk) && |walk| > MAX_PASSES)
  {
    hide OutsideReferrer, Passes, LastPass, IsWalk;
    walk := [];
    if !OutsideReferrer(live, refs, tables) {
      if ChainsAtMost(live, refs, tables, MAX_PASSES) {
        PurgeTakesLongestChain(live, refs, tables, MAX_PASSES);
      }
      walk :| IsWalk(live, refs, tables, walk) && |walk| > MAX_PASSES;
    }
  }

  lemma RepeatClosesCycle(live: set<Row>, refs: References, tables: seq<Table>, walk: seq<Table>, i: nat, j: nat)
    requires IsWalk(live, refs, tables, walk) && i < j < |walk| && walk[i] == walk[j]
    ensures IsCycle(live, refs, tables, walk[i..j + 1])
  {
    hide RefersTo;
  }

  /** Two visits of one table on a chain close a cycle, so without cycles a chain is no longer than there are tables. */
  lemma AcyclicChainsAreShort(live: set<Row>, refs: References, tables: seq<Table>)
    requires forall cycle :: !IsCycle(live, refs, tables, cycle)
    ensures ChainsAtMost(live, refs, tables, |set t | t in tables|)
  {
    hide RefersTo;
    forall walk | IsWalk(live, refs, tables, walk) ensures |walk| <= |set t | t in tables| {
      forall i, j | 0 <= i < j < |walk| ensures walk[i] != walk[j] {
        if walk[i] == walk[j] { RepeatClosesCycle(live, refs, tables, walk, i, j); }
      }
      DistinctFit(walk, set t | t in tables);
    }
  }

  /** The longest chain is bounded exactly when there is no cycle, and an acyclic purge is ranked. */
  lemma AcyclicMeansRanked(live: set<Row>, refs: References, tables: seq<Table>)
    requires !OutsideReferrer(live, refs, tables)
    ensures (forall cycle :: !IsCycle(live, refs, tables, cycle)) <==>
      exists bound :: ChainsAtMost(live, refs, tables, bound)
    ensures (forall cycle :: !IsCycle(live, refs, tables, cycle)) ==> exists rank :: Ranked(live, refs, tables, rank)
  {
    hide OutsideReferrer, IsCycle, Ranked, IsWalk;
    if forall cycle :: !IsCycle(live, refs, tables, cycle) {
      AcyclicChainsAreShort(live, refs, tables);
      ChainsRankTables(live, refs, tables, |set t | t in tables|);
    }
    if exists bound :: ChainsAtMost(live, refs, tables, bound) {
      var bound :| ChainsAtMost(live, refs, tables, bound);
      forall cycle ensures !IsCycle(live, refs, tables, cycle) {
        if IsCycle(live, refs, tables, cycle) {
          var walk := CycleMakesLongChains(live, refs, tables, cycle, bound);
        }
      }
    }
  }

  /** Every pass over acyclic references empties at least one more table. */
  lemma AcyclicPassAdvances(live: set<Row>, refs: References, tables: seq<Table>)
    requires !OutsideReferrer(live, refs, tables) && tables != []
    requires forall cycle :: !IsCycle(live, refs, tables, cycle)
    ensures |Pass(live, refs, tables).1| < |tables|
  {
    PassFacts(live, refs, tables);
    if |Pass(live, refs, tables).1| == |tables| {
      UnmovedPassIsBlocked(live, refs, tables);
      var cycle := AllBlockedHasReason(live, refs, tables);
    }
  }
}
