/** The recently-viewed trail of apps/web/lib/recently-viewed.ts: one stored list shared by all scopes. */
module RecentlyViewed {
  import opened Foundations
  import opened MostRecent

  datatype Kind = Student | Invoice | Notice

  datatype Entry = Entry(kind: Kind, id: string, labelText: string, href: string, viewedAt: string,
                         scope: Option<string>)

  /** An element of the stored list that may or may not pass the entry check. */
  datatype Item = WellFormed(entry: Entry) | Malformed

  datatype Raw = Absent | Unreadable | Items(items: seq<Item>)

  const MAX_ENTRIES := 8

  function EntryKey(e: Entry): (Kind, string) { (e.kind, e.id) }

  function Entries(items: seq<Item>): seq<Entry> {
    if items == [] then []
    else (if items[0].WellFormed? then [items[0].entry] else []) + Entries(items[1..])
  }

  function ReadAll(raw: Raw): seq<Entry> {
    if raw.Items? then Entries(raw.items) else []
  }

  /** The entries of one scope, in stored order. */
  function OfScope(scope: Option<string>, entries: seq<Entry>): seq<Entry> {
    if entries == [] then []
    else if entries[0].scope == scope then [entries[0]] + OfScope(scope, entries[1..])
    else OfScope(scope, entries[1..])
  }

  function NotOfScope(scope: Option<string>, entries: seq<Entry>): seq<Entry> {
    if entries == [] then []
    else if entries[0].scope != scope then [entries[0]] + NotOfScope(scope, entries[1..])
    else NotOfScope(scope, entries[1..])
  }

  /** The stored list after recording `e`, whose scope is the recording scope. */
  function Recorded(all: seq<Entry>, e: Entry): seq<Entry> {
    Touch(MAX_ENTRIES, EntryKey, OfScope(e.scope, all), e) + NotOfScope(e.scope, all)
  }

  function Stored(entries: seq<Entry>): seq<Item> {
    if entries == [] then [] else [WellFormed(entries[0])] + Stored(entries[1..])
  }

  lemma {:induction false} StoredReadsBack(entries: seq<Entry>)
    ensures Entries(Stored(entries)) == entries
  {
    if entries != [] {
      StoredReadsBack(entries[1..]);
      assert Stored(entries)[1..] == Stored(entries[1..]);
    }
  }

  class RecentlyViewedStore {
    var raw: Raw

    constructor ()
      ensures ReadAll(raw) == []
    {
      raw := Absent;
    }

    /** A read without a scope returns every entry. */
    method Read(scope: Option<string>) returns (trail: seq<Entry>)
      ensures trail == if scope.None? then ReadAll(raw) else OfScope(scope, ReadAll(raw))
    {
      trail := ReadAll(raw);
      if scope.Some? {
        trail := OfScope(scope, trail);
      }
    }

    /** Returns the recording scope's new trail, which every later scoped read returns too. */
    method Record(e: Entry) returns (next: seq<Entry>)
      modifies this
      ensures ReadAll(raw) == Recorded(old(ReadAll(raw)), e)
      ensures next == OfScope(e.scope, ReadAll(raw))
    {
      var all := ReadAll(raw);
      var mine, others := OfScope(e.scope, all), NotOfScope(e.scope, all);
      var deduped := Without(EntryKey, mine, EntryKey(e));
      next := Take(MAX_ENTRIES, [e] + deduped);
      raw := Items(Stored(next + others));
      StoredReadsBack(next + others);
      RecordChangesOneScope(all, e, e.scope);
    }

    method Clear()
      modifies this
      ensures ReadAll(raw) == []
    {
      raw := Absent;
    }
  }

  lemma {:induction false} ScopeOfConcat(scope: Option<string>, xs: seq<Entry>, ys: seq<Entry>)
    ensures OfScope(scope, xs + ys) == OfScope(scope, xs) + OfScope(scope, ys)
  {
    if xs == [] {
      assert xs + ys == ys;
    } else {
      assert (xs + ys)[1..] == xs[1..] + ys;
      ScopeOfConcat(scope, xs[1..], ys);
    }
  }

  lemma {:induction false} ScopeFacts(scope: Option<string>, other: Option<string>, xs: seq<Entry>)
    ensures forall x :: x in OfScope(scope, xs) ==> x.scope == scope
    ensures OfScope(other, NotOfScope(scope, xs)) == if other == scope then [] else OfScope(other, xs)
  {
    if xs != [] {
      ScopeFacts(scope, other, xs[1..]);
      if xs[0].scope != scope {
        assert NotOfScope(scope, xs)[1..] == NotOfScope(scope, xs[1..]);
      }
    }
  }

  lemma {:induction false} UniformScope(scope: Option<string>, other: Option<string>, xs: seq<Entry>)
    requires forall x :: x in xs ==> x.scope == scope
    ensures OfScope(other, xs) == if other == scope then xs else []
  {
    if xs != [] { UniformScope(scope, other, xs[1..]); }
  }

  /** Recording touches the recording scope's trail and leaves every other scope's trail as it was. */
  lemma RecordChangesOneScope(all: seq<Entry>, e: Entry, scope: Option<string>)
    ensures OfScope(scope, Recorded(all, e))
      == if scope == e.scope then Touch(MAX_ENTRIES, EntryKey, OfScope(scope, all), e) else OfScope(scope, all)
  {
    var mine := OfScope(e.scope, all);
    var next := Touch(MAX_ENTRIES, EntryKey, mine, e);
    ScopeFacts(e.scope, scope, all);
    forall x | x in next ensures x.scope == e.scope {
      WithoutMember(EntryKey, mine, EntryKey(e), x);
    }
    UniformScope(e.scope, scope, next);
    ScopeOfConcat(scope, next, NotOfScope(e.scope, all));
  }

  lemma {:induction false} InScope(scope: Option<string>, xs: seq<Entry>, x: Entry)
    ensures x in OfScope(scope, xs) <==> x in xs && x.scope == scope
    ensures x in NotOfScope(scope, xs) <==> x in xs && x.scope != scope
  {
    if xs != [] {
      InScope(scope, xs[1..], x);
      assert xs == [xs[0]] + xs[1..];
    }
  }

  /**
   * What a recording puts in front and what it drops: the new entry heads its scope's trail; of the entries
   * stored before, one of another scope always stays, and one of the same scope, be it of another kind with
   * the same id or of the same kind with another id, goes only when eight others stand before it.
   */
  lemma RecordDropsOnly(all: seq<Entry>, e: Entry, x: Entry)
    ensures OfScope(e.scope, Recorded(all, e)) != [] && OfScope(e.scope, Recorded(all, e))[0] == e
    ensures x in all && x.scope != e.scope ==> x in Recorded(all, e)
    ensures x in all && x.scope == e.scope && (x.kind != e.kind || x.id != e.id) ==>
      x in Recorded(all, e) || |OfScope(e.scope, Recorded(all, e))| == 8
    ensures x in Recorded(all, e) ==> x == e || (x in all && (x.scope, x.kind, x.id) != (e.scope, e.kind, e.id))
  {
    var mine := OfScope(e.scope, all);
    var deduped := Without(EntryKey, mine, EntryKey(e));
    InScope(e.scope, all, x);
    InScope(e.scope, Recorded(all, e), x);
    WithoutMember(EntryKey, mine, EntryKey(e), x);
    RecordChangesOneScope(all, e, e.scope);
    assert Touch(MAX_ENTRIES, EntryKey, mine, e) == Take(MAX_ENTRIES, [e] + deduped);
    if x in deduped && |[e] + deduped| <= MAX_ENTRIES {
      assert x in [e] + deduped;
    }
  }

  /** The stored list after a whole history of recordings by any scopes, starting from nothing. */
  function AfterAll(history: seq<Entry>): seq<Entry> {
    if history == [] then []
    else Recorded(AfterAll(history[..|history| - 1]), history[|history| - 1])
  }

  /**
   * After any interleaving of recordings by any scopes, the trail of a scope is the first 8 entries of
   * its own reversed history without repeated records.
   */
  lemma {:induction false} TrailRefinesHistory(history: seq<Entry>, scope: Option<string>)
    ensures OfScope(scope, AfterAll(history)) == Trail(MAX_ENTRIES, EntryKey, OfScope(scope, history))
  {
    if history != [] {
      var front, e := history[..|history| - 1], history[|history| - 1];
      TrailRefinesHistory(front, scope);
      RecordChangesOneScope(AfterAll(front), e, scope);
      assert history == front + [e];
      ScopeOfConcat(scope, front, [e]);
      if scope == e.scope {
        assert OfScope(scope, [e]) == [e];
        TouchRefinesHistory(MAX_ENTRIES, EntryKey, OfScope(scope, front), e);
      } else {
        assert OfScope(scope, front) + [] == OfScope(scope, front);
      }
    }
  }
}
