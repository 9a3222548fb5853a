/**
 * The offline read cache of apps/web/lib/offline-read-cache.ts: an object store of at most 64 records,
 * evicting by a sort on the time each record was saved.
 */
module OfflineReadCache {
  import opened Foundations
  import opened MostRecent

  datatype Identity = Identity(tenantId: string, userId: string)

  /** `savedAt` is the saved time in milliseconds; `bytes` is the size of the encoded record. */
  datatype Record = Record(cacheKey: string, identity: Identity, savedAt: int, payload: string, bytes: nat)

  type Rows = map<string, Record>

  const MAX_RECORDS := 64
  const MAX_RECORD_BYTES := 256 * 1024
  const MAX_AGE_MS := 8 * 60 * 60 * 1000

  function CacheKey(r: Record): string { r.cacheKey }

  // ---- The eviction sort ----

  function Insert(r: Record, sorted: seq<Record>): seq<Record> {
    if sorted == [] || r.savedAt >= sorted[0].savedAt then [r] + sorted else [sorted[0]] + Insert(r, sorted[1..])
  }

  /** Stable sort, most recently saved first. */
  function NewestFirst(rs: seq<Record>): seq<Record> {
    if rs == [] then [] else Insert(rs[0], NewestFirst(rs[1..]))
  }

  predicate Descending(rs: seq<Record>) {
    forall i, j :: 0 <= i < j < |rs| ==> rs[i].savedAt >= rs[j].savedAt
  }

  predicate StrictlyDescending(rs: seq<Record>) {
    forall i, j :: 0 <= i < j < |rs| ==> rs[i].savedAt > rs[j].savedAt
  }

  lemma {:induction false} InsertKeeps(r: Record, sorted: seq<Record>)
    ensures multiset(Insert(r, sorted)) == multiset(sorted) + multiset{r}
    ensures forall x :: x in Insert(r, sorted) ==> x == r || x in sorted
  {
    if sorted != [] && r.savedAt < sorted[0].savedAt {
      InsertKeeps(r, sorted[1..]);
      assert sorted == [sorted[0]] + sorted[1..];
    }
  }

  lemma {:induction false} InsertSorts(r: Record, sorted: seq<Record>)
    requires Descending(sorted)
    ensures Descending(Insert(r, sorted))
  {
    if sorted != [] && r.savedAt < sorted[0].savedAt {
      InsertSorts(r, sorted[1..]);
      InsertKeeps(r, sorted[1..]);
      var rest := Insert(r, sorted[1..]);
      forall j | 0 <= j < |rest| ensures sorted[0].savedAt >= rest[j].savedAt {
        assert rest[j] in rest;
      }
    }
  }

  lemma {:induction false} SortIsPermutation(rs: seq<Record>)
    ensures Descending(NewestFirst(rs)) && multiset(NewestFirst(rs)) == multiset(rs)
  {
    if rs != [] {
      SortIsPermutation(rs[1..]);
      InsertSorts(rs[0], NewestFirst(rs[1..]));
      InsertKeeps(rs[0], NewestFirst(rs[1..]));
      assert rs == [rs[0]] + rs[1..];
    }
  }

  lemma HeadsAgree(xs: seq<Record>, ys: seq<Record>)
    requires StrictlyDescending(xs) && Descending(ys) && multiset(xs) == multiset(ys) && xs != [] && ys != []
    ensures xs[0] == ys[0]
  {
    assert xs[0] in multiset(ys) && ys[0] in multiset(xs);
    var i :| 0 <= i < |ys| && ys[i] == xs[0];
    var j :| 0 <= j < |xs| && xs[j] == ys[0];
    assert ys[0].savedAt >= ys[i].savedAt;
  }

  /** A list has at most one strictly descending arrangement. */
  lemma {:induction false} SortedIsUnique(xs: seq<Record>, ys: seq<Record>)
    requires StrictlyDescending(xs) && Descending(ys) && multiset(xs) == multiset(ys)
    ensures xs == ys
  {
    assert |multiset(xs)| == |multiset(ys)|;
    if xs != [] {
      HeadsAgree(xs, ys);
      assert xs == [xs[0]] + xs[1..] && ys == [ys[0]] + ys[1..];
      assert multiset(xs[1..]) == multiset(xs) - multiset{xs[0]};
      assert multiset(ys[1..]) == multiset(ys) - multiset{ys[0]};
      SortedIsUnique(xs[1..], ys[1..]);
    }
  }

  // ---- The write transaction ----

  /** What getAll may return: every stored record once. */
  ghost predicate Lists(existing: seq<Record>, rows: Rows) {
    && (forall i, j :: 0 <= i < j < |existing| ==> existing[i].cacheKey != existing[j].cacheKey)
    && (forall i :: 0 <= i < |existing| ==> existing[i].cacheKey in rows && rows[existing[i].cacheKey] == existing[i])
    && (forall k :: k in rows ==> exists i :: 0 <= i < |existing| && existing[i].cacheKey == k)
  }

  function Victims(existing: seq<Record>, r: Record): seq<Record> {
    var sorted := NewestFirst(Without(CacheKey, existing, r.cacheKey));
    if |sorted| <= MAX_RECORDS - 1 then [] else sorted[MAX_RECORDS - 1..]
  }

  function KeysOf(rs: seq<Record>): set<string> {
    set r | r in rs :: r.cacheKey
  }

  function AfterWrite(rows: Rows, existing: seq<Record>, r: Record): Rows {
    if r.bytes > MAX_RECORD_BYTES then rows else (rows - KeysOf(Victims(existing, r)))[r.cacheKey := r]
  }

  predicate Fresh(r: Record, now: int) {
    r.savedAt <= now && now - r.savedAt <= MAX_AGE_MS
  }

  function ReadRow(rows: Rows, cacheKey: string, identity: Identity, now: int): Option<string> {
    if cacheKey !in rows || rows[cacheKey].identity != identity || !Fresh(rows[cacheKey], now) then None
    else Some(rows[cacheKey].payload)
  }

  class ReadCache {
    var rows: Rows

    constructor ()
      ensures rows == map[]
    {
      rows := map[];
    }

    /** `existing` is the answer of getAll inside the transaction. */
    method Write(r: Record, existing: seq<Record>)
      requires Lists(existing, rows)
      modifies this
      ensures rows == AfterWrite(old(rows), existing, r)
    {
      if r.bytes > MAX_RECORD_BYTES {
        return;
      }
      var victims := Victims(existing, r);
      ghost var before := rows;
      for i := 0 to |victims|
        invariant rows == before - KeysOf(victims[..i])
      {
        assert KeysOf(victims[..i + 1]) == KeysOf(victims[..i]) + {victims[i].cacheKey};
        rows := rows - {victims[i].cacheKey};
      }
      assert victims[..|victims|] == victims;
      rows := rows[r.cacheKey := r];
    }

    method Clear()
      modifies this
      ensures rows == map[]
    {
      rows := map[];
    }
  }

  // ---- Refinement ----

  function Fitting(writes: seq<Record>): seq<Record> {
    if writes == [] then []
    else
      var last := writes[|writes| - 1];
      Fitting(writes[..|writes| - 1]) + (if last.bytes <= 256 * 1024 then [last] else [])
  }

  /** The 64 most recently written distinct keys with their latest records. */
  function Kept(writes: seq<Record>): seq<Record> {
    Trail(64, CacheKey, Fitting(writes))
  }

  ghost predicate Holds(rows: Rows, rs: seq<Record>) {
    && (forall i :: 0 <= i < |rs| ==> rs[i].cacheKey in rows && rows[rs[i].cacheKey] == rs[i])
    && (forall k :: k in rows ==> exists i :: 0 <= i < |rs| && rs[i].cacheKey == k)
  }

  predicate TimesIncrease(writes: seq<Record>) {
    forall i, j :: 0 <= i < j < |writes| ==> writes[i].savedAt < writes[j].savedAt
  }

  lemma {:induction false} WithoutStaysDescending(rs: seq<Record>, k: string)
    requires StrictlyDescending(rs)
    ensures StrictlyDescending(Without(CacheKey, rs, k))
  {
    if rs != [] {
      WithoutStaysDescending(rs[1..], k);
      var rest := Without(CacheKey, rs[1..], k);
      forall j | 0 <= j < |rest| ensures rs[0].savedAt > rest[j].savedAt {
        WithoutMember(CacheKey, rs[1..], k, rest[j]);
        var i :| 0 <= i < |rs[1..]| && rs[1..][i] == rest[j];
        assert rs[i + 1] == rest[j];
      }
    }
  }

  lemma {:induction false} DistinctMultiplicity(rs: seq<Record>, r: Record)
    requires DistinctKeys(CacheKey, rs)
    ensures multiset(rs)[r] == if r in rs then 1 else 0
  {
    if rs != [] {
      DistinctMultiplicity(rs[1..], r);
      assert rs == [rs[0]] + rs[1..];
      assert r in rs <==> r == rs[0] || r in rs[1..];
    }
  }

  lemma SameRecordsSameMultiset(xs: seq<Record>, ys: seq<Record>)
    requires DistinctKeys(CacheKey, xs) && DistinctKeys(CacheKey, ys)
    requires forall r :: r in xs <==> r in ys
    ensures multiset(xs) == multiset(ys)
  {
    forall r ensures multiset(xs)[r] == multiset(ys)[r] {
      DistinctMultiplicity(xs, r);
      DistinctMultiplicity(ys, r);
    }
  }

  lemma ListedIsHeld(existing: seq<Record>, rows: Rows, rs: seq<Record>)
    requires Lists(existing, rows) && Holds(rows, rs)
    ensures forall r :: r in existing <==> r in rs
  {
    forall r ensures r in existing ==> r in rs {
      if r in existing {
        var i :| 0 <= i < |rs| && rs[i].cacheKey == r.cacheKey;
      }
    }
    forall r ensures r in rs ==> r in existing {
      if r in rs {
        var i :| 0 <= i < |existing| && existing[i].cacheKey == r.cacheKey;
      }
    }
  }

  /** What the transaction evicts is what falls off the end of the trail. */
  lemma VictimsFallOffTrail(rows: Rows, existing: seq<Record>, trail: seq<Record>, r: Record)
    requires Lists(existing, rows) && Holds(rows, trail)
    requires StrictlyDescending(trail) && DistinctKeys(CacheKey, trail)
    ensures var others := Without(CacheKey, trail, r.cacheKey);
      Victims(existing, r) == if |others| <= MAX_RECORDS - 1 then [] else others[MAX_RECORDS - 1..]
  {
    var others, left := Without(CacheKey, trail, r.cacheKey), Without(CacheKey, existing, r.cacheKey);
    assert DistinctKeys(CacheKey, existing);
    ListedIsHeld(existing, rows, trail);
    WithoutFacts(CacheKey, trail, r.cacheKey);
    WithoutFacts(CacheKey, existing, r.cacheKey);
    forall x ensures x in others <==> x in left {
      WithoutMember(CacheKey, trail, r.cacheKey, x);
      WithoutMember(CacheKey, existing, r.cacheKey, x);
    }
    SameRecordsSameMultiset(others, left);
    SortIsPermutation(left);
    WithoutStaysDescending(trail, r.cacheKey);
    SortedIsUnique(others, NewestFirst(left));
  }

  lemma PrependNewest(others: seq<Record>, kept: seq<Record>, r: Record)
    requires StrictlyDescending(others) && DistinctKeys(CacheKey, others) && kept <= others
    requires forall i :: 0 <= i < |others| ==> others[i].savedAt < r.savedAt && others[i].cacheKey != r.cacheKey
    ensures StrictlyDescending([r] + kept) && DistinctKeys(CacheKey, [r] + kept)
    ensures forall i :: 0 <= i < |[r] + kept| ==> ([r] + kept)[i].savedAt <= r.savedAt
  {
    var touched := [r] + kept;
    assert forall i :: 0 < i < |touched| ==> touched[i] == others[i - 1];
    assert forall i, j :: 0 <= i < j < |touched| ==> touched[i].savedAt > touched[j].savedAt;
    forall i, j | 0 <= i < j < |touched| ensures CacheKey(touched[i]) != CacheKey(touched[j]) {
      assert i > 0 ==> CacheKey(others[i - 1]) != CacheKey(others[j - 1]);
    }
  }

  lemma OthersOf(trail: seq<Record>, r: Record)
    requires StrictlyDescending(trail) && DistinctKeys(CacheKey, trail)
    requires forall i :: 0 <= i < |trail| ==> trail[i].savedAt < r.savedAt
    ensures var others := Without(CacheKey, trail, r.cacheKey);
      && StrictlyDescending(others) && DistinctKeys(CacheKey, others)
      && (forall x :: x in others <==> x in trail && x.cacheKey != r.cacheKey)
      && forall i :: 0 <= i < |others| ==> others[i].savedAt < r.savedAt && others[i].cacheKey != r.cacheKey
  {
    var others := Without(CacheKey, trail, r.cacheKey);
    WithoutFacts(CacheKey, trail, r.cacheKey);
    WithoutStaysDescending(trail, r.cacheKey);
    forall x ensures x in others <==> x in trail && x.cacheKey != r.cacheKey {
      WithoutMember(CacheKey, trail, r.cacheKey, x);
    }
    forall i | 0 <= i < |others| ensures others[i].savedAt < r.savedAt && others[i].cacheKey != r.cacheKey {
      assert others[i] in others;
      var j :| 0 <= j < |trail| && trail[j] == others[i];
    }
  }

  lemma WriteTouchesTrail(rows: Rows, existing: seq<Record>, trail: seq<Record>, r: Record)
    requires Lists(existing, rows) && Holds(rows, trail) && r.bytes <= MAX_RECORD_BYTES
    requires StrictlyDescending(trail) && DistinctKeys(CacheKey, trail)
    requires forall i :: 0 <= i < |trail| ==> trail[i].savedAt < r.savedAt
    ensures var touched := Touch(MAX_RECORDS, CacheKey, trail, r);
      && Holds(AfterWrite(rows, existing, r), touched)
      && StrictlyDescending(touched) && DistinctKeys(CacheKey, touched)
      && forall i :: 0 <= i < |touched| ==> touched[i].savedAt <= r.savedAt
  {
    hide Victims, Holds, Lists, Without, KeysOf, StrictlyDescending, DistinctKeys;
    var others := Without(CacheKey, trail, r.cacheKey);
    VictimsFallOffTrail(rows, existing, trail, r);
    OthersOf(trail, r);
    var kept := Take(MAX_RECORDS - 1, others);
    assert Touch(MAX_RECORDS, CacheKey, trail, r) == [r] + kept by { TakeCons(MAX_RECORDS, r, others); }
    PrependNewest(others, kept, r);
    EvictionKeeps(rows, trail, others, kept, Victims(existing, r), r);
  }

  lemma EvictionKeeps(rows: Rows, trail: seq<Record>, others: seq<Record>, kept: seq<Record>, victims: seq<Record>,
                      r: Record)
    requires Holds(rows, trail) && DistinctKeys(CacheKey, others) && others == kept + victims
    requires forall x :: x in others <==> x in trail && x.cacheKey != r.cacheKey
    ensures Holds((rows - KeysOf(victims))[r.cacheKey := r], [r] + kept)
  {
    var after := (rows - KeysOf(victims))[r.cacheKey := r];
    forall i | 0 <= i < |kept| ensures kept[i].cacheKey in after && after[kept[i].cacheKey] == kept[i] {
      assert others[i] == kept[i] && kept[i] in others;
      forall j | 0 <= j < |victims| ensures victims[j].cacheKey != kept[i].cacheKey {
        assert others[|kept| + j] == victims[j];
      }
    }
    forall k | k in after ensures exists i :: 0 <= i < |[r] + kept| && ([r] + kept)[i].cacheKey == k {
      if k == r.cacheKey {
        assert ([r] + kept)[0].cacheKey == k;
      } else {
        var i :| 0 <= i < |trail| && trail[i].cacheKey == k;
        assert trail[i] in others && trail[i] !in victims;
        var j :| 0 <= j < |kept| && kept[j] == trail[i];
        assert ([r] + kept)[j + 1].cacheKey == k;
      }
    }
  }

  /** A sequence of write transactions from an empty store, each with its getAll answer. */
  ghost predicate IsRun(states: seq<Rows>, writes: seq<Record>, listings: seq<seq<Record>>) {
    && |states| == |writes| + 1 && |listings| == |writes| && states[0] == map[]
    && forall i :: 0 <= i < |writes| ==>
         Lists(listings[i], states[i]) && states[i + 1] == AfterWrite(states[i], listings[i], writes[i])
  }

  /**
   * With increasing save times, after any sequence of writes the store holds exactly the 64 most
   * recently written distinct keys of the records small enough to keep, with their latest payloads.
   */
  lemma {:induction false} StoreRefinesHistory(states: seq<Rows>, writes: seq<Record>, listings: seq<seq<Record>>,
                                               j: nat)
    requires IsRun(states, writes, listings) && TimesIncrease(writes) && j <= |writes|
    ensures Holds(states[j], Kept(writes[..j]))
    ensures StrictlyDescending(Kept(writes[..j])) && DistinctKeys(CacheKey, Kept(writes[..j]))
    ensures forall n, i :: j <= n < |writes| && 0 <= i < |Kept(writes[..j])| ==>
      Kept(writes[..j])[i].savedAt < writes[n].savedAt
  {
    if j == 0 {
      assert Kept(writes[..0]) == [];
    } else {
      StoreRefinesHistory(states, writes, listings, j - 1);
      var r := writes[j - 1];
      assert writes[..j][..j - 1] == writes[..j - 1];
      assert Lists(listings[j - 1], states[j - 1]) &&
        states[j - 1 + 1] == AfterWrite(states[j - 1], listings[j - 1], r);
      KeptGrows(writes[..j]);
      if r.bytes <= MAX_RECORD_BYTES {
        WriteTouchesTrail(states[j - 1], listings[j - 1], Kept(writes[..j - 1]), r);
      }
      hide Kept, Touch, AfterWrite, Lists, Holds;
    }
  }

  lemma KeptGrows(writes: seq<Record>)
    requires writes != []
    ensures var front, r := writes[..|writes| - 1], writes[|writes| - 1];
      Kept(writes) == if r.bytes <= MAX_RECORD_BYTES then Touch(MAX_RECORDS, CacheKey, Kept(front), r) else Kept(front)
  {
    var front, r := writes[..|writes| - 1], writes[|writes| - 1];
    if r.bytes <= MAX_RECORD_BYTES {
      TouchRefinesHistory(64, CacheKey, Fitting(front), r);
    } else {
      assert Fitting(writes) == Fitting(front);
    }
  }

  predicate Answers(r: Record, cacheKey: string, identity: Identity, now: int) {
    r.cacheKey == cacheKey && r.identity == identity && r.savedAt <= now <= r.savedAt + 8 * 60 * 60 * 1000
  }

  /**
   * A read returns the payload of the trail's record for the key, if the identity matches and the
   * record is at most 8 hours old and not from the future; in every other case it returns nothing.
   */
  lemma ReadReturnsLatest(states: seq<Rows>, writes: seq<Record>, listings: seq<seq<Record>>, cacheKey: string,
                          identity: Identity, now: int)
    requires IsRun(states, writes, listings) && TimesIncrease(writes)
    ensures forall payload ::
      ReadRow(states[|writes|], cacheKey, identity, now) == Some(payload) <==>
        exists i :: 0 <= i < |Kept(writes)| && Answers(Kept(writes)[i], cacheKey, identity, now) &&
          Kept(writes)[i].payload == payload
  {
    StoreRefinesHistory(states, writes, listings, |writes|);
    assert writes[..|writes|] == writes;
  }
}
