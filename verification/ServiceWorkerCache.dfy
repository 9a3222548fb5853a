/**
 * The service worker of apps/web/public/sw.js: which requests may be cached, and the bound on cached
 * runtime entries while any number of cacheFirst tasks interleave at their awaits.
 */
module ServiceWorkerCache {
  import opened Foundations

  datatype Url = Url(origin: string, path: string, search: string, queryKeys: seq<string>)

  datatype Request = Request(verb: string, url: Url, headers: set<string>, destination: string, navigation: bool)

  datatype Response = Response(ok: bool, basic: bool, immutable: bool)

  const MAX_RUNTIME_STATIC_ENTRIES := 64

  const PUBLIC_ASSET_PATHS := {
    "/offline.html", "/manifest.webmanifest", "/icons/schoolos.svg", "/icons/schoolos-192.png",
    "/icons/schoolos-512.png", "/icons/schoolos-maskable-192.png", "/icons/schoolos-maskable-512.png"}

  const NEXT_STATIC_DESTINATIONS := {"script", "style", "font", "worker"}

  const PRIVATE_PATH_PREFIXES := [
    "/api/", "/auth/", "/dashboard", "/platform", "/files/", "/reports/", "/exports/", "/downloads/",
    "/uploads/", "/_next/data/", "/_next/image"]

  const SENSITIVE_KEYS := {"token", "signature", "sig", "expires", "policy", "key-pair-id"}

  /** Lower-casing, exact wherever the result is a letter a to z: besides A to Z, the Kelvin sign. */
  function LowerChar(c: char): char {
    if 'A' <= c <= 'Z' then ((c as int) + 32) as char
    else if c == '\U{212A}' then 'k'
    else c
  }

  function Lower(s: string): string {
    seq(|s|, i requires 0 <= i < |s| => LowerChar(s[i]))
  }

  predicate IsSensitiveKey(key: string) {
    Lower(key) in SENSITIVE_KEYS || "x-amz-" <= Lower(key) || "x-goog-" <= Lower(key)
  }

  predicate HasSensitiveQuery(url: Url) {
    exists i :: 0 <= i < |url.queryKeys| && IsSensitiveKey(url.queryKeys[i])
  }

  predicate IsPrivatePath(path: string) {
    exists i :: 0 <= i < |PRIVATE_PATH_PREFIXES| && PRIVATE_PATH_PREFIXES[i] <= path
  }

  predicate IsExplicitPublicAsset(self: string, r: Request) {
    r.verb == "GET" && r.url.origin == self && r.url.search == "" && r.url.path in PUBLIC_ASSET_PATHS
  }

  predicate IsForbiddenFromCache(self: string, r: Request) {
    || r.verb != "GET"
    || r.url.origin != self
    || "authorization" in r.headers
    || "rsc" in r.headers
    || "_rsc" in r.url.queryKeys
    || HasSensitiveQuery(r.url)
    || IsPrivatePath(r.url.path)
    || (r.destination == "image" && r.url.path !in PUBLIC_ASSET_PATHS)
  }

  predicate IsImmutableNextStatic(self: string, r: Request) {
    !IsForbiddenFromCache(self, r) && "/_next/static/" <= r.url.path && r.destination in NEXT_STATIC_DESTINATIONS
  }

  /** The fetch handler answers these requests with cacheFirst; all others it leaves to the network. */
  predicate Handled(self: string, r: Request) {
    && !(r.verb == "GET" && r.navigation && r.url.origin == self)
    && !IsForbiddenFromCache(self, r)
    && (IsExplicitPublicAsset(self, r) || IsImmutableNextStatic(self, r))
  }

  predicate MayStore(self: string, r: Request, response: Response) {
    && response.ok && response.basic
    && (IsExplicitPublicAsset(self, r) || (IsImmutableNextStatic(self, r) && response.immutable))
  }

  // ---- The cache and its tasks ----

  /** Cached URLs in insertion order. */
  type Cache = seq<Url>

  /** cacheFirst between its awaits: on cache.match, fetch, cache.put, cache.keys, and the deletions. */
  datatype Task =
    | Matching(request: Request)
    | Fetching(request: Request)
    | Putting(request: Request, response: Response)
    | Listing
    | Deleting(doomed: set<Url>)
    | TrimLost
    | Finished

  /** `added` remembers every request stored at run time, with the response that was stored for it. */
  datatype Worker = Worker(cache: Cache, tasks: map<nat, Task>, added: set<(Request, Response)>)

  predicate IsRuntime(u: Url) {
    u.path !in PUBLIC_ASSET_PATHS
  }

  function RuntimeEntries(cache: Cache): Cache {
    if cache == [] then []
    else (if IsRuntime(cache[0]) then [cache[0]] else []) + RuntimeEntries(cache[1..])
  }

  function Remove(cache: Cache, u: Url): Cache {
    if cache == [] then [] else (if cache[0] == u then [] else [cache[0]]) + Remove(cache[1..], u)
  }

  function AfterPut(cache: Cache, u: Url): Cache {
    Remove(cache, u) + [u]
  }

  function Elements(entries: Cache): set<Url> {
    set u | u in entries
  }

  /** What one trim decides to delete: the oldest runtime entries in excess of the bound. */
  function Doomed(cache: Cache): set<Url> {
    var entries := RuntimeEntries(cache);
    var excess := |entries| - MAX_RUNTIME_STATIC_ENTRIES;
    if excess <= 0 then {} else Elements(entries[..excess])
  }

  datatype Action =
    | Arrive(id: nat, request: Request)
    | MatchResolves(id: nat)
    | FetchResolves(id: nat, response: Response)
    | PutResolves(id: nat, stored: bool)
    | KeysResolve(id: nat)
    | DeleteResolves(id: nat, url: Url)
    | TrimResolves(id: nat)
    | Stops(id: nat)          // the worker is terminated, or the awaited operation rejects

  ghost predicate Enabled(self: string, w: Worker, a: Action) {
    match a
    case Arrive(id, request) => id !in w.tasks && Handled(self, request)
    case MatchResolves(id) => id in w.tasks && w.tasks[id].Matching?
    case FetchResolves(id, _) => id in w.tasks && w.tasks[id].Fetching?
    case PutResolves(id, _) => id in w.tasks && w.tasks[id].Putting?
    case KeysResolve(id) => id in w.tasks && w.tasks[id].Listing?
    case DeleteResolves(id, url) => id in w.tasks && w.tasks[id].Deleting? && url in w.tasks[id].doomed
    case TrimResolves(id) => id in w.tasks && w.tasks[id].Deleting? && w.tasks[id].doomed == {}
    case Stops(id) => id in w.tasks && !w.tasks[id].Finished? && !w.tasks[id].TrimLost?
  }

  /** The task has put its entry and still has to trim. */
  predicate Trims(t: Task) {
    t.Listing? || t.Deleting?
  }

  function Step(self: string, w: Worker, a: Action): Worker
    requires Enabled(self, w, a)
  {
    match a
    case Arrive(id, request) => w.(tasks := w.tasks[id := Matching(request)])
    case MatchResolves(id) =>
      w.(tasks := w.tasks[id := if w.tasks[id].request.url in w.cache then Finished else Fetching(w.tasks[id].request)])
    case FetchResolves(id, response) =>
      var request := w.tasks[id].request;
      w.(tasks := w.tasks[id := if MayStore(self, request, response) then Putting(request, response) else Finished])
    case PutResolves(id, stored) =>
      var t := w.tasks[id];
      if stored
        then Worker(AfterPut(w.cache, t.request.url), w.tasks[id := Listing], w.added + {(t.request, t.response)})
      else w.(tasks := w.tasks[id := Finished])
    case KeysResolve(id) => w.(tasks := w.tasks[id := Deleting(Doomed(w.cache))])
    case DeleteResolves(id, url) =>
      Worker(Remove(w.cache, url), w.tasks[id := Deleting(w.tasks[id].doomed - {url})], w.added)
    case TrimResolves(id) => w.(tasks := w.tasks[id := Finished])
    case Stops(id) => w.(tasks := w.tasks[id := if Trims(w.tasks[id]) then TrimLost else Finished])
  }

  ghost predicate IsRun(self: string, states: seq<Worker>, actions: seq<Action>) {
    && |states| == |actions| + 1
    && states[0].tasks == map[] && states[0].added == {} &&
      |Elements(RuntimeEntries(states[0].cache))| <= MAX_RUNTIME_STATIC_ENTRIES
    && forall i :: 0 <= i < |actions| ==>
         Enabled(self, states[i], actions[i]) && states[i + 1] == Step(self, states[i], actions[i])
  }

  // ---- Which requests the worker answers, and what one task does ----

  predicate HasPlainHeaders(r: Request) {
    "authorization" !in r.headers && "rsc" !in r.headers && "_rsc" !in r.url.queryKeys && !HasSensitiveQuery(r.url)
  }

  lemma PublicPathsAreNotPrivate(path: string)
    requires path in PUBLIC_ASSET_PATHS || "/_next/static/" <= path
    ensures !IsPrivatePath(path)
  {
    forall i | 0 <= i < |PRIVATE_PATH_PREFIXES| ensures !(PRIVATE_PATH_PREFIXES[i] <= path) {
      PrivatePrefix(i);
      if path in PUBLIC_ASSET_PATHS { PublicPath(path); }
    }
  }

  /** A private prefix is told apart from the public paths by its first letters. */
  lemma PrivatePrefix(i: nat)
    requires i < |PRIVATE_PATH_PREFIXES|
    ensures var p := PRIVATE_PATH_PREFIXES[i];
      |p| > 2 && (p[1] == 'a' || p[1] == 'd' || p[1] == 'p' || p[1] == 'f' || p[1] == 'r' || p[1] == 'e' || p[1] == 'u'
                  || (|p| > 7 && p[1] == '_' && p[7] in {'d', 'i'}))
  {
  }

  lemma PublicPath(path: string)
    requires path in PUBLIC_ASSET_PATHS
    ensures |path| > 2 && path[1] in {'o', 'm', 'i'}
  {
  }

  /**
   * The worker answers exactly the plain GETs to its own origin, other than navigations, for a public asset
   * without a query or for a script, style, font or worker under the static path.
   */
  lemma HandledExactly(self: string, r: Request)
    ensures Handled(self, r) <==>
      && r.verb == "GET" && r.url.origin == self && !r.navigation && HasPlainHeaders(r)
      && ((r.url.path in PUBLIC_ASSET_PATHS && r.url.search == "")
          || ("/_next/static/" <= r.url.path && r.destination in {"script", "style", "font", "worker"}))
  {
    if r.url.path in PUBLIC_ASSET_PATHS || "/_next/static/" <= r.url.path { PublicPathsAreNotPrivate(r.url.path); }
    hide IsPrivatePath, HasSensitiveQuery;
    assert "image" !in {"script", "style", "font", "worker"} by {
      assert |"image"| == 5 && |"font"| == 4 && "image"[0] == 'i';
    }
  }

  lemma LoweredPrefix(prefix: string, rest: string)
    ensures Lower(prefix) <= Lower(prefix + rest)
  {
    assert Lower(prefix + rest)[..|prefix|] == Lower(prefix);
  }

  /** A signed URL is left to the network, whatever follows the vendor's prefix and however it is written. */
  lemma SignedUrlIsNotHandled(self: string, r: Request, i: nat, rest: string)
    requires i < |r.url.queryKeys|
    requires r.url.queryKeys[i] == "X-Amz-" + rest || r.url.queryKeys[i] == "x-goog-" + rest
      || r.url.queryKeys[i] == "X-Goog-" + rest || r.url.queryKeys[i] == "Token" || r.url.queryKeys[i] == "SIGNATURE"
    ensures !Handled(self, r)
  {
    LoweredPrefix("X-Amz-", rest);
    LoweredPrefix("x-goog-", rest);
    LoweredPrefix("X-Goog-", rest);
    LoweredNames();
    assert IsSensitiveKey(r.url.queryKeys[i]);
    assert HasSensitiveQuery(r.url);
    hide IsSensitiveKey, IsPrivatePath;
  }

  lemma LoweredNames()
    ensures Lower("X-Amz-") == "x-amz-" && Lower("x-goog-") == "x-goog-" && Lower("X-Goog-") == "x-goog-"
    ensures Lower("Token") == "token" && Lower("SIGNATURE") == "signature"
  {
  }

  /**
   * One task with nothing in between: a cached entry is answered from the cache, which stays as it was; any
   * other request is fetched, and the entry becomes the newest one exactly when the response may be kept and
   * the put succeeds, after which the task goes on to trim.
   */
  lemma CacheFirstAlone(self: string, w: Worker, id: nat, request: Request, response: Response, stored: bool)
    requires id !in w.tasks && Handled(self, request)
    ensures Enabled(self, w, Arrive(id, request))
    ensures var arrived := Step(self, w, Arrive(id, request));
      && Enabled(self, arrived, MatchResolves(id))
      && var matched := Step(self, arrived, MatchResolves(id));
      if request.url in w.cache then matched.tasks[id] == Finished && matched.cache == w.cache
      else
        && Enabled(self, matched, FetchResolves(id, response))
        && var fetched := Step(self, matched, FetchResolves(id, response));
        if !MayStore(self, request, response) then fetched.tasks[id] == Finished && fetched.cache == w.cache
        else
          && Enabled(self, fetched, PutResolves(id, stored))
          && var put := Step(self, fetched, PutResolves(id, stored));
          if stored then
            && put.tasks[id] == Listing && put.cache == w.cache + [request.url]
            && put.added == w.added + {(request, response)}
          else put.tasks[id] == Finished && put.cache == w.cache
  {
    hide Handled, MayStore, Remove, Doomed;
    if request.url !in w.cache { RemoveAbsent(w.cache, request.url); }
  }

  lemma {:induction false} RemoveAbsent(cache: Cache, u: Url)
    requires u !in cache
    ensures Remove(cache, u) == cache
  {
    if cache != [] {
      assert cache == [cache[0]] + cache[1..];
      RemoveAbsent(cache[1..], u);
    }
  }

  // ---- The bound ----

  function Runtime(w: Worker): set<Url> {
    Elements(RuntimeEntries(w.cache))
  }

  /** Tasks that have put their entry and not finished trimming, lost ones included. */
  function Pending(w: Worker): set<nat> {
    set id | id in w.tasks && (w.tasks[id].Listing? || w.tasks[id].Deleting? || w.tasks[id].TrimLost?)
  }

  function Trimming(w: Worker): set<nat> {
    set id | id in w.tasks && Trims(w.tasks[id])
  }

  function Lost(w: Worker): set<nat> {
    set id | id in w.tasks && w.tasks[id].TrimLost?
  }

  /** What the trims in `trims` are still going to delete. */
  function StillDoomed(w: Worker, trims: set<nat>): set<Url> {
    set id, u | id in trims && u in DoomedBy(w, id) :: u
  }

  function DoomedBy(w: Worker, id: nat): set<Url> {
    if id in w.tasks && w.tasks[id].Deleting? then w.tasks[id].doomed else {}
  }

  predicate AreTrims(w: Worker, trims: set<nat>) {
    forall id :: id in trims ==> id in w.tasks && w.tasks[id].Deleting?
  }

  predicate Bounded(w: Worker, trims: set<nat>) {
    |Runtime(w) - StillDoomed(w, trims)| <= MAX_RUNTIME_STATIC_ENTRIES + |Pending(w) - trims|
  }

  /**
   * For every set of trims in progress: the runtime entries that would be left if just these trims
   * ran to their end exceed the bound by at most one for each other pending task.
   */
  ghost predicate Invariant(w: Worker) {
    forall trims :: AreTrims(w, trims) ==> Bounded(w, trims)
  }

  lemma {:induction false} RuntimeElements(cache: Cache, u: Url)
    ensures u in RuntimeEntries(cache) <==> u in cache && IsRuntime(u)
  {
    if cache != [] {
      RuntimeElements(cache[1..], u);
      assert cache == [cache[0]] + cache[1..];
    }
  }

  lemma {:induction false} RemoveElements(cache: Cache, gone: Url, u: Url)
    ensures u in Remove(cache, gone) <==> u in cache && u != gone
  {
    if cache != [] {
      RemoveElements(cache[1..], gone, u);
      assert cache == [cache[0]] + cache[1..];
    }
  }

  lemma {:induction false} ElementsAtMostLength(entries: Cache)
    ensures |Elements(entries)| <= |entries|
  {
    if entries != [] {
      ElementsAtMostLength(entries[1..]);
      assert Elements(entries) == {entries[0]} + Elements(entries[1..]);
    } else {
      assert Elements(entries) == {};
    }
  }

  /** One trim decision leaves at most the bound, and dooms runtime entries only. */
  lemma DoomedLeavesBound(cache: Cache)
    ensures |Elements(RuntimeEntries(cache)) - Doomed(cache)| <= MAX_RUNTIME_STATIC_ENTRIES
    ensures forall u :: u in Doomed(cache) ==> u in cache && IsRuntime(u)
  {
    var entries := RuntimeEntries(cache);
    var excess := |entries| - MAX_RUNTIME_STATIC_ENTRIES;
    if excess <= 0 {
      ElementsAtMostLength(entries);
      assert Elements(entries) - Doomed(cache) == Elements(entries);
    } else {
      var rest := entries[excess..];
      assert entries == entries[..excess] + rest;
      ElementsAtMostLength(rest);
      SubsetCardinality(Elements(entries) - Doomed(cache), Elements(rest));
    }
    forall u | u in Doomed(cache) ensures u in cache && IsRuntime(u) {
      assert u in entries;
      RuntimeElements(cache, u);
    }
  }

  // ---- Which entries a trim dooms ----

  /** Every URL is cached at most once. */
  predicate Distinct(cache: Cache) {
    forall i, k :: 0 <= i < k < |cache| ==> cache[i] != cache[k]
  }

  lemma {:induction false} RuntimeConcat(a: Cache, c: Cache)
    ensures RuntimeEntries(a + c) == RuntimeEntries(a) + RuntimeEntries(c)
  {
    if a == [] {
      assert a + c == c;
    } else {
      assert (a + c)[1..] == a[1..] + c;
      RuntimeConcat(a[1..], c);
    }
  }

  lemma {:induction false} DistinctRuntime(cache: Cache)
    requires Distinct(cache)
    ensures Distinct(RuntimeEntries(cache))
  {
    if cache != [] {
      DistinctRuntime(cache[1..]);
      RuntimeElements(cache[1..], cache[0]);
    }
  }

  lemma {:induction false} DistinctCount(entries: Cache)
    requires Distinct(entries)
    ensures |Elements(entries)| == |entries|
  {
    if entries != [] {
      DistinctCount(entries[1..]);
      assert Elements(entries) == {entries[0]} + Elements(entries[1..]);
    } else {
      assert Elements(entries) == {};
    }
  }

  /** A runtime entry is doomed exactly when at least 64 runtime entries stand after it. */
  lemma DoomedExactly(cache: Cache, i: nat)
    requires Distinct(cache) && i < |cache| && IsRuntime(cache[i])
    ensures cache[i] in Doomed(cache) <==> |RuntimeEntries(cache[i + 1..])| >= MAX_RUNTIME_STATIC_ENTRIES
  {
    var entries, before, after := RuntimeEntries(cache), RuntimeEntries(cache[..i]), RuntimeEntries(cache[i + 1..]);
    assert cache == cache[..i] + cache[i..] && cache[i..] == [cache[i]] + cache[i + 1..];
    RuntimeConcat(cache[..i], cache[i..]);
    assert entries == before + ([cache[i]] + after) && entries[|before|] == cache[i];
    DistinctRuntime(cache);
  }

  lemma DoomedComesFirst(cache: Cache, i: nat, k: nat)
    requires Distinct(cache) && i < |cache| && k < |cache|
    requires cache[i] in Doomed(cache) && IsRuntime(cache[k]) && cache[k] !in Doomed(cache)
    ensures i < k
  {
    DoomedLeavesBound(cache);
    hide Doomed, IsRuntime, RuntimeEntries;
    DoomedExactly(cache, i);
    DoomedExactly(cache, k);
    if k < i {
      assert cache[k + 1..] == cache[k + 1..i + 1] + cache[i + 1..];
      RuntimeConcat(cache[k + 1..i + 1], cache[i + 1..]);
    }
  }

  /** A trim dooms exactly the excess, and nothing that stands after an entry it keeps. */
  lemma DoomedAreOldest(cache: Cache)
    requires Distinct(cache)
    ensures |Doomed(cache)| == if |RuntimeEntries(cache)| > MAX_RUNTIME_STATIC_ENTRIES
      then |RuntimeEntries(cache)| - MAX_RUNTIME_STATIC_ENTRIES else 0
    ensures forall i, k :: 0 <= i < |cache| && 0 <= k < |cache| && cache[i] in Doomed(cache) ==>
      IsRuntime(cache[k]) && cache[k] !in Doomed(cache) ==> i < k
  {
    var entries := RuntimeEntries(cache);
    DistinctRuntime(cache);
    if |entries| > MAX_RUNTIME_STATIC_ENTRIES { DistinctCount(entries[..|entries| - MAX_RUNTIME_STATIC_ENTRIES]); }
    hide IsRuntime, RuntimeEntries, Elements;
    forall i, k | 0 <= i < |cache| && 0 <= k < |cache| && cache[i] in Doomed(cache)
      ensures IsRuntime(cache[k]) && cache[k] !in Doomed(cache) ==> i < k
    {
      if IsRuntime(cache[k]) && cache[k] !in Doomed(cache) { DoomedComesFirst(cache, i, k); }
    }
  }

  /** How many runtime entries were cached after the URL was. */
  function RuntimeAfter(cache: Cache, u: Url): nat {
    if cache == [] then 0
    else if cache[0] == u then |RuntimeEntries(cache[1..])|
    else RuntimeAfter(cache[1..], u)
  }

  lemma {:induction false} RuntimeAfterAt(cache: Cache, i: nat)
    requires Distinct(cache) && i < |cache|
    ensures RuntimeAfter(cache, cache[i]) == |RuntimeEntries(cache[i + 1..])|
  {
    if i > 0 {
      RuntimeAfterAt(cache[1..], i - 1);
      assert cache[1..][i - 1 + 1..] == cache[i + 1..];
    }
  }

  lemma DoomedIsOld(cache: Cache, u: Url)
    requires Distinct(cache) && u in Doomed(cache)
    ensures RuntimeAfter(cache, u) >= MAX_RUNTIME_STATIC_ENTRIES
  {
    DoomedLeavesBound(cache);
    hide Doomed, RuntimeAfter, RuntimeEntries;
    var i :| 0 <= i < |cache| && cache[i] == u;
    RuntimeAfterAt(cache, i);
    DoomedExactly(cache, i);
  }

  lemma {:induction false} RemoveKeepsDistinct(cache: Cache, u: Url)
    requires Distinct(cache)
    ensures Distinct(Remove(cache, u)) && Distinct(AfterPut(cache, u))
  {
    RemoveElements(cache, u, u);
    if cache != [] {
      RemoveKeepsDistinct(cache[1..], u);
      RemoveElements(cache[1..], u, cache[0]);
    }
  }

  lemma {:induction false} RemoveShrinksRuntime(cache: Cache, x: Url)
    ensures |RuntimeEntries(Remove(cache, x))| <= |RuntimeEntries(cache)|
  {
    if cache != [] {
      RemoveShrinksRuntime(cache[1..], x);
      RuntimeConcat(if cache[0] == x then [] else [cache[0]], Remove(cache[1..], x));
      assert RuntimeEntries([cache[0]]) == if IsRuntime(cache[0]) then [cache[0]] else [];
    }
  }

  lemma {:induction false} RemoveBefore(cache: Cache, x: Url, u: Url)
    requires x != u
    ensures RuntimeAfter(Remove(cache, x), u) <= RuntimeAfter(cache, u)
  {
    if cache != [] {
      RemoveBefore(cache[1..], x, u);
      RemoveShrinksRuntime(cache[1..], x);
      if cache[0] == x {
        assert [] + Remove(cache[1..], x) == Remove(cache[1..], x);
      } else {
        assert ([cache[0]] + Remove(cache[1..], x))[1..] == Remove(cache[1..], x);
      }
    }
  }

  lemma {:induction false} AppendAfter(cache: Cache, x: Url, u: Url)
    ensures RuntimeAfter(cache + [x], u) <=
      (if u in cache then RuntimeAfter(cache, u) + (if IsRuntime(x) then 1 else 0) else 0)
  {
    if cache == [] {
      assert cache + [x] == [x];
    } else {
      assert (cache + [x])[1..] == cache[1..] + [x];
      assert cache == [cache[0]] + cache[1..];
      RuntimeConcat(cache[1..], [x]);
      AppendAfter(cache[1..], x, u);
    }
  }

  lemma PutAddsOne(cache: Cache, u: Url)
    ensures Elements(RuntimeEntries(AfterPut(cache, u))) <= Elements(RuntimeEntries(cache)) + {u}
  {
    forall x | x in RuntimeEntries(AfterPut(cache, u)) ensures x == u || x in RuntimeEntries(cache) {
      RuntimeElements(AfterPut(cache, u), x);
      RuntimeElements(cache, x);
      RemoveElements(cache, u, x);
    }
  }

  lemma DeleteRemovesOne(cache: Cache, u: Url)
    ensures Elements(RuntimeEntries(Remove(cache, u))) == Elements(RuntimeEntries(cache)) - {u}
  {
    forall x ensures x in RuntimeEntries(Remove(cache, u)) <==> x in RuntimeEntries(cache) && x != u {
      RuntimeElements(Remove(cache, u), x);
      RuntimeElements(cache, x);
      RemoveElements(cache, u, x);
    }
  }

  lemma SameDoom(w: Worker, w': Worker, trims: set<nat>)
    requires forall id :: id in trims ==> DoomedBy(w, id) == DoomedBy(w', id)
    ensures StillDoomed(w, trims) == StillDoomed(w', trims)
  {
    hide DoomedBy;
  }

  lemma PutKeepsBound(self: string, w: Worker, id: nat, trims: set<nat>)
    requires Invariant(w) && Enabled(self, w, PutResolves(id, true))
    requires AreTrims(Step(self, w, PutResolves(id, true)), trims)
    ensures Bounded(Step(self, w, PutResolves(id, true)), trims)
  {
    hide Elements, RuntimeEntries, AfterPut, Remove, Doomed, MayStore, Handled, StillDoomed;
    var w' := Step(self, w, PutResolves(id, true));
    var url := w.tasks[id].request.url;
    assert AreTrims(w, trims) && Bounded(w, trims) && id !in trims;
    PutAddsOne(w.cache, url);
    SameDoom(w, w', trims);
    assert Pending(w') - trims == (Pending(w) - trims) + {id};
    hide Step, Pending, AreTrims;
    SubsetCardinality(Runtime(w') - StillDoomed(w', trims), (Runtime(w) - StillDoomed(w, trims)) + {url});
  }

  lemma KeysKeepBound(self: string, w: Worker, id: nat, trims: set<nat>)
    requires Invariant(w) && Enabled(self, w, KeysResolve(id))
    requires AreTrims(Step(self, w, KeysResolve(id)), trims)
    ensures Bounded(Step(self, w, KeysResolve(id)), trims)
  {
    hide Elements, RuntimeEntries, AfterPut, Remove, Doomed, MayStore, Handled, StillDoomed;
    var w' := Step(self, w, KeysResolve(id));
    assert Pending(w') == Pending(w);
    if id in trims {
      DoomedLeavesBound(w.cache);
      DoomIsCounted(w', trims, id);
      SubsetCardinality(Runtime(w') - StillDoomed(w', trims), Runtime(w) - Doomed(w.cache));
    } else {
      assert AreTrims(w, trims) && Bounded(w, trims);
      SameDoom(w, w', trims);
    }
  }

  lemma DoomIsCounted(w: Worker, trims: set<nat>, id: nat)
    requires id in trims
    ensures DoomedBy(w, id) <= StillDoomed(w, trims)
  {
  }

  lemma DeletionShrinksDoom(w: Worker, w': Worker, url: Url, trims: set<nat>)
    requires forall id :: DoomedBy(w, id) - {url} <= DoomedBy(w', id)
    ensures StillDoomed(w, trims) - {url} <= StillDoomed(w', trims)
  {
    hide DoomedBy;
    forall u | u in StillDoomed(w, trims) - {url} ensures u in StillDoomed(w', trims) {
      var id :| id in trims && u in DoomedBy(w, id);
      assert u in DoomedBy(w', id);
    }
  }

  lemma DeleteKeepsBound(self: string, w: Worker, id: nat, url: Url, trims: set<nat>)
    requires Invariant(w) && Enabled(self, w, DeleteResolves(id, url))
    requires AreTrims(Step(self, w, DeleteResolves(id, url)), trims)
    ensures Bounded(Step(self, w, DeleteResolves(id, url)), trims)
  {
    hide Elements, RuntimeEntries, AfterPut, Remove, Doomed, MayStore, Handled, StillDoomed;
    var w' := Step(self, w, DeleteResolves(id, url));
    DeleteRemovesOne(w.cache, url);
    assert AreTrims(w, trims) && Bounded(w, trims);
    assert Pending(w') == Pending(w);
    DeletionShrinksDoom(w, w', url, trims);
    hide Step, Pending, AreTrims, DoomedBy;
    SubsetCardinality(Runtime(w') - StillDoomed(w', trims), Runtime(w) - StillDoomed(w, trims));
  }

  lemma EmptyDoomAddsNothing(w: Worker, w': Worker, trims: set<nat>, id: nat)
    requires DoomedBy(w, id) == {}
    requires forall other :: other in trims ==> DoomedBy(w, other) == DoomedBy(w', other)
    ensures StillDoomed(w', trims) == StillDoomed(w, trims + {id})
  {
    hide DoomedBy;
  }

  lemma TrimEnds(self: string, w: Worker, id: nat, trims: set<nat>)
    requires Enabled(self, w, TrimResolves(id)) && AreTrims(Step(self, w, TrimResolves(id)), trims)
    ensures var w' := Step(self, w, TrimResolves(id));
      && w'.cache == w.cache && Pending(w') == Pending(w) - {id}
      && AreTrims(w, trims + {id}) && DoomedBy(w, id) == {}
      && forall other :: other in trims ==> DoomedBy(w, other) == DoomedBy(w', other)
  {
    hide Elements, RuntimeEntries, AfterPut, Remove, Doomed, MayStore, Handled;
  }

  /** A trim that has ended may be counted among the chosen ones of the state before. */
  lemma TrimKeepsBound(self: string, w: Worker, id: nat, trims: set<nat>)
    requires Invariant(w) && Enabled(self, w, TrimResolves(id))
    requires AreTrims(Step(self, w, TrimResolves(id)), trims)
    ensures Bounded(Step(self, w, TrimResolves(id)), trims)
  {
    hide Step, Enabled, AreTrims, Pending, DoomedBy, Elements, RuntimeEntries, StillDoomed;
    var w' := Step(self, w, TrimResolves(id));
    TrimEnds(self, w, id, trims);
    assert Bounded(w, trims + {id});
    EmptyDoomAddsNothing(w, w', trims, id);
    assert Pending(w') - trims == Pending(w) - (trims + {id});
  }

  lemma SameCacheKeepsBound(w: Worker, w': Worker, trims: set<nat>)
    requires Invariant(w) && w'.cache == w.cache && Pending(w') == Pending(w)
    requires forall id :: id in trims ==> id in w.tasks && w.tasks[id].Deleting? && DoomedBy(w', id) == DoomedBy(w, id)
    ensures Bounded(w', trims)
  {
    hide Elements, RuntimeEntries, StillDoomed, Pending;
    assert AreTrims(w, trims) && Bounded(w, trims);
    SameDoom(w, w', trims);
  }

  lemma OtherActionsKeepBound(self: string, w: Worker, a: Action, trims: set<nat>)
    requires Invariant(w) && Enabled(self, w, a)
    requires a.Arrive? || a.MatchResolves? || a.FetchResolves? || a.Stops? || (a.PutResolves? && !a.stored)
    requires AreTrims(Step(self, w, a), trims)
    ensures Bounded(Step(self, w, a), trims)
  {
    hide Bounded, Invariant, MayStore, Handled, Doomed, AfterPut, Remove;
    SameCacheKeepsBound(w, Step(self, w, a), trims);
  }

  lemma StepKeepsInvariant(self: string, w: Worker, a: Action)
    requires Invariant(w) && Enabled(self, w, a)
    ensures Invariant(Step(self, w, a))
  {
    hide Step, Bounded, Enabled;
    forall trims | AreTrims(Step(self, w, a), trims) ensures Bounded(Step(self, w, a), trims) {
      match a {
        case PutResolves(id, stored) =>
          if stored { PutKeepsBound(self, w, id, trims); } else { OtherActionsKeepBound(self, w, a, trims); }
        case KeysResolve(id) => KeysKeepBound(self, w, id, trims);
        case DeleteResolves(id, url) => DeleteKeepsBound(self, w, id, url, trims);
        case TrimResolves(id) => TrimKeepsBound(self, w, id, trims);
        case _ => OtherActionsKeepBound(self, w, a, trims);
      }
    }
  }

  lemma {:induction false} RunsKeepInvariant(self: string, states: seq<Worker>, actions: seq<Action>, j: nat)
    requires IsRun(self, states, actions) && j <= |actions|
    ensures Invariant(states[j])
  {
    if j == 0 {
      forall trims | AreTrims(states[0], trims) ensures Bounded(states[0], trims) {
        assert StillDoomed(states[0], trims) == {} && Pending(states[0]) - trims == {};
        assert Runtime(states[0]) - {} == Runtime(states[0]);
      }
    } else {
      RunsKeepInvariant(self, states, actions, j - 1);
      assert Enabled(self, states[j - 1], actions[j - 1]) &&
        states[j - 1 + 1] == Step(self, states[j - 1], actions[j - 1]);
      StepKeepsInvariant(self, states[j - 1], actions[j - 1]);
    }
  }

  /**
   * The concurrent cache bound: at every point of every run the runtime entries number at most 64 plus
   * the tasks that have put an entry and not finished trimming, running or lost; with none running, at
   * most 64 plus the lost ones.
   */
  lemma CacheIsBounded(self: string, states: seq<Worker>, actions: seq<Action>, j: nat)
    requires IsRun(self, states, actions) && j <= |actions|
    ensures |Runtime(states[j])| <= 64 + |Trimming(states[j])| + |Lost(states[j])|
    ensures (forall id :: id in states[j].tasks ==> !Trims(states[j].tasks[id])) ==>
      |Runtime(states[j])| <= 64 + |Lost(states[j])|
  {
    RunsKeepInvariant(self, states, actions, j);
    assert AreTrims(states[j], {}) && Bounded(states[j], {});
    assert StillDoomed(states[j], {}) == {} && Runtime(states[j]) - {} == Runtime(states[j]);
    assert Pending(states[j]) - {} == Pending(states[j]);
    assert Pending(states[j]) == Trimming(states[j]) + Lost(states[j]) && Trimming(states[j]) !! Lost(states[j]);
    assert (forall id :: id in states[j].tasks ==> !Trims(states[j].tasks[id])) ==> Trimming(states[j]) == {};
  }

  // ---- A whole trim makes up for lost ones ----

  /** How many of the actions from i up to j stored an entry. */
  function StoredPuts(actions: seq<Action>, i: nat, j: nat): nat
    requires i <= j <= |actions|
  {
    if i == j then 0
    else StoredPuts(actions, i, j - 1) + (if actions[j - 1].PutResolves? && actions[j - 1].stored then 1 else 0)
  }

  lemma StepKeepsTrim(self: string, w: Worker, a: Action, id: nat)
    requires Enabled(self, w, a) && id in w.tasks && w.tasks[id].Deleting?
    requires Step(self, w, a).tasks[id].Deleting?
    ensures |Runtime(Step(self, w, a)) - DoomedBy(Step(self, w, a), id)|
      <= |Runtime(w) - DoomedBy(w, id)| + (if a.PutResolves? && a.stored then 1 else 0)
  {
    hide Elements, RuntimeEntries, AfterPut, Remove, Doomed, MayStore, Handled;
    var w' := Step(self, w, a);
    var rest := Runtime(w) - DoomedBy(w, id);
    if a.PutResolves? && a.stored {
      var url := w.tasks[a.id].request.url;
      PutAddsOne(w.cache, url);
      SubsetCardinality(Runtime(w') - DoomedBy(w', id), rest + {url});
    } else if a.DeleteResolves? {
      DeleteRemovesOne(w.cache, a.url);
      SubsetCardinality(Runtime(w') - DoomedBy(w', id), rest);
    }
  }

  lemma {:induction false} TrimHolds(self: string, states: seq<Worker>, actions: seq<Action>, i: nat, n: nat, id: nat)
    requires IsRun(self, states, actions) && i < n <= |actions| && actions[i] == KeysResolve(id)
    requires forall k :: i < k <= n ==> id in states[k].tasks && states[k].tasks[id].Deleting?
    ensures |Runtime(states[n]) - DoomedBy(states[n], id)| <= MAX_RUNTIME_STATIC_ENTRIES + StoredPuts(actions, i + 1, n)
    decreases n
  {
    var w, a := states[n - 1], actions[n - 1];
    assert Enabled(self, w, a) && states[n - 1 + 1] == Step(self, w, a);
    if n == i + 1 {
      DoomedLeavesBound(w.cache);
    } else {
      TrimHolds(self, states, actions, i, n - 1, id);
      StepKeepsTrim(self, w, a, id);
    }
    hide Step, Enabled, Elements, RuntimeEntries, Doomed;
  }

  /**
   * Whatever trims were lost before, a trim that runs from its listing to its end leaves at most 64
   * runtime entries and those stored in the meantime.
   */
  lemma WholeTrimHeals(self: string, states: seq<Worker>, actions: seq<Action>, i: nat, j: nat, id: nat)
    requires IsRun(self, states, actions) && i < j < |actions|
    requires actions[i] == KeysResolve(id) && actions[j] == TrimResolves(id)
    requires forall k :: i < k <= j ==> id in states[k].tasks && states[k].tasks[id].Deleting?
    ensures |Runtime(states[j + 1])| <= MAX_RUNTIME_STATIC_ENTRIES + StoredPuts(actions, i + 1, j)
  {
    TrimHolds(self, states, actions, i, j, id);
    assert Enabled(self, states[j], actions[j]) && states[j + 1] == Step(self, states[j], actions[j]);
    assert Runtime(states[j]) - {} == Runtime(states[j]);
  }

  // ---- Recent entries stay ----

  lemma {:induction false} RunsStayDistinct(self: string, states: seq<Worker>, actions: seq<Action>, j: nat)
    requires IsRun(self, states, actions) && j <= |actions| && Distinct(states[0].cache)
    ensures Distinct(states[j].cache)
  {
    if j > 0 {
      RunsStayDistinct(self, states, actions, j - 1);
      var w, a := states[j - 1], actions[j - 1];
      assert Enabled(self, w, a) && states[j - 1 + 1] == Step(self, w, a);
      hide MayStore, Handled, Doomed, AfterPut, Remove;
      if a.PutResolves? { RemoveKeepsDistinct(w.cache, w.tasks[a.id].request.url); }
      if a.DeleteResolves? { RemoveKeepsDistinct(w.cache, a.url); }
    }
  }

  predicate PutsRuntime(w: Worker, a: Action) {
    a.PutResolves? && a.stored && a.id in w.tasks && w.tasks[a.id].Putting? && IsRuntime(w.tasks[a.id].request.url)
  }

  /** How many of the actions from i up to j stored a runtime entry. */
  function RuntimePuts(states: seq<Worker>, actions: seq<Action>, i: nat, j: nat): nat
    requires i <= j <= |actions| < |states|
  {
    if i == j then 0
    else RuntimePuts(states, actions, i, j - 1) + (if PutsRuntime(states[j - 1], actions[j - 1]) then 1 else 0)
  }

  /** The entry is cached, no trim is about to delete it, and at most n runtime entries were stored since. */
  ghost predicate Recent(w: Worker, u: Url, n: nat) {
    u in w.cache && RuntimeAfter(w.cache, u) <= n && forall id :: u !in DoomedBy(w, id)
  }

  lemma PutIsRecent(self: string, w: Worker, id: nat, u: Url)
    requires Enabled(self, w, PutResolves(id, true)) && w.tasks[id].request.url == u
    requires forall other :: u !in DoomedBy(w, other)
    ensures Recent(Step(self, w, PutResolves(id, true)), u, 0)
  {
    RemoveElements(w.cache, u, u);
    AppendAfter(Remove(w.cache, u), u, u);
    hide Remove, RuntimeAfter, MayStore, Handled, Doomed, RuntimeEntries;
    var w' := Step(self, w, PutResolves(id, true));
    assert u in w'.cache;
    assert RuntimeAfter(w'.cache, u) == 0;
    forall other ensures u !in DoomedBy(w', other) { assert u !in DoomedBy(w, other); }
  }

  lemma PutKeepsRecent(self: string, w: Worker, id: nat, u: Url, n: nat)
    requires Enabled(self, w, PutResolves(id, true)) && Recent(w, u, n)
    ensures Recent(Step(self, w, PutResolves(id, true)), u,
      n + (if PutsRuntime(w, PutResolves(id, true)) then 1 else 0))
  {
    hide Remove, RuntimeAfter, MayStore, Handled, Doomed, RuntimeEntries, IsRuntime;
    var w', url := Step(self, w, PutResolves(id, true)), w.tasks[id].request.url;
    RemoveElements(w.cache, url, u);
    AppendAfter(Remove(w.cache, url), url, u);
    if url != u { RemoveBefore(w.cache, url, u); }
    forall other ensures u !in DoomedBy(w', other) { assert u !in DoomedBy(w, other); }
  }

  lemma StepKeepsRecent(self: string, w: Worker, a: Action, u: Url, n: nat)
    requires Enabled(self, w, a) && Distinct(w.cache) && Recent(w, u, n) && n < MAX_RUNTIME_STATIC_ENTRIES
    ensures Recent(Step(self, w, a), u, n + (if PutsRuntime(w, a) then 1 else 0))
  {
    hide Remove, RuntimeAfter, MayStore, Handled, Doomed, RuntimeEntries, IsRuntime;
    match a {
      case PutResolves(id, stored) =>
        if stored { PutKeepsRecent(self, w, id, u, n); }
      case KeysResolve(id) => if u in Doomed(w.cache) { DoomedIsOld(w.cache, u); }
      case DeleteResolves(id, url) =>
        assert url in DoomedBy(w, id);
        RemoveElements(w.cache, url, u);
        RemoveBefore(w.cache, url, u);
      case _ =>
    }
    if !(a.PutResolves? && a.stored) {
      forall other ensures u !in DoomedBy(Step(self, w, a), other) { assert u !in DoomedBy(w, other); }
    }
  }

  /**
   * A stored entry stays cached while fewer than 64 runtime entries are stored after it, through any
   * interleaving of trims, unless a trim that began before it was stored had doomed it already.
   */
  lemma {:induction false} RecentEntriesStay(self: string, states: seq<Worker>, actions: seq<Action>, i: nat, j: nat,
                                             id: nat, u: Url)
    requires IsRun(self, states, actions) && i < j <= |actions| && Distinct(states[0].cache)
    requires actions[i] == PutResolves(id, true) && id in states[i].tasks && states[i].tasks[id].Putting?
    requires states[i].tasks[id].request.url == u && forall other :: u !in DoomedBy(states[i], other)
    requires RuntimePuts(states, actions, i + 1, j) < 64
    ensures u in states[j].cache && Recent(states[j], u, RuntimePuts(states, actions, i + 1, j))
    decreases j
  {
    hide Step, Enabled, Recent, DoomedBy, PutsRuntime;
    assert Enabled(self, states[j - 1], actions[j - 1]) &&
      states[j - 1 + 1] == Step(self, states[j - 1], actions[j - 1]);
    if j == i + 1 {
      PutIsRecent(self, states[i], id, u);
    } else {
      RecentEntriesStay(self, states, actions, i, j - 1, id, u);
      RunsStayDistinct(self, states, actions, j - 1);
      StepKeepsRecent(self, states[j - 1], actions[j - 1], u, RuntimePuts(states, actions, i + 1, j - 1));
    }
    RecentIsCached(states[j], u, RuntimePuts(states, actions, i + 1, j));
  }

  lemma RecentIsCached(w: Worker, u: Url, n: nat)
    requires Recent(w, u, n)
    ensures u in w.cache
  {
  }

  /** A trim that doomed an entry deletes it even if it was stored again in the meantime, as the newest one. */
  lemma OlderTrimDropsNewEntry(self: string, w: Worker, put: nat, trim: nat, u: Url)
    requires Enabled(self, w, PutResolves(put, true)) && w.tasks[put].request.url == u
    requires trim in w.tasks && u in DoomedBy(w, trim)
    ensures var stored := Step(self, w, PutResolves(put, true));
      && u in stored.cache && RuntimeAfter(stored.cache, u) == 0 && Enabled(self, stored, DeleteResolves(trim, u))
      && u !in Step(self, stored, DeleteResolves(trim, u)).cache
  {
    RemoveElements(w.cache, u, u);
    AppendAfter(Remove(w.cache, u), u, u);
    RemoveElements(AfterPut(w.cache, u), u, u);
    hide Remove, RuntimeAfter, MayStore, Handled, Doomed, RuntimeEntries;
  }

  // ---- What is cached ----

  /** A same-origin URL without credentials in its query: an exact public asset, or a Next static file. */
  predicate Cacheable(self: string, u: Url) {
    && u.origin == self && !HasSensitiveQuery(u) && "_rsc" !in u.queryKeys && !IsPrivatePath(u.path)
    && ((u.search == "" && u.path in PUBLIC_ASSET_PATHS) || "/_next/static/" <= u.path)
  }

  /** A successful same-origin response to a plain GET, immutable unless it is a public asset. */
  predicate StoredProperly(self: string, r: Request, response: Response) {
    && r.verb == "GET" && "authorization" !in r.headers && "rsc" !in r.headers
    && response.ok && response.basic
    && Cacheable(self, r.url)
    && (response.immutable || r.url.path in PUBLIC_ASSET_PATHS)
  }

  predicate Carries(t: Task) {
    t.Matching? || t.Fetching? || t.Putting?
  }

  /** Whether a task that still carries a request does so for a handled, and before a put storable, one. */
  predicate TaskProper(self: string, t: Task) {
    && (Carries(t) ==> Handled(self, t.request))
    && (t.Putting? ==> StoredProperly(self, t.request, t.response))
    && (t.Deleting? ==> forall u :: u in t.doomed ==> IsRuntime(u))
  }

  /** Everything cached was there from the start or was properly stored; public assets are never doomed or lost. */
  ghost predicate Contents(self: string, start: Cache, w: Worker) {
    && (forall u :: u in w.cache ==> u in start || u in AddedUrls(w))
    && (forall u :: u in start && !IsRuntime(u) ==> u in w.cache)
    && (forall e :: e in w.added ==> StoredProperly(self, e.0, e.1))
    && (forall id :: id in w.tasks ==> TaskProper(self, w.tasks[id]))
  }

  function AddedUrls(w: Worker): set<Url> {
    set e | e in w.added :: e.0.url
  }

  lemma StepKeepsContents(self: string, start: Cache, w: Worker, a: Action)
    requires Contents(self, start, w) && Enabled(self, w, a)
    ensures Contents(self, start, Step(self, w, a))
  {
    StepKeepsTasksProper(self, w, a);
    hide Doomed, Remove, MayStore, Handled, StoredProperly, IsRuntime, TaskProper;
    match a {
      case PutResolves(id, stored) =>
        var t := w.tasks[id];
        assert TaskProper(self, t);
        ProperPut(self, t);
        forall u ensures u in AfterPut(w.cache, t.request.url) <==> u in w.cache || u == t.request.url {
          RemoveElements(w.cache, t.request.url, u);
        }
        assert stored ==> AddedUrls(Step(self, w, a)) == AddedUrls(w) + {t.request.url};
      case DeleteResolves(id, url) =>
        assert TaskProper(self, w.tasks[id]);
        ProperDeletion(self, w.tasks[id], url);
        forall u ensures u in Remove(w.cache, url) <==> u in w.cache && u != url {
          RemoveElements(w.cache, url, u);
        }
      case _ =>
    }
  }

  lemma ProperPut(self: string, t: Task)
    requires TaskProper(self, t) && t.Putting?
    ensures StoredProperly(self, t.request, t.response)
  {
  }

  lemma ProperDeletion(self: string, t: Task, url: Url)
    requires TaskProper(self, t) && t.Deleting? && url in t.doomed
    ensures IsRuntime(url)
  {
  }

  lemma StepKeepsTasksProper(self: string, w: Worker, a: Action)
    requires Enabled(self, w, a) && forall id :: id in w.tasks ==> TaskProper(self, w.tasks[id])
    ensures forall id :: id in Step(self, w, a).tasks ==> TaskProper(self, Step(self, w, a).tasks[id])
  {
    hide Doomed, Remove, MayStore, Handled, StoredProperly, IsRuntime;
    if !a.Arrive? { assert TaskProper(self, w.tasks[a.id]); }
    match a {
      case FetchResolves(id, response) =>
        if MayStore(self, w.tasks[id].request, response) { StorableIsProper(self, w.tasks[id].request, response); }
      case KeysResolve(id) => DoomedLeavesBound(w.cache);
      case _ =>
    }
  }

  lemma StorableIsProper(self: string, r: Request, response: Response)
    requires Handled(self, r) && MayStore(self, r, response)
    ensures StoredProperly(self, r, response)
  {
  }

  /**
   * In every run, every cached entry was there at the start or was stored for a request and a response
   * that may be kept: credential-free, same-origin, and immutable unless an exact public asset. A public
   * asset cached at the start stays cached at every later point.
   */
  lemma {:induction false} OnlyCacheableEntriesAreAdded(self: string, states: seq<Worker>, actions: seq<Action>, j: nat)
    requires IsRun(self, states, actions) && j <= |actions|
    ensures forall u :: u in states[j].cache ==>
      u in states[0].cache || exists e :: e in states[j].added && e.0.url == u
    ensures forall e :: e in states[j].added ==> StoredProperly(self, e.0, e.1)
    ensures forall u :: u in states[0].cache && u.path in PUBLIC_ASSET_PATHS ==> u in states[j].cache
    ensures Contents(self, states[0].cache, states[j])
  {
    hide StoredProperly, Step, Enabled, TaskProper;
    if j > 0 {
      OnlyCacheableEntriesAreAdded(self, states, actions, j - 1);
      assert Enabled(self, states[j - 1], actions[j - 1]) &&
        states[j - 1 + 1] == Step(self, states[j - 1], actions[j - 1]);
      StepKeepsContents(self, states[0].cache, states[j - 1], actions[j - 1]);
    }
  }
}
