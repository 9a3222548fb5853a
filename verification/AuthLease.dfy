/**
 * The offline authorization lease of apps/web/lib/offline-auth-lease.ts: a session's identity, roles
 * and permissions joined into one fingerprint, and a window of at most eight hours.
 */
module AuthLease {
  import opened Foundations
  import opened StringOrder

  const LEASE_MS := 8 * 60 * 60 * 1000

  datatype Domain = School | Platform

  /** A time that does not parse to a finite number is None. */
  datatype Lease = Lease(
    tenantId: string,
    userId: string,
    capturedAt: Option<int>,
    expiresAt: Option<int>,
    domain: Domain,
    fingerprint: string)

  datatype Session = Session(
    tenantId: Option<string>,
    userId: Option<string>,
    domain: Option<Domain>,
    permissions: seq<string>,
    roles: seq<string>)

  function Join(parts: seq<string>, separator: char): string {
    if parts == [] then ""
    else if |parts| == 1 then parts[0]
    else parts[0] + [separator] + Join(parts[1..], separator)
  }

  function Fingerprint(tenantId: string, userId: string, permissions: seq<string>, roles: seq<string>): string {
    Join([tenantId, userId, Join(Sort(roles), ','), Join(Sort(permissions), ',')], '|')
  }

  function Create(tenantId: string, userId: string, domain: Option<Domain>, permissions: seq<string>,
                  roles: seq<string>,
                  now: int, ttl: Option<int>): Lease {
    var ttlMs := if ttl.Some? then ttl.value else LEASE_MS;
    Lease(tenantId, userId, Some(now), Some(now + ttlMs), if domain.Some? then domain.value else School,
          Fingerprint(tenantId, userId, permissions, roles))
  }

  predicate IsValid(lease: Option<Lease>, session: Session, now: int) {
    && lease.Some?
    && var l := lease.value;
    && l.domain != Platform
    && session.domain != Some(Platform)
    && session.tenantId == Some(l.tenantId) && session.userId == Some(l.userId)
    && l.capturedAt.Some? && l.expiresAt.Some?
    && l.capturedAt.value <= now < l.expiresAt.value
    && 0 < l.expiresAt.value - l.capturedAt.value <= LEASE_MS
    && l.fingerprint == Fingerprint(l.tenantId, l.userId, session.permissions, session.roles)
  }

  // ---- Joining ----

  /** Names that can be told apart after joining: not empty and without either separator. */
  predicate Clean(names: seq<string>) {
    forall i :: 0 <= i < |names| ==> names[i] != "" && ',' !in names[i] && '|' !in names[i]
  }

  /** A suffix without the separator starts where the separator last appears. */
  lemma LastPart(a: string, x: string, b: string, y: string, separator: char)
    requires separator !in x && separator !in y
    requires a + [separator] + x == b + [separator] + y
    ensures a == b && x == y
  {
    var whole := a + [separator] + x;
    assert whole[|a|] == separator && whole[|b|] == separator;
    assert forall i :: |a| < i < |whole| ==> whole[i] == x[i - |a| - 1] && whole[i] != separator;
    assert forall i :: |b| < i < |whole| ==> whole[i] == y[i - |b| - 1] && whole[i] != separator;
    assert |a| == |b|;
    assert a == whole[..|a|] && b == whole[..|b|];
    assert x == whole[|a| + 1..] && y == whole[|b| + 1..];
  }

  lemma {:induction false} JoinMentions(parts: seq<string>, separator: char)
    requires |parts| > 1
    ensures separator in Join(parts, separator)
  {
    var whole := Join(parts, separator);
    assert whole[|parts[0]|] == separator;
  }

  /** No part contains the separator. */
  predicate Avoids(parts: seq<string>, separator: char) {
    forall i :: 0 <= i < |parts| ==> separator !in parts[i]
  }

  /** Equally long lists of parts without the separator are told apart by their joins. */
  lemma {:induction false} JoinIsInjective(xs: seq<string>, ys: seq<string>, separator: char)
    requires |xs| == |ys| && Avoids(xs, separator) && Avoids(ys, separator)
    requires Join(xs, separator) == Join(ys, separator)
    ensures xs == ys
  {
    if |xs| > 1 {
      FirstPart(xs[0], Join(xs[1..], separator), ys[0], Join(ys[1..], separator), separator);
      JoinIsInjective(xs[1..], ys[1..], separator);
      assert xs == [xs[0]] + xs[1..] && ys == [ys[0]] + ys[1..];
    }
  }

  /** If no part is empty either, the join determines how many parts there are. */
  lemma {:induction false} JoinDeterminesLength(xs: seq<string>, ys: seq<string>, separator: char)
    requires Avoids(xs, separator) && Avoids(ys, separator)
    requires forall i :: 0 <= i < |xs| ==> xs[i] != ""
    requires forall i :: 0 <= i < |ys| ==> ys[i] != ""
    requires Join(xs, separator) == Join(ys, separator)
    ensures |xs| == |ys|
  {
    if |xs| > 1 && |ys| > 1 {
      FirstPart(xs[0], Join(xs[1..], separator), ys[0], Join(ys[1..], separator), separator);
      JoinDeterminesLength(xs[1..], ys[1..], separator);
    } else if |xs| > 1 {
      JoinMentions(xs, separator);
    } else if |ys| > 1 {
      JoinMentions(ys, separator);
    }
  }

  lemma {:induction false} JoinAvoids(parts: seq<string>, separator: char, c: char)
    requires Avoids(parts, c) && c != separator
    ensures c !in Join(parts, separator)
  {
    if |parts| > 1 {
      JoinAvoids(parts[1..], separator, c);
    }
  }

  lemma SortStaysClean(names: seq<string>)
    requires Clean(names)
    ensures Clean(Sort(names))
  {
    SortSorts(names);
    forall i | 0 <= i < |Sort(names)| ensures Sort(names)[i] != "" && ',' !in Sort(names)[i] && '|' !in Sort(names)[i] {
      assert Sort(names)[i] in multiset(Sort(names));
      assert Sort(names)[i] in names;
    }
  }

  /** Sorted lists of clean names join to the same text exactly when they hold the same names equally often. */
  lemma SortedJoinIsCanonical(xs: seq<string>, ys: seq<string>)
    requires Clean(xs) && Clean(ys)
    ensures Join(Sort(xs), ',') == Join(Sort(ys), ',') <==> multiset(xs) == multiset(ys)
    ensures '|' !in Join(Sort(xs), ',') && '|' !in Join(Sort(ys), ',')
  {
    SortStaysClean(xs);
    SortStaysClean(ys);
    SortIsCanonical(xs, ys);
    JoinAvoids(Sort(xs), ',', '|');
    JoinAvoids(Sort(ys), ',', '|');
    if Join(Sort(xs), ',') == Join(Sort(ys), ',') {
      JoinDeterminesLength(Sort(xs), Sort(ys), ',');
      JoinIsInjective(Sort(xs), Sort(ys), ',');
    }
  }

  lemma JoinTwo(a: string, b: string, rest: seq<string>, separator: char)
    requires rest != []
    ensures Join([a, b] + rest, separator) == a + [separator] + b + [separator] + Join(rest, separator)
  {
    var parts := [a, b] + rest;
    assert parts[1..] == [b] + rest && parts[1..][1..] == rest;
  }

  /** The text that stands for both ids in a fingerprint. */
  function Ids(tenantId: string, userId: string): string {
    tenantId + "|" + userId
  }

  lemma FingerprintParts(tenantId: string, userId: string, permissions: seq<string>, roles: seq<string>)
    ensures Fingerprint(tenantId, userId, permissions, roles)
         == Ids(tenantId, userId) + ['|'] + Join(Sort(roles), ',') + ['|'] + Join(Sort(permissions), ',')
  {
    var rest := [Join(Sort(roles), ','), Join(Sort(permissions), ',')];
    JoinTwo(tenantId, userId, rest, '|');
    assert [tenantId, userId] + rest == [tenantId, userId, Join(Sort(roles), ','), Join(Sort(permissions), ',')];
    assert rest[1..] == [Join(Sort(permissions), ',')];
  }

  /**
   * For clean roles and permissions and any ids at all, fingerprints are equal exactly when the two ids,
   * written with a bar between them, read the same and the roles and the permissions are the same multisets.
   */
  lemma FingerprintIdentifiesUpToIds(t1: string, u1: string, p1: seq<string>, r1: seq<string>,
                                     t2: string, u2: string, p2: seq<string>, r2: seq<string>)
    requires Clean(p1) && Clean(r1) && Clean(p2) && Clean(r2)
    ensures Fingerprint(t1, u1, p1, r1) == Fingerprint(t2, u2, p2, r2)
      <==> Ids(t1, u1) == Ids(t2, u2) && multiset(r1) == multiset(r2) && multiset(p1) == multiset(p2)
  {
    SortedJoinIsCanonical(r1, r2);
    SortedJoinIsCanonical(p1, p2);
    FingerprintParts(t1, u1, p1, r1);
    FingerprintParts(t2, u2, p2, r2);
    hide Fingerprint, Ids, Join, Clean;
    var roles1, roles2 := Join(Sort(r1), ','), Join(Sort(r2), ',');
    var permissions1, permissions2 := Join(Sort(p1), ','), Join(Sort(p2), ',');
    if Fingerprint(t1, u1, p1, r1) == Fingerprint(t2, u2, p2, r2) {
      LastPart(Ids(t1, u1) + ['|'] + roles1, permissions1, Ids(t2, u2) + ['|'] + roles2, permissions2, '|');
      LastPart(Ids(t1, u1), roles1, Ids(t2, u2), roles2, '|');
    }
  }

  /**
   * If the tenant ids, or the user ids, hold no bar, fingerprints are equal exactly when the ids are and
   * the roles and the permissions are the same multisets, in whatever order they were listed.
   */
  lemma FingerprintIdentifies(t1: string, u1: string, p1: seq<string>, r1: seq<string>,
                              t2: string, u2: string, p2: seq<string>, r2: seq<string>)
    requires ('|' !in t1 && '|' !in t2) || ('|' !in u1 && '|' !in u2)
    requires Clean(p1) && Clean(r1) && Clean(p2) && Clean(r2)
    ensures Fingerprint(t1, u1, p1, r1) == Fingerprint(t2, u2, p2, r2)
      <==> t1 == t2 && u1 == u2 && multiset(r1) == multiset(r2) && multiset(p1) == multiset(p2)
  {
    FingerprintIdentifiesUpToIds(t1, u1, p1, r1, t2, u2, p2, r2);
    hide Fingerprint, Clean;
    if Ids(t1, u1) == Ids(t2, u2) {
      if '|' !in t1 && '|' !in t2 { FirstPart(t1, u1, t2, u2, '|'); } else { LastPart(t1, u1, t2, u2, '|'); }
    }
  }

  lemma SingletonJoins(x: string)
    ensures Join(Sort([x]), ',') == x
  {
    assert Sort([x][1..]) == [];
    assert Sort([x]) == [x];
  }

  /**
   * Names with a comma undo the distinction: any roles, and any permissions, share their fingerprint with
   * the single name that is their own sorted join, which is another list unless there was just one name.
   */
  lemma JoinedNameCollides(tenantId: string, userId: string, permissions: seq<string>, roles: seq<string>)
    ensures Fingerprint(tenantId, userId, permissions, roles) ==
      Fingerprint(tenantId, userId, permissions, [Join(Sort(roles), ',')])
    ensures Fingerprint(tenantId, userId, permissions, roles) ==
      Fingerprint(tenantId, userId, [Join(Sort(permissions), ',')], roles)
    ensures |roles| != 1 ==> multiset(roles) != multiset([Join(Sort(roles), ',')])
    ensures |permissions| != 1 ==> multiset(permissions) != multiset([Join(Sort(permissions), ',')])
  {
    SingletonJoins(Join(Sort(roles), ','));
    SingletonJoins(Join(Sort(permissions), ','));
    assert |multiset(roles)| == |roles| && |multiset([Join(Sort(roles), ',')])| == 1;
    assert |multiset(permissions)| == |permissions| && |multiset([Join(Sort(permissions), ',')])| == 1;
  }

  /** An id with a bar does the same: whatever stands after a bar may belong to either id. */
  lemma BarredIdCollides(tenantId: string, middle: string, userId: string, permissions: seq<string>, roles: seq<string>)
    ensures Fingerprint(tenantId + "|" + middle, userId, permissions, roles)
         == Fingerprint(tenantId, middle + "|" + userId, permissions, roles)
    ensures tenantId + "|" + middle != tenantId
  {
    var rest := [Join(Sort(roles), ','), Join(Sort(permissions), ',')];
    JoinTwo(tenantId + "|" + middle, userId, rest, '|');
    JoinTwo(tenantId, middle + "|" + userId, rest, '|');
    assert [tenantId + "|" + middle, userId] + rest
      == [tenantId + "|" + middle, userId, Join(Sort(roles), ','), Join(Sort(permissions), ',')];
    assert [tenantId, middle + "|" + userId] + rest
      == [tenantId, middle + "|" + userId, Join(Sort(roles), ','), Join(Sort(permissions), ',')];
    assert tenantId + "|" + middle + "|" + userId == tenantId + "|" + (middle + "|" + userId);
    assert |tenantId + "|" + middle| > |tenantId|;
  }

  /** The smallest collisions: a comma in a name, an empty name, and a bar in an id. */
  lemma FingerprintNeedsCleanNames(tenantId: string, userId: string, permissions: seq<string>)
    ensures Fingerprint(tenantId, userId, permissions, ["a", "b"]) ==
      Fingerprint(tenantId, userId, permissions, ["a,b"])
    ensures Fingerprint(tenantId, userId, permissions, []) == Fingerprint(tenantId, userId, permissions, [""])
    ensures Fingerprint(tenantId + "|x", userId, permissions, []) ==
      Fingerprint(tenantId, "x|" + userId, permissions, [])
  {
    assert AtMost("a", "b");
    assert ["a", "b"][1..] == ["b"] && ["b"][1..] == [];
    assert Sort(["b"]) == ["b"];
    assert Sort(["a", "b"]) == ["a", "b"];
    assert Join(["a", "b"], ',') == "a,b";
    JoinedNameCollides(tenantId, userId, permissions, ["a", "b"]);
    JoinedNameCollides(tenantId, userId, permissions, []);
    BarredIdCollides(tenantId, "x", userId, permissions, []);
    assert tenantId + "|" + "x" == tenantId + "|x" && "x" + "|" + userId == "x|" + userId;
  }

  // ---- Leases ----

  /** Any lease judged valid, however it was made, was captured in the last eight hours. */
  lemma ValidLeaseIsRecent(lease: Option<Lease>, session: Session, now: int)
    requires IsValid(lease, session, now)
    ensures lease.value.capturedAt.value <= now < lease.value.capturedAt.value + 8 * 60 * 60 * 1000
    ensures now < lease.value.expiresAt.value
  {
  }

  /**
   * A created lease is valid exactly for school sessions of the same tenant and user with the same
   * roles and permissions, exactly throughout its window, and only if the window is at most eight hours.
   */
  lemma CreatedLeaseIsValidExactly(tenantId: string, userId: string, domain: Option<Domain>, permissions: seq<string>,
                                   roles: seq<string>, captured: int, ttl: Option<int>, session: Session, now: int)
    requires Clean(permissions) && Clean(roles)
    requires Clean(session.permissions) && Clean(session.roles)
    ensures var ttlMs := if ttl.Some? then ttl.value else 8 * 60 * 60 * 1000;
      IsValid(Some(Create(tenantId, userId, domain, permissions, roles, captured, ttl)), session, now) <==>
        && domain != Some(Platform) && session.domain != Some(Platform)
        && session.tenantId == Some(tenantId) && session.userId == Some(userId)
        && 0 < ttlMs <= 8 * 60 * 60 * 1000 && captured <= now < captured + ttlMs
        && multiset(session.roles) == multiset(roles) && multiset(session.permissions) == multiset(permissions)
  {
    FingerprintIdentifiesUpToIds(tenantId, userId, permissions, roles, tenantId, userId, session.permissions,
      session.roles);
  }
}
