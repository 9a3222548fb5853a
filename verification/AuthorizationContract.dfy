/**
 * The authorization-to-UI contract of packages/core/src/authorization-contract.ts: a projection built
 * by the server, travelling as JSON, and read back by a client that trusts nothing.
 */
module AuthorizationContract {
  import opened Foundations
  import opened StringOrder

  datatype Json =
    | Null
    | Bool(flag: bool)
    | Number(number: real)
    | String(text: string)
    | Array(items: seq<Json>)
    | Object(fields: map<string, Json>)

  datatype State = Enabled | Disabled | Suspended | Unknown

  datatype Entitlement = Entitlement(moduleKey: string, state: State)

  datatype Projection = Projection(
    allowedActions: seq<string>,
    capabilities: map<string, bool>,
    authorizedSections: seq<string>,
    lifecycle: Option<string>,
    entitlement: Entitlement)

  // ---- Building ----

  /** The own properties of an object in their insertion order. */
  type Entries = seq<(string, bool)>

  predicate DistinctNames(entries: Entries) {
    forall i, j :: 0 <= i < j < |entries| ==> entries[i].0 != entries[j].0
  }

  function Granted(entries: Entries): seq<string> {
    if entries == [] then []
    else if entries[0].1 then [entries[0].0] + Granted(entries[1..])
    else Granted(entries[1..])
  }

  function Decided(entries: Entries, enabled: bool): Entries {
    seq(|entries|, i requires 0 <= i < |entries| => (entries[i].0, enabled && entries[i].1))
  }

  function FromEntries(entries: Entries): map<string, bool> {
    if entries == [] then map[]
    else
      var last := entries[|entries| - 1];
      FromEntries(entries[..|entries| - 1])[last.0 := last.1]
  }

  function Build(actions: Entries, sections: Entries, lifecycle: Option<string>, entitlement: Entitlement): Projection {
    var enabled := entitlement.state == Enabled;
    var decided := Decided(actions, enabled);
    Projection(
      Sort(Granted(decided)),
      FromEntries(decided),
      if enabled then Sort(Granted(sections)) else [],
      lifecycle,
      entitlement)
  }

  // ---- The JSON form ----

  function StateName(state: State): string {
    match state
    case Enabled => "ENABLED"
    case Disabled => "DISABLED"
    case Suspended => "SUSPENDED"
    case Unknown => "UNKNOWN"
  }

  function Strings(xs: seq<string>): Json {
    Array(seq(|xs|, i requires 0 <= i < |xs| => String(xs[i])))
  }

  function Encode(p: Projection): Json {
    Object(map[
      "contractVersion" := Number(1.0),
      "allowedActions" := Strings(p.allowedActions),
      "capabilities" := Object(map k | k in p.capabilities :: Bool(p.capabilities[k])),
      "authorizedSections" := Strings(p.authorizedSections),
      "lifecycleState" := if p.lifecycle.Some? then String(p.lifecycle.value) else Null,
      "entitlementState" :=
        Object(map["module" := String(p.entitlement.moduleKey), "state" := String(StateName(p.entitlement.state))])
    ])
  }

  // ---- Reading ----

  /** Property access on a value that may be anything; arrays have no such named properties. */
  function Get(value: Json, name: string): Option<Json> {
    if value.Object? && name in value.fields then Some(value.fields[name]) else None
  }

  predicate IsStringArray(value: Option<Json>) {
    value.Some? && value.value.Array? && forall i :: 0 <= i < |value.value.items| ==> value.value.items[i].String?
  }

  function StringItems(value: Option<Json>): seq<string>
    requires IsStringArray(value)
  {
    seq(|value.value.items|, i requires 0 <= i < |value.value.items| => value.value.items[i].text)
  }

  predicate IsFlagMap(value: Option<Json>) {
    && value.Some? && value.value.Object?
    && forall k :: k in value.value.fields ==> value.value.fields[k].Bool?
  }

  function ParseState(value: Option<Json>): Option<State> {
    if value == Some(String("ENABLED")) then Some(Enabled)
    else if value == Some(String("DISABLED")) then Some(Disabled)
    else if value == Some(String("SUSPENDED")) then Some(Suspended)
    else if value == Some(String("UNKNOWN")) then Some(Unknown)
    else None
  }

  function ReadEntitlement(value: Option<Json>): Option<Entitlement> {
    if value.None? then None
    else
      var name := Get(value.value, "module");
      var state := ParseState(Get(value.value, "state"));
      if name.None? || !name.value.String? || state.None? then None
      else Some(Entitlement(name.value.text, state.value))
  }

  function Read(value: Json): Option<Projection> {
    if !value.Object? then None
    else if Get(value, "contractVersion") != Some(Number(1.0)) then None
    else if !IsStringArray(Get(value, "allowedActions")) || !IsStringArray(Get(value, "authorizedSections")) then None
    else if !IsFlagMap(Get(value, "capabilities")) then None
    else
      var lifecycle := Get(value, "lifecycleState");
      var entitlement := ReadEntitlement(Get(value, "entitlementState"));
      if lifecycle.None? || !(lifecycle.value.Null? || lifecycle.value.String?) || entitlement.None? then None
      else
        var flags := Get(value, "capabilities").value.fields;
        Some(Projection(
          StringItems(Get(value, "allowedActions")),
          map k | k in flags :: flags[k].flag,
          StringItems(Get(value, "authorizedSections")),
          if lifecycle.value.Null? then None else Some(lifecycle.value.text),
          entitlement.value))
  }

  predicate IsActionAllowed(value: Json, action: string) {
    && var parsed := Read(value);
    && parsed.Some? && parsed.value.entitlement.state == Enabled
    && action in parsed.value.allowedActions
    && action in parsed.value.capabilities && parsed.value.capabilities[action]
  }

  predicate IsSectionAuthorized(value: Json, section: string) {
    && var parsed := Read(value);
    && parsed.Some? && parsed.value.entitlement.state == Enabled
    && section in parsed.value.authorizedSections
  }

  // ---- Facts about building ----

  lemma {:induction false} GrantedIsExact(entries: Entries, name: string)
    ensures name in Granted(entries) <==> (name, true) in entries
  {
    if entries != [] {
      GrantedIsExact(entries[1..], name);
      assert entries == [entries[0]] + entries[1..];
    }
  }

  lemma {:induction false} FromEntriesIsExact(entries: Entries, name: string)
    requires DistinctNames(entries)
    ensures name in FromEntries(entries) <==> (name, true) in entries || (name, false) in entries
    ensures name in FromEntries(entries) ==> (name, FromEntries(entries)[name]) in entries
  {
    if entries != [] {
      var prior, last := entries[..|entries| - 1], entries[|entries| - 1];
      FromEntriesIsExact(prior, name);
      assert entries == prior + [last] && last == (last.0, last.1) && (last.1 || !last.1);
      if last.1 { assert last == (last.0, true); } else { assert last == (last.0, false); }
      assert forall b :: (name, b) in entries <==> (name, b) in prior || (name, b) == last;
      assert forall i :: 0 <= i < |prior| ==> prior[i] == entries[i] && prior[i].0 != last.0;
    }
  }

  lemma DecidedIsExact(entries: Entries, enabled: bool, name: string)
    ensures (name, true) in Decided(entries, enabled) <==> enabled && (name, true) in entries
    ensures DistinctNames(entries) ==> DistinctNames(Decided(entries, enabled))
  {
    var decided := Decided(entries, enabled);
    if (name, true) in entries {
      var i :| 0 <= i < |entries| && entries[i] == (name, true);
      assert decided[i] == (name, enabled);
    }
    if (name, true) in decided {
      var i :| 0 <= i < |decided| && decided[i] == (name, true);
      assert entries[i] == (name, true);
    }
  }

  lemma SortedMember(xs: seq<string>, x: string)
    ensures x in Sort(xs) <==> x in xs
  {
    SortSorts(xs);
    assert x in multiset(Sort(xs)) <==> x in multiset(xs);
  }

  lemma OnePerName(entries: Entries, name: string)
    requires DistinctNames(entries) && (name, true) in entries
    ensures (name, false) !in entries
  {
    var i :| 0 <= i < |entries| && entries[i] == (name, true);
  }

  // ---- Main results ----

  /** Any well-formed projection comes back from its JSON form unchanged. */
  lemma RoundTrip(p: Projection)
    ensures Read(Encode(p)) == Some(p)
  {
    var value := Encode(p);
    assert StringItems(Get(value, "allowedActions")) == p.allowedActions;
    assert StringItems(Get(value, "authorizedSections")) == p.authorizedSections;
    var flags := Get(value, "capabilities").value.fields;
    assert (map k | k in flags :: flags[k].flag) == p.capabilities;
    assert ReadEntitlement(Get(value, "entitlementState")) == Some(p.entitlement);
  }

  /** Reading a built projection allows exactly what the server's maps say, and only when enabled. */
  lemma BuiltDecisionsAreExact(actions: Entries, sections: Entries, lifecycle: Option<string>,
                               entitlement: Entitlement, name: string)
    requires DistinctNames(actions) && DistinctNames(sections)
    ensures var value := Encode(Build(actions, sections, lifecycle, entitlement));
      && (IsActionAllowed(value, name) <==> entitlement.state == Enabled && (name, true) in actions)
      && (IsSectionAuthorized(value, name) <==> entitlement.state == Enabled && (name, true) in sections)
  {
    hide Read, Encode, Sort, Granted, FromEntries;
    var enabled := entitlement.state == Enabled;
    var decided := Decided(actions, enabled);
    RoundTrip(Build(actions, sections, lifecycle, entitlement));
    DecidedIsExact(actions, enabled, name);
    GrantedIsExact(decided, name);
    GrantedIsExact(sections, name);
    SortedMember(Granted(decided), name);
    SortedMember(Granted(sections), name);
    FromEntriesIsExact(decided, name);
    if (name, true) in decided { OnePerName(decided, name); }
  }

  /** The order in which the vocabulary was declared does not show in the projection. */
  lemma BuildIgnoresDeclarationOrder(a1: Entries, s1: Entries, a2: Entries, s2: Entries, lifecycle: Option<string>,
                                     entitlement: Entitlement)
    requires DistinctNames(a1) && DistinctNames(a2)
    requires multiset(a1) == multiset(a2) && multiset(s1) == multiset(s2)
    ensures Build(a1, s1, lifecycle, entitlement) == Build(a2, s2, lifecycle, entitlement)
  {
    var enabled := entitlement.state == Enabled;
    var d1, d2 := Decided(a1, enabled), Decided(a2, enabled);
    DecidedPermutes(a1, a2, enabled);
    forall name ensures multiset(Granted(d1))[name] == multiset(Granted(d2))[name]
      && multiset(Granted(s1))[name] == multiset(Granted(s2))[name]
    {
      GrantedCount(d1, name);
      GrantedCount(d2, name);
      GrantedCount(s1, name);
      GrantedCount(s2, name);
    }
    SortIsCanonical(Granted(d1), Granted(d2));
    SortIsCanonical(Granted(s1), Granted(s2));
    FromEntriesPermutes(d1, d2);
  }

  lemma {:induction false} GrantedCount(entries: Entries, name: string)
    ensures multiset(Granted(entries))[name] == multiset(entries)[(name, true)]
  {
    if entries != [] {
      GrantedCount(entries[1..], name);
      assert entries == [entries[0]] + entries[1..];
      assert multiset(entries)[(name, true)] ==
        multiset([entries[0]])[(name, true)] + multiset(entries[1..])[(name, true)];
    }
  }

  lemma {:induction false} DecidedCount(entries: Entries, enabled: bool, e: (string, bool))
    ensures multiset(Decided(entries, enabled))[e] ==
      if enabled then multiset(entries)[e]
      else if e.1 then 0 else multiset(entries)[(e.0, true)] + multiset(entries)[(e.0, false)]
  {
    if entries != [] {
      var rest := entries[1..];
      DecidedCount(rest, enabled, e);
      assert entries == [entries[0]] + rest;
      var first, decided := entries[0], (entries[0].0, enabled && entries[0].1);
      assert first == (first.0, first.1) && e == (e.0, e.1);
      if first.1 { assert first == (first.0, true); } else { assert first == (first.0, false); }
      assert Decided(entries, enabled) == [decided] + Decided(rest, enabled);
      assert multiset(Decided(entries, enabled))[e] ==
        (if decided == e then 1 else 0) + multiset(Decided(rest, enabled))[e];
      assert forall x :: multiset(entries)[x] == (if first == x then 1 else 0) + multiset(rest)[x];
    }
  }

  lemma DecidedPermutes(xs: Entries, ys: Entries, enabled: bool)
    requires DistinctNames(xs) && DistinctNames(ys) && multiset(xs) == multiset(ys)
    ensures multiset(Decided(xs, enabled)) == multiset(Decided(ys, enabled))
    ensures DistinctNames(Decided(xs, enabled)) && DistinctNames(Decided(ys, enabled))
  {
    forall e ensures multiset(Decided(xs, enabled))[e] == multiset(Decided(ys, enabled))[e] {
      DecidedCount(xs, enabled, e);
      DecidedCount(ys, enabled, e);
    }
  }

  lemma FromEntriesPermutes(xs: Entries, ys: Entries)
    requires DistinctNames(xs) && DistinctNames(ys) && multiset(xs) == multiset(ys)
    ensures FromEntries(xs) == FromEntries(ys)
  {
    var left, right := FromEntries(xs), FromEntries(ys);
    forall e: (string, bool) ensures e in xs <==> e in ys {
      assert e in multiset(xs) <==> e in multiset(ys);
    }
    forall name ensures name in left <==> name in right
      ensures name in left && name in right ==> left[name] == right[name]
    {
      FromEntriesIsExact(xs, name);
      FromEntriesIsExact(ys, name);
      if name in left && name in right {
        assert (name, right[name]) in xs;
        if (name, true) in xs { OnePerName(xs, name); }
      }
    }
  }

  /**
   * Whatever JSON value is read, it decides every action and section as some built projection would:
   * an untrusted value can express nothing that the server's own builder could not.
   */
  lemma ReadableIsEquivalentToBuilt(value: Json) returns (actions: Entries, sections: Entries, entitlement: Entitlement)
    ensures DistinctNames(actions) && DistinctNames(sections)
    ensures var built := Encode(Build(actions, sections, None, entitlement));
      forall name :: (IsActionAllowed(value, name) <==> IsActionAllowed(built, name))
        && (IsSectionAuthorized(value, name) <==> IsSectionAuthorized(built, name))
    ensures Read(value).None? ==> entitlement.state != Enabled
    ensures Read(value).Some? ==> entitlement == Read(value).value.entitlement
  {
    if Read(value).None? {
      actions, sections, entitlement := [], [], Entitlement("", Unknown);
    } else {
      var parsed := Read(value).value;
      entitlement := parsed.entitlement;
      actions := Names(set k | k in parsed.allowedActions && k in parsed.capabilities && parsed.capabilities[k]);
      sections := Names(set k | k in parsed.authorizedSections);
    }
    forall name ensures
      var built := Encode(Build(actions, sections, None, entitlement));
      (IsActionAllowed(value, name) <==> IsActionAllowed(built, name))
        && (IsSectionAuthorized(value, name) <==> IsSectionAuthorized(built, name))
    {
      BuiltDecisionsAreExact(actions, sections, None, entitlement, name);
    }
  }

  lemma {:induction false} Names(names: set<string>) returns (entries: Entries)
    ensures DistinctNames(entries)
    ensures forall e :: e in entries <==> e.1 && e.0 in names
    decreases |names|
  {
    if names == {} {
      entries := [];
    } else {
      var name :| name in names;
      var rest := Names(names - {name});
      entries := [(name, true)] + rest;
      forall j | 0 <= j < |rest| ensures rest[j].0 != name { assert rest[j] in rest; }
    }
  }

  /**
   * What an allow rests on, for any JSON value: a listed action, the same decision in the map, and an
   * enabled module.
   */
  lemma AllowNeedsWellFormedContract(value: Json, action: string)
    requires IsActionAllowed(value, action)
    ensures Get(value, "contractVersion") == Some(Number(1.0))
    ensures Get(value, "entitlementState").Some? &&
      Get(Get(value, "entitlementState").value, "state") == Some(String("ENABLED"))
    ensures Get(value, "allowedActions").Some? && Get(value, "allowedActions").value.Array?
      && String(action) in Get(value, "allowedActions").value.items
    ensures Get(value, "capabilities").Some? && Get(Get(value, "capabilities").value, action) == Some(Bool(true))
  {
    var parsed := Read(value).value;
    var items := Get(value, "allowedActions").value.items;
    var i :| 0 <= i < |parsed.allowedActions| && parsed.allowedActions[i] == action;
    assert items[i] == String(action);
  }

  /** What an authorized section rests on, for any JSON value: the version, an enabled module, and its name. */
  lemma AuthorizedSectionNeedsWellFormedContract(value: Json, section: string)
    requires IsSectionAuthorized(value, section)
    ensures Get(value, "contractVersion") == Some(Number(1.0))
    ensures Get(value, "entitlementState").Some? &&
      Get(Get(value, "entitlementState").value, "state") == Some(String("ENABLED"))
    ensures Get(value, "authorizedSections").Some? && Get(value, "authorizedSections").value.Array?
      && String(section) in Get(value, "authorizedSections").value.items
  {
    var parsed := Read(value).value;
    var items := Get(value, "authorizedSections").value.items;
    var i :| 0 <= i < |parsed.authorizedSections| && parsed.authorizedSections[i] == section;
    assert items[i] == String(section);
  }

  /** The state a JSON value claims for its module, whatever else it holds. */
  function ClaimedState(value: Json): Option<Json> {
    var entitlement := Get(value, "entitlementState");
    if entitlement.Some? then Get(entitlement.value, "state") else None
  }

  /** Whatever JSON value is read, nothing is allowed or authorized unless it says "ENABLED". */
  lemma NothingUnlessEnabled(value: Json, name: string)
    requires ClaimedState(value) != Some(String("ENABLED"))
    ensures !IsActionAllowed(value, name) && !IsSectionAuthorized(value, name)
  {
    if IsActionAllowed(value, name) {
      AllowNeedsWellFormedContract(value, name);
    } else if IsSectionAuthorized(value, name) {
      AuthorizedSectionNeedsWellFormedContract(value, name);
    }
  }

  /** The value has every field of the JSON form, and its entitlement both of its own; what else it has is ignored. */
  predicate Carries(value: Json, p: Projection) {
    && (forall name :: name in Encode(p).fields && name != "entitlementState" ==>
          Get(value, name) == Some(Encode(p).fields[name]))
    && Get(value, "entitlementState").Some?
    && Get(Get(value, "entitlementState").value, "module") == Some(String(p.entitlement.moduleKey))
    && ClaimedState(value) == Some(String(StateName(p.entitlement.state)))
  }

  /** Reading inverts writing: a value is read as a projection exactly when it carries its fields. */
  lemma ReadIsExact(value: Json, p: Projection)
    ensures Read(value) == Some(p) <==> Carries(value, p)
  {
    if Read(value) == Some(p) { ReadIsCarried(value, p); }
    if Carries(value, p) { CarriedIsRead(value, p); }
  }

  lemma CarriedIsRead(value: Json, p: Projection)
    requires Carries(value, p)
    ensures Read(value) == Some(p)
  {
    var fields := Encode(p).fields;
    assert Get(value, "contractVersion") == Some(fields["contractVersion"]);
    assert Get(value, "allowedActions") == Some(fields["allowedActions"]);
    assert Get(value, "capabilities") == Some(fields["capabilities"]);
    assert Get(value, "authorizedSections") == Some(fields["authorizedSections"]);
    assert Get(value, "lifecycleState") == Some(fields["lifecycleState"]);
    StringsReadBack(p.allowedActions);
    StringsReadBack(p.authorizedSections);
    var flags := fields["capabilities"].fields;
    assert (map k | k in flags :: flags[k].flag) == p.capabilities;
    assert ReadEntitlement(Get(value, "entitlementState")) == Some(p.entitlement);
  }

  lemma StringsReadBack(xs: seq<string>)
    ensures IsStringArray(Some(Strings(xs))) && StringItems(Some(Strings(xs))) == xs
  {
  }

  lemma StringArrayWritesBack(value: Option<Json>)
    requires IsStringArray(value)
    ensures value == Some(Strings(StringItems(value)))
  {
    var items, written := value.value.items, Strings(StringItems(value)).items;
    assert forall i :: 0 <= i < |items| ==> items[i] == written[i];
    assert items == written;
  }

  lemma ReadIsCarried(value: Json, p: Projection)
    requires Read(value) == Some(p)
    ensures Carries(value, p)
  {
    StringArrayWritesBack(Get(value, "allowedActions"));
    StringArrayWritesBack(Get(value, "authorizedSections"));
    var flags := Get(value, "capabilities").value.fields;
    FlagsWriteBack(flags, p.capabilities);
    StateReadsBack(ClaimedState(value), p.entitlement.state);
    hide ParseState, StateName, StringItems, Strings;
  }

  lemma FlagsWriteBack(flags: map<string, Json>, capabilities: map<string, bool>)
    requires forall k :: k in flags ==> flags[k].Bool?
    requires capabilities == map k | k in flags :: flags[k].flag
    ensures flags == map k | k in capabilities :: Bool(capabilities[k])
  {
    assert forall k :: k in flags ==> flags[k] == Bool(flags[k].flag);
  }

  lemma StateReadsBack(value: Option<Json>, state: State)
    ensures ParseState(value) == Some(state) <==> value == Some(String(StateName(state)))
  {
  }

  /**
   * The built projection as any client reads it: the lifecycle and the entitlement the server gave, one flag
   * for every declared action and for nothing else, the actions flagged, and the sections granted, each list
   * sorted and, flag by flag, empty unless the module is enabled.
   */
  lemma BuiltProjectionReadsBack(actions: Entries, sections: Entries, lifecycle: Option<string>,
                                 entitlement: Entitlement, name: string)
    requires DistinctNames(actions) && DistinctNames(sections)
    ensures var read := Read(Encode(Build(actions, sections, lifecycle, entitlement)));
      && read.Some? && read.value.lifecycle == lifecycle && read.value.entitlement == entitlement
      && (name in read.value.capabilities <==> (name, true) in actions || (name, false) in actions)
      && (name in read.value.capabilities ==>
            (read.value.capabilities[name] <==> entitlement.state == Enabled && (name, true) in actions))
      && (name in read.value.allowedActions <==> name in read.value.capabilities && read.value.capabilities[name])
      && (name in read.value.authorizedSections <==> entitlement.state == Enabled && (name, true) in sections)
      && Ascending(read.value.allowedActions) && Ascending(read.value.authorizedSections)
  {
    hide Read, Encode, Sort, Granted, FromEntries, Ascending;
    var enabled := entitlement.state == Enabled;
    var decided := Decided(actions, enabled);
    RoundTrip(Build(actions, sections, lifecycle, entitlement));
    DecidedIsExact(actions, enabled, name);
    DecidedNames(actions, enabled, name);
    GrantedIsExact(decided, name);
    GrantedIsExact(sections, name);
    SortedMember(Granted(decided), name);
    SortedMember(Granted(sections), name);
    SortSorts(Granted(decided));
    SortSorts(Granted(sections));
    assert Ascending([]) by { SortSorts([]); EmptySort(); }
    FromEntriesIsExact(decided, name);
    if (name, true) in decided { OnePerName(decided, name); }
  }

  lemma EmptySort()
    ensures Sort([]) == []
  {
  }

  lemma DecidedNames(entries: Entries, enabled: bool, name: string)
    ensures ((name, true) in Decided(entries, enabled) || (name, false) in Decided(entries, enabled)) <==>
      ((name, true) in entries || (name, false) in entries)
  {
    var decided := Decided(entries, enabled);
    forall i | 0 <= i < |entries| ensures decided[i] in {(entries[i].0, true), (entries[i].0, false)}
      && entries[i] in {(entries[i].0, true), (entries[i].0, false)}
    {
      if entries[i].1 {} else {}
    }
    if (name, true) in entries || (name, false) in entries {
      var i :| 0 <= i < |entries| && entries[i].0 == name;
      assert decided[i] in decided;
    }
    if (name, true) in decided || (name, false) in decided {
      var i :| 0 <= i < |decided| && decided[i].0 == name;
      assert entries[i] in entries;
    }
  }
}
