/**
 The extension registry of internal/service/extensions/registry.go: dependencies of registered extensions stay
 registered, and when the registry can be emptied again. The two format checks made with regular expressions are
 parameters.
 */
module Registry {
  import opened Wrappers

  datatype Entry = Entry(
    namespace: string, version: string, title: string, status: string, maintainerName: string, contactURI: string,
    specificationURI: string, dependencies: seq<string>, conflictsWith: seq<string>)

  datatype Formats = Formats(validNamespace: string -> bool, validVersion: string -> bool)

  datatype RegistryError =
    | InvalidNamespace | InvalidVersion | MissingField(field: string)
    | ConflictsWith(other: string) | Requires(dep: string) | NotFound | RequiredBy(other: string)

  type Entries = map<string, Entry>

  function Validate(formats: Formats, e: Entry): Option<RegistryError> {
    if !formats.validNamespace(e.namespace) then Some(InvalidNamespace)
    else if !formats.validVersion(e.version) then Some(InvalidVersion)
    else if e.title == "" then Some(MissingField("title"))
    else if e.status == "" then Some(MissingField("status"))
    else if e.maintainerName == "" then Some(MissingField("maintainer.name"))
    else if e.contactURI == "" then Some(MissingField("maintainer.contact_uri"))
    else if e.specificationURI == "" then Some(MissingField("specification_uri"))
    else None
  }

  /** The first name of a list that is registered, or that is not. */
  function FirstRegistered(names: seq<string>, entries: Entries): Option<string> {
    if names == [] then None else if names[0] in entries then Some(names[0]) else FirstRegistered(names[1..], entries)
  }

  function FirstMissing(names: seq<string>, entries: Entries): Option<string> {
    if names == [] then None else if names[0] !in entries then Some(names[0]) else FirstMissing(names[1..], entries)
  }

  function RegisterError(formats: Formats, entries: Entries, e: Entry): Option<RegistryError> {
    if Validate(formats, e).Some? then Validate(formats, e)
    else if FirstRegistered(e.conflictsWith, entries).Some? then
      Some(ConflictsWith(FirstRegistered(e.conflictsWith, entries).value))
    else if FirstMissing(e.dependencies, entries).Some? then Some(Requires(FirstMissing(e.dependencies, entries).value))
    else None
  }

  /** An existing entry of the same namespace is replaced. */
  function Registered(formats: Formats, entries: Entries, e: Entry): Entries {
    if RegisterError(formats, entries, e).Some? then entries else entries[e.namespace := e]
  }

  predicate DependsOn(e: Entry, ns: string) {
    ns in e.dependencies
  }

  predicate Removable(entries: Entries, ns: string) {
    ns in entries && forall k | k in entries :: !DependsOn(entries[k], ns)
  }

  function Removed(entries: Entries, ns: string): Entries {
    if Removable(entries, ns) then entries - {ns} else entries
  }

  /** Registers a list in order, up to the first error. */
  function Loaded(formats: Formats, entries: Entries, list: seq<Entry>): Entries
    decreases |list|
  {
    if list == [] || RegisterError(formats, entries, list[0]).Some? then entries
    else Loaded(formats, Registered(formats, entries, list[0]), list[1..])
  }

  function LoadError(formats: Formats, entries: Entries, list: seq<Entry>): Option<RegistryError>
    decreases |list|
  {
    if list == [] then None
    else if RegisterError(formats, entries, list[0]).Some? then RegisterError(formats, entries, list[0])
    else LoadError(formats, Registered(formats, entries, list[0]), list[1..])
  }

  class ExtensionRegistry {
    const formats: Formats
    var entries: Entries

    constructor (formats: Formats)
      ensures this.formats == formats && entries == map[]
    {
      this.formats := formats;
      entries := map[];
    }

    method Register(entry: Entry) returns (err: Option<RegistryError>)
      modifies this
      ensures err == RegisterError(formats, old(entries), entry) && entries == Registered(formats, old(entries), entry)
    {
      err := Validate(formats, entry);
      if err.Some? {
        return;
      }
      var i := 0;
      while i < |entry.conflictsWith|
        invariant 0 <= i <= |entry.conflictsWith|
        invariant FirstRegistered(entry.conflictsWith[i..], entries) == FirstRegistered(entry.conflictsWith, entries)
      {
        if entry.conflictsWith[i] in entries {
          return Some(ConflictsWith(entry.conflictsWith[i]));
        }
        i := i + 1;
      }
      i := 0;
      while i < |entry.dependencies|
        invariant 0 <= i <= |entry.dependencies|
        invariant FirstMissing(entry.dependencies[i..], entries) == FirstMissing(entry.dependencies, entries)
      {
        if entry.dependencies[i] !in entries {
          return Some(Requires(entry.dependencies[i]));
        }
        i := i + 1;
      }
      entries := entries[entry.namespace := entry];
      return None;
    }

    /** The entry named in a refusal is one that depends on the namespace; which one depends on the iteration order. */
    method Remove(namespace: string) returns (err: Option<RegistryError>)
      modifies this
      ensures entries == Removed(old(entries), namespace)
      ensures err.None? <==> Removable(old(entries), namespace)
      ensures namespace !in old(entries) ==> err == Some(NotFound)
      ensures namespace in old(entries) && err.Some? ==>
                exists k :: k in entries && DependsOn(entries[k], namespace) && err == Some(RequiredBy(entries[k].namespace))
    {
      if namespace !in entries {
        return Some(NotFound);
      }
      var rest := entries.Keys;
      while rest != {}
        invariant rest <= entries.Keys
        invariant forall k | k in entries && k !in rest :: !DependsOn(entries[k], namespace)
      {
        var k :| k in rest;
        rest := rest - {k};
        var entry := entries[k];
        for i := 0 to |entry.dependencies|
          invariant namespace !in entry.dependencies[..i]
        {
          if entry.dependencies[i] == namespace {
            assert DependsOn(entries[k], namespace);
            return Some(RequiredBy(entry.namespace));
          }
        }
        assert entry.dependencies[..|entry.dependencies|] == entry.dependencies;
      }
      entries := entries - {namespace};
      return None;
    }

    method LoadFromConfig(list: seq<Entry>) returns (err: Option<RegistryError>)
      modifies this
      ensures entries == Loaded(formats, old(entries), list)
      ensures err == LoadError(formats, old(entries), list)
    {
      for i := 0 to |list|
        invariant Loaded(formats, entries, list[i..]) == Loaded(formats, old(entries), list)
        invariant LoadError(formats, entries, list[i..]) == LoadError(formats, old(entries), list)
      {
        assert list[i..][0] == list[i] && list[i..][1..] == list[i + 1..];
        err := Register(list[i]);
        if err.Some? {
          return;
        }
      }
      return None;
    }
  }

  // ----- When an entry is registered -----

  /** The fields an entry must fill in, in the order in which they are checked. */
  function Mandatory(e: Entry): seq<(string, string)> {
    [("title", e.title), ("status", e.status), ("maintainer.name", e.maintainerName),
     ("maintainer.contact_uri", e.contactURI), ("specification_uri", e.specificationURI)]
  }

  predicate Complete(formats: Formats, e: Entry) {
    && formats.validNamespace(e.namespace) && formats.validVersion(e.version)
    && forall i :: 0 <= i < |Mandatory(e)| ==> Mandatory(e)[i].1 != ""
  }

  /** The i-th name is the first that is registered, or not. */
  predicate FirstThat(names: seq<string>, entries: Entries, registered: bool, i: nat) {
    i < |names| && (names[i] in entries) == registered && forall j :: 0 <= j < i ==> (names[j] in entries) != registered
  }

  ghost predicate IsFirst(names: seq<string>, entries: Entries, registered: bool, name: string) {
    exists i: nat :: FirstThat(names, entries, registered, i) && names[i] == name
  }

  lemma {:induction false} FirstRegisteredIff(names: seq<string>, entries: Entries, name: string)
    ensures FirstRegistered(names, entries) == Some(name) <==> IsFirst(names, entries, true, name)
    ensures FirstRegistered(names, entries).None? <==> forall n | n in names :: n !in entries
  {
    if names == [] {
    } else {
      FirstRegisteredIff(names[1..], entries, name);
      FirstOfTail(names, entries, true, name);
      assert names == [names[0]] + names[1..];
    }
  }

  lemma {:induction false} FirstMissingIff(names: seq<string>, entries: Entries, name: string)
    ensures FirstMissing(names, entries) == Some(name) <==> IsFirst(names, entries, false, name)
  {
    if names == [] {
    } else {
      FirstMissingIff(names[1..], entries, name);
      FirstOfTail(names, entries, false, name);
    }
  }

  lemma FirstOfTail(names: seq<string>, entries: Entries, registered: bool, name: string)
    requires names != []
    ensures IsFirst(names, entries, registered, name) <==>
            if (names[0] in entries) == registered then names[0] == name else IsFirst(names[1..], entries, registered, name)
  {
    if (names[0] in entries) == registered {
      assert FirstThat(names, entries, registered, 0);
    } else {
      if i: nat :| FirstThat(names, entries, registered, i) && names[i] == name {
        assert FirstThat(names[1..], entries, registered, i - 1) && names[1..][i - 1] == name;
      }
      if i: nat :| FirstThat(names[1..], entries, registered, i) && names[1..][i] == name {
        assert FirstThat(names, entries, registered, i + 1) && names[i + 1] == name;
      }
    }
  }

  /**
   An entry is registered exactly if it is complete, conflicts with nothing registered and depends only on what is; it
   then stands under its namespace, and otherwise nothing changes.
   */
  lemma RegistersIff(formats: Formats, entries: Entries, e: Entry)
    ensures RegisterError(formats, entries, e).None? <==>
            && Complete(formats, e) && (forall c | c in e.conflictsWith :: c !in entries)
            && forall d | d in e.dependencies :: d in entries
    ensures Registered(formats, entries, e) ==
            if RegisterError(formats, entries, e).None? then entries[e.namespace := e] else entries
  {
    FirstRegisteredIff(e.conflictsWith, entries, "");
    NoneMissing(e.dependencies, entries);
    ValidateIff(formats, e);
  }

  lemma ValidateIff(formats: Formats, e: Entry)
    ensures Validate(formats, e).None? <==> Complete(formats, e)
  {
    var fields := Mandatory(e);
    assert fields[0].1 == e.title && fields[1].1 == e.status && fields[2].1 == e.maintainerName;
    assert fields[3].1 == e.contactURI && fields[4].1 == e.specificationURI;
  }

  predicate FirstEmpty(e: Entry, i: nat, name: string) {
    i < |Mandatory(e)| && Mandatory(e)[i] == (name, "") && forall j :: 0 <= j < i ==> Mandatory(e)[j].1 != ""
  }

  /** Which error is returned: the first of the missing fields, then of the conflicts, then of the dependencies. */
  lemma RefusalIff(formats: Formats, entries: Entries, e: Entry, name: string)
    ensures var err := RegisterError(formats, entries, e);
            && (err == Some(InvalidNamespace) <==> !formats.validNamespace(e.namespace))
            && (err == Some(InvalidVersion) <==> formats.validNamespace(e.namespace) && !formats.validVersion(e.version))
            && (err == Some(MissingField(name)) <==>
                  && formats.validNamespace(e.namespace) && formats.validVersion(e.version)
                  && exists i: nat :: FirstEmpty(e, i, name))
            && (err == Some(ConflictsWith(name)) <==> Complete(formats, e) && IsFirst(e.conflictsWith, entries, true, name))
            && (err == Some(Requires(name)) <==>
                  && Complete(formats, e) && (forall c | c in e.conflictsWith :: c !in entries)
                  && IsFirst(e.dependencies, entries, false, name))
  {
    FirstRegisteredIff(e.conflictsWith, entries, name);
    FirstMissingIff(e.dependencies, entries, name);
    ValidateIff(formats, e);
    if formats.validNamespace(e.namespace) && formats.validVersion(e.version) {
      MissingFieldIff(formats, e, name);
    }
  }

  lemma MissingFieldIff(formats: Formats, e: Entry, name: string)
    requires formats.validNamespace(e.namespace) && formats.validVersion(e.version)
    ensures Validate(formats, e) == Some(MissingField(name)) <==> exists i: nat :: FirstEmpty(e, i, name)
  {
    var fields := Mandatory(e);
    assert fields[0] == ("title", e.title) && fields[1] == ("status", e.status);
    assert fields[2] == ("maintainer.name", e.maintainerName) && fields[3] == ("maintainer.contact_uri", e.contactURI);
    assert fields[4] == ("specification_uri", e.specificationURI);
    if Validate(formats, e) == Some(MissingField(name)) {
      assert FirstEmpty(e, 0, name) || FirstEmpty(e, 1, name) || FirstEmpty(e, 2, name) || FirstEmpty(e, 3, name) || FirstEmpty(e, 4, name);
    }
  }

  /** Loading goes as far as the first entry that is refused, and returns its error; what came before stays registered. */
  lemma {:induction false} LoadStopsAt(formats: Formats, entries: Entries, list: seq<Entry>) returns (k: nat)
    ensures k <= |list| && LoadError(formats, entries, list[..k]).None?
    ensures var loaded := Loaded(formats, entries, list[..k]);
            && Loaded(formats, entries, list) == loaded
            && LoadError(formats, entries, list) == (if k < |list| then RegisterError(formats, loaded, list[k]) else None)
            && (k < |list| ==> RegisterError(formats, loaded, list[k]).Some?)
    ensures k == |list| ==> forall e | e in list :: e.namespace in Loaded(formats, entries, list)
    decreases |list|
  {
    if list == [] || RegisterError(formats, entries, list[0]).Some? {
      k := 0;
    } else {
      var next := Registered(formats, entries, list[0]);
      var rest := LoadStopsAt(formats, next, list[1..]);
      k := rest + 1;
      assert list[..k][0] == list[0] && list[..k][1..] == list[1..][..rest];
      LoadKeepsKeys(formats, next, list[1..]);
      assert list == [list[0]] + list[1..];
    }
  }

  lemma {:induction false} LoadKeepsKeys(formats: Formats, entries: Entries, list: seq<Entry>)
    ensures entries.Keys <= Loaded(formats, entries, list).Keys
    decreases |list|
  {
    if list == [] || RegisterError(formats, entries, list[0]).Some? {
    } else {
      LoadKeepsKeys(formats, Registered(formats, entries, list[0]), list[1..]);
    }
  }

  // ----- Dependencies stay registered -----

  ghost predicate Closed(entries: Entries) {
    forall k, d | k in entries && DependsOn(entries[k], d) :: d in entries
  }

  lemma {:induction false} NoneMissing(names: seq<string>, entries: Entries)
    ensures FirstMissing(names, entries).None? <==> forall d | d in names :: d in entries
  {
    if names == [] {
    } else {
      NoneMissing(names[1..], entries);
      assert names == [names[0]] + names[1..];
    }
  }

  lemma RegisterKeepsClosed(formats: Formats, entries: Entries, e: Entry)
    requires Closed(entries)
    ensures Closed(Registered(formats, entries, e))
  {
    NoneMissing(e.dependencies, entries);
  }

  datatype Event = DoRegister(e: Entry) | DoRemove(ns: string) | DoLoad(list: seq<Entry>)

  function Next(formats: Formats, entries: Entries, ev: Event): Entries {
    match ev
    case DoRegister(e) => Registered(formats, entries, e)
    case DoRemove(ns) => Removed(entries, ns)
    case DoLoad(list) => Loaded(formats, entries, list)
  }

  function After(formats: Formats, entries: Entries, run: seq<Event>): Entries
    decreases |run|
  {
    if run == [] then entries else After(formats, Next(formats, entries, run[0]), run[1..])
  }

  lemma {:induction false} LoadKeepsClosed(formats: Formats, entries: Entries, list: seq<Entry>)
    requires Closed(entries)
    ensures Closed(Loaded(formats, entries, list))
    decreases |list|
  {
    if list == [] || RegisterError(formats, entries, list[0]).Some? {
    } else {
      RegisterKeepsClosed(formats, entries, list[0]);
      LoadKeepsClosed(formats, Registered(formats, entries, list[0]), list[1..]);
    }
  }

  lemma StepKeepsClosed(formats: Formats, entries: Entries, ev: Event)
    requires Closed(entries)
    ensures Closed(Next(formats, entries, ev))
  {
    match ev
    case DoRegister(e) => RegisterKeepsClosed(formats, entries, e);
    case DoRemove(ns) =>
    case DoLoad(list) => LoadKeepsClosed(formats, entries, list);
  }

  /** After any run every dependency of a registered extension is registered. */
  lemma {:induction false} RunKeepsClosed(formats: Formats, entries: Entries, run: seq<Event>)
    requires Closed(entries)
    ensures Closed(After(formats, entries, run))
    decreases |run|
  {
    if run == [] {
    } else {
      StepKeepsClosed(formats, entries, run[0]);
      RunKeepsClosed(formats, Next(formats, entries, run[0]), run[1..]);
    }
  }

  // ----- Cycles -----

  type Ranks = map<string, nat>

  /** Every entry ranks above what it depends on. */
  ghost predicate Ranked(entries: Entries, rank: Ranks) {
    (forall k | k in entries :: k in rank) &&
    forall k, d | k in entries && DependsOn(entries[k], d) :: d in rank && rank[d] < rank[k]
  }

  ghost predicate Acyclic(entries: Entries) {
    exists rank :: Ranked(entries, rank)
  }

  lemma {:induction false} Bound(rank: Ranks, keys: set<string>) returns (top: nat)
    requires keys <= rank.Keys
    ensures forall k | k in keys :: rank[k] < top
  {
    if keys == {} {
      top := 0;
    } else {
      var k :| k in keys;
      top := Bound(rank, keys - {k});
      if top <= rank[k] {
        top := rank[k] + 1;
      }
    }
  }

  /** An entry nothing depends on, over an acyclic rest that holds its dependencies, closes no cycle. */
  lemma TopEntry(rest: Entries, e: Entry, ns: string)
    requires Acyclic(rest) && Closed(rest) && ns !in rest && forall d | DependsOn(e, d) :: d in rest
    ensures Acyclic(rest[ns := e])
  {
    var rank :| Ranked(rest, rank);
    var top := Bound(rank, rest.Keys);
    var rank' := rank[ns := top];
    forall k, d | k in rest[ns := e] && DependsOn(rest[ns := e][k], d) ensures d in rank' && rank'[d] < rank'[k] {
    }
    assert Ranked(rest[ns := e], rank');
  }

  lemma RemoveKeepsAcyclic(entries: Entries, ns: string)
    requires Acyclic(entries)
    ensures Acyclic(Removed(entries, ns))
  {
    var rank :| Ranked(entries, rank);
    assert Ranked(Removed(entries, ns), rank);
  }

  lemma FreshRegisterKeepsAcyclic(formats: Formats, entries: Entries, e: Entry)
    requires Closed(entries) && Acyclic(entries) && e.namespace !in entries
    ensures Acyclic(Registered(formats, entries, e))
  {
    NoneMissing(e.dependencies, entries);
    if RegisterError(formats, entries, e).None? {
      TopEntry(entries, e, e.namespace);
    }
  }

  /** The run registers a namespace only while it is absent. */
  predicate FreshLoad(formats: Formats, entries: Entries, list: seq<Entry>)
    decreases |list|
  {
    list == [] || RegisterError(formats, entries, list[0]).Some? ||
    (list[0].namespace !in entries && FreshLoad(formats, Registered(formats, entries, list[0]), list[1..]))
  }

  predicate FreshEvent(formats: Formats, entries: Entries, ev: Event) {
    match ev
    case DoRegister(e) => e.namespace !in entries
    case DoRemove(_) => true
    case DoLoad(list) => FreshLoad(formats, entries, list)
  }

  predicate FreshRun(formats: Formats, entries: Entries, run: seq<Event>)
    decreases |run|
  {
    run == [] || (FreshEvent(formats, entries, run[0]) && FreshRun(formats, Next(formats, entries, run[0]), run[1..]))
  }

  lemma {:induction false} FreshLoadKeepsAcyclic(formats: Formats, entries: Entries, list: seq<Entry>)
    requires Closed(entries) && Acyclic(entries) && FreshLoad(formats, entries, list)
    ensures Acyclic(Loaded(formats, entries, list))
    decreases |list|
  {
    if list == [] || RegisterError(formats, entries, list[0]).Some? {
    } else {
      FreshRegisterKeepsAcyclic(formats, entries, list[0]);
      RegisterKeepsClosed(formats, entries, list[0]);
      FreshLoadKeepsAcyclic(formats, Registered(formats, entries, list[0]), list[1..]);
    }
  }

  /** A run that registers only absent namespaces never closes a cycle. */
  lemma {:induction false} FreshRunKeepsAcyclic(formats: Formats, entries: Entries, run: seq<Event>)
    requires Closed(entries) && Acyclic(entries) && FreshRun(formats, entries, run)
    ensures Acyclic(After(formats, entries, run))
    decreases |run|
  {
    if run == [] {
    } else {
      match run[0] {
        case DoRegister(e) => FreshRegisterKeepsAcyclic(formats, entries, e);
        case DoRemove(ns) => RemoveKeepsAcyclic(entries, ns);
        case DoLoad(list) => FreshLoadKeepsAcyclic(formats, entries, list);
      }
      StepKeepsClosed(formats, entries, run[0]);
      FreshRunKeepsAcyclic(formats, Next(formats, entries, run[0]), run[1..]);
    }
  }

  // ----- Emptying the registry -----

  /** Removing these namespaces one after the other succeeds each time and leaves nothing. */
  predicate Empties(entries: Entries, order: seq<string>)
    decreases |order|
  {
    if order == [] then entries == map[]
    else Removable(entries, order[0]) && Empties(entries - {order[0]}, order[1..])
  }

  ghost predicate EmptiedBy(entries: Entries, order: seq<string>) {
    Empties(entries, order)
  }

  ghost predicate CanBeEmptied(entries: Entries) {
    exists order :: EmptiedBy(entries, order)
  }

  lemma {:induction false} Highest(entries: Entries, rank: Ranks, keys: set<string>) returns (k: string)
    requires keys != {} && keys <= rank.Keys
    ensures k in keys && forall j | j in keys :: rank[j] <= rank[k]
  {
    k :| k in keys;
    if keys == {k} {
    } else {
      var other := Highest(entries, rank, keys - {k});
      assert forall j | j in keys :: j == k || j in keys - {k};
      if rank[other] > rank[k] {
        k := other;
      }
    }
  }

  /** A non-empty registry without cycles always has an entry that can be removed. */
  lemma SomethingRemovable(entries: Entries) returns (k: string)
    requires Acyclic(entries) && entries != map[]
    ensures Removable(entries, k)
  {
    var rank :| Ranked(entries, rank);
    k := Highest(entries, rank, entries.Keys);
  }

  lemma {:induction false} AcyclicEmpties(entries: Entries) returns (order: seq<string>)
    requires Acyclic(entries)
    ensures Empties(entries, order)
    decreases |entries|
  {
    if entries == map[] {
      order := [];
    } else {
      var k := SomethingRemovable(entries);
      RemoveKeepsAcyclic(entries, k);
      assert (entries - {k}).Keys == entries.Keys - {k};
      order := AcyclicEmpties(entries - {k});
      order := [k] + order;
    }
  }

  lemma {:induction false} EmptiesIsAcyclic(entries: Entries, order: seq<string>)
    requires Closed(entries) && Empties(entries, order)
    ensures Acyclic(entries)
    decreases |order|
  {
    if order == [] {
      assert Ranked(entries, map[]);
    } else {
      var k := order[0];
      var rest := entries - {k};
      EmptiesIsAcyclic(rest, order[1..]);
      TopEntry(rest, entries[k], k);
      assert rest[k := entries[k]] == entries;
    }
  }

  /** A registry whose dependencies are all registered can be emptied by removals exactly when it has no cycle. */
  lemma CanBeEmptiedIffAcyclic(entries: Entries)
    requires Closed(entries)
    ensures CanBeEmptied(entries) <==> Acyclic(entries)
  {
    if Acyclic(entries) {
      var order := AcyclicEmpties(entries);
      assert EmptiedBy(entries, order);
    } else {
      forall order ensures !EmptiedBy(entries, order) {
        if EmptiedBy(entries, order) {
          EmptiesIsAcyclic(entries, order);
        }
      }
    }
  }

  /** From empty: runs that register only absent namespaces leave a registry that can be emptied. */
  lemma FreshRunCanBeEmptied(formats: Formats, run: seq<Event>)
    requires FreshRun(formats, map[], run)
    ensures CanBeEmptied(After(formats, map[], run))
  {
    assert Ranked(map[], map[]);
    FreshRunKeepsAcyclic(formats, map[], run);
    RunKeepsClosed(formats, map[], run);
    CanBeEmptiedIffAcyclic(After(formats, map[], run));
  }

  // ----- Registering a namespace again -----

  /** A chain of dependencies that ends at its first visit to ns. */
  ghost predicate Chain(entries: Entries, p: seq<string>, ns: string) {
    p != [] && p[|p| - 1] == ns &&
    forall i :: 0 <= i < |p| - 1 ==> p[i] != ns && p[i] in entries && DependsOn(entries[p[i]], p[i + 1])
  }

  ghost predicate Reaches(entries: Entries, k: string, ns: string) {
    exists p :: Chain(entries, p, ns) && p[0] == k
  }

  lemma ReachesThrough(entries: Entries, k: string, d: string, ns: string)
    requires k in entries && k != ns && DependsOn(entries[k], d) && Reaches(entries, d, ns)
    ensures Reaches(entries, k, ns)
  {
    var p :| Chain(entries, p, ns) && p[0] == d;
    var q := [k] + p;
    assert forall i :: 0 < i < |q| ==> q[i] == p[i - 1];
    assert Chain(entries, q, ns) && q[0] == k;
  }

  lemma {:induction false} RankFallsAlong(entries: Entries, rank: Ranks, p: seq<string>, ns: string)
    requires Ranked(entries, rank) && Chain(entries, p, ns) && p[0] in rank
    ensures ns in rank && rank[ns] <= rank[p[0]]
    decreases |p|
  {
    if |p| <= 1 {
    } else {
      assert DependsOn(entries[p[0]], p[1]);
      var q := p[1..];
      assert forall i :: 0 <= i < |q| ==> q[i] == p[i + 1];
      RankFallsAlong(entries, rank, q, ns);
    }
  }

  /**
   Replacing an entry keeps the registry free of cycles exactly when no dependency of the new entry is, directly or
   through others, dependent on that namespace.
   */
  lemma ReplacingKeepsAcyclicIff(entries: Entries, e: Entry)
    requires Closed(entries) && Acyclic(entries) && e.namespace in entries && forall d | DependsOn(e, d) :: d in entries
    ensures Acyclic(entries[e.namespace := e]) <==> forall d | DependsOn(e, d) :: !Reaches(entries, d, e.namespace)
  {
    var ns := e.namespace;
    if forall d | DependsOn(e, d) :: !Reaches(entries, d, ns) {
      RaisedRanks(entries, e);
    }
    if Acyclic(entries[ns := e]) {
      var rank :| Ranked(entries[ns := e], rank);
      forall d | DependsOn(e, d) ensures !Reaches(entries, d, ns) {
        assert rank[d] < rank[ns];
        if p :| Chain(entries, p, ns) && p[0] == d {
          assert Chain(entries[ns := e], p, ns);
          RankFallsAlong(entries[ns := e], rank, p, ns);
        }
      }
    }
  }

  /** Everything that depends on the replaced namespace is ranked above everything that does not. */
  lemma RaisedRanks(entries: Entries, e: Entry)
    requires Closed(entries) && Acyclic(entries) && e.namespace in entries && forall d | DependsOn(e, d) :: d in entries
    requires forall d | DependsOn(e, d) :: !Reaches(entries, d, e.namespace)
    ensures Acyclic(entries[e.namespace := e])
  {
    var ns, entries' := e.namespace, entries[e.namespace := e];
    var rank :| Ranked(entries, rank);
    var top := Bound(rank, entries.Keys);
    var rank': Ranks := map k | k in entries :: if Reaches(entries, k, ns) then rank[k] + top else rank[k];
    assert Chain(entries, [ns], ns) && [ns][0] == ns;
    forall k, d | k in entries' && DependsOn(entries'[k], d) ensures d in rank' && rank'[d] < rank'[k] {
      if k != ns && Reaches(entries, d, ns) {
        ReachesThrough(entries, k, d, ns);
      }
    }
    assert Ranked(entries', rank');
  }

  /** Registering a namespace a second time, now depending on itself, succeeds and cannot be undone by removals. */
  lemma SelfDependencyIsStuck(formats: Formats, first: Entry, again: Entry)
    requires again.namespace == first.namespace && again.dependencies == [first.namespace]
    requires RegisterError(formats, map[first.namespace := first], again).None?
    ensures var entries := Registered(formats, map[first.namespace := first], again);
            entries[first.namespace] == again && !Removable(entries, first.namespace) && !CanBeEmptied(entries)
  {
    var ns := first.namespace;
    var entries := Registered(formats, map[ns := first], again);
    assert entries == map[ns := again];
    assert DependsOn(entries[ns], ns);
    CanBeEmptiedIffAcyclic(entries);
  }

  // ----- What registering again can undo -----

  /** Entries stand under their own namespace and have passed validation. */
  ghost predicate AllValid(formats: Formats, entries: Entries) {
    forall k | k in entries :: entries[k].namespace == k && Validate(formats, entries[k]).None?
  }

  lemma {:induction false} LoadKeepsValid(formats: Formats, entries: Entries, list: seq<Entry>)
    requires AllValid(formats, entries)
    ensures AllValid(formats, Loaded(formats, entries, list))
    decreases |list|
  {
    if list == [] || RegisterError(formats, entries, list[0]).Some? {
    } else {
      LoadKeepsValid(formats, Registered(formats, entries, list[0]), list[1..]);
    }
  }

  lemma {:induction false} RunKeepsValid(formats: Formats, entries: Entries, run: seq<Event>)
    requires AllValid(formats, entries)
    ensures AllValid(formats, After(formats, entries, run))
    decreases |run|
  {
    if run == [] {
    } else {
      if run[0].DoLoad? {
        LoadKeepsValid(formats, entries, run[0].list);
      }
      RunKeepsValid(formats, Next(formats, entries, run[0]), run[1..]);
    }
  }

  lemma {:induction false} AfterTwoRuns(formats: Formats, entries: Entries, a: seq<Event>, b: seq<Event>)
    ensures After(formats, entries, a + b) == After(formats, After(formats, entries, a), b)
    decreases |a|
  {
    if a == [] {
      assert a + b == b;
    } else {
      assert (a + b)[0] == a[0] && (a + b)[1..] == a[1..] + b;
      AfterTwoRuns(formats, Next(formats, entries, a[0]), a[1..], b);
    }
  }

  function Bare(e: Entry): Entry {
    e.(dependencies := [], conflictsWith := [])
  }

  /** Registering entries again without dependencies and conflicts succeeds. */
  lemma {:induction false} BareRun(formats: Formats, entries: Entries, keys: set<string>) returns (run: seq<Event>)
    requires AllValid(formats, entries) && keys <= entries.Keys
    ensures After(formats, entries, run) == map k | k in entries :: if k in keys then Bare(entries[k]) else entries[k]
    decreases |keys|
  {
    if keys == {} {
      run := [];
    } else {
      var k :| k in keys;
      var e := Bare(entries[k]);
      var entries' := Next(formats, entries, DoRegister(e));
      assert entries' == entries[k := e];
      run := BareRun(formats, entries', keys - {k});
      var rest := run;
      run := [DoRegister(e)] + rest;
      assert run[1..] == rest;
    }
  }

  lemma {:induction false} RemovalRun(formats: Formats, entries: Entries, order: seq<string>) returns (run: seq<Event>)
    requires Empties(entries, order)
    ensures After(formats, entries, run) == map[]
    decreases |order|
  {
    if order == [] {
      run := [];
    } else {
      var rest := RemovalRun(formats, entries - {order[0]}, order[1..]);
      run := [DoRemove(order[0])] + rest;
      assert run[1..] == rest;
    }
  }

  /** Whatever has been registered and removed, some further run of registrations and removals empties the registry. */
  lemma EveryRunCanBeUndone(formats: Formats, run: seq<Event>) returns (more: seq<Event>)
    ensures After(formats, map[], run + more) == map[]
  {
    RunKeepsValid(formats, map[], run);
    var entries := After(formats, map[], run);
    var bare := BareRun(formats, entries, entries.Keys);
    var entries' := After(formats, entries, bare);
    assert Ranked(entries', map k | k in entries' :: 0);
    var order := AcyclicEmpties(entries');
    var removals := RemovalRun(formats, entries', order);
    AfterTwoRuns(formats, entries, bare, removals);
    more := bare + removals;
    AfterTwoRuns(formats, map[], run, more);
  }
}
