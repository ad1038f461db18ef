/** Dependencies: how add_split_dependencies lays them out and how check_deps reads them. */
module DpkgDeps {
  import opened Options
  import opened Probing
  import opened Versions
  import opened DpkgStatus
  import opened DpkgTables
  import opened DpkgWords

  const EDGE_PRE_DEPENDS := 1
  const EDGE_OR_PRE_DEPENDS := 2
  const EDGE_DEPENDS := 3
  const EDGE_OR_DEPENDS := 4
  const EDGE_PROVIDES := 7

  predicate IsDependency(kind: nat)
  {
    kind == EDGE_PRE_DEPENDS || kind == EDGE_DEPENDS
  }

  predicate IsRoot(kind: nat)
  {
    kind == EDGE_OR_PRE_DEPENDS || kind == EDGE_OR_DEPENDS
  }

  // ----- the shape of edge lists -----

  /** A relation on its own, or the alternatives of a dependency after their root. */
  datatype Group = One(e: Edge) | Choice(root: Edge, es: seq<Edge>)

  predicate ValidGroup(g: Group)
  {
    match g
    case One(e) => !IsRoot(e.kind)
    case Choice(root, es) =>
      IsRoot(root.kind) && |es| == root.version >= 1 && forall e | e in es :: e.kind == root.kind - 1
  }

  ghost predicate ValidGroups(gs: seq<Group>)
  {
    forall g | g in gs :: ValidGroup(g)
  }

  function GroupEdges(g: Group): (s: seq<Edge>)
    ensures |s| >= 1
  {
    match g
    case One(e) => [e]
    case Choice(root, es) => [root] + es
  }

  function Flat(gs: seq<Group>): (s: seq<Edge>)
  {
    if gs == [] then [] else Flat(gs[..|gs| - 1]) + GroupEdges(gs[|gs| - 1])
  }

  lemma {:induction false} FlatConcat(a: seq<Group>, b: seq<Group>)
    ensures Flat(a + b) == Flat(a) + Flat(b)
  {
    hide GroupEdges;
    if b == [] {
      assert a + b == a;
    } else {
      var init, last := b[..|b| - 1], b[|b| - 1];
      FlatConcat(a, init);
      FlatSnoc(a + init, last);
      assert a + init + [last] == a + b;
      assert Flat(b) == Flat(init) + GroupEdges(last);
    }
  }

  lemma {:induction false} FlatOne(g: Group)
    ensures Flat([g]) == GroupEdges(g)
  {
    assert [g][..0] == [];
  }

  lemma {:induction false} FlatSnoc(gs: seq<Group>, g: Group)
    ensures Flat(gs + [g]) == Flat(gs) + GroupEdges(g)
  {
    hide GroupEdges;
    assert (gs + [g])[..|gs|] == gs;
  }

  /** One field of a dependency line: its alternatives, the number of its whole text,
      and whether it has a '|'. */
  datatype Field = Field(alternatives: seq<Edge>, text: nat, bar: bool)

  /** The version field of an edge has 16 bits. */
  const COUNT_SIZE := 0x1_0000

  /** What add_split_dependencies makes of a field. */
  function FieldGroups(f: Field, kind: nat): (gs: seq<Group>)
    requires !f.bar ==> |f.alternatives| == 1
  {
    if IsDependency(kind) && f.bar then
      [Choice(Edge(NoOp, kind + 1, f.text, |f.alternatives| % COUNT_SIZE), f.alternatives)]
    else Ones(f.alternatives)
  }

  function Ones(es: seq<Edge>): (gs: seq<Group>)
    ensures |gs| == |es| && forall i | 0 <= i < |es| :: gs[i] == One(es[i])
  {
    seq(|es|, i requires 0 <= i < |es| => One(es[i]))
  }

  ghost predicate ValidField(f: Field, kind: nat)
  {
    |f.alternatives| >= 1 && (!f.bar ==> |f.alternatives| == 1) && forall e | e in f.alternatives :: e.kind == kind
  }

  /** The root of a choice can count its alternatives. */
  predicate Countable(f: Field, kind: nat)
  {
    IsDependency(kind) && f.bar ==> |f.alternatives| < COUNT_SIZE
  }

  function FieldsGroups(fs: seq<Field>, kind: nat): (gs: seq<Group>)
    requires forall f | f in fs :: ValidField(f, kind)
  {
    if fs == [] then []
    else
      assert ValidField(fs[|fs| - 1], kind);
      FieldsGroups(fs[..|fs| - 1], kind) + FieldGroups(fs[|fs| - 1], kind)
  }

  lemma {:induction false} FieldGroupsValid(f: Field, kind: nat)
    requires ValidField(f, kind) && kind % 2 == 1
    ensures ValidGroups(FieldGroups(f, kind)) <==> Countable(f, kind)
  {
    if IsDependency(kind) && f.bar {
      assert FieldGroups(f, kind)[0] in FieldGroups(f, kind);
      return;
    }
    forall g | g in FieldGroups(f, kind) ensures ValidGroup(g) {
      var i :| 0 <= i < |f.alternatives| && g == One(f.alternatives[i]);
      assert f.alternatives[i] in f.alternatives;
    }
  }

  lemma {:induction false} FieldsGroupsValid(fs: seq<Field>, kind: nat)
    requires (forall f | f in fs :: ValidField(f, kind)) && kind % 2 == 1
    ensures ValidGroups(FieldsGroups(fs, kind)) <==> forall f | f in fs :: Countable(f, kind)
  {
    hide FieldGroups, ValidGroup, Countable;
    if fs != [] {
      var init, last := fs[..|fs| - 1], fs[|fs| - 1];
      assert ValidField(last, kind);
      FieldsGroupsValid(init, kind);
      FieldGroupsValid(last, kind);
      JoinedValid(FieldsGroups(init, kind), FieldGroups(last, kind));
      assert fs == init + [last];
    }
  }

  lemma JoinedValid(a: seq<Group>, b: seq<Group>)
    ensures ValidGroups(a + b) <==> ValidGroups(a) && ValidGroups(b)
  {
    hide ValidGroup;
    assert forall g :: g in a + b <==> g in a || g in b;
  }

  /** The edges of separate alternatives. */
  lemma {:induction false} FlatOnes(es: seq<Edge>)
    ensures Flat(Ones(es)) == es
  {
    if es != [] {
      var init := es[..|es| - 1];
      assert Ones(es)[..|es| - 1] == Ones(init);
      FlatOnes(init);
    }
  }

  /** add_split_dependencies, once the line is split into fields. The root of a
      choice is added first and counts its alternatives as they come, in 16 bits. */
  method AddSplitDependencies(before: seq<Edge>, fields: seq<Field>, kind: nat) returns (edges: seq<Edge>)
    requires (forall f | f in fields :: ValidField(f, kind)) && kind % 2 == 1
    ensures edges == before + Flat(FieldsGroups(fields, kind))
    ensures ValidGroups(FieldsGroups(fields, kind)) <==> forall f | f in fields :: Countable(f, kind)
  {
    hide FieldGroups, ValidGroup, Flat, Countable;
    edges := before;
    FieldsGroupsValid(fields, kind);
    NoFields(kind);
    for n := 0 to |fields|
      invariant (forall f | f in fields[..n] :: ValidField(f, kind))
        && edges == before + Flat(FieldsGroups(fields[..n], kind))
    {
      var f := fields[n];
      assert f in fields;
      assert fields[..n + 1][..n] == fields[..n];
      assert forall g | g in fields[..n + 1] :: g in fields;
      FlatConcat(FieldsGroups(fields[..n], kind), FieldGroups(f, kind));
      edges := AddField(edges, f, kind);
    }
    assert fields[..|fields|] == fields;
  }

  lemma NoFields(kind: nat)
    ensures Flat(FieldsGroups([], kind)) == []
  {
  }

  lemma {:induction false} FieldEdges(f: Field, kind: nat)
    requires ValidField(f, kind)
    ensures Flat(FieldGroups(f, kind)) == if IsDependency(kind) && f.bar
      then [Edge(NoOp, kind + 1, f.text, |f.alternatives| % COUNT_SIZE)] + f.alternatives
      else f.alternatives
  {
    hide Flat;
    if IsDependency(kind) && f.bar {
      FlatOne(FieldGroups(f, kind)[0]);
    } else {
      FlatOnes(f.alternatives);
    }
  }

  method AddField(before: seq<Edge>, f: Field, kind: nat) returns (edges: seq<Edge>)
    requires ValidField(f, kind)
    ensures edges == before + Flat(FieldGroups(f, kind))
  {
    hide Flat, FieldGroups;
    edges := before;
    var root := |edges|;
    var counts := IsDependency(kind) && f.bar;
    if counts {
      edges := edges + [Edge(NoOp, kind + 1, f.text, 0)];
    }
    for i := 0 to |f.alternatives|
      invariant |edges| == root + (if counts then 1 else 0) + i && edges[..root] == before
      invariant counts ==> edges[root] == Edge(NoOp, kind + 1, f.text, i % COUNT_SIZE)
      invariant counts ==> edges[root + 1..] == f.alternatives[..i]
      invariant !counts ==> edges[root..] == f.alternatives[..i]
    {
      if counts {
        edges := edges[root := edges[root].(version := (edges[root].version + 1) % COUNT_SIZE)];
      }
      edges := edges + [f.alternatives[i]];
    }
    if counts {
      assert edges == edges[..root] + ([edges[root]] + edges[root + 1..]);
    } else {
      assert edges == edges[..root] + edges[root..];
    }
    FieldEdges(f, kind);
  }

  // ----- what satisfies a dependency -----

  /** A pre-dependency needs an installed package, a dependency one that is wanted. */
  predicate WordFits(status: string, kind: nat)
  {
    (kind == EDGE_PRE_DEPENDS && StatusWord(status, 3) == "installed")
      || (kind == EDGE_DEPENDS && StatusWord(status, 1) == "install")
  }

  ghost predicate NameSatisfies(names: Names, packages: Packages, status: Statuses, key: string, kind: nat)
  {
    exists s | 0 <= s < STATUS_HASH_PRIME && s < |status| && status[s].Some? ::
      StatusKey(names, packages, status[s].value) == Some(key)
      && Known(names, status[s].value.status) && WordFits(names[status[s].value.status].value, kind)
  }

  predicate KnownEdge(names: Names, e: Edge)
  {
    Known(names, e.name) && Known(names, e.version) && IsText(names[e.version].value)
  }

  /** A package of that name and with a version that fits. */
  ghost predicate Found(names: Names, packages: Packages, e: Edge)
    requires KnownEdge(names, e)
  {
    exists j | 0 <= j < PACKAGE_HASH_PRIME && j < |packages| && packages[j].Some? ::
      KnownNode(names, packages[j].value) && PackageMatches(names, packages[j].value, e.name, e.version, e.op)
  }

  ghost predicate Provides(n: Node, name: nat)
  {
    exists e | e in n.edges :: e.kind == EDGE_PROVIDES && e.name == name
  }

  /** Some package provides the name and is in the right state. */
  ghost predicate ProviderFits(names: Names, packages: Packages, status: Statuses, i: nat, e: Edge)
  {
    && i < |packages| && packages[i].Some? && Provides(packages[i].value, e.name)
    && Known(names, packages[i].value.name)
    && NameSatisfies(names, packages, status, names[packages[i].value.name].value, e.kind)
  }

  ghost predicate Satisfied(names: Names, packages: Packages, status: Statuses, e: Edge)
    requires KnownEdge(names, e)
  {
    || (Found(names, packages, e) && NameSatisfies(names, packages, status, names[e.name].value, e.kind))
    || exists i | 0 <= i < PACKAGE_HASH_PRIME :: ProviderFits(names, packages, status, i, e)
  }

  ghost predicate KnownGroup(names: Names, g: Group)
  {
    match g
    case One(e) => KnownEdge(names, e)
    case Choice(_, es) => forall e | e in es :: KnownEdge(names, e)
  }

  /** A clause is satisfied by one of its alternatives; other relations do not matter here. */
  ghost predicate GroupSatisfied(names: Names, packages: Packages, status: Statuses, g: Group)
    requires KnownGroup(names, g)
  {
    match g
    case One(e) => IsDependency(e.kind) ==> Satisfied(names, packages, status, e)
    case Choice(_, es) => exists e | e in es :: Satisfied(names, packages, status, e)
  }

  /** The words of a status are in the name table. */
  ghost predicate StatusKnown(names: Names, status: Statuses)
  {
    forall s | 0 <= s < STATUS_HASH_PRIME && s < |status| && status[s].Some? :: Known(names, status[s].value.status)
  }

  /** The words that the dependency pass looks up. */
  ghost function StatusWords(names: Names, status: Statuses): (ws: set<string>)
  {
    {"install", "installed"}
    + (set s | 0 <= s < STATUS_HASH_PRIME && s < |status| && status[s].Some? && Known(names, status[s].value.status) ::
         StatusWord(names[status[s].value.status].value, 1))
    + (set s | 0 <= s < STATUS_HASH_PRIME && s < |status| && status[s].Some? && Known(names, status[s].value.status) ::
         StatusWord(names[status[s].value.status].value, 3))
  }

  /** The tables as the pass finds them, with names added since they were `ns`. */
  ghost predicate Ready(t: Database, ns: Names)
    reads t.names, t.packages, t.status
  {
    && t.Valid() && Grown(ns, t.names[..]) && Roomy(t.names[..], StatusWords(ns, t.status[..]))
    && PackagesOk(ns, t.packages[..], t.ulong) && StatusOk(ns, t.packages[..], t.status[..], t.ulong)
    && StatusUnique(ns, t.packages[..], t.status[..]) && StatusKnown(ns, t.status[..])
    && Room(t.packages[..], PACKAGE_HASH_PRIME) && Room(t.status[..], STATUS_HASH_PRIME)
  }

  /** search_name_hashtable for a word of the pass: it is found or added, and the tables stay ready. */
  method Lookup(t: Database, key: string, ghost ns: Names) returns (r: nat)
    requires Ready(t, ns) && key in StatusWords(ns, t.status[..])
    modifies t.names
    ensures Ready(t, ns) && Known(t.names[..], r) && t.names[r] == Some(key) && Grown(old(t.names[..]), t.names[..])
  {
    hide OpenTable.Placed, PackagesOk, StatusOk, StatusUnique, StatusWords, Roomy, StatusKnown, NamesOk;
    r := NumberOf(t, key, StatusWords(ns, t.status[..]));
  }

  /** get_status in the pass, where the tables stay ready. */
  method LookupWord(t: Database, node: nat, num: nat, ghost ns: Names) returns (r: nat)
    requires Ready(t, ns) && node < STATUS_HASH_PRIME && t.status[node].Some? && (num == 1 || num == 3)
    modifies t.names
    ensures Ready(t, ns) && Known(t.names[..], r) && Grown(old(t.names[..]), t.names[..])
    ensures t.names[r] == Some(StatusWord(ns[t.status[node].value.status].value, num))
  {
    hide NamesOk, PackagesOk, OpenTable.Placed, StatusUnique, StatusWords, Roomy, StatusWord;
    ghost var i := t.status[node].value.status;
    assert t.status[..][node] == t.status[node];
    assert t.names[..][i] == ns[i];
    WordIsListed(ns, t.status[..], node, num);
    r := GetStatus(t, node, num, StatusWords(ns, t.status[..]));
  }

  lemma WordIsListed(names: Names, status: Statuses, s: nat, num: nat)
    requires s < STATUS_HASH_PRIME && s < |status| && status[s].Some? && Known(names, status[s].value.status)
      && (num == 1 || num == 3)
    ensures StatusWord(names[status[s].value.status].value, num) in StatusWords(names, status)
  {
    hide StatusWord;
  }

  lemma WordsListed(names: Names, status: Statuses)
    ensures "install" in StatusWords(names, status) && "installed" in StatusWords(names, status)
  {
  }

  /** Whether a word of a status is the given one, by their numbers. */
  method StatusIs(t: Database, node: nat, num: nat, word: string, ghost ns: Names) returns (b: bool)
    requires Ready(t, ns) && node < STATUS_HASH_PRIME && t.status[node].Some? && (num == 1 || num == 3)
    requires word in StatusWords(ns, t.status[..])
    modifies t.names
    ensures Ready(t, ns) && Known(ns, t.status[node].value.status)
    ensures b == (StatusWord(ns[t.status[node].value.status].value, num) == word)
  {
    hide PackagesOk, OpenTable.Placed, StatusUnique, StatusWords, Roomy, StatusWord, NamesOk;
    assert t.status[..][node] == t.status[node];
    var n := LookupWord(t, node, num, ns);
    ghost var was := t.names[..];
    var m := Lookup(t, word, ns);
    NumbersAreNames(was, t.names[..], t.ulong, n, m);
    b := n == m;
  }

  lemma StatusKeyStays(ns: Names, now: Names, packages: Packages, s: StatusNode)
    requires Grown(ns, now) && s.package < |packages| && packages[s.package].Some?
      && Known(ns, packages[s.package].value.name)
    ensures StatusKey(now, packages, s) == StatusKey(ns, packages, s)
  {
  }

  /** Keys of status entries are what they were. */
  lemma StatusKeysStay(ns: Names, now: Names, packages: Packages, status: Statuses, ulong: nat)
    requires Grown(ns, now) && PackagesOk(ns, packages, ulong) && StatusOk(ns, packages, status, ulong)
    ensures forall j | 0 <= j < STATUS_HASH_PRIME && status[j].Some? ::
              StatusKey(now, packages, status[j].value) == StatusKey(ns, packages, status[j].value)
  {
    hide OpenTable.Placed;
    forall j | 0 <= j < STATUS_HASH_PRIME && status[j].Some?
      ensures StatusKey(now, packages, status[j].value) == StatusKey(ns, packages, status[j].value)
    {
      StatusKeyStays(ns, now, packages, status[j].value);
    }
  }

  /** package_satisfies_dependency */
  method PackageSatisfies(t: Database, package: nat, kind: nat, ghost ns: Names) returns (b: bool)
    requires Ready(t, ns) && package < PACKAGE_HASH_PRIME && t.packages[package].Some?
    modifies t.names
    ensures Ready(t, ns) && Known(ns, t.packages[package].value.name)
    ensures b == NameSatisfies(ns, t.packages[..], t.status[..], ns[t.packages[package].value.name].value, kind)
  {
    hide StatusWord, NamesOk, StatusKey, SearchingStatus, Probing.MakeHash, Probing.Probe, OpenTable.Placed,
         StatusWords, Roomy;
    ghost var ps, ss, i := t.packages[..], t.status[..], t.packages[package].value.name;
    assert ps[package] == t.packages[package] && KnownNode(ns, ps[package].value);
    assert t.names[..][i] == ns[i];
    var key := t.names[t.packages[package].value.name].value;
    StatusKeysStay(ns, t.names[..], ps, ss, t.ulong);
    var num, k := t.SearchStatus(key);
    if t.status[num].None? {
      NoStatusNoWord(ns, ps, ss, key, kind);
      return false;
    }
    assert ss[num] == t.status[num];
    WordsListed(ns, ss);
    b := false;
    if kind == EDGE_PRE_DEPENDS {
      b := StatusIs(t, num, 3, "installed", ns);
    } else if kind == EDGE_DEPENDS {
      b := StatusIs(t, num, 1, "install", ns);
    }
    OneStatus(ns, ps, ss, num, key, kind);
  }

  lemma NoStatusNoWord(names: Names, packages: Packages, status: Statuses, key: string, kind: nat)
    requires |status| > STATUS_HASH_PRIME
    requires forall j | 0 <= j < STATUS_HASH_PRIME && status[j].Some? ::
      StatusKey(names, packages, status[j].value) != Some(key)
    ensures !NameSatisfies(names, packages, status, key, kind)
  {
  }

  /** The only status with that key decides. */
  lemma OneStatus(names: Names, packages: Packages, status: Statuses, num: nat, key: string, kind: nat)
    requires StatusUnique(names, packages, status) && num < STATUS_HASH_PRIME && num < |status| && status[num].Some?
    requires StatusKey(names, packages, status[num].value) == Some(key) && Known(names, status[num].value.status)
    ensures NameSatisfies(names, packages, status, key, kind) <==> WordFits(names[status[num].value.status].value, kind)
  {
    hide StatusWord, StatusKey;
  }

  /** search_for_provides: the next package after `startAt` that provides the name, or -1. */
  method SearchForProvides(t: Database, needle: nat, startAt: int) returns (r: int)
    requires t.Valid() && -1 <= startAt < PACKAGE_HASH_PRIME
    ensures r == -1 || startAt < r < PACKAGE_HASH_PRIME
    ensures r >= 0 ==> t.packages[r].Some? && Provides(t.packages[r].value, needle)
    ensures forall i | startAt < i < (if r == -1 then PACKAGE_HASH_PRIME else r) && t.packages[i].Some? ::
      !Provides(t.packages[i].value, needle)
  {
    hide NamesOk, StatusOk, Provides;
    var i := startAt + 1;
    while i < PACKAGE_HASH_PRIME
      invariant startAt < i <= PACKAGE_HASH_PRIME
      invariant forall j | startAt < j < i && t.packages[j].Some? :: !Provides(t.packages[j].value, needle)
    {
      if t.packages[i].Some? {
        var p := HasProvide(t.packages[i].value, needle);
        if p {
          return i;
        }
      }
      i := i + 1;
    }
    return -1;
  }

  method HasProvide(n: Node, needle: nat) returns (b: bool)
    ensures b == Provides(n, needle)
  {
    for j := 0 to |n.edges|
      invariant forall k | 0 <= k < j :: !(n.edges[k].kind == EDGE_PROVIDES && n.edges[k].name == needle)
    {
      if n.edges[j].kind == EDGE_PROVIDES && n.edges[j].name == needle {
        return true;
      }
    }
    return false;
  }

  /** Whether one alternative is satisfied: by the matching package or by a provider. */
  method EdgeSatisfied(t: Database, e: Edge, ghost ns: Names) returns (b: bool)
    requires Ready(t, ns) && KnownEdge(ns, e)
    modifies t.names
    ensures Ready(t, ns) && b == Satisfied(ns, t.packages[..], t.status[..], e)
  {
    hide NamesOk, StatusOk, Provides, NameSatisfies, PackageMatches, SearchingPackage, OpenTable.Placed, StatusWords,
         Roomy;
    ghost var ps, ss := t.packages[..], t.status[..];
    assert t.names[..][e.name] == ns[e.name] && t.names[..][e.version] == ns[e.version];
    MatchesStay(ns, t.names[..], ps, e, t.ulong);
    var num := t.SearchPackage(e.name, e.version, e.op);
    assert ps[num] == t.packages[num];
    b := false;
    if t.packages[num].Some? {
      MatchIsNamed(ns, ps, num, e);
      b := PackageSatisfies(t, num, e.kind, ns);
    } else {
      NotFound(ns, ps, e);
    }
    if !b {
      b := ProviderSatisfies(t, e, ns);
    }
  }

  /** Added names change no match. */
  lemma MatchesStay(ns: Names, now: Names, packages: Packages, e: Edge, ulong: nat)
    requires Grown(ns, now) && PackagesOk(ns, packages, ulong) && PackagesOk(now, packages, ulong) && KnownEdge(ns, e)
    ensures KnownEdge(now, e)
    ensures forall j | 0 <= j < PACKAGE_HASH_PRIME && packages[j].Some? ::
              PackageMatches(now, packages[j].value, e.name, e.version, e.op) ==
                PackageMatches(ns, packages[j].value, e.name, e.version, e.op)
  {
    hide OpenTable.Placed, VersionTest;
  }

  lemma MatchIsNamed(names: Names, packages: Packages, j: nat, e: Edge)
    requires KnownEdge(names, e) && j < PACKAGE_HASH_PRIME && j < |packages| && packages[j].Some?
      && KnownNode(names, packages[j].value)
    requires PackageMatches(names, packages[j].value, e.name, e.version, e.op)
    ensures packages[j].value.name == e.name && Found(names, packages, e)
  {
  }

  lemma NotFound(names: Names, packages: Packages, e: Edge)
    requires KnownEdge(names, e) && |packages| > PACKAGE_HASH_PRIME
    requires forall j | 0 <= j < PACKAGE_HASH_PRIME && packages[j].Some? ::
               KnownNode(names, packages[j].value) && !PackageMatches(names, packages[j].value, e.name, e.version, e.op)
    ensures !Found(names, packages, e)
  {
  }

  /** The loop over the packages that provide the name. */
  method ProviderSatisfies(t: Database, e: Edge, ghost ns: Names) returns (b: bool)
    requires Ready(t, ns) && KnownEdge(ns, e)
    modifies t.names
    ensures Ready(t, ns)
    ensures b == exists i | 0 <= i < PACKAGE_HASH_PRIME :: ProviderFits(ns, t.packages[..], t.status[..], i, e)
  {
    hide NamesOk, StatusOk, Provides, NameSatisfies, OpenTable.Placed, StatusWords, Roomy;
    ghost var ps, ss := t.packages[..], t.status[..];
    var provider := -1;
    while true
      invariant Ready(t, ns) && -1 <= provider < PACKAGE_HASH_PRIME
      invariant forall i | 0 <= i <= provider :: !ProviderFits(ns, ps, ss, i, e)
      decreases PACKAGE_HASH_PRIME - provider
    {
      var was := provider;
      provider := SearchForProvides(t, e.name, provider);
      if provider == -1 {
        return false;
      }
      assert forall i | was < i < provider :: !ProviderFits(ns, ps, ss, i, e);
      b := PackageSatisfies(t, provider, e.kind, ns);
      if b {
        assert ProviderFits(ns, ps, ss, provider, e);
        return;
      }
    }
  }

  // ----- the dependency pass -----

  /** How the pass over a package ends. */
  datatype Verdict = Passed | Unsatisfied(e: Edge)

  ghost predicate KnownGroups(names: Names, gs: seq<Group>)
  {
    forall g | g in gs :: KnownGroup(names, g)
  }

  /** The first `n` clauses are satisfied. */
  ghost predicate SatisfiedTo(names: Names, packages: Packages, status: Statuses, gs: seq<Group>, n: nat)
    requires KnownGroups(names, gs) && n <= |gs|
  {
    forall i | 0 <= i < n :: GroupSatisfied(names, packages, status, gs[i])
  }

  /** Where the edges of the groups stand in the list. */
  lemma {:induction false} GroupAt(gs: seq<Group>, n: nat)
    requires n < |gs|
    ensures var at := |Flat(gs[..n])|; var g := GroupEdges(gs[n]);
            && at + |g| <= |Flat(gs)| && |Flat(gs[..n + 1])| == at + |g| && Flat(gs)[at..at + |g|] == g
  {
    hide GroupEdges;
    assert gs[..n + 1] == gs[..n] + [gs[n]];
    assert gs == gs[..n + 1] + gs[n + 1..];
    FlatSnoc(gs[..n], gs[n]);
    FlatConcat(gs[..n + 1], gs[n + 1..]);
  }

  /** The state of the loop over the edges: between two clauses, or within a choice
      after `a` alternatives that failed. */
  ghost predicate Standing(names: Names, packages: Packages, status: Statuses, gs: seq<Group>, j: nat, number: nat,
                           root: Option<Edge>, n: nat, a: nat)
    requires KnownGroups(names, gs)
  {
    && n <= |gs| && SatisfiedTo(names, packages, status, gs, n)
    && (if a == 0 then j == |Flat(gs[..n])| && (number == 0 || (number == 1 && root.None?))
        else
          && n < |gs| && gs[n].Choice? && a <= |gs[n].es| && j == |Flat(gs[..n])| + a
          && number == |gs[n].es| - (a - 1) && root == Some(gs[n].root)
          && (forall x | 0 <= x < a - 1 ::
                KnownEdge(names, gs[n].es[x]) && !Satisfied(names, packages, status, gs[n].es[x])))
  }

  /** What the edge at the current place is. */
  lemma {:induction false} EdgeHere(names: Names, packages: Packages, status: Statuses, gs: seq<Group>, j: nat,
                                    number: nat, root: Option<Edge>, n: nat, a: nat)
    requires ValidGroups(gs) && KnownGroups(names, gs) && j < |Flat(gs)|
      && Standing(names, packages, status, gs, j, number, root, n, a)
    ensures n < |gs| && ValidGroup(gs[n]) && KnownGroup(names, gs[n])
    ensures a == 0 && gs[n].One? ==> Flat(gs)[j] == gs[n].e && |Flat(gs[..n + 1])| == j + 1
    ensures a == 0 && gs[n].Choice? ==> Flat(gs)[j] == gs[n].root
    ensures a > 0 ==> Flat(gs)[j] == gs[n].es[a - 1] && gs[n].es[a - 1] in gs[n].es && |Flat(gs[..n + 1])| == j + number
  {
    hide Flat, Satisfied, SatisfiedTo, ValidGroup, KnownGroup;
    assert gs[..|gs|] == gs;
    if n < |gs| {
      GroupEdge(gs, n, j - |Flat(gs[..n])|);
      assert gs[n] in gs;
    }
  }

  lemma {:induction false} GroupEdge(gs: seq<Group>, n: nat, i: nat)
    requires n < |gs| && i < |GroupEdges(gs[n])|
    ensures var at := |Flat(gs[..n])|; at + i < |Flat(gs)| && Flat(gs)[at + i] == GroupEdges(gs[n])[i]
    ensures |Flat(gs[..n + 1])| == |Flat(gs[..n])| + |GroupEdges(gs[n])|
  {
    hide Flat, GroupEdges;
    GroupAt(gs, n);
    var at, g := |Flat(gs[..n])|, GroupEdges(gs[n]);
    assert Flat(gs)[at + i] == Flat(gs)[at..at + |g|][i];
  }

  lemma ChoiceSatisfied(names: Names, packages: Packages, status: Statuses, g: Group, x: nat)
    requires KnownGroup(names, g) && g.Choice? && x < |g.es| && Satisfied(names, packages, status, g.es[x])
    ensures GroupSatisfied(names, packages, status, g)
  {
    assert g.es[x] in g.es;
  }

  lemma NothingYet(names: Names, packages: Packages, status: Statuses, gs: seq<Group>)
    requires KnownGroups(names, gs)
    ensures Standing(names, packages, status, gs, 0, 0, None, 0, 0)
  {
  }

  lemma GroupKnown(names: Names, g: Group)
    requires KnownGroup(names, g) && ValidGroup(g)
    ensures g.One? ==> KnownEdge(names, g.e) && !IsRoot(g.e.kind)
    ensures g.Choice? ==> IsRoot(g.root.kind) && |g.es| == g.root.version >= 1
    ensures g.Choice? ==>
      forall e | e in g.es :: KnownEdge(names, e) && e.kind == g.root.kind - 1 && IsDependency(e.kind)
  {
    hide KnownEdge;
  }

  /** A satisfied edge satisfies its clause. */
  lemma ClauseHolds(names: Names, packages: Packages, status: Statuses, gs: seq<Group>, n: nat, a: nat)
    requires KnownGroups(names, gs) && n < |gs| && SatisfiedTo(names, packages, status, gs, n)
      && KnownGroup(names, gs[n])
    requires if gs[n].One? then KnownEdge(names, gs[n].e) && Satisfied(names, packages, status, gs[n].e)
             else
               1 <= a <= |gs[n].es| && KnownEdge(names, gs[n].es[a - 1])
               && Satisfied(names, packages, status, gs[n].es[a - 1])
    ensures SatisfiedTo(names, packages, status, gs, n + 1)
  {
    hide Satisfied;
    if gs[n].Choice? {
      ChoiceSatisfied(names, packages, status, gs[n], a - 1);
    }
  }

  /** A clause whose last alternative failed is not satisfied. */
  lemma ClauseFails(names: Names, packages: Packages, status: Statuses, gs: seq<Group>, n: nat, a: nat)
    requires KnownGroups(names, gs) && n < |gs| && KnownGroup(names, gs[n])
    requires if gs[n].One? then
               IsDependency(gs[n].e.kind) && KnownEdge(names, gs[n].e) && !Satisfied(names, packages, status, gs[n].e)
             else
               a == |gs[n].es| && forall x | 0 <= x < a ::
                 KnownEdge(names, gs[n].es[x]) && !Satisfied(names, packages, status, gs[n].es[x])
    ensures !SatisfiedTo(names, packages, status, gs, |gs|)
  {
    hide Satisfied;
    assert !GroupSatisfied(names, packages, status, gs[n]);
  }

  lemma OtherHolds(names: Names, packages: Packages, status: Statuses, gs: seq<Group>, n: nat)
    requires KnownGroups(names, gs) && n < |gs| && SatisfiedTo(names, packages, status, gs, n) && gs[n].One?
      && !IsDependency(gs[n].e.kind)
    ensures SatisfiedTo(names, packages, status, gs, n + 1)
  {
  }

  /** At the end of the list every clause has been seen. */
  lemma {:induction false} AllDone(names: Names, packages: Packages, status: Statuses, gs: seq<Group>, j: nat,
                                   number: nat, root: Option<Edge>, n: nat, a: nat)
    requires KnownGroups(names, gs) && Standing(names, packages, status, gs, j, number, root, n, a) && j >= |Flat(gs)|
    ensures SatisfiedTo(names, packages, status, gs, |gs|)
  {
    hide Flat, Satisfied, SatisfiedTo;
    if n < |gs| {
      GroupAt(gs, n);
    }
  }

  /** The loop of check_deps over the edges of one package. */
  method CheckEdges(t: Database, edges: seq<Edge>, ghost gs: seq<Group>, ghost ns: Names) returns (v: Verdict)
    requires Ready(t, ns) && ValidGroups(gs) && KnownGroups(ns, gs) && edges == Flat(gs)
    modifies t.names
    ensures Ready(t, ns) && (v == Passed <==> SatisfiedTo(ns, t.packages[..], t.status[..], gs, |gs|))
  {
    hide Ready, Flat, Satisfied, SatisfiedTo, GroupSatisfied, GroupEdges, KnownGroup, ValidGroups, KnownEdge;
    ghost var ps, ss := t.packages[..], t.status[..];
    var number: nat, root: Option<Edge>, j: nat := 0, None, 0;
    ghost var n: nat, a: nat := 0, 0;
    NothingYet(ns, ps, ss, gs);
    while j < |edges|
      invariant Ready(t, ns) && Standing(ns, ps, ss, gs, j, number, root, n, a)
      decreases |edges| - j
    {
      EdgeHere(ns, ps, ss, gs, j, number, root, n, a);
      GroupKnown(ns, gs[n]);
      var e := edges[j];
      if IsRoot(e.kind) {
        number, root := e.version, Some(e);
        a := 1;
        j := j + 1;
        continue;
      }
      if number == 0 {
        number, root := 1, None;
      }
      if IsDependency(e.kind) {
        if root.Some? && e.kind != root.value.kind - 1 {
          // "package dependencies corrupt": never reached
          assert false;
        }
        var ok := EdgeSatisfied(t, e, ns);
        number := number - 1;
        if !ok && number == 0 {
          ClauseFails(ns, ps, ss, gs, n, a);
          return Unsatisfied(e);
        }
        if ok {
          ClauseHolds(ns, ps, ss, gs, n, a);
          j := j + number;
          number := 0;
          n, a := n + 1, 0;
        } else {
          a := a + 1;
        }
      } else {
        OtherHolds(ns, ps, ss, gs, n);
        n := n + 1;
      }
      j := j + 1;
    }
    AllDone(ns, ps, ss, gs, j, number, root, n, a);
    return Passed;
  }

  /** The edge list of a package is laid out as add_split_dependencies does it. */
  ghost predicate Shaped(names: Names, n: Node, gs: seq<Group>)
  {
    n.edges == Flat(gs) && ValidGroups(gs) && KnownGroups(names, gs)
  }

  /** The package in slot `i` is wanted: its status says "install". */
  ghost predicate Wanted(names: Names, packages: Packages, status: Statuses, i: nat)
  {
    && i < |packages| && packages[i].Some? && Known(names, packages[i].value.name)
    && NameSatisfies(names, packages, status, names[packages[i].value.name].value, EDGE_DEPENDS)
  }

  ghost predicate AllShaped(names: Names, packages: Packages, shapes: seq<seq<Group>>)
  {
    |shapes| == PACKAGE_HASH_PRIME < |packages|
      && forall i | 0 <= i < PACKAGE_HASH_PRIME && packages[i].Some? :: Shaped(names, packages[i].value, shapes[i])
  }

  /** A wanted package has all its clauses satisfied. */
  ghost predicate DependenciesMet(names: Names, packages: Packages, status: Statuses, shapes: seq<seq<Group>>, i: nat)
    requires AllShaped(names, packages, shapes) && i < PACKAGE_HASH_PRIME
  {
    Wanted(names, packages, status, i) ==>
      assert Shaped(names, packages[i].value, shapes[i]);
      SatisfiedTo(names, packages, status, shapes[i], |shapes[i]|)
  }

  /** The dependency pass of check_deps: it passes exactly when every clause of every
      wanted package has an alternative that is satisfied. */
  method CheckDependencies(t: Database, ghost shapes: seq<seq<Group>>) returns (v: Verdict)
    requires Ready(t, t.names[..]) && AllShaped(t.names[..], t.packages[..], shapes)
    modifies t.names
    ensures t.Valid() && Grown(old(t.names[..]), t.names[..]) && Room(t.names[..], NAME_HASH_PRIME)
    ensures v == Passed <==>
              forall i | 0 <= i < PACKAGE_HASH_PRIME ::
                DependenciesMet(old(t.names[..]), t.packages[..], t.status[..], shapes, i)
  {
    hide NamesOk, StatusOk, NameSatisfies, SatisfiedTo, ValidGroups, KnownGroups, Flat, OpenTable.Placed,
         StatusWords, Roomy;
    ghost var ns, ps, ss := t.names[..], t.packages[..], t.status[..];
    RoomyIsRoom(ns, StatusWords(ns, ss));
    for i := 0 to PACKAGE_HASH_PRIME
      invariant Ready(t, ns) && Room(t.names[..], NAME_HASH_PRIME)
      invariant forall k | 0 <= k < i :: DependenciesMet(ns, ps, ss, shapes, k)
    {
      if t.packages[i].Some? {
        assert Shaped(ns, ps[i].value, shapes[i]);
        var wanted := PackageSatisfies(t, i, EDGE_DEPENDS, ns);
        RoomyIsRoom(t.names[..], StatusWords(ns, ss));
        if wanted {
          v := CheckEdges(t, t.packages[i].value.edges, shapes[i], ns);
          RoomyIsRoom(t.names[..], StatusWords(ns, ss));
          if v != Passed {
            assert !DependenciesMet(ns, ps, ss, shapes, i);
            return;
          }
        }
      }
    }
    return Passed;
  }
}
