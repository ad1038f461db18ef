/** The three hash tables of dpkg: names, packages and status. */
module DpkgTables {
  import opened Options
  import opened Primes
  import opened Probing
  import opened OpenTable
  import opened Versions

  /** edge_t: a relation of a package to another one, by name and version numbers. */
  datatype Edge = Edge(op: Operator, kind: nat, name: nat, version: nat)

  /** common_node_t */
  datatype Node = Node(name: nat, version: nat, edges: seq<Edge>)

  /** status_node_t */
  datatype StatusNode = StatusNode(package: nat, status: nat)

  type Names = seq<Option<string>>
  type Packages = seq<Option<Node>>
  type Statuses = seq<Option<StatusNode>>

  /** A number that stands for a string. */
  predicate Known(names: Names, i: nat)
  {
    i < NAME_HASH_PRIME && i < |names| && names[i].Some?
  }

  /** Where the search for the string with number `i` begins. */
  function HomeOf(names: Names, i: nat, prime: nat, ulong: nat): (h: Home)
    requires prime >= 2 && ulong > 0
    ensures ValidHome(h, prime)
  {
    if Known(names, i) then MakeHash(names[i].value, prime, ulong) else (0, 1)
  }

  function NameHomes(names: Names, ulong: nat): (hs: seq<Option<Home>>)
    requires ulong > 0
    ensures |hs| == |names|
  {
    seq(|names|, i requires 0 <= i < |names| =>
      if names[i].Some? then Some(MakeHash(names[i].value, NAME_HASH_PRIME, ulong)) else None)
  }

  function PackageHomes(names: Names, packages: Packages, ulong: nat): (hs: seq<Option<Home>>)
    requires ulong > 0
    ensures |hs| == |packages|
  {
    seq(|packages|, i requires 0 <= i < |packages| =>
      if packages[i].Some? then Some(HomeOf(names, packages[i].value.name, PACKAGE_HASH_PRIME, ulong)) else None)
  }

  /** The number of the name of the package that a status belongs to. */
  function StatusName(packages: Packages, s: StatusNode): (n: nat)
  {
    if s.package < |packages| && packages[s.package].Some? then packages[s.package].value.name else 0
  }

  function StatusHomes(names: Names, packages: Packages, status: Statuses, ulong: nat): (hs: seq<Option<Home>>)
    requires ulong > 0
    ensures |hs| == |status|
  {
    seq(|status|, i requires 0 <= i < |status| =>
      if status[i].Some? then Some(HomeOf(names, StatusName(packages, status[i].value), STATUS_HASH_PRIME, ulong))
        else None)
  }

  ghost predicate NamesOk(names: Names, ulong: nat)
  {
    && |names| == NAME_HASH_PRIME + 1 && ulong > 0
    && Placed(NameHomes(names, ulong), NAME_HASH_PRIME)
    && forall i, j | 0 <= i < NAME_HASH_PRIME && 0 <= j < NAME_HASH_PRIME && names[i].Some?
      && names[i] == names[j] :: i == j
  }

  ghost predicate PackagesOk(names: Names, packages: Packages, ulong: nat)
  {
    && |packages| == PACKAGE_HASH_PRIME + 1 && ulong > 0
    && Placed(PackageHomes(names, packages, ulong), PACKAGE_HASH_PRIME)
    && forall i | 0 <= i < PACKAGE_HASH_PRIME && packages[i].Some? :: KnownNode(names, packages[i].value)
  }

  predicate KnownNode(names: Names, n: Node)
  {
    Known(names, n.name) && Known(names, n.version) && IsText(names[n.version].value)
  }

  ghost predicate StatusOk(names: Names, packages: Packages, status: Statuses, ulong: nat)
  {
    && |status| == STATUS_HASH_PRIME + 1 && ulong > 0
    && Placed(StatusHomes(names, packages, status, ulong), STATUS_HASH_PRIME)
    && forall i | 0 <= i < STATUS_HASH_PRIME && status[i].Some? ::
         status[i].value.package < PACKAGE_HASH_PRIME && status[i].value.package < |packages|
           && packages[status[i].value.package].Some?
  }

  /** No two status entries belong to packages of the same name. */
  ghost predicate StatusUnique(names: Names, packages: Packages, status: Statuses)
  {
    forall i, j | 0 <= i < STATUS_HASH_PRIME && 0 <= j < STATUS_HASH_PRIME && i < |status| && j < |status|
      && status[i].Some? && status[j].Some?
                  && StatusKey(names, packages, status[i].value) == StatusKey(names, packages, status[j].value) ::
                    i == j
  }

  /** Some slot is free. */
  ghost predicate Room<T>(slots: seq<Option<T>>, p: nat)
  {
    exists j | 0 <= j < p && j < |slots| :: slots[j].None?
  }

  /** Old numbers keep their meaning. */
  ghost predicate Grown(was: Names, now: Names)
  {
    |was| == |now| && forall i | 0 <= i < |was| && was[i].Some? :: now[i] == was[i]
  }

  // ----- the state of a search -----

  /** After `k` probes: every slot so far is occupied, by something else. */
  ghost predicate Searching(names: Names, key: string, ulong: nat, k: nat)
    requires |names| == NAME_HASH_PRIME + 1 && ulong > 0
  {
    var h := MakeHash(key, NAME_HASH_PRIME, ulong);
    forall m | 0 <= m < k :: names[Probe(h.0, h.1, NAME_HASH_PRIME, m)].Some?
      && names[Probe(h.0, h.1, NAME_HASH_PRIME, m)] != Some(key)
  }

  /** At a free slot: the string is not in the table and belongs there. */
  lemma {:induction false} NameInsert(names: Names, key: string, ulong: nat, k: nat)
    requires NamesOk(names, ulong) && Searching(names, key, ulong, k)
    requires var h := MakeHash(key, NAME_HASH_PRIME, ulong); names[Probe(h.0, h.1, NAME_HASH_PRIME, k)].None?
    ensures var h := MakeHash(key, NAME_HASH_PRIME, ulong); var x := Probe(h.0, h.1, NAME_HASH_PRIME, k);
            NamesOk(names[x := Some(key)], ulong)
    ensures forall j | 0 <= j < NAME_HASH_PRIME :: names[j] != Some(key)
  {
    hide Probe, MakeHash;
    var h, hs := MakeHash(key, NAME_HASH_PRIME, ulong), NameHomes(names, ulong);
    var x := Probe(h.0, h.1, NAME_HASH_PRIME, k);
    forall j: nat | j < NAME_HASH_PRIME ensures names[j] != Some(key) {
      if names[j] == Some(key) {
        var m := AllSeen(hs, NAME_HASH_PRIME, h, k, j);
      }
    }
    assert Occupied(hs, NAME_HASH_PRIME, h, k);
    PlacedInsert(hs, NAME_HASH_PRIME, h, k);
    assert NameHomes(names[x := Some(key)], ulong) == hs[x := Some(h)];
  }

  /** The package has that name, and a version that fits. */
  ghost predicate PackageMatches(names: Names, n: Node, name: nat, version: nat, op: Operator)
    requires KnownNode(names, n) && Known(names, version)
  {
    n.name == name && VersionTest(names[n.version].value, names[version].value, op)
  }

  /** After `k` probes: every slot so far holds a package that does not fit. */
  ghost predicate SearchingPackage(names: Names, packages: Packages, name: nat, version: nat, op: Operator,
                                   ulong: nat, k: nat)
    requires PackagesOk(names, packages, ulong) && Known(names, name) && Known(names, version)
  {
    var h := HomeOf(names, name, PACKAGE_HASH_PRIME, ulong);
    forall m | 0 <= m < k :: var x := Probe(h.0, h.1, PACKAGE_HASH_PRIME, m);
      packages[x].Some? && !PackageMatches(names, packages[x].value, name, version, op)
  }

  /** A search that meets a free slot has missed no package. */
  lemma {:induction false} NoPackage(names: Names, packages: Packages, name: nat, version: nat, op: Operator,
                                     ulong: nat, k: nat)
    requires PackagesOk(names, packages, ulong) && Known(names, name) && Known(names, version)
    requires SearchingPackage(names, packages, name, version, op, ulong, k)
    requires var h := HomeOf(names, name, PACKAGE_HASH_PRIME, ulong);
      packages[Probe(h.0, h.1, PACKAGE_HASH_PRIME, k)].None?
    ensures forall j | 0 <= j < PACKAGE_HASH_PRIME && packages[j].Some? ::
      !PackageMatches(names, packages[j].value, name, version, op)
  {
    hide Probe, MakeHash, VersionTest, HomeOf;
    var h, hs := HomeOf(names, name, PACKAGE_HASH_PRIME, ulong), PackageHomes(names, packages, ulong);
    forall j: nat | j < PACKAGE_HASH_PRIME && packages[j].Some? ensures !PackageMatches(names, packages[j].value,
      name, version, op) {
      if packages[j].value.name == name {
        var m := AllSeen(hs, PACKAGE_HASH_PRIME, h, k, j);
      }
    }
  }

  /** A package put where the search for it ends, new or in place of an equal one. */
  lemma {:induction false} PackageInsert(names: Names, packages: Packages, node: Node, op: Operator, ulong: nat, k: nat)
    requires PackagesOk(names, packages, ulong) && KnownNode(names, node)
    requires SearchingPackage(names, packages, node.name, node.version, op, ulong, k)
    ensures var h := HomeOf(names, node.name, PACKAGE_HASH_PRIME, ulong);
      var x := Probe(h.0, h.1, PACKAGE_HASH_PRIME, k);
            packages[x].None? || packages[x].value.name == node.name ==>
              PackagesOk(names, packages[x := Some(node)], ulong)
  {
    hide Probe, MakeHash, VersionTest, HomeOf;
    var h, hs := HomeOf(names, node.name, PACKAGE_HASH_PRIME, ulong), PackageHomes(names, packages, ulong);
    var x := Probe(h.0, h.1, PACKAGE_HASH_PRIME, k);
    assert Occupied(hs, PACKAGE_HASH_PRIME, h, k);
    PlacedInsert(hs, PACKAGE_HASH_PRIME, h, k);
    assert PackageHomes(names, packages[x := Some(node)], ulong) == hs[x := Some(h)];
    if packages[x].Some? && packages[x].value.name == node.name {
      assert hs[x := Some(h)] == hs;
    }
  }

  /** Replacing a package by one of the same name moves no status. */
  lemma {:induction false} StatusStays(names: Names, packages: Packages, status: Statuses, x: nat, node: Node,
                                       ulong: nat)
    requires StatusOk(names, packages, status, ulong) && x < |packages| && |packages| == PACKAGE_HASH_PRIME + 1
    requires packages[x].None? || packages[x].value.name == node.name
    ensures StatusOk(names, packages[x := Some(node)], status, ulong)
    ensures StatusUnique(names, packages, status) ==> StatusUnique(names, packages[x := Some(node)], status)
  {
    hide Probe, MakeHash, HomeOf, Placed;
    var packages' := packages[x := Some(node)];
    forall i | 0 <= i < STATUS_HASH_PRIME && status[i].Some?
      ensures StatusKey(names, packages, status[i].value) == StatusKey(names, packages', status[i].value)
    {
    }
    var hs, hs' := StatusHomes(names, packages, status, ulong), StatusHomes(names, packages', status, ulong);
    forall i | 0 <= i < STATUS_HASH_PRIME ensures hs[i] == hs'[i] {
    }
    PlacedLocal(hs, hs', STATUS_HASH_PRIME);
  }

  lemma {:induction false} PlacedLocal(hs: seq<Option<Home>>, hs': seq<Option<Home>>, p: nat)
    requires Placed(hs, p) && |hs| == |hs'| && forall i | 0 <= i < p :: hs[i] == hs'[i]
    ensures Placed(hs', p)
  {
    hide Probe;
    forall j | 0 <= j < p && hs'[j].Some? ensures OnPath(hs', p, hs'[j].value, j) {
      var g := hs[j].value;
      assert OnPath(hs, p, g, j);
      var n: nat :| Probe(g.0, g.1, p, n) == j && Occupied(hs, p, g, n);
      assert Occupied(hs', p, g, n);
    }
  }

  /** The name of the package a status belongs to. */
  function StatusKey(names: Names, packages: Packages, s: StatusNode): (key: Option<string>)
  {
    var n := StatusName(packages, s);
    if Known(names, n) then names[n] else None
  }

  ghost predicate SearchingStatus(names: Names, packages: Packages, status: Statuses, key: string, ulong: nat, k: nat)
    requires ulong > 0 && |status| == STATUS_HASH_PRIME + 1
  {
    var h := MakeHash(key, STATUS_HASH_PRIME, ulong);
    forall m | 0 <= m < k :: var x := Probe(h.0, h.1, STATUS_HASH_PRIME, m);
      status[x].Some? && StatusKey(names, packages, status[x].value) != Some(key)
  }

  lemma {:induction false} NoStatus(names: Names, packages: Packages, status: Statuses, key: string, ulong: nat, k: nat)
    requires StatusOk(names, packages, status, ulong) && SearchingStatus(names, packages, status, key, ulong, k)
    requires var h := MakeHash(key, STATUS_HASH_PRIME, ulong); status[Probe(h.0, h.1, STATUS_HASH_PRIME, k)].None?
    ensures forall j | 0 <= j < STATUS_HASH_PRIME && status[j].Some? ::
      StatusKey(names, packages, status[j].value) != Some(key)
  {
    hide Probe, MakeHash;
    var h, hs := MakeHash(key, STATUS_HASH_PRIME, ulong), StatusHomes(names, packages, status, ulong);
    forall j: nat | j < STATUS_HASH_PRIME && status[j].Some? ensures StatusKey(names, packages,
      status[j].value) != Some(key) {
      if StatusKey(names, packages, status[j].value) == Some(key) {
        var m := AllSeen(hs, STATUS_HASH_PRIME, h, k, j);
      }
    }
  }

  lemma {:induction false} StatusInsert(names: Names, packages: Packages, status: Statuses, s: StatusNode,
                                        key: string, ulong: nat, k: nat)
    requires StatusOk(names, packages, status, ulong) && SearchingStatus(names, packages, status, key, ulong, k)
    requires StatusKey(names, packages, s) == Some(key)
    requires s.package < PACKAGE_HASH_PRIME && s.package < |packages| && packages[s.package].Some?
    ensures var h := MakeHash(key, STATUS_HASH_PRIME, ulong); var x := Probe(h.0, h.1, STATUS_HASH_PRIME, k);
            status[x].None? || StatusKey(names, packages, status[x].value) == Some(key) ==>
              StatusOk(names, packages, status[x := Some(s)], ulong)
    ensures var h := MakeHash(key, STATUS_HASH_PRIME, ulong); var x := Probe(h.0, h.1, STATUS_HASH_PRIME, k);
            StatusUnique(names, packages, status) && (status[x].None?
                                                      || StatusKey(names, packages, status[x].value) == Some(key)) ==>
              StatusUnique(names, packages, status[x := Some(s)])
  {
    hide Probe, MakeHash;
    var h, hs := MakeHash(key, STATUS_HASH_PRIME, ulong), StatusHomes(names, packages, status, ulong);
    var x := Probe(h.0, h.1, STATUS_HASH_PRIME, k);
    assert Occupied(hs, STATUS_HASH_PRIME, h, k);
    PlacedInsert(hs, STATUS_HASH_PRIME, h, k);
    if status[x].None? {
      NoStatus(names, packages, status, key, ulong, k);
    }
    assert StatusHomes(names, packages, status[x := Some(s)], ulong) == hs[x := Some(h)];
    if status[x].Some? && StatusKey(names, packages, status[x].value) == Some(key) {
      assert hs[x := Some(h)] == hs;
    }
  }

  /** New names disturb neither packages nor status. */
  lemma {:induction false} NamesGrow(was: Names, now: Names, packages: Packages, status: Statuses, ulong: nat)
    requires Grown(was, now) && PackagesOk(was, packages, ulong) && StatusOk(was, packages, status, ulong)
    ensures PackagesOk(now, packages, ulong) && StatusOk(now, packages, status, ulong)
    ensures StatusUnique(was, packages, status) ==> StatusUnique(now, packages, status)
  {
    hide Probe, MakeHash, Placed;
    var ps, ps' := PackageHomes(was, packages, ulong), PackageHomes(now, packages, ulong);
    forall i | 0 <= i < PACKAGE_HASH_PRIME ensures ps[i] == ps'[i] {
    }
    PlacedLocal(ps, ps', PACKAGE_HASH_PRIME);
    var ss, ss' := StatusHomes(was, packages, status, ulong), StatusHomes(now, packages, status, ulong);
    forall i | 0 <= i < STATUS_HASH_PRIME ensures ss[i] == ss'[i] {
    }
    PlacedLocal(ss, ss', STATUS_HASH_PRIME);
    forall i | 0 <= i < STATUS_HASH_PRIME && status[i].Some?
      ensures StatusKey(was, packages, status[i].value) == StatusKey(now, packages, status[i].value)
    {
    }
  }

  // ----- the tables in memory -----

  class Database {
    const names: array<Option<string>>
    const packages: array<Option<Node>>
    const status: array<Option<StatusNode>>
    /** The range of unsigned long. */
    const ulong: nat

    ghost predicate Valid()
      reads names, packages, status
    {
      && NamesOk(names[..], ulong) && PackagesOk(names[..], packages[..], ulong)
      && StatusOk(names[..], packages[..], status[..], ulong) && StatusUnique(names[..], packages[..], status[..])
      && Separate()
    }

    ghost predicate Separate()
    {
      names as object != packages && names as object != status && packages as object != status
    }

    /** All tables empty. */
    constructor (ulong: nat)
      requires ulong > 0
      ensures Valid() && this.ulong == ulong && fresh(names) && fresh(packages) && fresh(status)
      ensures forall i | 0 <= i < names.Length :: names[i].None?
    {
      this.ulong := ulong;
      names := new Option<string>[NAME_HASH_PRIME + 1](_ => None);
      packages := new Option<Node>[PACKAGE_HASH_PRIME + 1](_ => None);
      status := new Option<StatusNode>[STATUS_HASH_PRIME + 1](_ => None);
    }

    /** search_name_hashtable: the number of the string, which is added if it is new. */
    method SearchName(key: string) returns (r: nat)
      requires Valid() && (Room(names[..], NAME_HASH_PRIME) || Some(key) in names[..NAME_HASH_PRIME])
      modifies names
      ensures Valid() && r < NAME_HASH_PRIME && names[r] == Some(key) && Grown(old(names[..]), names[..])
      ensures old(Some(key) in names[..NAME_HASH_PRIME]) ==> names[..] == old(names[..])
      ensures forall i | 0 <= i < names.Length && i != r :: names[i] == old(names[i])
    {
      hide Prime, Probe, MakeHash, PackagesOk, StatusOk, Placed;
      HashPrimes();
      var h := HashKey(key, NAME_HASH_PRIME, ulong);
      ghost var stop := NameStop(names[..], key);
      ghost var last := ProbeReaches(h.0, h.1, NAME_HASH_PRIME, stop);
      ghost var was, k := names[..], 0;
      r := h.0;
      ProbeNext(h, NAME_HASH_PRIME, 0);
      while names[r].Some?
        invariant names[..] == was
        invariant r == Probe(h.0, h.1, NAME_HASH_PRIME, k) && k <= last && Searching(was, key, ulong, k)
        decreases last - k
      {
        if names[r].value == key {
          GrownSelf(was);
          return;
        }
        ProbeNext(h, NAME_HASH_PRIME, k);
        r := Down(r, h.1, NAME_HASH_PRIME);
        k := k + 1;
      }
      NameInsert(was, key, ulong, k);
      names[r] := Some(key);
      assert names[..] == was[r := Some(key)];
      GrownInsert(was, r, key);
      NamesGrow(was, names[..], packages[..], status[..], ulong);
      NotAmong(was, key);
    }

    /** search_package_hashtable: the slot of a package that fits, or a free slot
        when there is none. */
    method SearchPackage(name: nat, version: nat, op: Operator) returns (r: nat)
      requires Valid() && Known(names[..], name) && Known(names[..], version) && IsText(names[version].value)
      requires Room(packages[..], PACKAGE_HASH_PRIME)
      ensures r < PACKAGE_HASH_PRIME
      ensures packages[r].Some? ==> PackageMatches(names[..], packages[r].value, name, version, op)
      ensures packages[r].None? ==>
                forall j | 0 <= j < PACKAGE_HASH_PRIME && packages[j].Some? ::
                  !PackageMatches(names[..], packages[j].value, name, version, op)
    {
      ghost var k;
      r, k := ProbePackage(name, version, op);
    }

    method ProbePackage(name: nat, version: nat, op: Operator) returns (r: nat, ghost k: nat)
      requires Valid() && Known(names[..], name) && Known(names[..], version) && IsText(names[version].value)
      requires Room(packages[..], PACKAGE_HASH_PRIME)
      ensures r < PACKAGE_HASH_PRIME && SearchingPackage(names[..], packages[..], name, version, op, ulong, k)
      ensures var h := HomeOf(names[..], name, PACKAGE_HASH_PRIME, ulong); r == Probe(h.0, h.1, PACKAGE_HASH_PRIME, k)
      ensures packages[r].Some? ==> PackageMatches(names[..], packages[r].value, name, version, op)
      ensures packages[r].None? ==>
                forall j | 0 <= j < PACKAGE_HASH_PRIME && packages[j].Some? ::
                  !PackageMatches(names[..], packages[j].value, name, version, op)
    {
      hide Prime, Probe, MakeHash, NamesOk, StatusOk, Placed, VersionTest;
      HashPrimes();
      ghost var ns, ps := names[..], packages[..];
      var h := HashKey(names[name].value, PACKAGE_HASH_PRIME, ulong);
      HomeIs(ns, name, ulong);
      ghost var stop := FreeSlot(ps, PACKAGE_HASH_PRIME);
      ghost var last := ProbeReaches(h.0, h.1, PACKAGE_HASH_PRIME, stop);
      r, k := h.0, 0;
      ProbeNext(h, PACKAGE_HASH_PRIME, 0);
      while packages[r].Some?
        invariant r == Probe(h.0, h.1, PACKAGE_HASH_PRIME, k) && k <= last
          && SearchingPackage(ns, ps, name, version, op, ulong, k)
        decreases last - k
      {
        var node := packages[r].value;
        if node.name == name {
          if op == Any {
            AnyVersion(names[node.version].value, names[version].value);
            return;
          }
          var fits := TestVersion(names[node.version].value, names[version].value, op);
          if fits {
            return;
          }
        }
        ProbeNext(h, PACKAGE_HASH_PRIME, k);
        r := Down(r, h.1, PACKAGE_HASH_PRIME);
        k := k + 1;
      }
      NoPackage(ns, ps, name, version, op, ulong, k);
    }

    /** The end of fill_package_struct: a package replaces the one with its name and
        an equal version, or is added. */
    method StorePackage(node: Node) returns (num: nat)
      requires Valid() && KnownNode(names[..], node) && Room(packages[..], PACKAGE_HASH_PRIME)
      modifies packages
      ensures Valid() && num < PACKAGE_HASH_PRIME && packages[num] == Some(node)
      ensures forall i | 0 <= i < packages.Length && i != num :: packages[i] == old(packages[i])
      ensures old(packages[num]).Some? ==>
        PackageMatches(names[..], old(packages[num]).value, node.name, node.version, Equal)
      ensures old(packages[num]).None? ==>
                forall j | 0 <= j < PACKAGE_HASH_PRIME && old(packages[j]).Some? ::
                  !PackageMatches(names[..], old(packages[j]).value, node.name, node.version, Equal)
    {
      hide Prime, Probe, MakeHash, NamesOk, StatusOk, Placed, VersionTest, HomeOf, SearchingPackage;
      ghost var k;
      num, k := ProbePackage(node.name, node.version, Equal);
      ghost var was := packages[..];
      PackageInsert(names[..], was, node, Equal, ulong, k);
      StatusStays(names[..], was, status[..], num, node, ulong);
      packages[num] := Some(node);
      assert packages[..] == was[num := Some(node)];
    }

    /** search_status_hashtable: the slot of the status of the package with that
        name, or a free slot when there is none. */
    method SearchStatus(key: string) returns (r: nat, ghost k: nat)
      requires Valid() && Room(status[..], STATUS_HASH_PRIME)
      ensures r < STATUS_HASH_PRIME && SearchingStatus(names[..], packages[..], status[..], key, ulong, k)
      ensures var h := MakeHash(key, STATUS_HASH_PRIME, ulong); r == Probe(h.0, h.1, STATUS_HASH_PRIME, k)
      ensures status[r].Some? ==> StatusKey(names[..], packages[..], status[r].value) == Some(key)
      ensures status[r].None? ==>
                forall j | 0 <= j < STATUS_HASH_PRIME && status[j].Some? ::
                  StatusKey(names[..], packages[..], status[j].value) != Some(key)
    {
      hide Prime, Probe, MakeHash, NamesOk, Placed;
      HashPrimes();
      ghost var ns, ps, ss := names[..], packages[..], status[..];
      var h := HashKey(key, STATUS_HASH_PRIME, ulong);
      ghost var stop := FreeSlot(ss, STATUS_HASH_PRIME);
      ghost var last := ProbeReaches(h.0, h.1, STATUS_HASH_PRIME, stop);
      r, k := h.0, 0;
      ProbeNext(h, STATUS_HASH_PRIME, 0);
      while status[r].Some?
        invariant r == Probe(h.0, h.1, STATUS_HASH_PRIME, k) && k <= last && SearchingStatus(ns, ps, ss, key, ulong, k)
        decreases last - k
      {
        if names[packages[status[r].value.package].value.name] == Some(key) {
          return;
        }
        ProbeNext(h, STATUS_HASH_PRIME, k);
        r := Down(r, h.1, STATUS_HASH_PRIME);
        k := k + 1;
      }
      NoStatus(ns, ps, ss, key, ulong, k);
    }

    /** The end of index_status_file: the status of a package is added or replaced. */
    method StoreStatus(s: StatusNode) returns (num: nat)
      requires Valid() && Room(status[..], STATUS_HASH_PRIME)
      requires s.package < PACKAGE_HASH_PRIME && packages[s.package].Some?
      modifies status
      ensures Valid() && num < STATUS_HASH_PRIME && status[num] == Some(s)
      ensures forall i | 0 <= i < status.Length && i != num :: status[i] == old(status[i])
      ensures forall j | 0 <= j < STATUS_HASH_PRIME && old(status[j]).Some? && j != num && old(status[num]).None? ::
                StatusKey(names[..], packages[..], old(status[j]).value) != StatusKey(names[..], packages[..], s)
    {
      hide Prime, Probe, MakeHash, NamesOk, Placed, SearchingStatus;
      var key := names[packages[s.package].value.name].value;
      ghost var k;
      num, k := SearchStatus(key);
      ghost var was := status[..];
      StatusInsert(names[..], packages[..], was, s, key, ulong, k);
      status[num] := Some(s);
      assert status[..] == was[num := Some(s)];
    }
  }

  lemma NameStop(names: Names, key: string) returns (j: nat)
    requires |names| == NAME_HASH_PRIME + 1 && (Room(names, NAME_HASH_PRIME) || Some(key) in names[..NAME_HASH_PRIME])
    ensures j < NAME_HASH_PRIME && (names[j].None? || names[j] == Some(key))
  {
    if Room(names, NAME_HASH_PRIME) {
      j :| 0 <= j < NAME_HASH_PRIME && names[j].None?;
    } else {
      j :| 0 <= j < NAME_HASH_PRIME && names[..NAME_HASH_PRIME][j] == Some(key);
    }
  }

  lemma FreeSlot<T>(slots: seq<Option<T>>, p: nat) returns (j: nat)
    requires p <= |slots| && Room(slots, p)
    ensures j < p && slots[j].None?
  {
    j :| 0 <= j < p && slots[j].None?;
  }

  lemma GrownSelf(names: Names)
    ensures Grown(names, names)
  {
  }

  lemma GrownInsert(names: Names, r: nat, key: string)
    requires r < |names| && names[r].None?
    ensures Grown(names, names[r := Some(key)])
  {
  }

  lemma NotAmong(names: Names, key: string)
    requires |names| > NAME_HASH_PRIME && forall j | 0 <= j < NAME_HASH_PRIME :: names[j] != Some(key)
    ensures Some(key) !in names[..NAME_HASH_PRIME]
  {
  }

  lemma HomeIs(names: Names, name: nat, ulong: nat)
    requires Known(names, name) && ulong > 0
    ensures HomeOf(names, name, PACKAGE_HASH_PRIME, ulong) == MakeHash(names[name].value, PACKAGE_HASH_PRIME, ulong)
  {
  }

  lemma AnyVersion(a: string, b: string)
    ensures VersionTest(a, b, Any)
  {
  }

  /** Whatever was looked up or added between: equal numbers stand for equal strings
      and equal strings have equal numbers. */
  lemma NumbersAreNames(was: Names, now: Names, ulong: nat, i: nat, j: nat)
    requires NamesOk(now, ulong) && Grown(was, now) && Known(was, i) && Known(now, j)
    ensures now[i] == was[i] && (i == j <==> was[i] == now[j])
  {
  }
}
