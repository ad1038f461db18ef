/** What the tables of dpkg say about packages, in terms of the texts that stand in them. */
module DpkgLaws {
  import opened Options
  import opened Probing
  import opened Versions
  import opened DpkgStatus
  import opened DpkgTables
  import opened DpkgWords
  import opened DpkgDeps

  // ----- statuses -----

  /** The three words of a status line. */
  lemma {:induction false} Words(want: string, flag: string, state: string)
    requires Plain(want) && Plain(flag) && Plain(state) && flag != ""
    ensures StatusWord(want + " " + flag + " " + state, 1) == want
    ensures StatusWord(want + " " + flag + " " + state, 2) == flag
    ensures StatusWord(want + " " + flag + " " + state, 3) == state
  {
    hide StatusWord;
    WordsOfJoined(want, flag, state);
  }

  /** A status line with one word replaced. */
  lemma {:induction false} Replaced(want: string, flag: string, state: string, value: string)
    requires Plain(want) && Plain(flag) && Plain(state) && flag != ""
    ensures SetWord(want + " " + flag + " " + state, value, 1) == value + " " + flag + " " + state
    ensures SetWord(want + " " + flag + " " + state, value, 2) == want + " " + value + " " + state
    ensures SetWord(want + " " + flag + " " + state, value, 3) == want + " " + flag + " " + value
  {
    hide StatusWord;
    Words(want, flag, state);
  }

  /** A package that has a status satisfies a pre-dependency if and only if it is installed, and a dependency if and
      only if it is to be installed. */
  lemma {:induction false} StatusDecides(names: Names, packages: Packages, status: Statuses, s: nat, key: string,
                                         want: string, flag: string, state: string, kind: nat)
    requires StatusUnique(names, packages, status) && s < STATUS_HASH_PRIME && s < |status| && status[s].Some?
    requires StatusKey(names, packages, status[s].value) == Some(key) && Known(names, status[s].value.status)
    requires names[status[s].value.status] == Some(want + " " + flag + " " + state)
    requires Plain(want) && Plain(flag) && Plain(state) && flag != ""
    ensures NameSatisfies(names, packages, status, key, kind) <==>
            (kind == 1 && state == "installed") || (kind == 3 && want == "install")
  {
    hide StatusUnique, StatusKey, StatusWord, NameSatisfies;
    Words(want, flag, state);
    OneStatus(names, packages, status, s, key, kind);
  }

  /** A package without a status satisfies nothing. */
  lemma NoStatus(names: Names, packages: Packages, status: Statuses, key: string, kind: nat)
    requires forall s | 0 <= s < STATUS_HASH_PRIME && s < |status| && status[s].Some? ::
               StatusKey(names, packages, status[s].value) != Some(key)
    ensures !NameSatisfies(names, packages, status, key, kind)
  {
    hide StatusKey, WordFits;
  }

  /** The end of configure_package: afterwards the package satisfies dependencies of both kinds. */
  method Configure(t: Database, node: nat, ghost want: string, ghost flag: string, ghost state: string,
                   ghost key: string)
    requires t.Valid() && HasStatus(t, node) && StatusText(t, node) == want + " " + flag + " " + state
    requires Plain(want) && Plain(flag) && Plain(state) && flag != ""
    requires StatusKey(t.names[..], t.packages[..], t.status[node].value) == Some(key)
    requires Roomy(t.names[..], ConfigureWords(StatusText(t, node)))
    modifies t.names, t.status
    ensures t.Valid() && HasStatus(t, node) && StatusText(t, node) == "install " + flag + " installed"
    ensures NameSatisfies(t.names[..], t.packages[..], t.status[..], key, EDGE_PRE_DEPENDS)
    ensures NameSatisfies(t.names[..], t.packages[..], t.status[..], key, EDGE_DEPENDS)
  {
    hide OpenTable.Placed, NamesOk, PackagesOk, StatusUnique, Roomy, StatusWord, SetWord, SetWords, NameSatisfies;
    ghost var was, words := t.names[..], ConfigureWords(StatusText(t, node));
    ConfigurePlain();
    Replaced(want, flag, state, "install");
    Replaced("install", flag, state, "installed");
    var _ := SetStatus(t, node, "install", 1, words);
    var _ := SetStatus(t, node, "installed", 3, words);
    assert "install" + " " + flag + " " + "installed" == "install " + flag + " installed";
    KeyStays(was, t.names[..], t.packages[..], t.status[node].value, key);
    StatusDecides(t.names[..], t.packages[..], t.status[..], node, key, "install", flag, "installed", EDGE_PRE_DEPENDS);
    StatusDecides(t.names[..], t.packages[..], t.status[..], node, key, "install", flag, "installed", EDGE_DEPENDS);
  }

  ghost function ConfigureWords(s: string): (ws: set<string>)
  {
    SetWords(s, "install", 1) + SetWords(SetWord(s, "install", 1), "installed", 3)
  }

  lemma ConfigurePlain()
    ensures Plain("install") && Plain("installed")
  {
  }

  lemma KeyStays(was: Names, now: Names, packages: Packages, s: StatusNode, key: string)
    requires Grown(was, now) && StatusKey(was, packages, s) == Some(key)
    ensures StatusKey(now, packages, s) == Some(key)
  {
  }

  // ----- dependencies -----

  /** The version order that an operator asks for. */
  predicate Asked(op: Operator, order: int)
  {
    || op == Any || (op == Equal && order == 0) || (op == Less && order == -1) || (op == More && order == 1)
    || (op == LessEqual && order != 1) || (op == MoreEqual && order != -1)
  }

  /** A dependency finds a package if one of that name stands in the order asked for to the version named. */
  lemma {:induction false} FoundExactly(names: Names, packages: Packages, e: Edge)
    requires KnownEdge(names, e)
    ensures Found(names, packages, e) <==>
            exists j | 0 <= j < PACKAGE_HASH_PRIME && j < |packages| && packages[j].Some? ::
              && packages[j].value.name == e.name && KnownNode(names, packages[j].value)
              && Asked(e.op, CodeOrder(names[packages[j].value.version].value, names[e.version].value))
  {
    hide VersionOrder, Split;
  }

  /** A dependency is met by a package of that name that is found and in the right state, or by one that provides the
      name and is itself in the right state, whatever the version. */
  lemma {:induction false} SatisfiedExactly(names: Names, packages: Packages, status: Statuses, e: Edge)
    requires KnownEdge(names, e)
    ensures Satisfied(names, packages, status, e) <==>
            || (Found(names, packages, e) && NameSatisfies(names, packages, status, names[e.name].value, e.kind))
            || exists i | 0 <= i < PACKAGE_HASH_PRIME && i < |packages| && packages[i].Some? ::
                 && (exists p | p in packages[i].value.edges :: p.kind == 7 && p.name == e.name)
                 && Known(names, packages[i].value.name)
                 && NameSatisfies(names, packages, status, names[packages[i].value.name].value, e.kind)
  {
    hide Found, NameSatisfies;
    forall i: nat ensures ProviderFits(names, packages, status, i, e) <==>
        && i < |packages| && packages[i].Some?
        && (exists p | p in packages[i].value.edges :: p.kind == 7 && p.name == e.name)
        && Known(names, packages[i].value.name)
        && NameSatisfies(names, packages, status, names[packages[i].value.name].value, e.kind)
    {
    }
  }

  /** The dependencies of a package are met if it is not to be installed, or if of every clause of a dependency or
      pre-dependency some alternative is satisfied. */
  lemma {:induction false} MetExactly(names: Names, packages: Packages, status: Statuses, shapes: seq<seq<Group>>,
                                      i: nat)
    requires AllShaped(names, packages, shapes) && i < PACKAGE_HASH_PRIME && packages[i].Some?
    requires Known(names, packages[i].value.name)
    ensures DependenciesMet(names, packages, status, shapes, i) <==>
            NameSatisfies(names, packages, status, names[packages[i].value.name].value, 3) ==>
              forall n | 0 <= n < |shapes[i]| :: ClauseMet(names, packages, status, shapes[i][n])
  {
    hide NameSatisfies, Satisfied;
    assert Shaped(names, packages[i].value, shapes[i]);
    forall n | 0 <= n < |shapes[i]|
      ensures GroupSatisfied(names, packages, status, shapes[i][n]) <==>
              ClauseMet(names, packages, status, shapes[i][n])
    {
      assert shapes[i][n] in shapes[i];
    }
  }

  ghost predicate ClauseMet(names: Names, packages: Packages, status: Statuses, g: Group)
  {
    if g.One? then g.e.kind == 1 || g.e.kind == 3 ==> KnownEdge(names, g.e) && Satisfied(names, packages, status, g.e)
    else exists e | e in g.es :: KnownEdge(names, e) && Satisfied(names, packages, status, e)
  }
}
