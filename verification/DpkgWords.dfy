/** get_status and set_status on the tables: words become numbers of the name table, which may have to grow. */
module DpkgWords {
  import opened Options
  import opened Probing
  import opened DpkgStatus
  import opened DpkgTables

  ghost function Present(names: Names): (ws: set<string>)
  {
    set i | 0 <= i < NAME_HASH_PRIME && i < |names| && names[i].Some? :: names[i].value
  }

  ghost function Free(names: Names): (slots: set<nat>)
  {
    set i: nat | i < NAME_HASH_PRIME && i < |names| && names[i].None?
  }

  /** The words that are missing can be added, and a slot stays free. */
  ghost predicate Roomy(names: Names, words: set<string>)
  {
    |Free(names)| > |words - Present(names)|
  }

  lemma RoomyIsRoom(names: Names, words: set<string>)
    requires Roomy(names, words)
    ensures Room(names, NAME_HASH_PRIME)
  {
    var i :| i in Free(names);
    assert names[i].None?;
  }

  /** Looking up one of the words leaves room for the others. */
  lemma {:induction false} RoomyKept(was: Names, now: Names, words: set<string>, r: nat, key: string)
    requires Roomy(was, words) && key in words && r < NAME_HASH_PRIME < |was| && was[r].None? && key !in Present(was)
    requires now == was[r := Some(key)]
    ensures Roomy(now, words)
  {
    assert Free(now) == Free(was) - {r} && r in Free(was);
    assert Present(now) == Present(was) + {key} by {
      assert now[r].value == key;
      forall w | w in Present(was)
        ensures w in Present(now)
      {
        var i :| 0 <= i < NAME_HASH_PRIME && was[i].Some? && was[i].value == w;
        assert now[i] == was[i];
      }
    }
    assert words - Present(now) == (words - Present(was)) - {key};
  }

  lemma AddedIs(was: Names, now: Names, r: nat, key: string)
    requires |was| == |now| > NAME_HASH_PRIME > r && was[r].None? && now[r] == Some(key)
    requires forall i | 0 <= i < |now| && i != r :: now[i] == was[i]
    requires Some(key) in was[..NAME_HASH_PRIME] ==> now == was
    ensures now == was[r := Some(key)] && key !in Present(was)
  {
    assert Some(key) !in was[..NAME_HASH_PRIME];
    forall i | 0 <= i < NAME_HASH_PRIME
      ensures was[i] != Some(key)
    {
      assert was[..NAME_HASH_PRIME][i] == was[i];
    }
  }

  /** search_name_hashtable for one of the words that there is room for. */
  method NumberOf(t: Database, key: string, ghost words: set<string>) returns (r: nat)
    requires t.Valid() && Roomy(t.names[..], words) && key in words
    modifies t.names
    ensures t.Valid() && Roomy(t.names[..], words) && Grown(old(t.names[..]), t.names[..])
    ensures Known(t.names[..], r) && t.names[r] == Some(key)
  {
    hide OpenTable.Placed, PackagesOk, StatusOk, StatusUnique, Roomy, Present;
    ghost var was := t.names[..];
    RoomyIsRoom(was, words);
    r := t.SearchName(key);
    if was[r].None? {
      AddedIs(was, t.names[..], r, key);
      RoomyKept(was, t.names[..], words, r, key);
    } else {
      assert t.names[..] == was;
    }
  }

  /** The status of an entry. */
  ghost function StatusText(t: Database, node: nat): (s: string)
    requires t.Valid() && HasStatus(t, node)
    reads t.names, t.packages, t.status
  {
    t.names[t.status[node].value.status].value
  }

  ghost predicate HasStatus(t: Database, node: nat)
    reads t.names, t.status
  {
    && node < STATUS_HASH_PRIME && node < t.status.Length && t.status[node].Some?
    && Known(t.names[..], t.status[node].value.status)
  }

  /** get_status: the number of a word of a status. */
  method GetStatus(t: Database, node: nat, num: nat, ghost words: set<string>) returns (r: nat)
    requires t.Valid() && HasStatus(t, node) && num >= 1
    requires Roomy(t.names[..], words) && StatusWord(StatusText(t, node), num) in words
    modifies t.names
    ensures t.Valid() && HasStatus(t, node) && StatusText(t, node) == old(StatusText(t, node))
    ensures Roomy(t.names[..], words) && Grown(old(t.names[..]), t.names[..])
    ensures Known(t.names[..], r) && t.names[r] == Some(StatusWord(StatusText(t, node), num))
  {
    hide OpenTable.Placed, NamesOk, PackagesOk, StatusOk, StatusUnique, Roomy, StatusWord;
    var w := FindWord(t.names[t.status[node].value.status].value, num);
    r := NumberOf(t, w, words);
  }

  /** All that set_status looks up or adds. */
  ghost function SetWords(s: string, value: string, position: nat): (ws: set<string>)
  {
    {value, StatusWord(s, 1), StatusWord(s, 2), StatusWord(s, 3), SetWord(s, value, position)}
  }

  /** set_status: the status of the entry is put together anew; any position but 1 to 3 is an error. */
  method SetStatus(t: Database, node: nat, value: string, position: nat, ghost words: set<string>) returns (ok: bool)
    requires t.Valid() && HasStatus(t, node)
    requires Roomy(t.names[..], words) && SetWords(StatusText(t, node), value, position) <= words
    modifies t.names, t.status
    ensures ok <==> 1 <= position <= 3
    ensures t.Valid() && HasStatus(t, node) && Grown(old(t.names[..]), t.names[..]) && Roomy(t.names[..], words)
    ensures !ok ==> StatusText(t, node) == old(StatusText(t, node))
    ensures ok ==> StatusText(t, node) == SetWord(old(StatusText(t, node)), value, position)
    ensures t.status[node].value.package == old(t.status[node].value.package)
    ensures forall i | 0 <= i < t.status.Length && i != node :: t.status[i] == old(t.status[i])
  {
    hide OpenTable.Placed, NamesOk, PackagesOk, StatusOk, StatusUnique, Roomy, StatusWord, Joined;
    ghost var s := StatusText(t, node);
    assert SetWords(s, value, position) <= words;
    var newValue := NumberOf(t, value, words);
    var want := GetStatus(t, node, 1, words);
    var flag := GetStatus(t, node, 2, words);
    var state := GetStatus(t, node, 3, words);
    if position == 1 {
      want := newValue;
    } else if position == 2 {
      flag := newValue;
    } else if position == 3 {
      state := newValue;
    } else {
      return false;
    }
    var n := NumberOf(t, Joined(t.names[want].value, t.names[flag].value, t.names[state].value), words);
    ghost var was := t.status[..];
    t.status[node] := Some(t.status[node].value.(status := n));
    assert t.status[..] == was[node := t.status[node]];
    SamePackage(t.names[..], t.packages[..], was, t.status[..], node, t.ulong);
    ok := true;
  }

  /** The tables do not depend on what the status says. */
  lemma {:induction false} SamePackage(names: Names, packages: Packages, was: Statuses, now: Statuses, node: nat,
                                       ulong: nat)
    requires StatusOk(names, packages, was, ulong) && StatusUnique(names, packages, was)
    requires node < |was| && was[node].Some? && |now| == |was| && now == was[node := now[node]]
    requires now[node].Some? && now[node].value.package == was[node].value.package
    ensures StatusOk(names, packages, now, ulong) && StatusUnique(names, packages, now)
  {
    hide OpenTable.Placed, HomeOf;
    assert StatusHomes(names, packages, now, ulong) == StatusHomes(names, packages, was, ulong);
    forall i | 0 <= i < |was| && was[i].Some?
      ensures now[i].Some? && StatusKey(names, packages, now[i].value) == StatusKey(names, packages, was[i].value)
    {
    }
  }
}
