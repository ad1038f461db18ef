/** Open addressing in the abstract: a table is known by the home of the entry in
    each slot, where its probing begins and how far it steps. */
module OpenTable {
  import opened Options
  import opened Probing

  type Home = (nat, nat)

  predicate ValidHome(h: Home, p: nat)
  {
    h.0 < p && 1 <= h.1 < p
  }

  /** The slots before the `n`-th probe are occupied. */
  ghost predicate Occupied(hs: seq<Option<Home>>, p: nat, h: Home, n: nat)
    requires ValidHome(h, p) && p <= |hs|
  {
    forall m | 0 <= m < n :: hs[Probe(h.0, h.1, p, m)].Some?
  }

  /** The slot is where a search for its entry comes by. */
  ghost predicate OnPath(hs: seq<Option<Home>>, p: nat, h: Home, j: nat)
    requires p <= |hs|
  {
    ValidHome(h, p) && exists n: nat :: Probe(h.0, h.1, p, n) == j && Occupied(hs, p, h, n)
  }

  ghost predicate Placed(hs: seq<Option<Home>>, p: nat)
  {
    p <= |hs| && forall j | 0 <= j < p && hs[j].Some? :: OnPath(hs, p, hs[j].value, j)
  }

  /** A search that meets a free slot has seen every entry with that home. */
  lemma {:induction false} AllSeen(hs: seq<Option<Home>>, p: nat, h: Home, k: nat, j: nat) returns (m: nat)
    requires Placed(hs, p) && ValidHome(h, p) && j < p && hs[j] == Some(h) && hs[Probe(h.0, h.1, p, k)].None?
    ensures m < k && Probe(h.0, h.1, p, m) == j
  {
    hide Probe;
    assert OnPath(hs, p, h, j);
    m :| Probe(h.0, h.1, p, m) == j && Occupied(hs, p, h, m);
  }

  /** The first free slot on the path is the place for a new entry. */
  lemma {:induction false} PlacedInsert(hs: seq<Option<Home>>, p: nat, h: Home, k: nat)
    requires Placed(hs, p) && ValidHome(h, p) && Occupied(hs, p, h, k)
    ensures var x := Probe(h.0, h.1, p, k);
            hs[x].None? ==> Placed(hs[x := Some(h)], p)
  {
    hide Probe;
    var x := Probe(h.0, h.1, p, k);
    if hs[x].None? {
      var hs' := hs[x := Some(h)];
      forall j | 0 <= j < p && hs'[j].Some? ensures OnPath(hs', p, hs'[j].value, j) {
        if j == x {
          assert Occupied(hs', p, h, k);
        } else {
          var g := hs[j].value;
          assert OnPath(hs, p, g, j);
          var n: nat :| Probe(g.0, g.1, p, n) == j && Occupied(hs, p, g, n);
          assert Occupied(hs', p, g, n);
        }
      }
    }
  }

  lemma ProbeNext(h: Home, p: nat, k: nat)
    requires ValidHome(h, p)
    ensures Probe(h.0, h.1, p, k + 1) == Down(Probe(h.0, h.1, p, k), h.1, p)
    ensures Probe(h.0, h.1, p, 0) == h.0
  {
  }
}
