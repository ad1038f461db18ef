/** What breaking ties by depth is good for: no cheapest code has a longest word that is shorter than the tree of
    build_tree is deep. */
module TreeHeight {
  import opened Bits
  import opened Sums
  import opened Huffman
  import opened TreeDepth

  /** With words of lengths `l` for the roots, no leaf is deeper than `top`. */
  ghost predicate Bounded(f: multiset<nat>, l: seq<nat>, d: seq<nat>, top: nat)
  {
    forall x | x in f :: x < |l| && x < |d| && l[x] + d[x] <= top
  }

  /** Exchanging two words at no cost does not reach deeper, if the lower tree gets the longer word. */
  lemma {:induction false} SwapBounded(f: multiset<nat>, l: seq<nat>, d: seq<nat>, a: nat, b: nat, top: nat)
    requires Bounded(f, l, d, top) && a in f && b in f && l[a] <= l[b] && (d[a] <= d[b] || l[a] == l[b])
    ensures Bounded(f, l[a := l[b]][b := l[a]], d, top)
  {
  }

  lemma {:induction false} JoinBounded(f: multiset<nat>, l: seq<nat>, d: seq<nat>, n: nat, m: nat, p: nat, top: nat)
    requires Bounded(f, l, d, top) && n in f && m in f && p < |l| && p < |d| && p !in f
    requires 1 <= l[m] <= l[n] && d[p] == 1 + Higher(d[n], d[m])
    ensures Bounded(Merged(f, n, m, p), l[p := l[m] - 1], d, top)
  {
  }

  /** A merge turns feasible lengths into feasible lengths that are cheaper by the new weight; and unless they are
      even cheaper, they reach no deeper. */
  lemma {:induction false} LowStep(f: multiset<nat>, fc: seq<nat>, d: seq<nat>, n: nat, m: nat, p: nat, l: seq<nat>,
                                   k: nat, top: nat)
    returns (l': seq<nat>)
    requires Distinct(f) && Mergeable(f, fc, n, m, p) && |l| == |fc| && Feasible(f, l, k)
    requires LeastTwo(f, fc, d, n, m) && p < |d| && d[p] == 1 + Higher(d[n], d[m]) && Bounded(f, l, d, top)
    ensures |l'| == |fc|
    ensures var f' := Merged(f, n, m, p);
            && Feasible(f', l', k) && MSum(f', Costs(fc, l')) + fc[p] <= MSum(f, Costs(fc, l))
            && (MSum(f', Costs(fc, l')) + fc[p] == MSum(f, Costs(fc, l)) ==> Bounded(f', l', d, top))
  {
    hide MSum, Costs, Shares, Distinct, Bounded, Merged, Feasible, Least, Mergeable, Within;
    LeastFacts(f, fc, d, n, m, p);
    FeasibleShort(f, l, k);
    var l1 := Lengthen(f, f, fc, d, n, l, k, k, top);
    var l2 := Lengthen(f, f - multiset{n}, fc, d, m, l1, k, l1[n], top);
    JoinFeasible(f, l2, k, n, m, p);
    l' := l2[p := l2[m] - 1];
    JoinCheaper(f, fc, n, m, p, l2);
    if Bounded(f, l2, d, top) {
      JoinBounded(f, l2, d, n, m, p, top);
    }
  }

  lemma LeastFacts(f: multiset<nat>, fc: seq<nat>, d: seq<nat>, n: nat, m: nat, p: nat)
    requires Distinct(f) && Mergeable(f, fc, n, m, p) && LeastTwo(f, fc, d, n, m)
    ensures Least(f, fc, d, n) && Least(f - multiset{n}, fc, d, m) && Within(f, fc) && p < |fc| && p !in f
    ensures n in f && m in f && m in f - multiset{n} && n !in f - multiset{n}
    ensures n < |fc| && m < |fc| && n < |d| && m < |d|
  {
  }

  lemma FeasibleShort(f: multiset<nat>, l: seq<nat>, k: nat)
    requires Feasible(f, l, k)
    ensures forall x | x in f :: x < |l| && l[x] <= k
  {
  }

  /** The least node of `g` gets the longest word of `g`. */
  lemma {:induction false} Lengthen(f: multiset<nat>, g: multiset<nat>, fc: seq<nat>, d: seq<nat>, n: nat,
                                    l: seq<nat>, k: nat, longest: nat, top: nat)
    returns (l': seq<nat>)
    requires Distinct(f) && Within(f, fc) && |l| == |fc| && Feasible(f, l, k) && g <= f && Least(g, fc, d, n)
    requires forall x | x in f :: x < |l| && l[x] <= longest
    ensures |l'| == |fc| && Feasible(f, l', k) && MSum(f, Costs(fc, l')) <= MSum(f, Costs(fc, l))
    ensures forall x | x in g :: x < |l'| && l'[x] <= l'[n]
    ensures forall x | 0 <= x < |l| && x !in g :: l'[x] == l[x]
    ensures forall x | x in f :: x < |l'| && l'[x] <= longest
    ensures MSum(f, Costs(fc, l')) == MSum(f, Costs(fc, l)) && Bounded(f, l, d, top) ==> Bounded(f, l', d, top)
  {
    hide MSum, Costs, Shares, Distinct, Bounded;
    assert n in g;
    var a := Longest(g, l);
    Swap(f, fc, l, k, n, a);
    l' := l[n := l[a]][a := l[n]];
    if MSum(f, Costs(fc, l')) == MSum(f, Costs(fc, l)) && Bounded(f, l, d, top) {
      SwapBounded(f, l, d, n, a, top);
    }
  }

  /** Lengths that cost no more than the merged nodes weigh reach as deep as the tree. */
  lemma {:induction false} LowestHeight(leaves: multiset<nat>, fc: seq<nat>, d: seq<nat>, elems: nat, log: Log, i: nat,
                                        l: seq<nat>, k: nat, top: nat)
    requires Merges(leaves, fc, elems, log) && i <= |log| && elems + |log| <= |fc| && |l| == |fc|
    requires Depths(d, leaves, elems, log) && Lowest(leaves, fc, d, elems, log)
    requires Feasible(Forest(leaves, elems, log[..i]), l, k) && Bounded(Forest(leaves, elems, log[..i]), l, d, top)
    requires Within(Forest(leaves, elems, log[..i]), fc)
    requires MSum(Forest(leaves, elems, log[..i]), Costs(fc, l)) <= InternalWeight(fc, elems, i, |log|)
    ensures forall x | x in Forest(leaves, elems, log) :: x < |d| && d[x] <= top
    decreases |log| - i
  {
    hide MSum, Costs, Shares, Distinct, Mergeable, Feasible, Forest, Merged, Merges, LeastTwo, Higher;
    MergesPrefix(leaves, fc, elems, log, i);
    ForestShape(leaves, fc, elems, log[..i]);
    if i == |log| {
      assert log[..i] == log;
    } else {
      ForestStep(leaves, elems, log, i);
      assert LeastAt(leaves, fc, d, elems, log, i) && DepthAt(d, elems, log, i);
      var f, p := Forest(leaves, elems, log[..i]), elems + i;
      var l' := LowStep(f, fc, d, log[i].0, log[i].1, p, l, k, top);
      LowerBound(leaves, fc, elems, log, i + 1, l', k);
      LowestHeight(leaves, fc, d, elems, log, i + 1, l', k, top);
    }
  }

  /** Every prefix code that costs no more than the merged nodes weigh has a word as long as the tree is deep. */
  lemma {:induction false} CheapestIsDeep(leaves: multiset<nat>, fc: seq<nat>, d: seq<nat>, elems: nat, log: Log,
                                          words: seq<BitString>, top: nat)
    requires Merges(leaves, fc, elems, log) && elems + |log| <= |fc| && |words| == |fc|
    requires Depths(d, leaves, elems, log) && Lowest(leaves, fc, d, elems, log)
    requires PrefixCode((set x | x in leaves), words) && forall x | x in leaves :: x < |words| && |words[x]| <= top
    requires Within(leaves, fc) && MSum(leaves, Costs(fc, Lengths(words))) <= InternalWeight(fc, elems, 0, |log|)
    ensures forall x | x in Forest(leaves, elems, log) :: x < |d| && d[x] <= top
  {
    hide MSum, Costs, Shares, Lengths, Mergeable, Merged, Distinct, Lowest, DepthAt;
    var s := set x | x in leaves;
    assert log[..0] == [];
    MergesPrefix(leaves, fc, elems, log, 0);
    DistinctToSet(leaves, s);
    KraftFrom(s, words, top, 0);
    LengthsAt(words);
    LowestHeight(leaves, fc, d, elems, log, 0, Lengths(words), top, top);
  }
}
