/** Huffman's construction seen as a log of merges, and why it is optimal. */
module Huffman {
  import opened Bits
  import opened Sums

  /** The two nodes of each merge, in order; merge `i` creates node `elems + i`. */
  type Log = seq<(nat, nat)>

  /** The roots that are left after the merges. */
  ghost function Forest(leaves: multiset<nat>, elems: nat, log: Log): (f: multiset<nat>)
  {
    if log == [] then leaves
    else
      var k := |log| - 1;
      Merged(Forest(leaves, elems, log[..k]), log[k].0, log[k].1, elems + k)
  }

  /** The roots once `n` and `m` have become children of `p`. */
  ghost function Merged(f: multiset<nat>, n: nat, m: nat, p: nat): (f': multiset<nat>)
  {
    f - multiset{n} - multiset{m} + multiset{p}
  }

  /** `n` and `m` are two roots of least weight and `p` is a new node that weighs as much as both. */
  ghost predicate Mergeable(f: multiset<nat>, fc: seq<nat>, n: nat, m: nat, p: nat)
  {
    && Within(f, fc) && p < |fc| && p !in f
    && n in f && m in f - multiset{n}
    && fc[p] == fc[n] + fc[m]
    && (forall x | x in f :: fc[n] <= fc[x])
    && (forall x | x in f - multiset{n} :: fc[m] <= fc[x])
  }

  /** Every merge of the log joined two roots of least weight. */
  ghost predicate Merges(leaves: multiset<nat>, fc: seq<nat>, elems: nat, log: Log)
  {
    if log == [] then Distinct(leaves) && Within(leaves, fc) && forall x | x in leaves :: x < elems
    else
      var k := |log| - 1;
      && Merges(leaves, fc, elems, log[..k])
      && Mergeable(Forest(leaves, elems, log[..k]), fc, log[k].0, log[k].1, elems + k)
  }

  lemma {:induction false} MergedShape(f: multiset<nat>, fc: seq<nat>, n: nat, m: nat, p: nat)
    requires Distinct(f) && Mergeable(f, fc, n, m, p)
    ensures var f' := Merged(f, n, m, p);
            && Distinct(f') && Within(f', fc)
            && |f'| + 1 == |f|
            && (forall x | x in f' :: x == p || x in f)
            && n !in f' && m !in f' && p in f' && n != m
  {
  }

  lemma {:induction false} ForestShape(leaves: multiset<nat>, fc: seq<nat>, elems: nat, log: Log)
    requires Merges(leaves, fc, elems, log)
    ensures var f := Forest(leaves, elems, log);
            && Distinct(f) && Within(f, fc)
            && |f| + |log| == |leaves|
            && forall x | x in f :: x < elems + |log|
    decreases |log|
  {
    hide Merged, Mergeable, Distinct;
    if log != [] {
      var k := |log| - 1;
      ForestShape(leaves, fc, elems, log[..k]);
      MergedShape(Forest(leaves, elems, log[..k]), fc, log[k].0, log[k].1, elems + k);
    }
  }

  lemma {:induction false} MergesPrefix(leaves: multiset<nat>, fc: seq<nat>, elems: nat, log: Log, k: nat)
    requires Merges(leaves, fc, elems, log) && k <= |log|
    ensures Merges(leaves, fc, elems, log[..k])
    ensures k < |log| ==> Mergeable(Forest(leaves, elems, log[..k]), fc, log[k].0, log[k].1, elems + k)
    decreases |log|
  {
    hide Mergeable, Forest;
    if k == |log| {
      assert log[..k] == log;
    } else {
      var last := |log| - 1;
      MergesPrefix(leaves, fc, elems, log[..last], k);
      assert log[..last][..k] == log[..k];
      if k == last {
        assert log[k] == log[last];
      } else {
        assert log[..last][k] == log[k];
      }
    }
  }

  lemma {:induction false} ForestStep(leaves: multiset<nat>, elems: nat, log: Log, k: nat)
    requires k < |log|
    ensures Forest(leaves, elems, log[..k + 1])
         == Merged(Forest(leaves, elems, log[..k]), log[k].0, log[k].1, elems + k)
  {
    hide Merged;
    assert log[..k + 1][..k] == log[..k];
  }

  /** A node that has been merged is a root no more. */
  lemma {:induction false} Retired(leaves: multiset<nat>, fc: seq<nat>, elems: nat, log: Log, i: nat)
    requires Merges(leaves, fc, elems, log) && i < |log|
    ensures log[i].0 !in Forest(leaves, elems, log) && log[i].1 !in Forest(leaves, elems, log)
    ensures log[i].0 < elems + i && log[i].1 < elems + i && log[i].0 != log[i].1
    decreases |log|
  {
    hide Distinct, Mergeable, Merged;
    var k := |log| - 1;
    var f := Forest(leaves, elems, log[..k]);
    ForestShape(leaves, fc, elems, log[..k]);
    MergeableNodes(f, fc, log[k].0, log[k].1, elems + k);
    MergedShape(f, fc, log[k].0, log[k].1, elems + k);
    if i < k {
      assert log[..k][i] == log[i];
      Retired(leaves, fc, elems, log[..k], i);
    }
  }

  lemma MergeableNodes(f: multiset<nat>, fc: seq<nat>, n: nat, m: nat, p: nat)
    requires Mergeable(f, fc, n, m, p)
    ensures n in f && m in f
  {
  }

  /** Only the weights of nodes that exist matter. */
  lemma {:induction false} MergesFrame(leaves: multiset<nat>, fc: seq<nat>, fc': seq<nat>, elems: nat, log: Log)
    requires Merges(leaves, fc, elems, log) && |fc| == |fc'|
    requires forall x | 0 <= x < elems + |log| && x < |fc| :: fc'[x] == fc[x]
    ensures Merges(leaves, fc', elems, log)
    decreases |log|
  {
    hide Distinct, Mergeable, Forest;
    if log != [] {
      var k := |log| - 1;
      MergesFrame(leaves, fc, fc', elems, log[..k]);
      ForestShape(leaves, fc, elems, log[..k]);
      MergeableFrame(Forest(leaves, elems, log[..k]), fc, fc', log[k].0, log[k].1, elems + k);
    }
  }

  lemma MergeableFrame(f: multiset<nat>, fc: seq<nat>, fc': seq<nat>, n: nat, m: nat, p: nat)
    requires Mergeable(f, fc, n, m, p) && |fc| == |fc'|
    requires forall x | x in f :: x < p
    requires forall x | 0 <= x <= p && x < |fc| :: fc'[x] == fc[x]
    ensures Mergeable(f, fc', n, m, p)
  {
    assert n in f && m in f;
  }

  /** One more merge. */
  lemma {:induction false} MergesExtend(leaves: multiset<nat>, fc: seq<nat>, elems: nat, log: Log, n: nat, m: nat)
    requires Merges(leaves, fc, elems, log)
    requires Mergeable(Forest(leaves, elems, log), fc, n, m, elems + |log|)
    ensures Merges(leaves, fc, elems, log + [(n, m)])
    ensures Forest(leaves, elems, log + [(n, m)]) == Merged(Forest(leaves, elems, log), n, m, elems + |log|)
  {
    hide Mergeable, Merged;
    assert (log + [(n, m)])[..|log|] == log;
  }

  // ----- a lower bound for every code -----

  /** The weighted length of each node under the lengths `l`. */
  function Costs(fc: seq<nat>, l: seq<nat>): (w: seq<nat>)
    requires |l| == |fc|
    ensures |w| == |fc|
  {
    seq(|fc|, x requires 0 <= x < |fc| => fc[x] * l[x])
  }

  /** 2^-l[x] in units of 2^-k. */
  function Shares(l: seq<nat>, k: nat): (w: seq<nat>)
    ensures |w| == |l|
  {
    seq(|l|, x requires 0 <= x < |l| => if l[x] <= k then Pow2(k - l[x]) else 0)
  }

  /** The lengths `l` leave room for a prefix code of the nodes `f`. */
  ghost predicate Feasible(f: multiset<nat>, l: seq<nat>, k: nat)
  {
    && Within(f, l)
    && (forall x | x in f :: l[x] <= k)
    && MSum(f, Shares(l, k)) <= Pow2(k)
  }

  lemma Rearrange(f: nat, g: nat, s: nat, t: nat)
    requires f <= g && s <= t
    ensures f * t + g * s <= f * s + g * t
    ensures f < g && s < t ==> f * t + g * s < f * s + g * t
  {
    assert (g - f) * (t - s) >= 0;
    assert f < g && s < t ==> (g - f) * (t - s) > 0;
  }

  lemma {:induction false} CostsUpdate(fc: seq<nat>, l: seq<nat>, x: nat, v: nat)
    requires |l| == |fc| && x < |l|
    ensures Costs(fc, l[x := v]) == Costs(fc, l)[x := fc[x] * v]
  {
  }

  lemma {:induction false} SharesUpdate(l: seq<nat>, k: nat, x: nat, v: nat)
    requires x < |l| && v <= k
    ensures Shares(l[x := v], k) == Shares(l, k)[x := Pow2(k - v)]
  {
  }

  /** Giving the longer of two words to the lighter node does not cost more. */
  lemma {:induction false} Swap(f: multiset<nat>, fc: seq<nat>, l: seq<nat>, k: nat, a: nat, b: nat)
    requires Distinct(f) && Within(f, fc) && |l| == |fc| && Feasible(f, l, k)
    requires a in f && b in f && fc[a] <= fc[b] && l[a] <= l[b]
    ensures var l' := l[a := l[b]][b := l[a]];
            && Feasible(f, l', k)
            && MSum(f, Costs(fc, l')) <= MSum(f, Costs(fc, l))
            && (fc[a] < fc[b] && l[a] < l[b] ==> MSum(f, Costs(fc, l')) < MSum(f, Costs(fc, l)))
  {
    hide MSum, Costs, Shares, Distinct;
    var s, t := l[a], l[b];
    var l1 := l[a := t];
    var l2 := l1[b := s];
    CostsUpdate(fc, l, a, t);
    CostsUpdate(fc, l1, b, s);
    SharesUpdate(l, k, a, t);
    SharesUpdate(l1, k, b, s);
    if a != b {
      MSumUpdate(f, Shares(l, k), a, Pow2(k - t));
      MSumUpdate(f, Shares(l1, k), b, Pow2(k - s));
      assert Shares(l, k)[a] == Pow2(k - s) && Shares(l1, k)[b] ==
        Pow2(k - t) by { ShareAt(l, k, a); ShareAt(l1, k, b); }
      MSumUpdate(f, Costs(fc, l), a, fc[a] * t);
      MSumUpdate(f, Costs(fc, l1), b, fc[b] * s);
      CostAt(fc, l, a);
      CostAt(fc, l1, b);
      Rearrange(fc[a], fc[b], s, t);
    } else {
      assert l2 == l;
    }
  }

  lemma ShareAt(l: seq<nat>, k: nat, x: nat)
    requires x < |l| && l[x] <= k
    ensures Shares(l, k)[x] == Pow2(k - l[x])
  {
  }

  lemma CostAt(fc: seq<nat>, l: seq<nat>, x: nat)
    requires x < |l| == |fc|
    ensures Costs(fc, l)[x] == fc[x] * l[x]
  {
  }

  /** A node with the longest word. */
  lemma {:induction false} Longest(f: multiset<nat>, l: seq<nat>) returns (a: nat)
    requires |f| != 0 && Within(f, l)
    ensures a in f && forall x | x in f :: l[x] <= l[a]
    decreases |f|
  {
    a :| a in f;
    var rest := f - multiset{a};
    assert forall x | x in f :: x == a || x in rest;
    if |rest| != 0 {
      var b := Longest(rest, l);
      if l[a] < l[b] {
        a := b;
      }
    }
  }

  /** Words of at most `d` bits take a whole number of 2^-d shares. */
  lemma {:induction false} ShareMultiple(f: multiset<nat>, l: seq<nat>, k: nat, d: nat) returns (q: nat)
    requires Within(f, l) && d <= k && forall x | x in f :: l[x] <= d
    ensures MSum(f, Shares(l, k)) == Shl(q, k - d)
    decreases |f|
  {
    hide Shares, Shl, Pow2, MSum;
    if |f| == 0 {
      q := 0;
      ShlZero(k - d);
    } else {
      var x :| x in f;
      MSumRemove(f, Shares(l, k), x);
      ShareAt(l, k, x);
      var r := ShareMultiple(f - multiset{x}, l, k, d);
      q := Pow2(d - l[x]) + r;
      Pow2Shl(k - d, d - l[x]);
      ShlAdd(Pow2(d - l[x]), r, k - d);
    }
  }

  /** Below 2^k, a multiple of 2^(k-d) leaves room for one more share. */
  lemma {:induction false} RoomForOne(q: nat, k: nat, d: nat)
    requires d <= k && Shl(q, k - d) < Pow2(k)
    ensures Shl(q, k - d) + Pow2(k - d) <= Pow2(k)
  {
    hide Shl, Pow2;
    Pow2Shl(k - d, d);
    if q >= Pow2(d) {
      ShlMonotone(Pow2(d), q, k - d);
    }
    ShlMonotone(q, Pow2(d), k - d);
  }

  lemma {:induction false} JoinRoom(f: multiset<nat>, l: seq<nat>, k: nat, n: nat, m: nat)
    requires Feasible(f, l, k)
    requires n in f && m in f - multiset{n}
    requires l[m] <= l[n] && forall x | x in f - multiset{n} :: l[x] <= l[m]
    ensures MSum(f - multiset{n} - multiset{m}, Shares(l, k)) + 2 * Pow2(k - l[m]) <= Pow2(k)
    ensures l[m] >= 1
  {
    hide MSum, Shares, Shl;
    var d := l[m];
    var rest := f - multiset{n};
    var q := ShareMultiple(rest, l, k, d);
    MSumRemove(f, Shares(l, k), n);
    MSumRemove(rest, Shares(l, k), m);
    ShareAt(l, k, n);
    ShareAt(l, k, m);
    RoomForOne(q, k, d);
  }

  /** Joining the two longest words into their common prefix keeps the code feasible. */
  lemma {:induction false} JoinFeasible(f: multiset<nat>, l: seq<nat>, k: nat, n: nat, m: nat, p: nat)
    requires Distinct(f) && Feasible(f, l, k) && p < |l| && p !in f
    requires n in f && m in f - multiset{n}
    requires l[m] <= l[n] && forall x | x in f - multiset{n} :: l[x] <= l[m]
    ensures l[m] >= 1
    ensures Feasible(Merged(f, n, m, p), l[p := l[m] - 1], k)
  {
    hide MSum, Shares, Distinct;
    var d := l[m];
    var others := f - multiset{n} - multiset{m};
    JoinRoom(f, l, k, n, m);
    var l' := l[p := d - 1];
    SharesUpdate(l, k, p, d - 1);
    MSumCongruent(others, Shares(l, k), Shares(l', k));
    MSumInsert(others, Shares(l', k), p);
  }

  lemma JoinCost(fn: nat, fm: nat, ln: nat, lm: nat)
    requires 1 <= lm <= ln
    ensures (fn + fm) * (lm - 1) + (fn + fm) <= fn * ln + fm * lm
  {
    assert fn * lm <= fn * ln;
  }

  /** Any feasible lengths for the roots before a merge give feasible lengths after
      it that are cheaper by the weight of the new node. */
  lemma {:induction false} MergeStep(f: multiset<nat>, fc: seq<nat>, n: nat, m: nat, p: nat, l: seq<nat>, k: nat)
    returns (l': seq<nat>)
    requires Distinct(f) && Mergeable(f, fc, n, m, p) && |l| == |fc| && Feasible(f, l, k)
    ensures |l'| == |fc|
    ensures var f' := Merged(f, n, m, p);
            Feasible(f', l', k) && MSum(f', Costs(fc, l')) + fc[p] <= MSum(f, Costs(fc, l))
  {
    hide MSum, Costs, Shares, Distinct;
    var a := Longest(f, l);
    Swap(f, fc, l, k, n, a);
    var l1 := l[n := l[a]][a := l[n]];
    var rest := f - multiset{n};
    var b := Longest(rest, l1);
    assert forall x | x in f :: l1[x] <= l1[n];
    Swap(f, fc, l1, k, m, b);
    var l2 := l1[m := l1[b]][b := l1[m]];
    assert n !in rest by { DistinctRemoved(f, n); }
    assert l2[n] == l1[n];
    JoinFeasible(f, l2, k, n, m, p);
    l' := l2[p := l2[m] - 1];
    JoinCheaper(f, fc, n, m, p, l2);
  }

  lemma DistinctRemoved(f: multiset<nat>, n: nat)
    requires Distinct(f)
    ensures n !in f - multiset{n}
  {
  }

  lemma {:induction false} JoinCheaper(f: multiset<nat>, fc: seq<nat>, n: nat, m: nat, p: nat, l: seq<nat>)
    requires Mergeable(f, fc, n, m, p) && |l| == |fc| && 1 <= l[m] <= l[n]
    ensures var f' := Merged(f, n, m, p);
            Within(f', fc) && MSum(f', Costs(fc, l[p := l[m] - 1])) + fc[p] <= MSum(f, Costs(fc, l))
  {
    hide MSum, Costs;
    var l' := l[p := l[m] - 1];
    CostsUpdate(fc, l, p, l[m] - 1);
    MSumCongruent(f, Costs(fc, l), Costs(fc, l'));
    MSumMerge(f, n, m, p, Costs(fc, l'));
    CostAt(fc, l', n);
    CostAt(fc, l', m);
    CostAt(fc, l', p);
    JoinCost(fc[n], fc[m], l[n], l[m]);
  }

  /** The weights of the nodes that merges `i` and later create. */
  ghost function InternalWeight(fc: seq<nat>, elems: nat, i: nat, k: nat): (s: nat)
    requires i <= k && elems + k <= |fc|
    decreases k - i
  {
    if i == k then 0 else fc[elems + i] + InternalWeight(fc, elems, i + 1, k)
  }

  /** No feasible lengths cost less than the weights of all the merged nodes. */
  lemma {:induction false} LowerBound(leaves: multiset<nat>, fc: seq<nat>, elems: nat, log: Log, i: nat, l: seq<nat>,
                                      k: nat)
    requires Merges(leaves, fc, elems, log) && i <= |log| && elems + |log| <= |fc| && |l| == |fc|
    requires Feasible(Forest(leaves, elems, log[..i]), l, k)
    ensures Within(Forest(leaves, elems, log[..i]), fc)
    ensures MSum(Forest(leaves, elems, log[..i]), Costs(fc, l)) >= InternalWeight(fc, elems, i, |log|)
    decreases |log| - i
  {
    hide MSum, Costs, Shares, Distinct, Mergeable, Feasible, Forest, Merged;
    MergesPrefix(leaves, fc, elems, log, i);
    ForestShape(leaves, fc, elems, log[..i]);
    if i < |log| {
      ForestStep(leaves, elems, log, i);
      var l' := MergeStep(Forest(leaves, elems, log[..i]), fc, log[i].0, log[i].1, elems + i, l, k);
      LowerBound(leaves, fc, elems, log, i + 1, l', k);
    }
  }

  // ----- prefix codes are feasible (Kraft's inequality) -----

  /** Different nodes of `s` have words of which none is a prefix of the other. */
  ghost predicate PrefixCode(s: set<nat>, words: seq<BitString>)
  {
    && (forall x | x in s :: x < |words|)
    && forall x, y | x in s && y in s && x != y :: !(words[x] <= words[y])
  }

  function Lengths(words: seq<BitString>): (l: seq<nat>)
    ensures |l| == |words|
  {
    seq(|words|, x requires 0 <= x < |words| => |words[x]|)
  }

  ghost predicate SharePrefix(s: set<nat>, words: seq<BitString>, d: nat)
  {
    && (forall x | x in s :: x < |words| && d <= |words[x]|)
    && forall x, y | x in s && y in s :: words[x][..d] == words[y][..d]
  }

  /** No word is longer than `k`. */
  ghost predicate NoLonger(s: set<nat>, words: seq<BitString>, k: nat)
  {
    forall x | x in s :: x < |words| && |words[x]| <= k
  }

  lemma {:induction false} KraftFrom(s: set<nat>, words: seq<BitString>, k: nat, d: nat)
    requires PrefixCode(s, words) && SharePrefix(s, words, d) && d <= k && NoLonger(s, words, k)
    ensures Within(multiset(s), Lengths(words))
    ensures MSum(multiset(s), Shares(Lengths(words), k)) <= Pow2(k - d)
    decreases k - d
  {
    hide *;
    var split, s0, s1 := SplitCode(s, words, k, d);
    if split {
      KraftFrom(s0, words, k, d + 1);
      KraftFrom(s1, words, k, d + 1);
      PowerNext(k, d);
      var l, w := Lengths(words), Shares(Lengths(words), k);
      WithinSame(multiset(s0), l, w);
      WithinSame(multiset(s1), l, w);
      MSumUnion(multiset(s0), multiset(s1), w);
      WithinSame(multiset(s), w, l);
    }
  }

  lemma WithinSame(ms: multiset<nat>, v: seq<nat>, w: seq<nat>)
    requires Within(ms, v) && |v| == |w|
    ensures Within(ms, w)
  {
  }

  lemma EmptySum(ms: multiset<nat>, l: seq<nat>, k: nat)
    requires ms == multiset{}
    ensures Within(ms, l) && MSum(ms, Shares(l, k)) == 0
  {
  }

  lemma PowerNext(k: nat, d: nat)
    ensures d < k ==> Pow2(k - d) == 2 * Pow2(k - (d + 1))
  {
  }

  /** A word as long as the common prefix is the only one. */
  lemma OneWord(s: set<nat>, words: seq<BitString>, k: nat, d: nat, x: nat)
    requires PrefixCode(s, words) && SharePrefix(s, words, d) && x in s && |words[x]| == d <= k
    ensures Within(multiset(s), Lengths(words))
    ensures MSum(multiset(s), Shares(Lengths(words), k)) == Pow2(k - d)
  {
    hide MSum, Shares;
    forall y | y in s ensures y == x {
      assert words[y][..d] == words[x][..d] == words[x];
    }
    assert s == {x} && multiset(s) == multiset{x};
    MSumRemove(multiset{x}, Shares(Lengths(words), k), x);
    ShareAt(Lengths(words), k, x);
  }

  /** The words that go on with a 0 and those that go on with a 1, unless there is nothing to split. */
  lemma SplitCode(s: set<nat>, words: seq<BitString>, k: nat, d: nat) returns (split: bool, s0: set<nat>, s1: set<nat>)
    requires PrefixCode(s, words) && SharePrefix(s, words, d) && d <= k && NoLonger(s, words, k)
    ensures !split ==>
      Within(multiset(s), Lengths(words)) && MSum(multiset(s), Shares(Lengths(words), k)) <= Pow2(k - d)
    ensures split ==>
      && d < k && multiset(s) == multiset(s0) + multiset(s1)
      && PrefixCode(s0, words) && SharePrefix(s0, words, d + 1) && NoLonger(s0, words, k)
      && PrefixCode(s1, words) && SharePrefix(s1, words, d + 1) && NoLonger(s1, words, k)
  {
    hide MSum, Shares, Lengths, Within;
    split, s0, s1 := false, {}, {};
    if x :| x in s && |words[x]| == d {
      OneWord(s, words, k, d, x);
    } else if s == {} {
      EmptySum(multiset(s), Lengths(words), k);
    } else {
      split := true;
      var y :| y in s;
      assert d < |words[y]| <= k;
      s0 := set x | x in s && !words[x][d];
      s1 := s - s0;
      NextBit(s0, words, d, false);
      NextBit(s1, words, d, true);
    }
  }

  lemma NextBit(s: set<nat>, words: seq<BitString>, d: nat, b: bool)
    requires SharePrefix(s, words, d) && forall x | x in s :: d < |words[x]| && words[x][d] == b
    ensures SharePrefix(s, words, d + 1)
  {
    forall x, y | x in s && y in s ensures words[x][..d + 1] == words[y][..d + 1] {
      assert words[x][..d + 1] == words[x][..d] + [b];
      assert words[y][..d + 1] == words[y][..d] + [b];
    }
  }

  lemma {:induction false} LongestWord(s: set<nat>, words: seq<BitString>) returns (k: nat)
    requires forall x | x in s :: x < |words|
    ensures forall x | x in s :: |words[x]| <= k
    decreases |s|
  {
    if s == {} {
      k := 0;
    } else {
      var x :| x in s;
      k := LongestWord(s - {x}, words);
      if k < |words[x]| {
        k := |words[x]|;
      }
    }
  }

  /** No prefix code for the leaves costs less than the weights of the merged nodes. */
  lemma {:induction false} PrefixCodeBound(leaves: multiset<nat>, fc: seq<nat>, elems: nat, log: Log,
                                           words: seq<BitString>)
    requires Merges(leaves, fc, elems, log) && elems + |log| <= |fc| && |words| == |fc|
    requires PrefixCode((set x | x in leaves), words)
    ensures Within(leaves, fc)
    ensures MSum(leaves, Costs(fc, Lengths(words))) >= InternalWeight(fc, elems, 0, |log|)
  {
    hide MSum, Costs, Shares, Lengths, Mergeable, Merged, Distinct;
    var s := set x | x in leaves;
    assert log[..0] == [];
    MergesPrefix(leaves, fc, elems, log, 0);
    DistinctToSet(leaves, s);
    var k := LongestWord(s, words);
    KraftFrom(s, words, k, 0);
    LengthsAt(words);
    LowerBound(leaves, fc, elems, log, 0, Lengths(words), k);
  }

  lemma DistinctToSet(ms: multiset<nat>, s: set<nat>)
    requires Distinct(ms) && s == set x | x in ms
    ensures multiset(s) == ms
  {
  }

  lemma LengthsAt(words: seq<BitString>)
    ensures forall x | 0 <= x < |words| :: Lengths(words)[x] == |words[x]|
  {
  }
}
