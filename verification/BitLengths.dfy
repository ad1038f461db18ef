/** gen_bitlen's first pass: walking down the Huffman tree to give every node its
    length, cut off at the maximum. */
module BitLengths {
  import opened Bits
  import opened Sums
  import opened Huffman

  /** What the pass is given: frequencies, the longest length allowed, the last
      symbol in use, and for each symbol its extra bits and its static length. */
  datatype Context = Context(fc: seq<nat>, maxLength: nat, maxCode: nat, extra: seq<nat>, fixed: seq<nat>)

  /** What the pass updates: fathers or lengths, counts per length, and totals. */
  datatype Pass = Pass(dl: seq<nat>, count: seq<nat>, overflow: nat, opt: nat, fixed: nat)

  ghost predicate ValidContext(c: Context)
  {
    && c.maxCode < |c.fc|
    && |c.extra| == |c.fixed| == c.maxCode + 1
    && 1 <= c.maxLength
  }

  /** The node has a father, whose length is known. */
  ghost predicate CanVisit(c: Context, a: Pass, n: nat)
  {
    && ValidContext(c)
    && |a.dl| == |c.fc| && |a.count| == c.maxLength + 1
    && n < |a.dl| && a.dl[n] < |a.dl|
  }

  /** The length of a son of a node of length `d`. */
  function Below(c: Context, d: nat): (b: nat)
    ensures b <= c.maxLength || b == d + 1
  {
    if d + 1 > c.maxLength then c.maxLength else d + 1
  }

  /** One round of the loop. */
  ghost function Visit(c: Context, a: Pass, n: nat): (r: Pass)
    requires CanVisit(c, a, n)
    ensures |r.dl| == |a.dl| && |r.count| == |a.count|
  {
    var d := a.dl[a.dl[n]];
    var bits := Below(c, d);
    var over := if d + 1 > c.maxLength then 1 else 0;
    if n > c.maxCode then a.(dl := a.dl[n := bits], overflow := a.overflow + over)
    else Pass(a.dl[n := bits], a.count[bits := a.count[bits] + 1], a.overflow + over,
              a.opt + c.fc[n] * (bits + c.extra[n]), a.fixed + c.fc[n] * (c.fixed[n] + c.extra[n]))
  }

  // ----- the totals over the current roots -----

  /** Which nodes are symbols of length `b`. */
  function LeafAt(c: Context, dl: seq<nat>, b: nat): (w: seq<nat>)
    ensures |w| == |dl|
  {
    seq(|dl|, x requires 0 <= x < |dl| => if x <= c.maxCode && dl[x] == b then 1 else 0)
  }

  /** Which nodes have the maximum length. */
  function AtMax(c: Context, dl: seq<nat>): (w: seq<nat>)
    ensures |w| == |dl|
  {
    seq(|dl|, x requires 0 <= x < |dl| => if dl[x] == c.maxLength then 1 else 0)
  }

  /** Coded bits per symbol. */
  ghost function OptBits(c: Context, dl: seq<nat>): (w: seq<nat>)
    requires ValidContext(c) && |dl| == |c.fc|
    ensures |w| == |dl|
  {
    seq(|dl|, x requires 0 <= x < |dl| => if x <= c.maxCode then c.fc[x] * (dl[x] + c.extra[x]) else 0)
  }

  ghost function StaticBits(c: Context): (w: seq<nat>)
    requires ValidContext(c)
    ensures |w| == |c.fc|
  {
    seq(|c.fc|, x requires 0 <= x < |c.fc| => if x <= c.maxCode then c.fc[x] * (c.fixed[x] + c.extra[x]) else 0)
  }

  /** The totals the pass has reached when the lengths of the roots `f` are known. */
  ghost predicate Totals(c: Context, a: Pass, f: multiset<nat>)
  {
    && ValidContext(c) && |a.dl| == |c.fc| && |a.count| == c.maxLength + 1 && Within(f, a.dl)
    && (forall x | x in f :: a.dl[x] <= c.maxLength)
    && (forall b | 0 <= b <= c.maxLength :: a.count[b] == MSum(f, LeafAt(c, a.dl, b)))
    && a.opt == MSum(f, OptBits(c, a.dl))
    && a.fixed == MSum(f, StaticBits(c))
  }

  /** The Kraft sum exceeds 1 by half the overflow, in units of 2^-maxLength; and
      there are more nodes of the maximum length than that. */
  ghost predicate Excess(c: Context, a: Pass, f: multiset<nat>)
  {
    && |a.dl| == |c.fc| && Within(f, a.dl)
    && 2 * MSum(f, Shares(a.dl, c.maxLength)) == 2 * Pow2(c.maxLength) + a.overflow
    && var atMax := MSum(f, AtMax(c, a.dl));
       (atMax == 0 && a.overflow == 0) || 2 * atMax >= a.overflow + 4
  }

  /** While nothing overflows, the lengths cost as much as the merged nodes weigh. */
  ghost predicate Exact(c: Context, a: Pass, f: multiset<nat>, weight: nat)
  {
    && |a.dl| == |c.fc| && Within(f, c.fc)
    && (a.overflow == 0 ==> MSum(f, Costs(c.fc, a.dl)) == weight)
  }

  /** What undoing one merge does to any sum over the roots. */
  lemma {:induction false} Unmerge(f: multiset<nat>, n: nat, m: nat, p: nat, w: seq<nat>, w': seq<nat>)
    requires Distinct(f) && n in f && m in f - multiset{n} && p !in f && p < |w|
    requires |w| == |w'| && Within(f, w) && forall x | 0 <= x < |w| && x != n && x != m :: w'[x] == w[x]
    ensures Within(Merged(f, n, m, p), w)
    ensures MSum(f, w') + w[p] == MSum(Merged(f, n, m, p), w) + w'[n] + w'[m]
  {
    MSumMerge(f, n, m, p, w');
    MSumCongruent(Merged(f, n, m, p), w, w');
  }

  /** Both sons of `p` visited. */
  ghost predicate Unmerging(c: Context, a: Pass, r: Pass, f: multiset<nat>, n: nat, m: nat, p: nat)
  {
    && Distinct(f) && Mergeable(f, c.fc, n, m, p)
    && CanVisit(c, a, m) && a.dl[m] == p
    && CanVisit(c, Visit(c, a, m), n) && a.dl[n] == p
    && p > c.maxCode && a.dl[p] <= c.maxLength
    && r == Visit(c, Visit(c, a, m), n)
  }

  lemma {:induction false} UnmergedLengths(c: Context, a: Pass, r: Pass, f: multiset<nat>, n: nat, m: nat, p: nat)
    requires Unmerging(c, a, r, f, n, m, p)
    ensures n != m && p != n && p != m && n < |c.fc| && m < |c.fc| && p < |c.fc| && m in f
    ensures |r.dl| == |a.dl| == |c.fc|
    ensures r.dl[n] == r.dl[m] == Below(c, a.dl[p])
    ensures forall x | 0 <= x < |a.dl| && x != n && x != m :: r.dl[x] == a.dl[x]
    ensures r.overflow == a.overflow + if a.dl[p] + 1 > c.maxLength then 2 else 0
  {
    assert m in f - multiset{n};
    assert (f - multiset{n})[n] == 0;
  }

  lemma {:induction false} UnmergeCounts(c: Context, a: Pass, r: Pass, f: multiset<nat>, n: nat, m: nat, p: nat, b: nat)
    requires Unmerging(c, a, r, f, n, m, p) && b <= c.maxLength && Totals(c, a, Merged(f, n, m, p))
    ensures r.count[b] == MSum(f, LeafAt(c, r.dl, b))
  {
    hide MSum, Distinct, Merged;
    UnmergedLengths(c, a, r, f, n, m, p);
    var w, w' := LeafAt(c, a.dl, b), LeafAt(c, r.dl, b);
    Unmerge(f, n, m, p, w, w');
    assert w[p] == 0;
  }

  lemma {:induction false} UnmergeBits(c: Context, a: Pass, r: Pass, f: multiset<nat>, n: nat, m: nat, p: nat)
    requires Unmerging(c, a, r, f, n, m, p) && Totals(c, a, Merged(f, n, m, p))
    ensures r.opt == MSum(f, OptBits(c, r.dl)) && r.fixed == MSum(f, StaticBits(c))
  {
    hide MSum, Distinct, Merged;
    UnmergedLengths(c, a, r, f, n, m, p);
    Unmerge(f, n, m, p, OptBits(c, a.dl), OptBits(c, r.dl));
    Unmerge(f, n, m, p, StaticBits(c), StaticBits(c));
  }

  lemma {:induction false} UnmergeExcess(c: Context, a: Pass, r: Pass, f: multiset<nat>, n: nat, m: nat, p: nat)
    requires Unmerging(c, a, r, f, n, m, p) && Excess(c, a, Merged(f, n, m, p))
    ensures Excess(c, r, f)
  {
    hide MSum, Distinct, Shares, AtMax, Merged;
    UnmergedLengths(c, a, r, f, n, m, p);
    var k := c.maxLength;
    SharesUnmerge(c, a, r, f, n, m, p);
    MaximaUnmerge(c, a, r, f, n, m, p);
    if a.dl[p] < k {
      assert Pow2(k - a.dl[p]) == 2 * Pow2(k - a.dl[p] - 1);
    }
  }

  /** The shares of two sons make up the share of their father, unless they have to stay as long as it is. */
  lemma {:induction false} SharesUnmerge(c: Context, a: Pass, r: Pass, f: multiset<nat>, n: nat, m: nat, p: nat)
    requires Unmerging(c, a, r, f, n, m, p)
    ensures r.dl[n] <= c.maxLength && Within(f, Shares(r.dl, c.maxLength))
      && Within(Merged(f, n, m, p), Shares(a.dl, c.maxLength))
    ensures MSum(f, Shares(r.dl, c.maxLength)) + Pow2(c.maxLength - a.dl[p])
         == MSum(Merged(f, n, m, p), Shares(a.dl, c.maxLength)) + 2 * Pow2(c.maxLength - r.dl[n])
  {
    hide MSum, Distinct, Merged;
    var k := c.maxLength;
    UnmergedLengths(c, a, r, f, n, m, p);
    Unmerge(f, n, m, p, Shares(a.dl, k), Shares(r.dl, k));
    hide Shares;
    ShareAt(a.dl, k, p);
    ShareAt(r.dl, k, n);
    ShareAt(r.dl, k, m);
  }

  lemma {:induction false} MaximaUnmerge(c: Context, a: Pass, r: Pass, f: multiset<nat>, n: nat, m: nat, p: nat)
    requires Unmerging(c, a, r, f, n, m, p)
    ensures Within(f, AtMax(c, r.dl)) && Within(Merged(f, n, m, p), AtMax(c, a.dl))
    ensures MSum(f, AtMax(c, r.dl)) + (if a.dl[p] == c.maxLength then 1 else 0)
         == MSum(Merged(f, n, m, p), AtMax(c, a.dl)) + if r.dl[n] == c.maxLength then 2 else 0
    ensures a.dl[p] == c.maxLength ==> MSum(Merged(f, n, m, p), AtMax(c, a.dl)) >= 1
  {
    hide MSum, Distinct;
    UnmergedLengths(c, a, r, f, n, m, p);
    Unmerge(f, n, m, p, AtMax(c, a.dl), AtMax(c, r.dl));
    if a.dl[p] == c.maxLength {
      MSumRemove(Merged(f, n, m, p), AtMax(c, a.dl), p);
    }
  }

  lemma SonsCost(fn: nat, fm: nat, fp: nat, d: nat)
    requires fp == fn + fm
    ensures fn * (d + 1) + fm * (d + 1) == fp * d + fp
  {
  }

  lemma {:induction false} UnmergeCost(f: multiset<nat>, fc: seq<nat>, n: nat, m: nat, p: nat, dl: seq<nat>,
                                       dl': seq<nat>)
    requires Distinct(f) && Mergeable(f, fc, n, m, p) && |dl| == |dl'| == |fc| && n != m
    requires forall x | 0 <= x < |dl| && x != n && x != m :: dl'[x] == dl[x]
    requires dl'[n] == dl'[m] == dl[p] + 1
    ensures Within(Merged(f, n, m, p), fc)
    ensures MSum(f, Costs(fc, dl')) == MSum(Merged(f, n, m, p), Costs(fc, dl)) + fc[p]
  {
    hide MSum, Distinct, Costs, Merged;
    var w, w' := Costs(fc, dl), Costs(fc, dl');
    forall x | 0 <= x < |fc| ensures w[x] == fc[x] * dl[x] && w'[x] == fc[x] * dl'[x] {
      CostAt(fc, dl, x);
      CostAt(fc, dl', x);
    }
    Unmerge(f, n, m, p, w, w');
    SonsCost(fc[n], fc[m], fc[p], dl[p]);
  }

  lemma {:induction false} UnmergeExact(c: Context, a: Pass, r: Pass, f: multiset<nat>, n: nat, m: nat, p: nat,
                                        weight: nat)
    requires Unmerging(c, a, r, f, n, m, p) && Exact(c, a, Merged(f, n, m, p), weight)
    ensures Exact(c, r, f, weight + c.fc[p])
  {
    hide MSum, Distinct, Costs, Merged, Visit, CanVisit;
    UnmergedLengths(c, a, r, f, n, m, p);
    if r.overflow == 0 {
      UnmergeCost(f, c.fc, n, m, p, a.dl, r.dl);
    }
  }

  // ----- the whole pass -----

  /** The nodes in the order the pass visits them, down to merge `k`. */
  ghost function Descent(log: Log, k: nat): (s: seq<nat>)
    requires k <= |log|
    ensures |s| == 2 * (|log| - k)
    decreases |log| - k
  {
    if k == |log| then [] else Descent(log, k + 1) + [log[k].1, log[k].0]
  }

  ghost function VisitAll(c: Context, a: Pass, s: seq<nat>): (r: Pass)
  {
    if s == [] then a
    else
      var before := VisitAll(c, a, s[..|s| - 1]);
      if CanVisit(c, before, s[|s| - 1]) then Visit(c, before, s[|s| - 1]) else before
  }

  /** The pass has undone the merges from `k` on. */
  ghost predicate Reached(c: Context, a: Pass, leaves: multiset<nat>, elems: nat, log: Log, k: nat)
  {
    && k <= |log| && elems + |log| <= |c.fc|
    && var f := Forest(leaves, elems, log[..k]);
    && Totals(c, a, f) && Excess(c, a, f)
    && Exact(c, a, f, InternalWeight(c.fc, elems, k, |log|))
    && (forall x | x in f && x != elems + |log| - 1 :: 1 <= a.dl[x])
    && (forall i | 0 <= i < k ::
          log[i].0 < |a.dl| && log[i].1 < |a.dl| && a.dl[log[i].0] == a.dl[log[i].1] == elems + i)
  }

  /** Only the root has a length, and nothing has been counted. */
  ghost predicate Untouched(c: Context, a: Pass, root: nat)
  {
    && ValidContext(c) && |a.dl| == |c.fc| && root < |a.dl| && a.dl[root] == 0 && root > c.maxCode
    && |a.count| == c.maxLength + 1 && (forall b | 0 <= b <= c.maxLength :: a.count[b] == 0)
    && a.overflow == 0 && a.opt == 0 && a.fixed == 0
  }

  lemma {:induction false} ReachedStart(c: Context, a: Pass, leaves: multiset<nat>, elems: nat, log: Log)
    requires elems + |log| <= |c.fc| && log != []
    requires Forest(leaves, elems, log) == multiset{elems + |log| - 1} && Untouched(c, a, elems + |log| - 1)
    requires forall i | 0 <= i < |log| ::
               log[i].0 < |a.dl| && log[i].1 < |a.dl| && a.dl[log[i].0] == a.dl[log[i].1] == elems + i
    ensures Reached(c, a, leaves, elems, log, |log|)
  {
    hide Forest;
    var root := elems + |log| - 1;
    assert log[..|log|] == log;
    forall w: seq<nat> | |w| == |a.dl| ensures MSum(multiset{root}, w) == w[root] {
      MSumRemove(multiset{root}, w, root);
    }
    assert Within(multiset{root}, a.dl);
  }

  lemma {:induction false} UnmergeTotals(c: Context, a: Pass, r: Pass, f: multiset<nat>, n: nat, m: nat, p: nat)
    requires Unmerging(c, a, r, f, n, m, p) && Totals(c, a, Merged(f, n, m, p))
    ensures Totals(c, r, f)
  {
    hide MSum, Distinct, LeafAt, OptBits, StaticBits;
    UnmergedLengths(c, a, r, f, n, m, p);
    UnmergeBits(c, a, r, f, n, m, p);
    forall b | 0 <= b <= c.maxLength ensures r.count[b] == MSum(f, LeafAt(c, r.dl, b)) {
      UnmergeCounts(c, a, r, f, n, m, p, b);
    }
    forall x | x in f ensures r.dl[x] <= c.maxLength {
      if x != n && x != m {
        assert x in Merged(f, n, m, p);
      }
    }
  }

  /** The tree that the pass walks. */
  ghost predicate Walkable(c: Context, leaves: multiset<nat>, elems: nat, log: Log)
  {
    && ValidContext(c) && elems + |log| <= |c.fc| && c.maxCode < elems
    && Merges(leaves, c.fc, elems, log)
  }

  lemma {:induction false} CanUnmerge(c: Context, a: Pass, leaves: multiset<nat>, elems: nat, log: Log, k: nat)
    requires Walkable(c, leaves, elems, log) && k < |log| && Reached(c, a, leaves, elems, log, k + 1)
    ensures CanVisit(c, a, log[k].1) && CanVisit(c, Visit(c, a, log[k].1), log[k].0)
    ensures Unmerging(c, a, Visit(c, Visit(c, a, log[k].1), log[k].0), Forest(leaves, elems, log[..k]), log[k].0,
      log[k].1, elems + k)
    ensures Forest(leaves, elems, log[..k + 1]) ==
      Merged(Forest(leaves, elems, log[..k]), log[k].0, log[k].1, elems + k)
  {
    hide MSum, Distinct, Merged, Forest, Merges, Excess, Exact;
    MergesPrefix(leaves, c.fc, elems, log, k);
    ForestShape(leaves, c.fc, elems, log[..k]);
    ForestStep(leaves, elems, log, k);
    MergedShape(Forest(leaves, elems, log[..k]), c.fc, log[k].0, log[k].1, elems + k);
  }

  lemma {:induction false} ReachedStep(c: Context, a: Pass, leaves: multiset<nat>, elems: nat, log: Log, k: nat)
    requires Walkable(c, leaves, elems, log) && k < |log| && Reached(c, a, leaves, elems, log, k + 1)
    ensures CanVisit(c, a, log[k].1) && CanVisit(c, Visit(c, a, log[k].1), log[k].0)
    ensures Reached(c, Visit(c, Visit(c, a, log[k].1), log[k].0), leaves, elems, log, k)
  {
    hide MSum, Distinct, Merged, Forest, Merges, Excess, Exact, Totals, Visit, CanVisit, Unmerging;
    CanUnmerge(c, a, leaves, elems, log, k);
    var n, m, p, f := log[k].0, log[k].1, elems + k, Forest(leaves, elems, log[..k]);
    var r := Visit(c, Visit(c, a, m), n);
    UnmergeTotals(c, a, r, f, n, m, p);
    UnmergeExcess(c, a, r, f, n, m, p);
    UnmergeExact(c, a, r, f, n, m, p, InternalWeight(c.fc, elems, k + 1, |log|));
    UnmergedLengths(c, a, r, f, n, m, p);
    UnmergePositive(c, a, r, f, n, m, p, elems + |log| - 1);
    forall i | 0 <= i < k ensures log[i].0 != n && log[i].0 != m && log[i].1 != n && log[i].1 != m {
      OperandsDiffer(leaves, c.fc, elems, log, i, k);
    }
  }

  lemma {:induction false} UnmergePositive(c: Context, a: Pass, r: Pass, f: multiset<nat>, n: nat, m: nat, p: nat,
                                           root: nat)
    requires Unmerging(c, a, r, f, n, m, p) && Totals(c, a, Merged(f, n, m, p))
    requires forall x | x in Merged(f, n, m, p) && x != root :: 1 <= a.dl[x]
    ensures forall x | x in f && x != root :: x < |r.dl| && 1 <= r.dl[x]
  {
    UnmergedLengths(c, a, r, f, n, m, p);
    forall x | x in f && x != root ensures x < |r.dl| && 1 <= r.dl[x] {
      if x != n && x != m {
        assert x in Merged(f, n, m, p);
      }
    }
  }

  /** Different merges join different nodes. */
  lemma {:induction false} OperandsDiffer(leaves: multiset<nat>, fc: seq<nat>, elems: nat, log: Log, i: nat, k: nat)
    requires Merges(leaves, fc, elems, log) && i < k < |log|
    ensures log[i].0 != log[k].0 && log[i].0 != log[k].1 && log[i].1 != log[k].0 && log[i].1 != log[k].1
  {
    hide Distinct, Merged, Forest, Merges, Mergeable;
    MergesPrefix(leaves, fc, elems, log, k);
    MergeableNodes(Forest(leaves, elems, log[..k]), fc, log[k].0, log[k].1, elems + k);
    assert log[..k][i] == log[i];
    Retired(leaves, fc, elems, log[..k], i);
  }

  /** The pass reaches the leaves: what it has then holds of the symbols. */
  lemma {:induction false} ReachedAll(c: Context, a: Pass, leaves: multiset<nat>, elems: nat, log: Log, k: nat)
    requires Walkable(c, leaves, elems, log) && k <= |log| && Reached(c, a, leaves, elems, log, |log|)
    ensures Reached(c, VisitAll(c, a, Descent(log, k)), leaves, elems, log, k)
    decreases |log| - k
  {
    hide Reached, Visit, CanVisit, Walkable;
    if k < |log| {
      ReachedAll(c, a, leaves, elems, log, k + 1);
      var s := Descent(log, k);
      var at := VisitAll(c, a, Descent(log, k + 1));
      ReachedStep(c, at, leaves, elems, log, k);
      assert s[..|s| - 1] == Descent(log, k + 1) + [log[k].1];
      assert s[..|s| - 1][..|s| - 2] == Descent(log, k + 1);
    }
  }

  lemma {:induction false} DescentPrefix(log: Log, k: nat, j: nat)
    requires k <= j <= |log|
    ensures Descent(log, j) == Descent(log, k)[..2 * (|log| - j)]
    decreases j - k
  {
    if k < j {
      DescentPrefix(log, k + 1, j);
      assert Descent(log, k)[..2 * (|log| - j)] == Descent(log, k + 1)[..2 * (|log| - j)];
    } else {
      assert Descent(log, k)[..2 * (|log| - j)] == Descent(log, k);
    }
  }

  /** At every point of the pass the next node can be visited. */
  lemma {:induction false} NextVisit(c: Context, a: Pass, leaves: multiset<nat>, elems: nat, log: Log, j: nat)
    requires Walkable(c, leaves, elems, log) && j < 2 * |log| && Reached(c, a, leaves, elems, log, |log|)
    ensures var s := Descent(log, 0);
            CanVisit(c, VisitAll(c, a, s[..j]), s[j])
              && VisitAll(c, a, s[..j + 1]) == Visit(c, VisitAll(c, a, s[..j]), s[j])
  {
    hide Reached, Visit, CanVisit, Walkable;
    var s := Descent(log, 0);
    var k := |log| - j / 2 - 1;
    ReachedAll(c, a, leaves, elems, log, k + 1);
    DescentPrefix(log, 0, k + 1);
    DescentPrefix(log, 0, k);
    var t := s[..2 * (j / 2)];
    ReachedStep(c, VisitAll(c, a, t), leaves, elems, log, k);
    assert s[..2 * (j / 2) + 2] == t + [log[k].1, log[k].0];
    assert s[2 * (j / 2)] == log[k].1 && s[2 * (j / 2) + 1] == log[k].0;
    assert s[..j + 1][..j] == s[..j];
    if j % 2 == 1 {
      assert s[..j][..j - 1] == t;
    }
  }
}
