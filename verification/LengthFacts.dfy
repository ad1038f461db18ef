/** From sums over the leaves of a tree to facts about the lengths of a code. */
module LengthFacts {
  import opened Bits
  import opened Canonical
  import opened Sums
  import opened Huffman
  import opened LengthLimit

  lemma {:induction false} KraftToSnoc(lens: seq<nat>, l: nat, m: nat, b: nat)
    requires b <= m
    ensures KraftTo(lens + [l], m, b) == KraftTo(lens, m, b) + if 1 <= l <= b then Pow2(m - l) else 0
  {
    hide Shl, Pow2, Count;
    if b > 0 {
      KraftToSnoc(lens, l, m, b - 1);
      CountSnoc(lens, l, b);
      if l == b {
        ShlPlus(Count(lens, b), m - b);
      }
    }
  }

  lemma CountSnoc(lens: seq<nat>, l: nat, b: nat)
    ensures Count(lens + [l], b) == Count(lens, b) + if l == b then 1 else 0
  {
    assert (lens + [l])[..|lens|] == lens;
  }

  /** How many lengths from 1 to `m` there are. */
  ghost function Words(lens: seq<nat>, m: nat): (n: nat)
  {
    if m == 0 then 0 else Words(lens, m - 1) + Count(lens, m)
  }

  lemma {:induction false} WordsSnoc(lens: seq<nat>, l: nat, m: nat)
    ensures Words(lens + [l], m) == Words(lens, m) + if 1 <= l <= m then 1 else 0
  {
    hide Count;
    if m > 0 {
      WordsSnoc(lens, l, m - 1);
      CountSnoc(lens, l, m);
    }
  }

  /** Exactly the symbols that occur have a length. */
  ghost predicate Matching(fc: seq<nat>, dl: seq<nat>, n: nat, m: nat)
  {
    && n <= |fc| && n <= |dl|
    && forall x | 0 <= x < n :: (fc[x] > 0 <==> dl[x] > 0) && dl[x] <= m
  }

  /** The last symbol, and the ones before it. */
  lemma UsedNext(fc: seq<nat>, dl: seq<nat>, n: nat, m: nat, w: seq<nat>)
    requires Matching(fc, dl, n, m) && 0 < n <= |w|
    ensures Matching(fc, dl, n - 1, m) && (fc[n - 1] > 0 <==> dl[n - 1] > 0) && dl[n - 1] <= m
    ensures Used(fc, n) == if fc[n - 1] > 0 then Used(fc, n - 1) + multiset{n - 1} else Used(fc, n - 1)
    ensures Within(Used(fc, n - 1), w)
    ensures dl[..n] == dl[..n - 1] + [dl[n - 1]]
  {
    hide Distinct;
  }

  lemma UsedNone(fc: seq<nat>, w: seq<nat>)
    ensures Within(Used(fc, 0), w) && MSum(Used(fc, 0), w) == 0
  {
  }

  lemma {:induction false} UsedKraft(fc: seq<nat>, dl: seq<nat>, n: nat, m: nat)
    requires Matching(fc, dl, n, m)
    ensures MSum(Used(fc, n), Shares(dl, m)) == KraftTo(dl[..n], m, m)
  {
    hide MSum, KraftTo, Distinct, Shares, Used, Within;
    if n == 0 {
      KraftNone(m, m);
      UsedNone(fc, Shares(dl, m));
      assert dl[..0] == [];
    } else {
      UsedNext(fc, dl, n, m, Shares(dl, m));
      UsedKraft(fc, dl, n - 1, m);
      KraftToSnoc(dl[..n - 1], dl[n - 1], m, m);
      if fc[n - 1] > 0 {
        MSumInsert(Used(fc, n - 1), Shares(dl, m), n - 1);
        ShareAt(dl, m, n - 1);
      }
    }
  }

  lemma {:induction false} KraftNone(m: nat, b: nat)
    requires b <= m
    ensures KraftTo([], m, b) == 0
  {
    if b > 0 {
      KraftNone(m, b - 1);
      ShlZero(m - b);
    }
  }

  /** `w` marks the symbols of length `b`. */
  ghost predicate Marks(w: seq<nat>, dl: seq<nat>, n: nat, b: nat)
  {
    n <= |w| && n <= |dl| && forall x | 0 <= x < n :: w[x] == if dl[x] == b then 1 else 0
  }

  lemma {:induction false} UsedCount(fc: seq<nat>, dl: seq<nat>, n: nat, m: nat, b: nat, w: seq<nat>)
    requires Matching(fc, dl, n, m) && 1 <= b && Marks(w, dl, n, b)
    ensures MSum(Used(fc, n), w) == Count(dl[..n], b)
  {
    hide MSum, Distinct, Count, Used, Within;
    if n == 0 {
      UsedNone(fc, w);
      assert dl[..0] == [] && Count([], b) == 0 by { NoCount(b); }
    } else {
      UsedNext(fc, dl, n, m, w);
      UsedCount(fc, dl, n - 1, m, b, w);
      CountSnoc(dl[..n - 1], dl[n - 1], b);
      if fc[n - 1] > 0 {
        MSumInsert(Used(fc, n - 1), w, n - 1);
      }
    }
  }

  lemma NoCount(b: nat)
    ensures Count([], b) == 0
  {
  }

  lemma {:induction false} UsedWords(fc: seq<nat>, dl: seq<nat>, n: nat, m: nat)
    requires Matching(fc, dl, n, m)
    ensures |Used(fc, n)| == Words(dl[..n], m)
  {
    hide Distinct, Words;
    if n == 0 {
      assert dl[..0] == [] && Words([], m) == 0 by { NoWords(m); }
    } else {
      UsedWords(fc, dl, n - 1, m);
      assert dl[..n] == dl[..n - 1] + [dl[n - 1]];
      WordsSnoc(dl[..n - 1], dl[n - 1], m);
    }
  }

  lemma {:induction false} NoWords(m: nat)
    ensures Words([], m) == 0
  {
    if m > 0 {
      NoWords(m - 1);
    }
  }

  /** `count` counts the lengths `lens`. */
  ghost predicate Counts(count: seq<nat>, lens: seq<nat>, m: nat)
  {
    m < |count| && forall b | 1 <= b <= m :: count[b] == Count(lens, b)
  }

  lemma {:induction false} CountsKraft(count: seq<nat>, lens: seq<nat>, m: nat, b: nat)
    requires Counts(count, lens, m) && b <= m
    ensures CountKraft(count, m, b) == KraftTo(lens, m, b)
    ensures CountTo(count, b) == Words(lens, b)
  {
    if b > 0 {
      CountsKraft(count, lens, m, b - 1);
    }
  }

  lemma {:induction false} UsedTrim(fc: seq<nat>, n: nat, maxCode: nat)
    requires maxCode < n <= |fc| && forall x | maxCode < x < n :: fc[x] == 0
    ensures Used(fc, n) == Used(fc, maxCode + 1)
  {
    if maxCode + 1 < n {
      UsedTrim(fc, n - 1, maxCode);
    }
  }

  lemma {:induction false} MSumOnes(ms: multiset<nat>, w: seq<nat>)
    requires Within(ms, w) && forall x | x in ms :: w[x] == 1
    ensures MSum(ms, w) == |ms|
    decreases |ms|
  {
    if |ms| != 0 {
      var x :| x in ms;
      MSumRemove(ms, w, x);
      MSumOnes(ms - multiset{x}, w);
    }
  }

  // ----- the nodes at the heap's end -----

  /** The sum of `w` over the nodes of the first `k` merges. */
  ghost function OperandSum(log: Log, w: seq<nat>, k: nat): (s: nat)
    requires k <= |log| && forall i | 0 <= i < k :: log[i].0 < |w| && log[i].1 < |w|
  {
    if k == 0 then 0 else OperandSum(log, w, k - 1) + w[log[k - 1].0] + w[log[k - 1].1]
  }

  /** Merges only move leaves from the roots to the nodes that were merged. */
  lemma {:induction false} OperandsAreLeaves(leaves: multiset<nat>, fc: seq<nat>, elems: nat, log: Log, w: seq<nat>,
                                             k: nat)
    requires Merges(leaves, fc, elems, log) && |w| == |fc| && k <= |log|
    requires forall x | elems <= x < |w| :: w[x] == 0
    ensures Within(Forest(leaves, elems, log[..k]), w) && Within(leaves, w)
    ensures forall i | 0 <= i < k :: log[i].0 < |w| && log[i].1 < |w|
    ensures MSum(Forest(leaves, elems, log[..k]), w) + OperandSum(log, w, k) == MSum(leaves, w)
    decreases k
  {
    hide MSum, Distinct, Mergeable, Merged, Forest;
    MergesPrefix(leaves, fc, elems, log, k);
    ForestShape(leaves, fc, elems, log[..k]);
    if k == 0 {
      assert log[..0] == [];
      NoMerges(leaves, elems, fc, log[..0]);
    } else {
      OperandsAreLeaves(leaves, fc, elems, log, w, k - 1);
      MergesPrefix(leaves, fc, elems, log, k - 1);
      ForestStep(leaves, elems, log, k - 1);
      MergeSum(Forest(leaves, elems, log[..k - 1]), fc, log[k - 1].0, log[k - 1].1, elems + k - 1, w);
    }
  }

  lemma NoMerges(leaves: multiset<nat>, elems: nat, fc: seq<nat>, log: Log)
    requires log == [] && Merges(leaves, fc, elems, log)
    ensures Forest(leaves, elems, log) == leaves && Within(leaves, fc)
  {
  }

  lemma {:induction false} MergeSum(f: multiset<nat>, fc: seq<nat>, n: nat, m: nat, p: nat, w: seq<nat>)
    requires Mergeable(f, fc, n, m, p) && |w| == |fc|
    ensures n < |w| && m < |w| && p < |w| && Within(f, w) && Within(Merged(f, n, m, p), w)
    ensures MSum(Merged(f, n, m, p), w) + w[n] + w[m] == MSum(f, w) + w[p]
  {
    MSumMerge(f, n, m, p, w);
  }

  /** The nodes in the order they were merged. */
  function Operand(log: Log, j: nat): (x: nat)
    requires j < 2 * |log|
  {
    if j % 2 == 0 then log[j / 2].0 else log[j / 2].1
  }

  /** The heap's end holds the merged nodes, the first one last. */
  ghost predicate Filed(h: seq<nat>, log: Log)
  {
    && 2 * |log| <= |h|
    && forall j | 0 <= j < 2 * |log| :: h[|h| - 1 - j] == Operand(log, j)
  }

  lemma {:induction false} OperandFresh(leaves: multiset<nat>, fc: seq<nat>, elems: nat, log: Log, j: nat)
    requires Merges(leaves, fc, elems, log) && j < 2 * |log|
    ensures Operand(log, j) in Forest(leaves, elems, log[..j / 2])
    ensures Operand(log, j) < elems + j / 2 && Operand(log, j) < |fc|
  {
    hide Distinct, Merges, Forest;
    MergesPrefix(leaves, fc, elems, log, j / 2);
    ForestShape(leaves, fc, elems, log[..j / 2]);
  }

  lemma {:induction false} LaterNotLess(f: multiset<nat>, fc: seq<nat>, n: nat, m: nat, p: nat, x: nat)
    requires Mergeable(f, fc, n, m, p) && x in Merged(f, n, m, p)
    ensures n < |fc| && m < |fc| && x < |fc| && fc[n] <= fc[m] <= fc[x]
  {
    if x != p {
      assert x in f - multiset{n};
    }
  }

  /** Nodes are merged in order of their frequencies. */
  lemma {:induction false} OperandsSortedStep(leaves: multiset<nat>, fc: seq<nat>, elems: nat, log: Log, j: nat)
    requires Merges(leaves, fc, elems, log) && j + 1 < 2 * |log|
    ensures Operand(log, j) < |fc| && Operand(log, j + 1) < |fc|
    ensures fc[Operand(log, j)] <= fc[Operand(log, j + 1)]
  {
    hide Distinct, Merges, Forest, Merged, Mergeable;
    var k := j / 2;
    MergesPrefix(leaves, fc, elems, log, k);
    ForestStep(leaves, elems, log, k);
    var f, n, m, p := Forest(leaves, elems, log[..k]), log[k].0, log[k].1, elems + k;
    if j % 2 == 0 {
      assert p in Merged(f, n, m, p) by { PInMerged(f, n, m, p); }
      LaterNotLess(f, fc, n, m, p, p);
    } else {
      assert (j + 1) / 2 == k + 1;
      OperandFresh(leaves, fc, elems, log, j + 1);
      LaterNotLess(f, fc, n, m, p, Operand(log, j + 1));
    }
  }

  lemma PInMerged(f: multiset<nat>, n: nat, m: nat, p: nat)
    ensures p in Merged(f, n, m, p)
  {
  }

  lemma {:induction false} OperandsSorted(leaves: multiset<nat>, fc: seq<nat>, elems: nat, log: Log, i: nat, j: nat)
    requires Merges(leaves, fc, elems, log) && i <= j < 2 * |log|
    ensures Operand(log, i) < |fc| && Operand(log, j) < |fc|
    ensures fc[Operand(log, i)] <= fc[Operand(log, j)]
    decreases j - i
  {
    hide *;
    if i < j {
      OperandsSortedStep(leaves, fc, elems, log, i);
      OperandsSorted(leaves, fc, elems, log, i + 1, j);
    } else {
      OperandFresh(leaves, fc, elems, log, i);
    }
  }

  lemma {:induction false} OperandsDistinct(leaves: multiset<nat>, fc: seq<nat>, elems: nat, log: Log, i: nat, j: nat)
    requires Merges(leaves, fc, elems, log) && i < j < 2 * |log|
    ensures Operand(log, i) != Operand(log, j)
  {
    hide Merges, Forest;
    if i / 2 == j / 2 {
      Retired(leaves, fc, elems, log, i / 2);
    } else {
      assert log[..j / 2][i / 2] == log[i / 2];
      MergesPrefix(leaves, fc, elems, log, j / 2);
      Retired(leaves, fc, elems, log[..j / 2], i / 2);
      OperandFresh(leaves, fc, elems, log, j);
    }
  }

  lemma {:induction false} FiledPlaces(h: seq<nat>, leaves: multiset<nat>, fc: seq<nat>, elems: nat, log: Log)
    requires Merges(leaves, fc, elems, log) && Filed(h, log)
    ensures Places(h, |h| - 2 * |log|, |fc|)
    ensures forall i, j | |h| - 2 * |log| <= i <= j < |h| :: fc[h[j]] <= fc[h[i]]
  {
    hide Merges, Operand;
    var lo := |h| - 2 * |log|;
    forall i | lo <= i < |h| ensures h[i] < |fc| && h[i] == Operand(log, |h| - 1 - i) {
      assert h[|h| - 1 - (|h| - 1 - i)] == Operand(log, |h| - 1 - i);
      OperandFresh(leaves, fc, elems, log, |h| - 1 - i);
    }
    forall i, j | lo <= i < j < |h| ensures h[i] != h[j] {
      OperandsDistinct(leaves, fc, elems, log, |h| - 1 - j, |h| - 1 - i);
    }
    forall i, j | lo <= i <= j < |h| ensures fc[h[j]] <= fc[h[i]] {
      OperandsSorted(leaves, fc, elems, log, |h| - 1 - j, |h| - 1 - i);
    }
  }

  lemma {:induction false} FiledSum(h: seq<nat>, log: Log, w: seq<nat>, k: nat)
    requires Filed(h, log) && k <= |log| && forall i | 0 <= i < k :: log[i].0 < |w| && log[i].1 < |w|
    ensures forall i | |h| - 2 * k <= i < |h| :: h[i] < |w|
    ensures TailSum(h, w, |h| - 2 * k) == OperandSum(log, w, k)
    decreases k
  {
    if k > 0 {
      FiledSum(h, log, w, k - 1);
      assert h[|h| - 1 - (2 * k - 2)] == Operand(log, 2 * k - 2) == log[k - 1].0;
      assert h[|h| - 1 - (2 * k - 1)] == Operand(log, 2 * k - 1) == log[k - 1].1;
    }
  }

  /** A sum over the nodes at the heap's end that leaves out the inner nodes is
      the sum over the leaves. */
  lemma {:induction false} FiledLeaves(h: seq<nat>, leaves: multiset<nat>, fc: seq<nat>, elems: nat, log: Log,
                                       w: seq<nat>)
    requires Merges(leaves, fc, elems, log) && Filed(h, log) && |w| == |fc| && elems + |log| <= |fc| && log != []
    requires Forest(leaves, elems, log) == multiset{elems + |log| - 1}
    requires forall x | elems <= x < |w| :: w[x] == 0
    ensures Within(leaves, w) && forall i | |h| - 2 * |log| <= i < |h| :: h[i] < |w|
    ensures TailSum(h, w, |h| - 2 * |log|) == MSum(leaves, w)
  {
    hide Merges, Forest, MSum, TailSum, OperandSum;
    var root := elems + |log| - 1;
    OperandsAreLeaves(leaves, fc, elems, log, w, |log|);
    assert log[..|log|] == log;
    FiledSum(h, log, w, |log|);
    MSumRemove(multiset{root}, w, root);
    assert multiset{root} - multiset{root} == multiset{};
  }

  /** A root is a leaf or a node made by a merge. */
  lemma {:induction false} RootOrigin(leaves: multiset<nat>, elems: nat, log: Log, x: nat)
    requires x in Forest(leaves, elems, log) && x < elems
    ensures x in leaves
    decreases |log|
  {
    if log != [] {
      RootOrigin(leaves, elems, log[..|log| - 1], x);
    }
  }
}
