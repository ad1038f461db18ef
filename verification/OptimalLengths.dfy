/** Which lengths are optimal, and when the lengths of gen_bitlen are. */
module OptimalLengths {
  import opened Bits
  import opened Canonical
  import opened Sums
  import opened Huffman
  import opened BitLengths
  import opened LengthFacts
  import opened TreeDepth
  import opened TreeHeight
  import opened TreeBuilder
  import opened TreeLengths

  /** The symbols in use. */
  ghost function Symbols(fc: seq<nat>, n: nat): (s: set<nat>)
    requires n <= |fc|
  {
    set x | 0 <= x < n && fc[x] > 0
  }

  /** The sum of `l` over the symbols cannot be smaller for any prefix code. */
  ghost predicate Optimal(fc: seq<nat>, dl: seq<nat>, n: nat)
    requires n <= |fc| && n <= |dl|
  {
    forall words: seq<BitString> | |words| == n && PrefixCode(Symbols(fc, n), words) ::
      Weighted(fc[..n], dl[..n]) <= Weighted(fc[..n], Lengths(words))
  }

  lemma {:induction false} LeavesWeighted(fc: seq<nat>, l: seq<nat>, n: nat)
    requires n <= |fc| == |l|
    ensures MSum(Used(fc, n), Costs(fc, l)) == Weighted(fc[..n], l[..n])
  {
    hide MSum, Used, Distinct;
    UsedSum(fc, n, Costs(fc, l));
    RangeSumFrame(Costs(fc, l), Costs(fc[..n], l[..n]), n);
  }

  /** Without overflow the lengths are those of an optimal code. */
  lemma {:induction false} ExactOptimal(fc: seq<nat>, dl: seq<nat>, elems: nat, log: Log)
    requires elems + |log| <= |fc| == |dl| && Merges(Used(fc, elems), fc, elems, log)
    requires MSum(Used(fc, elems), Costs(fc, dl)) == InternalWeight(fc, elems, 0, |log|)
    ensures Optimal(fc, dl, elems)
  {
    hide MSum, Used, Distinct, Merges, Weighted, Costs, Lengths;
    LeavesWeighted(fc, dl, elems);
    forall words: seq<BitString> | |words| == elems && PrefixCode(Symbols(fc, elems), words)
      ensures Weighted(fc[..elems], dl[..elems]) <= Weighted(fc[..elems], Lengths(words))
    {
      var padded := words + seq(|fc| - elems, i => []);
      assert (set x | x in Used(fc, elems)) == Symbols(fc, elems);
      PrefixCodeBound(Used(fc, elems), fc, elems, log, padded);
      LeavesWeighted(fc, Lengths(padded), elems);
      LengthsPrefix(words, padded);
    }
  }

  lemma LengthsPrefix(words: seq<BitString>, padded: seq<BitString>)
    requires words <= padded
    ensures Lengths(padded)[..|words|] == Lengths(words)
  {
  }

  /** In an optimal code a less frequent symbol never has the shorter word. */
  lemma {:induction false} ExactOrdered(fc: seq<nat>, dl: seq<nat>, elems: nat, log: Log, m: nat)
    requires elems + |log| <= |fc| == |dl| && Merges(Used(fc, elems), fc, elems, log)
    requires MSum(Used(fc, elems), Costs(fc, dl)) == InternalWeight(fc, elems, 0, |log|)
    requires Feasible(Used(fc, elems), dl, m)
    ensures Ordered(fc, dl, elems)
  {
    hide MSum, Merges, Weighted, Costs, Feasible;
    var leaves := Used(fc, elems);
    forall x, y | 0 <= x < elems && 0 <= y < elems && 0 < fc[x] < fc[y] ensures dl[x] >= dl[y] {
      if dl[x] < dl[y] {
        Swap(leaves, fc, dl, m, x, y);
        assert log[..0] == [];
        LowerBound(leaves, fc, elems, log, 0, dl[x := dl[y]][y := dl[x]], m);
      }
    }
  }

  /** What gen_bitlen promises of the lengths. */
  ghost predicate GoodLengths(fc: seq<nat>, dl: seq<nat>, elems: nat, maxCode: nat, m: nat)
  {
    && LastUsed(fc, elems, maxCode) && Matching(fc, dl, elems, m)
    && KraftTo(dl[..maxCode + 1], m, m) == Pow2(m)
    && Ordered(fc, dl, elems)
  }

  lemma {:induction false} PassGood(c: Context, a: Pass, elems: nat, log: Log)
    requires elems + |log| <= |c.fc| && Merges(Used(c.fc, elems), c.fc, elems, log)
    requires LastUsed(c.fc, elems, c.maxCode) && Matching(c.fc, a.dl, elems, c.maxLength) && |a.dl| == |c.fc|
    requires Totals(c, a, Used(c.fc, elems)) && Excess(c, a, Used(c.fc, elems)) && a.overflow == 0
    requires Exact(c, a, Used(c.fc, elems), InternalWeight(c.fc, elems, 0, |log|))
    ensures GoodLengths(c.fc, a.dl, elems, c.maxCode, c.maxLength) && Optimal(c.fc, a.dl, elems)
  {
    hide MSum, Used, Distinct, Merges, Ordered, Optimal, Shares, Costs, KraftTo;
    PassKraft(c, a, elems);
    ExactOptimal(c.fc, a.dl, elems, log);
    ExactOrdered(c.fc, a.dl, elems, log, c.maxLength);
  }

  /** What the first pass leaves behind. */
  lemma {:induction false} PassDone(c: Context, a: Pass, dl: seq<nat>, h: seq<nat>, heapMax: nat, elems: nat, log: Log)
    requires elems <= |c.fc| && LastUsed(c.fc, elems, c.maxCode) && ValidContext(c) && |dl| == |c.fc|
    requires Assembled(h, heapMax, c.fc, dl, Used(c.fc, elems), elems, log)
    requires forall x | 0 <= x < elems && c.fc[x] == 0 :: dl[x] == 0
    requires exists a0 :: Ready(c, a0, Used(c.fc, elems), elems, log) && a == VisitAll(c, a0, Descent(log, 0))
               && a0.dl == dl[elems + |log| - 1 := 0]
    ensures |a.dl| == |c.fc| && Matching(c.fc, a.dl, elems, c.maxLength)
    ensures Totals(c, a, Used(c.fc, elems)) && Excess(c, a, Used(c.fc, elems))
    ensures Exact(c, a, Used(c.fc, elems), InternalWeight(c.fc, elems, 0, |log|))
    ensures forall x | 0 <= x < elems && c.fc[x] == 0 :: a.dl[x] == 0
  {
    hide Used, Distinct, Merges, Forest, Totals, Excess, Exact, Reached, Descent, VisitAll, Region, Dads;
    var leaves := Used(c.fc, elems);
    var a0 :| Ready(c, a0, leaves, elems, log) && a == VisitAll(c, a0, Descent(log, 0))
      && a0.dl == dl[elems + |log| - 1 := 0];
    ReadyReached(c, a0, leaves, elems, log);
    ReachedAll(c, a0, leaves, elems, log, 0);
    forall x | 0 <= x < elems && c.fc[x] == 0 ensures |a.dl| == |c.fc| && a.dl[x] == 0 {
      UnusedNotVisited(leaves, c.fc, elems, log, x);
      VisitAllFrame(c, a0, Descent(log, 0), x);
    }
    ReachedSize(c, a, leaves, elems, log);
    ReachedSymbols(c, a, elems, log);
  }

  lemma ReachedSize(c: Context, a: Pass, leaves: multiset<nat>, elems: nat, log: Log)
    requires Reached(c, a, leaves, elems, log, 0)
    ensures |a.dl| == |c.fc|
  {
  }

  // ----- when lengths are cut -----

  /** With what the lengths reached leave below them, no leaf is deeper than the root of the tree is high. */
  lemma {:induction false} ShallowStep(c: Context, a: Pass, leaves: multiset<nat>, elems: nat, log: Log, k: nat,
                                       d: seq<nat>, top: nat)
    requires Walkable(c, leaves, elems, log) && k < |log| && Reached(c, a, leaves, elems, log, k + 1)
    requires Depths(d, leaves, elems, log) && top <= c.maxLength && a.overflow == 0
    requires Bounded(Forest(leaves, elems, log[..k + 1]), a.dl, d, top)
    ensures CanVisit(c, a, log[k].1) && CanVisit(c, Visit(c, a, log[k].1), log[k].0)
    ensures var r := Visit(c, Visit(c, a, log[k].1), log[k].0);
            r.overflow == 0 && Bounded(Forest(leaves, elems, log[..k]), r.dl, d, top)
  {
    hide MSum, Distinct, Forest, Merges, Excess, Exact, Totals, Visit, CanVisit, Mergeable, Higher;
    CanUnmerge(c, a, leaves, elems, log, k);
    var n, m, p, f := log[k].0, log[k].1, elems + k, Forest(leaves, elems, log[..k]);
    var r := Visit(c, Visit(c, a, m), n);
    UnmergedLengths(c, a, r, f, n, m, p);
    assert DepthAt(d, elems, log, k);
    assert p in Merged(f, n, m, p);
    forall x | x in f ensures x < |r.dl| && x < |d| && r.dl[x] + d[x] <= top {
      if x != n && x != m {
        assert x in Merged(f, n, m, p);
      }
    }
  }

  /** A tree that is no deeper than the longest length allowed is not cut. */
  lemma {:induction false} ShallowAll(c: Context, a: Pass, leaves: multiset<nat>, elems: nat, log: Log, k: nat,
                                      d: seq<nat>, top: nat)
    requires Ready(c, a, leaves, elems, log) && k <= |log|
    requires Depths(d, leaves, elems, log) && d[elems + |log| - 1] <= top <= c.maxLength
    ensures var r := VisitAll(c, a, Descent(log, k));
            r.overflow == 0 && Bounded(Forest(leaves, elems, log[..k]), r.dl, d, top)
    decreases |log| - k
  {
    hide Forest, Reached, Visit, CanVisit, Walkable, Bounded, DepthAt;
    ReadyReached(c, a, leaves, elems, log);
    if k < |log| {
      ShallowAll(c, a, leaves, elems, log, k + 1, d, top);
      ReachedAll(c, a, leaves, elems, log, k + 1);
      var s := Descent(log, k);
      ShallowStep(c, VisitAll(c, a, Descent(log, k + 1)), leaves, elems, log, k, d, top);
      assert s[..|s| - 1] == Descent(log, k + 1) + [log[k].1];
      assert s[..|s| - 1][..|s| - 2] == Descent(log, k + 1);
    } else {
      assert log[..k] == log;
      RootBounded(a.dl, d, elems + |log| - 1, top);
    }
  }

  lemma RootBounded(dl: seq<nat>, d: seq<nat>, root: nat, top: nat)
    requires root < |dl| && root < |d| && dl[root] == 0 && d[root] <= top
    ensures Bounded(multiset{root}, dl, d, top)
  {
  }

  // ----- codes for lengths -----

  /** The canonical code of good lengths. */
  lemma {:induction false} CodeOf(fc: seq<nat>, dl: seq<nat>, elems: nat, maxCode: nat, m: nat)
    returns (words: seq<BitString>)
    requires GoodLengths(fc, dl, elems, maxCode, m)
    ensures |words| == elems && PrefixCode(Symbols(fc, elems), words) && NoLonger(Symbols(fc, elems), words, m)
    ensures Weighted(fc[..elems], Lengths(words)) == Weighted(fc[..elems], dl[..elems])
  {
    hide KraftTo, Word, Ordered, RangeSum;
    var lens := dl[..maxCode + 1];
    CanonicalPrefixFree(lens, m);
    words := seq(elems, x requires 0 <= x < elems => if x <= maxCode then Word(lens, x) else []);
    assert Costs(fc[..elems], Lengths(words)) == Costs(fc[..elems], dl[..elems]) by {
      forall x | 0 <= x < elems ensures fc[x] * |words[x]| == fc[x] * dl[x] {
      }
    }
  }

  /** Some prefix code with words of at most `m` bits is as cheap as any. */
  ghost predicate OptimumFits(fc: seq<nat>, n: nat, m: nat)
    requires n <= |fc|
  {
    exists words: seq<BitString> ::
      && |words| == n && PrefixCode(Symbols(fc, n), words) && NoLonger(Symbols(fc, n), words, m)
      && Optimal(fc, Lengths(words), n)
  }

  /** Good lengths are optimal only if an optimal code fits. */
  lemma {:induction false} OptimalFits(fc: seq<nat>, dl: seq<nat>, elems: nat, maxCode: nat, m: nat)
    requires GoodLengths(fc, dl, elems, maxCode, m) && Optimal(fc, dl, elems)
    ensures OptimumFits(fc, elems, m)
  {
    hide KraftTo, Ordered, Weighted, PrefixCode;
    var words := CodeOf(fc, dl, elems, maxCode, m);
    assert Lengths(words)[..elems] == Lengths(words);
    assert Optimal(fc, Lengths(words), elems);
  }

  lemma NotOptimal(fc: seq<nat>, dl: seq<nat>, elems: nat, maxCode: nat, m: nat)
    requires GoodLengths(fc, dl, elems, maxCode, m) && !OptimumFits(fc, elems, m)
    ensures !Optimal(fc, dl, elems)
  {
    hide Optimal, OptimumFits, KraftTo, Ordered;
    if Optimal(fc, dl, elems) {
      OptimalFits(fc, dl, elems, maxCode, m);
    }
  }

  /** A prefix code as cheap as the merged nodes are heavy: that of the tree, without a limit. */
  lemma {:induction false} TreeCode(c: Context, dl: seq<nat>, h: seq<nat>, heapMax: nat, elems: nat, log: Log,
                                    d: seq<nat>)
    returns (words: seq<BitString>)
    requires elems <= |c.fc| && LastUsed(c.fc, elems, c.maxCode) && ValidContext(c) && |dl| == |c.fc|
    requires Assembled(h, heapMax, c.fc, dl, Used(c.fc, elems), elems, log)
    requires Depths(d, Used(c.fc, elems), elems, log)
    requires forall x | 0 <= x < elems && c.fc[x] == 0 :: dl[x] == 0
    ensures |words| == elems && PrefixCode(Symbols(c.fc, elems), words)
    ensures elems + |log| <= |c.fc|
    ensures Weighted(c.fc[..elems], Lengths(words)) == InternalWeight(c.fc, elems, 0, |log|)
  {
    hide Used, Distinct, Merges, Forest, Reached, Descent, VisitAll, Region, Dads, Weighted, PrefixCode, Ordered,
         Optimal, KraftTo, Totals, Excess, MSum, Matching;
    var top := d[elems + |log| - 1] + 1;
    var c' := c.(maxLength := top);
    var a0 := Pass(dl[elems + |log| - 1 := 0], seq(top + 1, _ => 0), 0, 0, 0);
    StartReady(c', a0, dl, h, heapMax, Used(c.fc, elems), elems, log);
    var a := VisitAll(c', a0, Descent(log, 0));
    PassDone(c', a, dl, h, heapMax, elems, log);
    ShallowAll(c', a0, Used(c.fc, elems), elems, log, 0, d, top);
    PassGood(c', a, elems, log);
    words := CodeOf(c.fc, a.dl, elems, c.maxCode, top);
    LeavesWeighted(c.fc, a.dl, elems);
  }

  /** Nothing is cut if an optimal code fits. */
  lemma {:induction false} FitsUncut(c: Context, a: Pass, dl: seq<nat>, h: seq<nat>, heapMax: nat, elems: nat,
                                     log: Log, d: seq<nat>)
    requires elems <= |c.fc| && LastUsed(c.fc, elems, c.maxCode) && ValidContext(c) && |dl| == |c.fc|
    requires Assembled(h, heapMax, c.fc, dl, Used(c.fc, elems), elems, log)
    requires Depths(d, Used(c.fc, elems), elems, log) && Lowest(Used(c.fc, elems), c.fc, d, elems, log)
    requires forall x | 0 <= x < elems && c.fc[x] == 0 :: dl[x] == 0
    requires exists a0 :: Ready(c, a0, Used(c.fc, elems), elems, log) && a == VisitAll(c, a0, Descent(log, 0))
               && a0.dl == dl[elems + |log| - 1 := 0]
    requires OptimumFits(c.fc, elems, c.maxLength)
    ensures a.overflow == 0
  {
    hide Used, Distinct, Merges, Forest, Reached, Descent, VisitAll, Region, Dads, Weighted, PrefixCode, NoLonger,
         Lowest, MSum, Lengths, Costs;
    var leaves := Used(c.fc, elems);
    var words: seq<BitString> :| |words| == elems && PrefixCode(Symbols(c.fc, elems), words)
      && NoLonger(Symbols(c.fc, elems), words, c.maxLength) && Optimal(c.fc, Lengths(words), elems);
    var others := TreeCode(c, dl, h, heapMax, elems, log, d);
    assert Lengths(words)[..elems] == Lengths(words);
    RootLow(c.fc, elems, log, d, words, c.maxLength);
    var a0 :| Ready(c, a0, leaves, elems, log) && a == VisitAll(c, a0, Descent(log, 0))
      && a0.dl == dl[elems + |log| - 1 := 0];
    ShallowAll(c, a0, leaves, elems, log, 0, d, c.maxLength);
  }

  lemma {:induction false} RootLow(fc: seq<nat>, elems: nat, log: Log, d: seq<nat>, words: seq<BitString>, m: nat)
    requires elems + |log| <= |fc| && |words| == elems && log != []
    requires Merges(Used(fc, elems), fc, elems, log)
    requires Forest(Used(fc, elems), elems, log) == multiset{elems + |log| - 1}
    requires Depths(d, Used(fc, elems), elems, log) && Lowest(Used(fc, elems), fc, d, elems, log)
    requires PrefixCode(Symbols(fc, elems), words) && NoLonger(Symbols(fc, elems), words, m)
    requires Weighted(fc[..elems], Lengths(words)) <= InternalWeight(fc, elems, 0, |log|)
    ensures d[elems + |log| - 1] <= m
  {
    hide MSum, Used, Distinct, Merges, Weighted, Costs, Lengths, Forest, Lowest;
    var padded := words + seq(|fc| - elems, i => []);
    UsedSymbols(fc, elems);
    LeavesWeighted(fc, Lengths(padded), elems);
    LengthsPrefix(words, padded);
    CheapestIsDeep(Used(fc, elems), fc, d, elems, log, padded, m);
    assert elems + |log| - 1 in multiset{elems + |log| - 1};
  }

  lemma UsedSymbols(fc: seq<nat>, n: nat)
    requires n <= |fc|
    ensures (set x | x in Used(fc, n)) == Symbols(fc, n) && Within(Used(fc, n), fc)
  {
  }

  /** Frequencies that are few enough are never cut. */
  lemma {:induction false} FewUncut(c: Context, a: Pass, dl: seq<nat>, h: seq<nat>, heapMax: nat, elems: nat,
                                    log: Log, d: seq<nat>)
    requires elems <= |c.fc| && LastUsed(c.fc, elems, c.maxCode) && ValidContext(c) && |dl| == |c.fc|
    requires Assembled(h, heapMax, c.fc, dl, Used(c.fc, elems), elems, log)
    requires Depths(d, Used(c.fc, elems), elems, log)
    requires exists a0 :: Ready(c, a0, Used(c.fc, elems), elems, log) && a == VisitAll(c, a0, Descent(log, 0))
               && a0.dl == dl[elems + |log| - 1 := 0]
    requires RangeSum(c.fc, elems) < Fibonacci(c.maxLength + 1)
    ensures a.overflow == 0
  {
    hide Used, Distinct, Merges, Forest, Reached, Descent, VisitAll, Region, Dads, MSum, RangeSum, Fibonacci;
    var leaves, root := Used(c.fc, elems), elems + |log| - 1;
    ForestWeight(leaves, c.fc, elems, log);
    MSumRemove(multiset{root}, c.fc, root);
    UsedSum(c.fc, elems, c.fc);
    UsedOccur(c.fc, elems);
    NodeHeavy(leaves, c.fc, elems, log, d, root);
    if d[root] > c.maxLength {
      FibonacciGrows(c.maxLength + 1, d[root]);
    }
    var a0 :| Ready(c, a0, leaves, elems, log) && a == VisitAll(c, a0, Descent(log, 0))
      && a0.dl == dl[root := 0];
    ShallowAll(c, a0, leaves, elems, log, 0, d, c.maxLength);
  }

  lemma UsedOccur(fc: seq<nat>, n: nat)
    requires n <= |fc|
    ensures forall y | y in Used(fc, n) :: y < |fc| && fc[y] >= 1
  {
  }

  /** Merging keeps the total weight of the roots. */
  lemma {:induction false} ForestWeight(leaves: multiset<nat>, fc: seq<nat>, elems: nat, log: Log)
    requires Merges(leaves, fc, elems, log)
    ensures Within(leaves, fc) && Within(Forest(leaves, elems, log), fc)
    ensures MSum(Forest(leaves, elems, log), fc) == MSum(leaves, fc)
    decreases |log|
  {
    hide MSum, Distinct, Mergeable, Merged, Within;
    if log != [] {
      var k := |log| - 1;
      ForestWeight(leaves, fc, elems, log[..k]);
      MergedWeight(Forest(leaves, elems, log[..k]), fc, log[k].0, log[k].1, elems + k);
    }
  }

  lemma MergedWeight(f: multiset<nat>, fc: seq<nat>, n: nat, m: nat, p: nat)
    requires Mergeable(f, fc, n, m, p)
    ensures Within(f, fc) && Within(Merged(f, n, m, p), fc) && MSum(Merged(f, n, m, p), fc) == MSum(f, fc)
  {
    hide MSum;
    MSumMerge(f, n, m, p, fc);
  }

  /** What was cut: nothing if and only if an optimal code fits, and nothing if the symbols are few. */
  lemma {:induction false} CutExactly(c: Context, a: Pass, dl: seq<nat>, h: seq<nat>, heapMax: nat, elems: nat,
                                      log: Log, d: seq<nat>)
    requires elems <= |c.fc| && LastUsed(c.fc, elems, c.maxCode) && ValidContext(c) && |dl| == |c.fc|
    requires Assembled(h, heapMax, c.fc, dl, Used(c.fc, elems), elems, log)
    requires Depths(d, Used(c.fc, elems), elems, log) && Lowest(Used(c.fc, elems), c.fc, d, elems, log)
    requires forall x | 0 <= x < elems && c.fc[x] == 0 :: dl[x] == 0
    requires exists a0 :: Ready(c, a0, Used(c.fc, elems), elems, log) && a == VisitAll(c, a0, Descent(log, 0))
               && a0.dl == dl[elems + |log| - 1 := 0]
    ensures a.overflow == 0 <==> OptimumFits(c.fc, elems, c.maxLength)
    ensures RangeSum(c.fc, elems) < Fibonacci(c.maxLength + 1) ==> OptimumFits(c.fc, elems, c.maxLength)
  {
    hide Used, Distinct, Merges, Forest, Reached, Descent, VisitAll, Region, Dads, MSum, RangeSum, Fibonacci, Ready,
         OptimumFits, Optimal, Depths, Lowest, GoodLengths, Totals, Excess, Exact, Matching;
    if OptimumFits(c.fc, elems, c.maxLength) {
      FitsUncut(c, a, dl, h, heapMax, elems, log, d);
    }
    if RangeSum(c.fc, elems) < Fibonacci(c.maxLength + 1) {
      FewUncut(c, a, dl, h, heapMax, elems, log, d);
    }
    if a.overflow == 0 {
      PassDone(c, a, dl, h, heapMax, elems, log);
      PassGood(c, a, elems, log);
      OptimalFits(c.fc, a.dl, elems, c.maxCode, c.maxLength);
    }
  }
}
