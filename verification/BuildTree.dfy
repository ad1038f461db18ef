/** gen_bitlen and build_tree as a whole. */
module BuildTree {
  import opened Bits
  import opened Canonical
  import opened CodeLengths
  import opened Sums
  import opened Huffman
  import opened PriorityHeap
  import opened BitLengths
  import opened LengthLimit
  import opened LengthFacts
  import opened TreeDepth
  import opened TreeBuilder
  import opened TreeLengths
  import opened OptimalLengths

  /** The finished Huffman tree of the symbols in use, every tie of which was broken by depth. */
  ghost predicate Grown(b: Builder, desc: TreeDesc, log: Log)
    requires desc.Valid()
    reads b, b.heap, b.depth, desc.tree.fc, desc.tree.dl
  {
    && b.Grown(desc, Used(desc.tree.fc[..], desc.elems), log)
    && forall x | 0 <= x < desc.elems && desc.tree.fc[x] == 0 :: desc.tree.dl[x] == 0
  }

  ghost predicate OptimalTree(desc: TreeDesc)
    requires desc.Valid()
    reads desc.tree.fc, desc.tree.dl
  {
    Optimal(desc.tree.fc[..], desc.tree.dl[..], desc.elems)
  }

  ghost predicate FittingTree(desc: TreeDesc)
    requires desc.Valid()
    reads desc.tree.fc
  {
    OptimumFits(desc.tree.fc[..], desc.elems, desc.maxLength)
  }

  /** Too few symbols for a code that is too long. */
  ghost predicate SmallTree(desc: TreeDesc)
    requires desc.Valid()
    reads desc.tree.fc
  {
    RangeSum(desc.tree.fc[..], desc.elems) < Fibonacci(desc.maxLength + 1)
  }

  ghost predicate GoodTree(desc: TreeDesc, maxCode: nat)
    reads desc.tree.fc, desc.tree.dl
  {
    GoodLengths(desc.tree.fc[..], desc.tree.dl[..], desc.elems, maxCode, desc.maxLength)
  }

  ghost predicate CountedTree(b: Builder, desc: TreeDesc, maxCode: nat)
    requires maxCode < desc.tree.dl.Length
    reads b.blCount, desc.tree.dl
  {
    Statistics(b.blCount[..], desc.tree.dl[..maxCode + 1])
  }

  /** The size of the coded symbols. */
  ghost function SizeOf(desc: TreeDesc, maxCode: nat): (n: nat)
    requires desc.Valid() && maxCode < desc.elems
    reads desc.tree.fc, desc.tree.dl
  {
    CodedSize(desc.tree.fc[..], desc.tree.dl[..maxCode + 1], ExtraOf(desc, maxCode))
  }

  /** The size of the symbols in the static code. */
  ghost function StaticSizeOf(desc: TreeDesc, maxCode: nat): (n: nat)
    requires desc.Valid() && maxCode < desc.elems && desc.staticTree != null
    reads desc.tree.fc, desc.staticTree.dl
  {
    CodedSize(desc.tree.fc[..], desc.staticTree.dl[..maxCode + 1], ExtraOf(desc, maxCode))
  }

  /** gen_bitlen. Its lengths are optimal exactly when some optimal code fits the longest length allowed, and so in
      any case when the symbols are few. */
  method GenBitlen(b: Builder, desc: TreeDesc, maxCode: nat, ghost log: Log)
    requires b.Valid() && desc.Valid() && b.Apart(desc) && LastUsed(desc.tree.fc[..], desc.elems, maxCode)
    requires Grown(b, desc, log)
    modifies b`optLen, b`staticLen, b.blCount, desc.tree.dl
    ensures GoodTree(desc, maxCode) && CountedTree(b, desc, maxCode)
    ensures OptimalTree(desc) <==> FittingTree(desc)
    ensures SmallTree(desc) ==> FittingTree(desc)
    ensures b.optLen == old(b.optLen) + SizeOf(desc, maxCode)
    ensures desc.staticTree == null ==> b.staticLen == old(b.staticLen)
    ensures desc.staticTree != null ==> b.staticLen == old(b.staticLen) + StaticSizeOf(desc, maxCode)
  {
    hide MSum, Used, Distinct, Merges, Forest, Ordered, Optimal, KraftTo, CodedSize, Descent, VisitAll, Totals,
         Excess, Exact, Reached, Count, TailSum, Dealing, Region, Dads, Words, CountTo, Matching, OptimumFits,
         RangeSum, Fibonacci, Depths, Lowest;
    ghost var leaves := Used(desc.tree.fc[..], desc.elems);
    ghost var c := ContextOf(desc, maxCode);
    var overflow, a := FirstPass(b, desc, maxCode, leaves, log);
    PassDone(c, a, old(desc.tree.dl[..]), b.heap[..], b.heapMax, desc.elems, log);
    CutExactly(c, a, old(desc.tree.dl[..]), b.heap[..], b.heapMax, desc.elems, log, b.depth[..]);
    PassBits(c, a, desc.elems);
    PassCounts(c, a, desc.elems);
    if overflow == 0 {
      PassGood(c, a, desc.elems, log);
      CountsStatistics(b.blCount[..], desc.tree.fc[..], desc.tree.dl[..], desc.elems, maxCode, desc.maxLength);
      return;
    }
    RegionFiled(b.heap[..], log);
    ShortenCodes(b, desc, maxCode, overflow, c, a, log);
    NotOptimal(desc.tree.fc[..], desc.tree.dl[..], desc.elems, maxCode, desc.maxLength);
  }

  /** The counts of all lengths, as gen_codes wants them. */
  ghost predicate Statistics(count: seq<nat>, lens: seq<nat>)
  {
    && |count| == MAX_BITS + 1 && count[0] == 0
    && forall b | 1 <= b <= MAX_BITS :: count[b] == Count(lens, b)
  }

  lemma {:induction false} CountsStatistics(count: seq<nat>, fc: seq<nat>, dl: seq<nat>, elems: nat, maxCode: nat,
                                            m: nat)
    requires |count| == MAX_BITS + 1 && m <= MAX_BITS && maxCode < elems <= |dl| && Matching(fc, dl, elems, m)
    requires Counts(count[..m + 1], dl[..maxCode + 1], m) && count[0] == 0
      && forall b | m < b <= MAX_BITS :: count[b] == 0
    ensures Statistics(count, dl[..maxCode + 1])
  {
    forall b | 1 <= b <= MAX_BITS ensures count[b] == Count(dl[..maxCode + 1], b) {
      if b > m {
        NoneThatLong(dl[..maxCode + 1], b);
      }
    }
  }

  lemma {:induction false} NoneThatLong(lens: seq<nat>, b: nat)
    requires forall i | 0 <= i < |lens| :: lens[i] < b
    ensures Count(lens, b) == 0
  {
    if lens != [] {
      NoneThatLong(lens[..|lens| - 1], b);
    }
  }

  /** The part of gen_bitlen that runs when some code is too long. */
  method ShortenCodes(b: Builder, desc: TreeDesc, maxCode: nat, overflow: nat, ghost c: Context, ghost a: Pass,
                      ghost log: Log)
    requires b.Valid() && desc.Valid() && b.Apart(desc) && LastUsed(desc.tree.fc[..], desc.elems, maxCode)
    requires c == ContextOf(desc, maxCode)
    requires Region(b.heap[..], log) && b.heapMax == HEAP_SIZE - 2 * |log| - 1
    requires Finished(b.heap[..], desc.tree.fc[..], desc.elems, log, maxCode)
    requires desc.tree.dl[..] == a.dl && b.blCount[..desc.maxLength + 1] == a.count && overflow == a.overflow > 0
    requires Matching(c.fc, a.dl, desc.elems, c.maxLength)
    requires Totals(c, a, Used(c.fc, desc.elems)) && Excess(c, a, Used(c.fc, desc.elems))
    requires forall x | 0 <= x < desc.elems && desc.tree.fc[x] == 0 :: desc.tree.dl[x] == 0
    requires forall i | desc.maxLength < i <= MAX_BITS :: b.blCount[i] == 0
    modifies b`optLen, b.blCount, desc.tree.dl
    ensures GoodTree(desc, maxCode) && CountedTree(b, desc, maxCode)
    ensures b.optLen == old(b.optLen) + SizeOf(desc, maxCode) - old(SizeOf(desc, maxCode))
  {
    hide MSum, Used, Distinct, Merges, Forest, Ordered, KraftTo, CodedSize, Totals, Excess, Count, TailSum, Region,
         Words, CountTo, Matching, LeafCost, CountKraft, IsLeaf, Filed, Finished, GoodTree, CountedTree, SizeOf;
    ghost var total := |Used(c.fc, desc.elems)|;
    PassRepairable(c, a, desc.elems);
    RepairingFrame(a.count, b.blCount[..], desc.maxLength, overflow, total);
    Repair(b.blCount, desc.maxLength, overflow, total);
    DealLengths(b, desc, maxCode, log);
  }

  /** The counts fit the symbols in use, and no other symbol has a length. */
  ghost predicate Repaired(b: Builder, desc: TreeDesc)
    requires b.Valid() && desc.Valid()
    reads b, b.blCount, desc.tree.fc, desc.tree.dl
  {
    && Repairing(b.blCount[..], desc.maxLength, 0, |Used(desc.tree.fc[..], desc.elems)|)
    && (forall x | 0 <= x < desc.elems && desc.tree.fc[x] == 0 :: desc.tree.dl[x] == 0)
    && forall i | desc.maxLength < i <= MAX_BITS :: b.blCount[i] == 0
  }

  /** The last loop of gen_bitlen: the repaired counts are dealt out to the symbols. */
  method DealLengths(b: Builder, desc: TreeDesc, maxCode: nat, ghost log: Log)
    requires b.Valid() && desc.Valid() && b.Apart(desc) && LastUsed(desc.tree.fc[..], desc.elems, maxCode)
    requires b.heapMax == HEAP_SIZE - 2 * |log| - 1
    requires Finished(b.heap[..], desc.tree.fc[..], desc.elems, log, maxCode)
    requires Repaired(b, desc)
    modifies b`optLen, desc.tree.dl
    ensures GoodTree(desc, maxCode) && CountedTree(b, desc, maxCode)
    ensures b.optLen == old(b.optLen) + SizeOf(desc, maxCode) - old(SizeOf(desc, maxCode))
  {
    hide MSum, Used, Distinct, Merges, Forest, Ordered, KraftTo, CodedSize, Count, TailSum, Words, CountTo, Matching,
         LeafCost, CountKraft, IsLeaf, Filed;
    ghost var h, fc, was := b.heap[..], desc.tree.fc[..], desc.tree.dl[..];
    DealReady(h, fc, desc.elems, log, maxCode);
    var delta, end := Reassign(b.heap, b.heapMax + 1, desc.tree.fc, desc.tree.dl, b.blCount, maxCode, desc.maxLength);
    b.optLen := b.optLen + delta;
    DealtGood(h, fc, desc.elems, log, maxCode, desc.tree.dl[..], was, b.blCount[..], desc.maxLength, end);
    DealtSize(h, fc, desc.elems, log, maxCode, desc.tree.dl[..], was, b.blCount[..], desc.maxLength, end,
              ExtraOf(desc, maxCode));
  }

  lemma {:induction false} RepairingFrame(count: seq<nat>, all: seq<nat>, m: nat, overflow: int, total: nat)
    requires Repairing(count, m, overflow, total) && |count| == m + 1 <= |all| && all[..m + 1] == count
    ensures Repairing(all, m, overflow, total)
  {
    CountKraftFrame(count, all, m, m);
  }

  lemma {:induction false} DealReady(h: seq<nat>, fc: seq<nat>, elems: nat, log: Log, maxCode: nat)
    requires Finished(h, fc, elems, log, maxCode)
    ensures Places(h, |h| - 2 * |log|, |fc|)
    ensures TailSum(h, IsLeaf(maxCode, |fc|), |h| - 2 * |log|) == |Used(fc, elems)|
  {
    hide MSum, Merges, Forest, Distinct, TailSum, Filed;
    FiledPlaces(h, Used(fc, elems), fc, elems, log);
    FiledLeaves(h, Used(fc, elems), fc, elems, log, IsLeaf(maxCode, |fc|));
    MSumOnes(Used(fc, elems), IsLeaf(maxCode, |fc|));
  }

  lemma {:induction false} DealtGood(h: seq<nat>, fc: seq<nat>, elems: nat, log: Log, maxCode: nat, dl: seq<nat>,
                                     was: seq<nat>, count: seq<nat>, m: nat, end: nat)
    requires Dealt(h, fc, elems, log, maxCode, dl, was, count, m, end)
    requires Repairing(count, m, 0, |Used(fc, elems)|) && |count| == MAX_BITS + 1 && m <= MAX_BITS
    requires forall b | m < b <= MAX_BITS :: count[b] == 0
    requires forall x | 0 <= x < elems && fc[x] == 0 :: was[x] == 0
    ensures GoodLengths(fc, dl, elems, maxCode, m)
    ensures Statistics(count, dl[..maxCode + 1])
  {
    hide MSum, Used, Distinct, Merges, Forest, Ordered, KraftTo, Count, TailSum, Words, CountTo, CountKraft, Dealing,
         Filed, Matching;
    DealtMatching(h, fc, elems, log, maxCode, dl, was, count, m, end);
    DealtOrdered(h, fc, elems, log, maxCode, dl, was, count, m, end);
    DealtCounts(h, fc, elems, log, maxCode, dl, was, count, m, end);
    CountsKraft(count, dl[..maxCode + 1], m, m);
    CountsStatistics(count, fc, dl, elems, maxCode, m);
  }

  // ----- build_tree -----

  /** The code in `tree`: canonical, complete and at most `m` bits long. */
  ghost predicate CompleteCode(lens: seq<nat>, m: nat)
  {
    && (forall i | 0 <= i < |lens| :: lens[i] <= m)
    && KraftTo(lens, m, m) == Pow2(m)
  }

  /** The frequencies of the symbols are `f0` with two codes forced. */
  ghost predicate ForcedTree(desc: TreeDesc, f0: seq<nat>)
    requires desc.Valid() && |f0| == desc.elems
    reads desc.tree.fc
  {
    && desc.tree.fc[..desc.elems] == Forced(f0, desc.elems)
    && Forcing(f0, desc.tree.fc[..desc.elems], desc.elems, |Used(desc.tree.fc[..], desc.elems)|)
  }

  /** What the forced codes would add to the sum of `l`. */
  ghost function AddedTo(desc: TreeDesc, f0: seq<nat>, l: seq<nat>): (s: int)
    requires desc.Valid() && |f0| == desc.elems == |l|
    reads desc.tree.fc
  {
    Added(f0, desc.tree.fc[..desc.elems], desc.elems, l)
  }

  ghost function StaticLens(desc: TreeDesc): (l: seq<nat>)
    requires desc.Valid() && desc.staticTree != null
    reads desc.staticTree.dl
    ensures |l| == desc.elems
  {
    desc.staticTree.dl[..desc.elems]
  }

  /** build_tree up to the finished Huffman tree, from the frequencies `f0`. */
  method Plant(b: Builder, desc: TreeDesc, ghost f0: seq<nat>) returns (maxCode: nat, ghost log: Log)
    requires b.Valid() && desc.Valid() && b.Apart(desc) && Few(desc.tree.fc[..], desc.elems)
    requires f0 == desc.tree.fc[..desc.elems]
    modifies b, b.heap, b.depth, desc.tree.fc, desc.tree.dl
    ensures LastUsed(desc.tree.fc[..], desc.elems, maxCode) && |Used(desc.tree.fc[..], desc.elems)| >= 2
    ensures Grown(b, desc, log)
    ensures ForcedTree(desc, f0)
    ensures b.optLen == old(b.optLen) - AddedTo(desc, f0, Ones(desc.elems))
    ensures desc.staticTree == null ==> b.staticLen == old(b.staticLen)
    ensures desc.staticTree != null ==>
              b.staticLen == old(b.staticLen) - AddedTo(desc, f0, StaticLens(desc))
  {
    hide Collected, Used, Contents, HeapFrom, Assembled, Added, Ones, Distinct, Depths, Light, Few,
         Lowest, Forced;
    var tree, elems := desc.tree, desc.elems;
    ghost var all := tree.fc[..];
    var last := b.InitHeap(desc);
    last := b.ForceTwo(desc, last);
    maxCode := last;
    ghost var f1 := tree.fc[..];
    HeapReady(b.heap[..], b.heapLen, f1, b.depth[..], elems, maxCode);
    ForcingTrim(all, f1, elems, b.heapLen);
    ForcedTrim(all, elems);
    CollectedLight(b.heap[..], b.heapLen, all, f1, b.depth[..], elems, maxCode);
    b.Heapify(desc);
    log := b.MergeAll(desc, Used(f1, elems));
    UsedFrame(f1, tree.fc[..], elems);
    assert tree.fc[..elems] == f1[..elems];
  }

  lemma {:induction false} HeapReady(h: seq<nat>, len: nat, fc: seq<nat>, depth: seq<nat>, elems: nat, maxCode: nat)
    requires Collected(h, len, fc, depth, elems, maxCode)
    ensures len <= elems && Nodes(h, len, fc, depth) && Contents(h, len) == Used(fc, elems) && |Used(fc, elems)| == len
    ensures LastUsed(fc, elems, maxCode)
  {
    assert |h[1..len + 1]| == len;
  }

  lemma {:induction false} ForcingTrim(f: seq<nat>, g: seq<nat>, elems: nat, len: nat)
    requires Forcing(f, g, elems, len)
    ensures Forcing(f[..elems], g[..elems], elems, len)
    ensures forall l: seq<nat> | |l| == elems :: Added(f[..elems], g[..elems], elems, l) == Added(f, g, elems, l)
  {
    assert f[..elems][..elems] == f[..elems] && g[..elems][..elems] == g[..elems];
  }

  lemma {:induction false} ForcedTrim(f: seq<nat>, elems: nat)
    requires 3 <= elems <= |f|
    ensures Forced(f, elems)[..elems] == Forced(f[..elems], elems)
  {
    var g := f[..elems];
    assert NoneUsed(f, elems) <==> NoneUsed(g, elems);
    assert forall x: nat :: OnlyUsed(f, elems, x) <==> OnlyUsed(g, elems, x);
    if x: nat :| OnlyUsed(f, elems, x) {
      ForcedOne(f, elems, x);
      ForcedOne(g, elems, x);
    }
  }

  /** Two words that fill the code have one bit each. */
  lemma {:induction false} TwoWords(fc: seq<nat>, dl: seq<nat>, elems: nat, maxCode: nat, m: nat)
    requires LastUsed(fc, elems, maxCode) && Matching(fc, dl, elems, m) && |Used(fc, elems)| == 2
    requires KraftTo(dl[..maxCode + 1], m, m) == Pow2(m)
    ensures forall x | 0 <= x < elems && fc[x] > 0 :: dl[x] == 1
  {
    hide Used, KraftTo, MSum, Distinct, Shares, Pow2;
    UsedTrim(fc, elems, maxCode);
    UsedKraft(fc, dl, maxCode + 1, m);
    var ms := Used(fc, elems);
    forall x | 0 <= x < elems && fc[x] > 0 ensures dl[x] == 1 {
      var y := TwoSum(ms, Shares(dl, m), x);
      ShareAt(dl, m, x);
      ShareAt(dl, m, y);
      TwoShares(dl[x], dl[y], m);
    }
  }

  lemma {:induction false} TwoSum(ms: multiset<nat>, w: seq<nat>, x: nat) returns (y: nat)
    requires |ms| == 2 && x in ms && Within(ms, w)
    ensures y in ms && MSum(ms, w) == w[x] + w[y]
  {
    hide MSum, Pick;
    var rest := ms - multiset{x};
    assert |rest| == 1;
    y := Pick(rest);
    MSumRemove(ms, w, x);
    MSumRemove(rest, w, y);
    assert |rest - multiset{y}| == 0;
  }

  lemma {:induction false} TwoShares(a: nat, b: nat, m: nat)
    requires 0 < a <= m && 0 < b <= m && Pow2(m - a) + Pow2(m - b) == Pow2(m)
    ensures a == 1
  {
    Pow2Monotone(m - a, m - 1);
    Pow2Monotone(m - b, m - 1);
  }

  /** The sums over the forced frequencies exceed those over the real ones by what was taken off. */
  lemma {:induction false} AddedSize(f: seq<nat>, g: seq<nat>, w: seq<nat>, l: seq<nat>, n: nat)
    requires n <= |f| == |g| == |w| == |l|
    requires forall x | 0 <= x < n :: g[x] == f[x] || (f[x] == 0 && g[x] == 1 && w[x] == l[x])
    ensures RangeSum(Costs(g, w), n) - RangeSum(Costs(f, w), n) == RangeSum(Costs(g, l), n) - RangeSum(Costs(f, l), n)
  {
    if n > 0 {
      AddedSize(f, g, w, l, n - 1);
    }
  }

  lemma {:induction false} RangeSumTail(w: seq<nat>, n: nat, k: nat)
    requires k <= n <= |w| && forall x | k <= x < n :: w[x] == 0
    ensures RangeSum(w, n) == RangeSum(w, k)
  {
    if k < n {
      RangeSumTail(w, n - 1, k);
    }
  }

  lemma {:induction false} AddedTrim(f: seq<nat>, g: seq<nat>, elems: nat, k: nat, l: seq<nat>)
    requires k <= elems == |f| == |g| == |l| && forall x | k <= x < elems :: f[x] == 0 && g[x] == 0
    ensures Added(f, g, elems, l) == RangeSum(Costs(g[..k], l[..k]), k) - RangeSum(Costs(f[..k], l[..k]), k)
  {
    assert f[..elems] == f && g[..elems] == g;
    RangeSumTail(Costs(f, l), elems, k);
    RangeSumTail(Costs(g, l), elems, k);
    RangeSumFrame(Costs(f, l), Costs(f[..k], l[..k]), k);
    RangeSumFrame(Costs(g, l), Costs(g[..k], l[..k]), k);
  }

  lemma {:induction false} ForcedSize(f: seq<nat>, g: seq<nat>, elems: nat, maxCode: nat, lens: seq<nat>,
                                      extra: seq<nat>, l: seq<nat>)
    requires |f| == |g| == |l| == elems && maxCode < elems && |lens| == |extra| == maxCode + 1
    requires forall x | maxCode < x < elems :: f[x] == 0 && g[x] == 0
    requires forall x | 0 <= x <= maxCode :: g[x] == f[x] || (f[x] == 0 && g[x] == 1 && lens[x] + extra[x] == l[x])
    ensures CodedSize(g, lens, extra) - Added(f, g, elems, l) == CodedSize(f, lens, extra)
  {
    var n := maxCode + 1;
    AddedTrim(f, g, elems, n, l);
    AddedSize(f[..n], g[..n], Plus(lens, extra), l[..n], n);
  }

  /** Forced codes take one bit in the dynamic code. */
  lemma {:induction false} ForcedDynamic(f: seq<nat>, fc: seq<nat>, dl: seq<nat>, elems: nat, maxCode: nat, m: nat,
                                         extra: seq<nat>)
    requires LastUsed(fc, elems, maxCode) && Matching(fc, dl, elems, m) && KraftTo(dl[..maxCode + 1], m, m) == Pow2(m)
    requires |f| == elems && Forcing(f, fc[..elems], elems, |Used(fc, elems)|) && |Used(fc, elems)| >= 2
    requires |extra| == maxCode + 1 && forall x | 0 <= x <= maxCode && x <= 2 :: extra[x] == 0
    ensures CodedSize(fc, dl[..maxCode + 1], extra) - Added(f, fc[..elems], elems, Ones(elems)) ==
      CodedSize(f, dl[..maxCode + 1], extra)
  {
    hide Used, KraftTo, Added, CodedSize;
    if |Used(fc, elems)| == 2 {
      TwoWords(fc, dl, elems, maxCode, m);
    }
    ForcedSize(f, fc[..elems], elems, maxCode, dl[..maxCode + 1], extra, Ones(elems));
    CodedTrim(fc, elems, dl[..maxCode + 1], extra);
  }

  lemma {:induction false} ForcedStatic(f: seq<nat>, fc: seq<nat>, elems: nat, maxCode: nat, extra: seq<nat>,
                                        slens: seq<nat>)
    requires LastUsed(fc, elems, maxCode) && |slens| == elems
    requires |f| == elems && Forcing(f, fc[..elems], elems, |Used(fc, elems)|)
    requires |extra| == maxCode + 1 && forall x | 0 <= x <= maxCode && x <= 2 :: extra[x] == 0
    ensures CodedSize(fc, slens[..maxCode + 1], extra) - Added(f, fc[..elems], elems, slens) ==
      CodedSize(f, slens[..maxCode + 1], extra)
  {
    hide Used, Added, CodedSize;
    ForcedSize(f, fc[..elems], elems, maxCode, slens[..maxCode + 1], extra, slens);
    CodedTrim(fc, elems, slens[..maxCode + 1], extra);
  }

  lemma CodedTrim(fc: seq<nat>, elems: nat, lens: seq<nat>, extra: seq<nat>)
    requires |lens| == |extra| <= elems <= |fc|
    ensures CodedSize(fc, lens, extra) == CodedSize(fc[..elems], lens, extra)
  {
    assert fc[..elems][..|lens|] == fc[..|lens|];
  }

  /** build_tree without the codes. */
  method BuildLengths(b: Builder, desc: TreeDesc) returns (ghost freq: seq<nat>)
    requires b.Valid() && desc.Valid() && b.Apart(desc) && Few(desc.tree.fc[..], desc.elems)
    modifies b, b.heap, b.depth, b.blCount, desc`maxCode, desc.tree.fc, desc.tree.dl
    ensures 0 <= desc.maxCode < desc.elems && |freq| == desc.elems
    ensures Statistics(b.blCount[..], desc.tree.dl[..desc.maxCode + 1])
    ensures CompleteCode(desc.tree.dl[..desc.maxCode + 1], desc.maxLength)
    ensures forall x | 0 <= x < desc.elems && old(desc.tree.fc[x]) > 0 :: x <= desc.maxCode && desc.tree.dl[x] > 0
    ensures forall x | desc.maxCode < x < desc.elems :: desc.tree.dl[x] == 0
    ensures freq == Forced(old(desc.tree.fc[..desc.elems]), desc.elems)
    ensures forall x | 0 <= x < desc.elems :: freq[x] > 0 <==> desc.tree.dl[x] > 0
    ensures Ordered(freq, desc.tree.dl[..desc.elems], desc.elems)
    ensures Optimal(freq, desc.tree.dl[..desc.elems], desc.elems) <==> OptimumFits(freq, desc.elems, desc.maxLength)
    ensures RangeSum(freq, desc.elems) < Fibonacci(desc.maxLength + 1) ==>
              OptimumFits(freq, desc.elems, desc.maxLength)
    ensures b.optLen == old(b.optLen)
              + CodedSize(old(desc.tree.fc[..desc.elems]), desc.tree.dl[..desc.maxCode + 1],
                          ExtraOf(desc, desc.maxCode))
    ensures desc.staticTree == null ==> b.staticLen == old(b.staticLen)
    ensures desc.staticTree != null ==>
              b.staticLen == old(b.staticLen)
                + CodedSize(old(desc.tree.fc[..desc.elems]), desc.staticTree.dl[..desc.maxCode + 1],
                            ExtraOf(desc, desc.maxCode))
  {
    hide Used, Contents, HeapFrom, Assembled, Added, Ones, Distinct, KraftTo, CodedSize, Optimal, Ordered, Code,
         Reversed, Count, ExtraOf, OptimumFits, RangeSum, Fibonacci, Depths, Lowest, Forced, Grown, Statistics,
         Matching, CompleteCode;
    var tree, elems := desc.tree, desc.elems;
    ghost var f0 := tree.fc[..elems];
    var maxCode, log := Plant(b, desc, f0);
    desc.maxCode := maxCode;
    GenBitlen(b, desc, maxCode, log);
    ghost var f1, dl, n := tree.fc[..], tree.dl[..], maxCode + 1;
    freq := f1[..elems];
    ExtraLow(desc, maxCode);
    ForcedDynamic(f0, f1, dl, elems, maxCode, desc.maxLength, ExtraOf(desc, maxCode));
    if desc.staticTree != null {
      ForcedStatic(f0, f1, elems, maxCode, ExtraOf(desc, maxCode), desc.staticTree.dl[..elems]);
      assert desc.staticTree.dl[..elems][..n] == desc.staticTree.dl[..n];
    }
    TrimGood(f1, dl, elems, maxCode, desc.maxLength);
  }

  /** build_tree. `freq` are the frequencies of the symbols and of the codes that were forced. */
  method Build(b: Builder, desc: TreeDesc) returns (ghost freq: seq<nat>)
    requires b.Valid() && desc.Valid() && b.Apart(desc) && Few(desc.tree.fc[..], desc.elems)
    modifies b, b.heap, b.depth, b.blCount, desc`maxCode, desc.tree.fc, desc.tree.dl
    ensures 0 <= desc.maxCode < desc.elems && |freq| == desc.elems
    ensures desc.tree.Coded(desc.tree.dl[..desc.maxCode + 1])
    ensures CompleteCode(desc.tree.dl[..desc.maxCode + 1], desc.maxLength)
    ensures forall x | 0 <= x < desc.elems && old(desc.tree.fc[x]) > 0 :: x <= desc.maxCode && desc.tree.dl[x] > 0
    ensures forall x | desc.maxCode < x < desc.elems :: desc.tree.dl[x] == 0
    ensures freq == Forced(old(desc.tree.fc[..desc.elems]), desc.elems)
    ensures forall x | 0 <= x < desc.elems :: freq[x] > 0 <==> desc.tree.dl[x] > 0
    ensures forall x, y | 0 <= x < desc.elems && 0 <= y < desc.elems && 0 < freq[x] < freq[y] ::
              desc.tree.dl[x] >= desc.tree.dl[y]
    ensures Optimal(freq, desc.tree.dl[..desc.elems], desc.elems) <==> OptimumFits(freq, desc.elems, desc.maxLength)
    ensures RangeSum(freq, desc.elems) < Fibonacci(desc.maxLength + 1) ==>
              OptimumFits(freq, desc.elems, desc.maxLength)
    ensures b.optLen == old(b.optLen)
              + CodedSize(old(desc.tree.fc[..desc.elems]), desc.tree.dl[..desc.maxCode + 1],
                          ExtraOf(desc, desc.maxCode))
    ensures desc.staticTree == null ==> b.staticLen == old(b.staticLen)
    ensures desc.staticTree != null ==>
              b.staticLen == old(b.staticLen)
                + CodedSize(old(desc.tree.fc[..desc.elems]), desc.staticTree.dl[..desc.maxCode + 1],
                            ExtraOf(desc, desc.maxCode))
  {
    hide *;
    freq := BuildLengths(b, desc);
    CodeFacts(b, desc);
    RarerLonger(desc, freq);
    GenCodes(desc.tree.fc, desc.tree.dl, b.blCount, desc.maxCode);
    desc.tree.IsCoded(desc.maxCode + 1);
  }

  lemma RarerLonger(desc: TreeDesc, freq: seq<nat>)
    requires desc.Valid() && |freq| == desc.elems && Ordered(freq, desc.tree.dl[..desc.elems], desc.elems)
    ensures forall x, y | 0 <= x < desc.elems && 0 <= y < desc.elems && 0 < freq[x] < freq[y] ::
              desc.tree.dl[x] >= desc.tree.dl[y]
  {
    var dl := desc.tree.dl[..desc.elems];
    assert forall x | 0 <= x < desc.elems :: dl[x] == desc.tree.dl[x];
  }

  lemma CodeFacts(b: Builder, desc: TreeDesc)
    requires b.Valid() && desc.Valid() && b.Apart(desc) && 0 <= desc.maxCode < desc.elems
    requires Statistics(b.blCount[..], desc.tree.dl[..desc.maxCode + 1])
    requires CompleteCode(desc.tree.dl[..desc.maxCode + 1], desc.maxLength)
    ensures desc.maxCode < desc.tree.dl.Length == desc.tree.fc.Length && desc.elems <= desc.tree.dl.Length
      && desc.tree.Valid()
    ensures desc.tree.fc != desc.tree.dl && desc.tree.fc != b.blCount && b.blCount.Length == MAX_BITS + 1
      && b.blCount[0] == 0
    ensures desc.staticTree != null ==> desc.elems <= desc.staticTree.dl.Length && desc.staticTree.dl != desc.tree.fc
    ensures AllShort(desc.tree.dl[..desc.maxCode + 1])
    ensures forall n | 0 <= n <= desc.maxCode :: desc.tree.dl[n] <= MAX_BITS
    ensures forall i | 1 <= i <= MAX_BITS :: b.blCount[i] == Count(desc.tree.dl[..desc.maxCode + 1], i)
  {
    hide Count, KraftTo;
    var lens := desc.tree.dl[..desc.maxCode + 1];
    assert forall n | 0 <= n <= desc.maxCode :: desc.tree.dl[n] == lens[n];
  }

  lemma ExtraLow(desc: TreeDesc, maxCode: nat)
    requires desc.Valid() && maxCode < desc.elems
    ensures forall x | 0 <= x <= maxCode && x <= 2 :: ExtraOf(desc, maxCode)[x] == 0
  {
  }

  lemma {:induction false} TrimGood(fc: seq<nat>, dl: seq<nat>, elems: nat, maxCode: nat, m: nat)
    requires GoodLengths(fc, dl, elems, maxCode, m) && elems <= |dl|
    ensures CompleteCode(dl[..maxCode + 1], m)
    ensures Ordered(fc[..elems], dl[..elems], elems)
    ensures Optimal(fc, dl, elems) <==> Optimal(fc[..elems], dl[..elems], elems)
    ensures OptimumFits(fc, elems, m) <==> OptimumFits(fc[..elems], elems, m)
    ensures RangeSum(fc, elems) == RangeSum(fc[..elems], elems)
    ensures Used(fc[..elems], elems) == Used(fc, elems)
    ensures forall x | 0 <= x < elems && fc[x] > 0 :: x <= maxCode && dl[x] > 0
    ensures forall x | 0 <= x < elems :: fc[x] > 0 <==> dl[x] > 0
    ensures forall x | maxCode < x < elems :: dl[x] == 0
  {
    hide Used, Weighted;
    UsedFrame(fc, fc[..elems], elems);
    assert fc[..elems][..elems] == fc[..elems] && dl[..elems][..elems] == dl[..elems];
    assert Symbols(fc, elems) == Symbols(fc[..elems], elems);
    RangeSumFrame(fc, fc[..elems], elems);
    assert forall l: seq<nat> | |l| == elems :: Optimal(fc, l, elems) <==> Optimal(fc[..elems], l, elems);
  }
}
