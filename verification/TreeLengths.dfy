/** The two loops of gen_bitlen: lengths from the Huffman tree, limited to what the format allows. */
module TreeLengths {
  import opened Bits
  import opened Canonical
  import opened Sums
  import opened Huffman
  import opened BitLengths
  import opened LengthLimit
  import opened LengthFacts
  import opened TreeBuilder

  /** The extra bits of each symbol up to `maxCode`. */
  function ExtraOf(desc: TreeDesc, maxCode: nat): (s: seq<nat>)
    requires desc.Valid() && maxCode < desc.elems
    ensures |s| == maxCode + 1
  {
    seq(maxCode + 1, n requires 0 <= n <= maxCode => if n >= desc.extraBase then desc.extraBits[n - desc.extraBase]
        else 0)
  }

  /** The static lengths of the symbols, 0 when there is no static tree. */
  ghost function StaticOf(desc: TreeDesc, maxCode: nat): (s: seq<nat>)
    requires desc.Valid() && maxCode < desc.elems
    reads if desc.staticTree == null then {} else {desc.staticTree.dl}
    ensures |s| == maxCode + 1
  {
    if desc.staticTree == null then seq(maxCode + 1, n => 0) else desc.staticTree.dl[..maxCode + 1]
  }

  ghost function ContextOf(desc: TreeDesc, maxCode: nat): (c: Context)
    requires desc.Valid() && maxCode < desc.elems
    reads desc.tree.fc, if desc.staticTree == null then {} else {desc.staticTree.dl}
    ensures ValidContext(c)
  {
    Context(desc.tree.fc[..], desc.maxLength, maxCode, ExtraOf(desc, maxCode), StaticOf(desc, maxCode))
  }

  /** One round of the first loop. */
  method VisitNode(b: Builder, desc: TreeDesc, n: nat, overflow0: nat, maxCode: nat, ghost c: Context, ghost a: Pass)
    returns (overflow: nat)
    requires b.Valid() && desc.Valid() && b.Apart(desc) && maxCode < desc.elems
    requires c == ContextOf(desc, maxCode)
    requires a.dl == desc.tree.dl[..] && a.count == b.blCount[..desc.maxLength + 1] && a.overflow == overflow0
    requires CanVisit(c, a, n) && forall i | 0 <= i <= MAX_BITS :: b.blCount[i] < 0xffff
    modifies b`optLen, b`staticLen, b.blCount, desc.tree.dl
    ensures desc.tree.dl[..] == Visit(c, a, n).dl && b.blCount[..desc.maxLength + 1] == Visit(c, a, n).count
    ensures overflow == Visit(c, a, n).overflow
    ensures b.optLen - old(b.optLen) == Visit(c, a, n).opt - a.opt
    ensures b.staticLen - old(b.staticLen) == if desc.staticTree == null then 0 else Visit(c, a, n).fixed - a.fixed
    ensures forall i | desc.maxLength < i <= MAX_BITS :: b.blCount[i] == old(b.blCount[i])
    ensures forall i | 0 <= i <= MAX_BITS :: b.blCount[i] <= old(b.blCount[i]) + 1
  {
    hide Visit, ContextOf, Below, Builder.Apart;
    SizesOf(b, desc);
    ContextAt(desc, maxCode, n);
    VisitIs(c, a, n);
    var dl := desc.tree.dl;
    overflow := overflow0;
    var bits: nat := dl[dl[n]];
    bits := bits + 1;
    if bits > desc.maxLength {
      bits := desc.maxLength;
      overflow := overflow + 1;
    }
    dl[n] := bits;
    if n > maxCode {
      return;
    }
    CountSymbol(b, desc, n, bits, maxCode, c);
  }

  /** A symbol of `bits` bits is counted, and so is what it takes. */
  method CountSymbol(b: Builder, desc: TreeDesc, n: nat, bits: nat, maxCode: nat, ghost c: Context)
    requires b.Valid() && desc.Valid() && b.Apart(desc) && n <= maxCode < desc.elems
    requires bits <= desc.maxLength && bits < b.blCount.Length && b.blCount[bits] < 0xffff
    requires c == ContextOf(desc, maxCode)
    modifies b`optLen, b`staticLen, b.blCount
    ensures b.blCount[..] == old(b.blCount[..])[bits := old(b.blCount[bits]) + 1]
    ensures n < |c.extra| && n < |c.fixed| && n < |c.fc|
    ensures b.optLen == old(b.optLen) + c.fc[n] * (bits + c.extra[n])
    ensures b.staticLen == old(b.staticLen)
              + if desc.staticTree == null then 0 else c.fc[n] * (c.fixed[n] + c.extra[n])
  {
    hide ContextOf, Builder.Apart;
    SizesOf(b, desc);
    ContextAt(desc, maxCode, n);
    b.blCount[bits] := b.blCount[bits] + 1;
    var xbits: nat := 0;
    if n >= desc.extraBase {
      xbits := desc.extraBits[n - desc.extraBase];
    }
    var f := desc.tree.fc[n];
    b.optLen := b.optLen + f * (bits + xbits);
    if desc.staticTree != null {
      b.staticLen := b.staticLen + f * (desc.staticTree.dl[n] + xbits);
    }
  }

  lemma SizesOf(b: Builder, desc: TreeDesc)
    requires b.Valid() && desc.Valid() && b.Apart(desc)
    ensures b.blCount != desc.tree.dl && b.blCount != desc.tree.fc && desc.tree.fc != desc.tree.dl
    ensures desc.staticTree != null ==> desc.staticTree.dl != b.blCount && desc.staticTree.dl != desc.tree.dl
  {
  }

  /** What a round reads of the tree and its description. */
  lemma ContextAt(desc: TreeDesc, maxCode: nat, n: nat)
    requires desc.Valid() && maxCode < desc.elems
    ensures var c := ContextOf(desc, maxCode);
            && c.fc == desc.tree.fc[..] && c.maxLength == desc.maxLength && c.maxCode == maxCode
            && (n <= maxCode ==>
                  && |c.extra| == |c.fixed| == maxCode + 1 && n < |c.fc|
                  && c.extra[n] == (if n >= desc.extraBase then desc.extraBits[n - desc.extraBase] else 0)
                  && (desc.staticTree != null ==> c.fixed[n] == desc.staticTree.dl[n]))
  {
  }

  lemma VisitIs(c: Context, a: Pass, n: nat)
    requires CanVisit(c, a, n)
    ensures var d := a.dl[a.dl[n]];
            var bits, r := if d + 1 > c.maxLength then c.maxLength else d + 1, Visit(c, a, n);
            && bits <= c.maxLength && r.dl == a.dl[n := bits]
            && r.overflow == a.overflow + (if d + 1 > c.maxLength then 1 else 0)
            && (n > c.maxCode ==> r.count == a.count && r.opt == a.opt && r.fixed == a.fixed)
            && (n <= c.maxCode ==>
                  && n < |c.fc| && n < |c.extra| && n < |c.fixed| && r.count == a.count[bits := a.count[bits] + 1]
                  && r.opt == a.opt + c.fc[n] * (bits + c.extra[n])
                  && r.fixed == a.fixed + c.fc[n] * (c.fixed[n] + c.extra[n]))
  {
  }

  /** A pass over the tree `log` that has not begun. */
  ghost predicate Ready(c: Context, a: Pass, leaves: multiset<nat>, elems: nat, log: Log)
  {
    && Walkable(c, leaves, elems, log) && log != []
    && Forest(leaves, elems, log) == multiset{elems + |log| - 1} && Untouched(c, a, elems + |log| - 1)
    && Dads(a.dl, elems, log, |log|)
  }

  lemma {:induction false} ReadyReached(c: Context, a: Pass, leaves: multiset<nat>, elems: nat, log: Log)
    requires Ready(c, a, leaves, elems, log)
    ensures Walkable(c, leaves, elems, log) && Reached(c, a, leaves, elems, log, |log|)
  {
    hide Forest, Reached, Merges;
    ReachedStart(c, a, leaves, elems, log);
  }

  lemma RegionAt(h: seq<nat>, log: Log, k: nat)
    requires Region(h, log) && k <= |log|
    ensures |h| == HEAP_SIZE && 2 * |log| < HEAP_SIZE
    ensures k < |log| ==> h[HEAP_SIZE - 2 * k - 1] == log[k].0 && h[HEAP_SIZE - 2 * k - 2] == log[k].1
  {
    if k < |log| {
      assert h[HEAP_SIZE - 1 - 2 * k] == log[k].0 && h[HEAP_SIZE - 2 - 2 * k] == log[k].1;
    }
  }

  lemma DescentNext(log: Log, k: nat)
    requires k <= |log|
    ensures Descent(log, k) == if k == |log| then [] else Descent(log, k + 1) + [log[k].1, log[k].0]
  {
  }

  lemma TwoMore(h: seq<nat>, lo: nat, mid: nat, hi: nat)
    requires lo <= mid && mid + 2 == hi <= |h|
    ensures h[lo..hi] == h[lo..mid] + [h[hi - 2], h[hi - 1]]
  {
  }

  /** The heap's end, upwards, is the order in which the pass goes down the tree. */
  lemma {:induction false} RegionDescent(h: seq<nat>, log: Log, k: nat)
    requires Region(h, log) && k <= |log|
    ensures h[HEAP_SIZE - 2 * |log|..HEAP_SIZE - 2 * k] == Descent(log, k)
    decreases |log| - k
  {
    hide *;
    RegionAt(h, log, k);
    DescentNext(log, k);
    if k < |log| {
      RegionDescent(h, log, k + 1);
      var lo, mid := HEAP_SIZE - 2 * |log|, HEAP_SIZE - 2 * (k + 1);
      TwoMore(h, lo, mid, HEAP_SIZE - 2 * k);
    }
  }

  lemma {:induction false} RegionFiled(h: seq<nat>, log: Log)
    requires Region(h, log)
    ensures Filed(h, log)
  {
    forall j | 0 <= j < 2 * |log| ensures h[|h| - 1 - j] == Operand(log, j) {
      var k := j / 2;
      assert h[HEAP_SIZE - 1 - 2 * k] == log[k].0 && h[HEAP_SIZE - 2 - 2 * k] == log[k].1;
    }
  }

  /** The first loop of gen_bitlen. */
  method FirstPass(b: Builder, desc: TreeDesc, maxCode: nat, ghost leaves: multiset<nat>, ghost log: Log)
    returns (overflow: nat, ghost a: Pass)
    requires b.Valid() && desc.Valid() && b.Apart(desc) && maxCode < desc.elems
    requires Assembled(b.heap[..], b.heapMax, desc.tree.fc[..], desc.tree.dl[..], leaves, desc.elems, log)
    modifies b`optLen, b`staticLen, b.blCount, desc.tree.dl
    ensures exists a0 :: Ready(ContextOf(desc, maxCode), a0, leaves, desc.elems, log)
              && a == VisitAll(ContextOf(desc, maxCode), a0, Descent(log, 0))
              && a0.dl == old(desc.tree.dl[..])[desc.elems + |log| - 1 := 0]
    ensures desc.tree.dl[..] == a.dl && b.blCount[..desc.maxLength + 1] == a.count && overflow == a.overflow
    ensures b.optLen == old(b.optLen) + a.opt
    ensures desc.staticTree != null ==> b.staticLen == old(b.staticLen) + a.fixed
    ensures desc.staticTree == null ==> b.staticLen == old(b.staticLen)
    ensures forall i | desc.maxLength < i <= MAX_BITS :: b.blCount[i] == 0
  {
    hide Ready, VisitAll, Descent, ContextOf, Region;
    ghost var a0 := StartPass(b, desc, maxCode, leaves, log);
    overflow, a := WalkTree(b, desc, maxCode, leaves, log, a0);
  }

  /** The lengths and counts are those of the pass. */
  ghost predicate Showing(b: Builder, desc: TreeDesc, a: Pass)
    reads b.blCount, desc.tree.dl
  {
    desc.maxLength < b.blCount.Length && desc.tree.dl[..] == a.dl && b.blCount[..desc.maxLength + 1] == a.count
  }

  /** The counts are cleared, and the root gets length 0. */
  method StartPass(b: Builder, desc: TreeDesc, maxCode: nat, ghost leaves: multiset<nat>,
                   ghost log: Log) returns (ghost a0: Pass)
    requires b.Valid() && desc.Valid() && b.Apart(desc) && maxCode < desc.elems
    requires Assembled(b.heap[..], b.heapMax, desc.tree.fc[..], desc.tree.dl[..], leaves, desc.elems, log)
    modifies b.blCount, desc.tree.dl
    ensures Ready(ContextOf(desc, maxCode), a0, leaves, desc.elems, log)
    ensures Showing(b, desc, a0) && a0.overflow == 0 && a0.opt == 0 && a0.fixed == 0
    ensures a0.dl == old(desc.tree.dl[..])[desc.elems + |log| - 1 := 0]
    ensures forall i | 0 <= i <= MAX_BITS :: b.blCount[i] == 0
  {
    hide Forest, Merges;
    var heap, dl := b.heap, desc.tree.dl;
    for bits := 0 to MAX_BITS + 1
      invariant forall i | 0 <= i < bits :: b.blCount[i] == 0
      invariant dl[..] == old(dl[..])
      modifies b.blCount
    {
      b.blCount[bits] := 0;
    }
    dl[heap[b.heapMax]] := 0;
    a0 := Pass(dl[..], b.blCount[..desc.maxLength + 1], 0, 0, 0);
    StartReady(ContextOf(desc, maxCode), a0, old(dl[..]), b.heap[..], b.heapMax, leaves, desc.elems, log);
  }

  /** The nodes are visited from the root down. */
  method WalkTree(b: Builder, desc: TreeDesc, maxCode: nat, ghost leaves: multiset<nat>, ghost log: Log, ghost a0: Pass)
    returns (overflow: nat, ghost a: Pass)
    requires b.Valid() && desc.Valid() && b.Apart(desc) && maxCode < desc.elems
    requires Ready(ContextOf(desc, maxCode), a0, leaves, desc.elems, log)
    requires Region(b.heap[..], log) && b.heapMax == HEAP_SIZE - 2 * |log| - 1
    requires Showing(b, desc, a0) && a0.overflow == 0 && a0.opt == 0 && a0.fixed == 0
    requires forall i | 0 <= i <= MAX_BITS :: b.blCount[i] == 0
    modifies b`optLen, b`staticLen, b.blCount, desc.tree.dl
    ensures a == VisitAll(ContextOf(desc, maxCode), a0, Descent(log, 0))
    ensures Showing(b, desc, a) && overflow == a.overflow
    ensures b.optLen == old(b.optLen) + a.opt
    ensures desc.staticTree != null ==> b.staticLen == old(b.staticLen) + a.fixed
    ensures desc.staticTree == null ==> b.staticLen == old(b.staticLen)
    ensures forall i | desc.maxLength < i <= MAX_BITS :: b.blCount[i] == 0
  {
    hide Forest, Visit, CanVisit, VisitAll, Merges, Reached, Ready, Region, ContextOf, Walkable;
    ghost var c, s := ContextOf(desc, maxCode), Descent(log, 0);
    var heap, dl := b.heap, desc.tree.dl;
    overflow, a := 0, a0;
    ReadyReached(c, a0, leaves, desc.elems, log);
    RegionDescent(heap[..], log, 0);
    ghost var lo := b.heapMax + 1;
    NoVisits(c, a0, s[..0]);
    for h := b.heapMax + 1 to HEAP_SIZE
      invariant a == VisitAll(c, a0, s[..h - lo])
      invariant dl[..] == a.dl && b.blCount[..desc.maxLength + 1] == a.count && overflow == a.overflow
      invariant b.optLen == old(b.optLen) + a.opt
      invariant b.staticLen == old(b.staticLen) + if desc.staticTree == null then 0 else a.fixed
      invariant forall i | desc.maxLength < i <= MAX_BITS :: b.blCount[i] == 0
      invariant forall i | 0 <= i <= MAX_BITS :: b.blCount[i] <= h - lo
    {
      NextVisit(c, a0, leaves, desc.elems, log, h - lo);
      assert heap[h] == s[h - lo];
      overflow := VisitNode(b, desc, heap[h], overflow, maxCode, c, a);
      a := Visit(c, a, s[h - lo]);
    }
    assert s[..2 * |log|] == s;
  }

  lemma NoVisits(c: Context, a: Pass, s: seq<nat>)
    requires s == []
    ensures VisitAll(c, a, s) == a
  {
  }

  lemma {:induction false} StartReady(c: Context, a: Pass, dl: seq<nat>, h: seq<nat>, heapMax: nat,
                                      leaves: multiset<nat>, elems: nat, log: Log)
    requires ValidContext(c) && c.maxCode < elems
    requires Assembled(h, heapMax, c.fc, dl, leaves, elems, log)
    requires a.dl == dl[elems + |log| - 1 := 0] && |a.count| == c.maxLength + 1
    requires (forall b | 0 <= b <= c.maxLength :: a.count[b] == 0) && a.overflow == 0 && a.opt == 0 && a.fixed == 0
    ensures Ready(c, a, leaves, elems, log)
  {
    hide Forest, Merges;
    forall i | 0 <= i < |log| ensures log[i].0 != elems + |log| - 1 && log[i].1 != elems + |log| - 1 {
      Retired(leaves, c.fc, elems, log, i);
    }
  }

  // ----- what the first pass has computed -----

  /** The pass leaves alone what it does not visit. */
  lemma {:induction false} VisitAllFrame(c: Context, a: Pass, s: seq<nat>, x: nat)
    requires x < |a.dl| && x !in s
    ensures |VisitAll(c, a, s).dl| == |a.dl| && VisitAll(c, a, s).dl[x] == a.dl[x]
    decreases |s|
  {
    if s != [] {
      VisitAllFrame(c, a, s[..|s| - 1], x);
    }
  }

  lemma {:induction false} DescentNodes(log: Log, k: nat, x: nat)
    requires k <= |log| && x in Descent(log, k)
    ensures exists i :: 0 <= i < |log| && (log[i].0 == x || log[i].1 == x)
    decreases |log| - k
  {
    if k < |log| {
      if x in Descent(log, k + 1) {
        DescentNodes(log, k + 1, x);
      } else {
        assert log[k].0 == x || log[k].1 == x;
      }
    }
  }

  /** Symbols that do not occur are not visited. */
  lemma {:induction false} UnusedNotVisited(leaves: multiset<nat>, fc: seq<nat>, elems: nat, log: Log, x: nat)
    requires Merges(leaves, fc, elems, log) && elems <= |fc| && leaves == Used(fc, elems)
    requires x < elems && fc[x] == 0
    ensures x !in Descent(log, 0)
  {
    hide Merges, Forest, Used, Descent, Distinct;
    if x in Descent(log, 0) {
      DescentNodes(log, 0, x);
      var i :| 0 <= i < |log| && (log[i].0 == x || log[i].1 == x);
      MergesPrefix(leaves, fc, elems, log, i);
      MergeableNodes(Forest(leaves, elems, log[..i]), fc, log[i].0, log[i].1, elems + i);
      RootOrigin(leaves, elems, log[..i], x);
    }
  }

  /** The totals of the pass in terms of the symbols. */
  lemma {:induction false} ReachedSymbols(c: Context, a: Pass, elems: nat, log: Log)
    requires log != [] && elems <= |c.fc| && c.maxCode < elems && Reached(c, a, Used(c.fc, elems), elems, log, 0)
    requires forall x | 0 <= x < elems && c.fc[x] == 0 :: a.dl[x] == 0
    ensures Matching(c.fc, a.dl, elems, c.maxLength)
    ensures Totals(c, a, Used(c.fc, elems)) && Excess(c, a, Used(c.fc, elems))
    ensures Exact(c, a, Used(c.fc, elems), InternalWeight(c.fc, elems, 0, |log|))
  {
    hide Totals, Excess, Exact, Used, Distinct;
    assert log[..0] == [];
    assert Totals(c, a, Used(c.fc, elems));
    TotalsBounds(c, a, Used(c.fc, elems));
  }

  lemma TotalsBounds(c: Context, a: Pass, f: multiset<nat>)
    requires Totals(c, a, f)
    ensures Within(f, a.dl) && |a.dl| == |c.fc| && forall x | x in f :: a.dl[x] <= c.maxLength
  {
  }

  /** Only the last symbol in use matters for where the code ends. */
  ghost predicate LastUsed(fc: seq<nat>, elems: nat, maxCode: nat)
  {
    && maxCode < elems <= |fc| && fc[maxCode] > 0
    && forall x | maxCode < x < elems :: fc[x] == 0
  }

  lemma {:induction false} PassCounts(c: Context, a: Pass, elems: nat)
    requires LastUsed(c.fc, elems, c.maxCode) && Matching(c.fc, a.dl, elems, c.maxLength)
    requires Totals(c, a, Used(c.fc, elems))
    ensures Counts(a.count, a.dl[..c.maxCode + 1], c.maxLength) && a.count[0] == 0
  {
    hide MSum, Used, Distinct, Count;
    var n := c.maxCode + 1;
    UsedTrim(c.fc, elems, c.maxCode);
    forall b | 1 <= b <= c.maxLength ensures a.count[b] == Count(a.dl[..n], b) {
      UsedCount(c.fc, a.dl, n, c.maxLength, b, LeafAt(c, a.dl, b));
    }
    var zeros := seq(|a.dl|, x => 0);
    MSumCongruent(Used(c.fc, elems), LeafAt(c, a.dl, 0), zeros);
    MSumZero(Used(c.fc, elems), zeros);
  }

  lemma {:induction false} MSumZero(ms: multiset<nat>, w: seq<nat>)
    requires Within(ms, w) && forall x | x in ms :: w[x] == 0
    ensures MSum(ms, w) == 0
    decreases |ms|
  {
    if |ms| != 0 {
      MSumZero(ms - multiset{Pick(ms)}, w);
    }
  }

  lemma {:induction false} PassKraft(c: Context, a: Pass, elems: nat)
    requires LastUsed(c.fc, elems, c.maxCode) && Matching(c.fc, a.dl, elems, c.maxLength)
    requires Excess(c, a, Used(c.fc, elems))
    ensures 2 * KraftTo(a.dl[..c.maxCode + 1], c.maxLength, c.maxLength) == 2 * Pow2(c.maxLength) + a.overflow
    ensures |Used(c.fc, elems)| == Words(a.dl[..c.maxCode + 1], c.maxLength)
  {
    hide MSum, Used, Distinct, KraftTo, Shares, Words;
    UsedTrim(c.fc, elems, c.maxCode);
    UsedKraft(c.fc, a.dl, c.maxCode + 1, c.maxLength);
    UsedWords(c.fc, a.dl, c.maxCode + 1, c.maxLength);
  }

  lemma {:induction false} PassRepairable(c: Context, a: Pass, elems: nat)
    requires LastUsed(c.fc, elems, c.maxCode) && Matching(c.fc, a.dl, elems, c.maxLength) && elems <= Pow2(c.maxLength)
    requires Totals(c, a, Used(c.fc, elems)) && Excess(c, a, Used(c.fc, elems)) && a.overflow > 0
    ensures Repairing(a.count, c.maxLength, a.overflow, |Used(c.fc, elems)|)
  {
    hide MSum, Distinct, KraftTo, Shares, Words, Used, Count, CountKraft, CountTo;
    PassCounts(c, a, elems);
    PassKraft(c, a, elems);
    CountsKraft(a.count, a.dl[..c.maxCode + 1], c.maxLength, c.maxLength);
    UsedSize(c.fc, elems);
    MSumCongruent(Used(c.fc, elems), AtMax(c, a.dl), LeafAt(c, a.dl, c.maxLength));
  }

  lemma {:induction false} UsedSize(fc: seq<nat>, n: nat)
    requires n <= |fc|
    ensures |Used(fc, n)| <= n
  {
    if n > 0 {
      UsedSize(fc, n - 1);
    }
  }

  /** The sum of lengths and extra bits. */
  function Plus(l: seq<nat>, x: seq<nat>): (s: seq<nat>)
    requires |l| == |x|
    ensures |s| == |l|
  {
    seq(|l|, i requires 0 <= i < |l| => l[i] + x[i])
  }

  /** The bits of all the symbols of a block: code and extra bits. */
  ghost function CodedSize(fc: seq<nat>, lens: seq<nat>, extra: seq<nat>): (s: nat)
    requires |lens| == |extra| <= |fc|
  {
    Weighted(fc[..|lens|], Plus(lens, extra))
  }

  lemma {:induction false} PassBits(c: Context, a: Pass, elems: nat)
    requires LastUsed(c.fc, elems, c.maxCode) && Totals(c, a, Used(c.fc, elems))
    ensures a.opt == CodedSize(c.fc, a.dl[..c.maxCode + 1], c.extra)
    ensures a.fixed == CodedSize(c.fc, c.fixed, c.extra)
  {
    hide MSum, Used, Distinct;
    var n := c.maxCode + 1;
    UsedTrim(c.fc, elems, c.maxCode);
    var lens := a.dl[..n];
    UsedSum(c.fc, n, OptBits(c, a.dl));
    RangeSumFrame(OptBits(c, a.dl), Costs(c.fc[..n], Plus(lens, c.extra)), n);
    UsedSum(c.fc, n, StaticBits(c));
    RangeSumFrame(StaticBits(c), Costs(c.fc[..n], Plus(c.fixed, c.extra)), n);
  }

  // ----- what the second loop has computed -----

  lemma {:induction false} TailSumFind(h: seq<nat>, w: seq<nat>, q: nat) returns (i: nat)
    requires q <= |h| && (forall k | q <= k < |h| :: h[k] < |w|) && TailSum(h, w, q) > 0
    ensures q <= i < |h| && w[h[i]] > 0
    decreases |h| - q
  {
    if w[h[q]] > 0 {
      i := q;
    } else {
      i := TailSumFind(h, w, q + 1);
    }
  }

  /** The tree as gen_bitlen finds it, without the pass. */
  ghost predicate Finished(h: seq<nat>, fc: seq<nat>, elems: nat, log: Log, maxCode: nat)
  {
    && elems + |log| <= |fc| && log != [] && Filed(h, log)
    && Merges(Used(fc, elems), fc, elems, log)
    && Forest(Used(fc, elems), elems, log) == multiset{elems + |log| - 1}
    && LastUsed(fc, elems, maxCode)
  }

  /** Every symbol that occurs has its place. */
  lemma {:induction false} LeafPlace(h: seq<nat>, fc: seq<nat>, elems: nat, log: Log, maxCode: nat,
                                     x: nat) returns (i: nat)
    requires Finished(h, fc, elems, log, maxCode) && x < elems && fc[x] > 0
    ensures |h| - 2 * |log| <= i < |h| && h[i] == x
  {
    hide Merges, Forest, TailSum, MSum, Distinct;
    var w := seq(|fc|, y => if y == x then 1 else 0);
    FiledLeaves(h, Used(fc, elems), fc, elems, log, w);
    MSumRemove(Used(fc, elems), w, x);
    i := TailSumFind(h, w, |h| - 2 * |log|);
  }

  lemma {:induction false} UnusedNoPlace(h: seq<nat>, fc: seq<nat>, elems: nat, log: Log, maxCode: nat, i: nat)
    requires Finished(h, fc, elems, log, maxCode) && |h| - 2 * |log| <= i < |h| && h[i] < elems
    ensures fc[h[i]] > 0
  {
    hide Merges, Forest, Distinct;
    var j := |h| - 1 - i;
    assert h[|h| - 1 - j] == Operand(log, j);
    OperandFresh(Used(fc, elems), fc, elems, log, j);
    RootOrigin(Used(fc, elems), elems, log[..j / 2], h[i]);
  }

  /** The lengths have been dealt to all the symbols. */
  ghost predicate Dealt(h: seq<nat>, fc: seq<nat>, elems: nat, log: Log, maxCode: nat, dl: seq<nat>, was: seq<nat>,
                        count: seq<nat>, m: nat, end: nat)
  {
    && Finished(h, fc, elems, log, maxCode) && |fc| == |dl|
    && Dealing(h, |h| - 2 * |log|, end, maxCode, dl, was, count, m, 0, 0)
    && (forall i | |h| - 2 * |log| <= i < end :: h[i] > maxCode)
  }

  lemma {:induction false} DealtMatching(h: seq<nat>, fc: seq<nat>, elems: nat, log: Log, maxCode: nat, dl: seq<nat>,
                                         was: seq<nat>, count: seq<nat>, m: nat, end: nat)
    requires Dealt(h, fc, elems, log, maxCode, dl, was, count, m, end)
    requires forall x | 0 <= x < elems && fc[x] == 0 :: was[x] == 0
    ensures Matching(fc, dl, elems, m)
  {
    hide Finished, TailSum;
    FinishedBounds(h, fc, elems, log, maxCode);
    var lo := |h| - 2 * |log|;
    forall x | 0 <= x < elems ensures (fc[x] > 0 <==> dl[x] > 0) && dl[x] <= m {
      if fc[x] > 0 {
        var i := LeafPlace(h, fc, elems, log, maxCode, x);
        assert x <= maxCode by { UsedBelow(h, fc, elems, log, maxCode, x); }
      } else {
        if x in h[lo..] {
          var i :| 0 <= i < |h[lo..]| && h[lo..][i] == x;
          UnusedNoPlace(h, fc, elems, log, maxCode, lo + i);
        }
        assert dl[x] == was[x];
      }
    }
  }

  lemma FinishedBounds(h: seq<nat>, fc: seq<nat>, elems: nat, log: Log, maxCode: nat)
    requires Finished(h, fc, elems, log, maxCode)
    ensures elems <= |fc| && maxCode < elems && 2 * |log| <= |h|
  {
  }

  lemma UsedBelow(h: seq<nat>, fc: seq<nat>, elems: nat, log: Log, maxCode: nat, x: nat)
    requires Finished(h, fc, elems, log, maxCode) && x < elems && fc[x] > 0
    ensures x <= maxCode
  {
  }

  /** A less frequent symbol never has the shorter word. */
  ghost predicate Ordered(fc: seq<nat>, dl: seq<nat>, elems: nat)
  {
    && elems <= |fc| && elems <= |dl|
    && forall x, y | 0 <= x < elems && 0 <= y < elems && 0 < fc[x] < fc[y] :: dl[x] >= dl[y]
  }

  lemma {:induction false} DealtOrdered(h: seq<nat>, fc: seq<nat>, elems: nat, log: Log, maxCode: nat, dl: seq<nat>,
                                        was: seq<nat>, count: seq<nat>, m: nat, end: nat)
    requires Dealt(h, fc, elems, log, maxCode, dl, was, count, m, end)
    ensures Ordered(fc, dl, elems)
  {
    hide TailSum, Merges, Forest, Used, MSum;
    FiledPlaces(h, Used(fc, elems), fc, elems, log);
    forall x, y | 0 <= x < elems && 0 <= y < elems && 0 < fc[x] < fc[y] ensures dl[x] >= dl[y] {
      var i := LeafPlace(h, fc, elems, log, maxCode, x);
      var j := LeafPlace(h, fc, elems, log, maxCode, y);
      assert j < i;
    }
  }

  /** Sums over the leaves, whether from the heap's end or from the symbols. */
  lemma {:induction false} DealtSum(h: seq<nat>, fc: seq<nat>, elems: nat, log: Log, maxCode: nat, dl: seq<nat>,
                                    was: seq<nat>, count: seq<nat>, m: nat, end: nat, w: seq<nat>)
    requires Dealt(h, fc, elems, log, maxCode, dl, was, count, m, end) && |w| == |fc|
    requires forall x | maxCode < x < |w| :: w[x] == 0
    ensures Within(Used(fc, elems), w)
    ensures forall i | end <= i < |h| :: h[i] < |w|
    ensures TailSum(h, w, end) == MSum(Used(fc, elems), w)
  {
    hide Merges, Forest, MSum, Used, Distinct, TailSum;
    FiledLeaves(h, Used(fc, elems), fc, elems, log, w);
    TailSumZero(h, w, |h| - 2 * |log|, end);
  }

  lemma {:induction false} TailSumZero(h: seq<nat>, w: seq<nat>, p: nat, q: nat)
    requires p <= q <= |h| && (forall i | p <= i < |h| :: h[i] < |w|) && forall i | p <= i < q :: w[h[i]] == 0
    ensures TailSum(h, w, p) == TailSum(h, w, q)
    decreases q - p
  {
    if p < q {
      TailSumZero(h, w, p + 1, q);
    }
  }

  lemma {:induction false} DealtCounts(h: seq<nat>, fc: seq<nat>, elems: nat, log: Log, maxCode: nat, dl: seq<nat>,
                                       was: seq<nat>, count: seq<nat>, m: nat, end: nat)
    requires Dealt(h, fc, elems, log, maxCode, dl, was, count, m, end) && Matching(fc, dl, elems, m)
    ensures Counts(count, dl[..maxCode + 1], m)
  {
    hide Merges, Forest, MSum, Used, Distinct, TailSum, Count;
    UsedTrim(fc, elems, maxCode);
    forall b | 1 <= b <= m ensures count[b] == Count(dl[..maxCode + 1], b) {
      DealtSum(h, fc, elems, log, maxCode, dl, was, count, m, end, LeafWith(maxCode, dl, b));
      UsedCount(fc, dl, maxCode + 1, m, b, LeafWith(maxCode, dl, b));
    }
  }

  lemma {:induction false} WeightedPlus(f: seq<nat>, l: seq<nat>, x: seq<nat>, n: nat)
    requires |l| == |x| == |f| && n <= |f|
    ensures RangeSum(Costs(f, Plus(l, x)), n) == RangeSum(Costs(f, l), n) + RangeSum(Costs(f, x), n)
  {
    if n > 0 {
      WeightedPlus(f, l, x, n - 1);
      Distribute(f[n - 1], l[n - 1], x[n - 1]);
    }
  }

  lemma Distribute(f: nat, l: nat, x: nat)
    ensures f * (l + x) == f * l + f * x
  {
  }

  lemma {:induction false} LeafCostSum(fc: seq<nat>, dl: seq<nat>, elems: nat, maxCode: nat)
    requires LastUsed(fc, elems, maxCode) && |dl| == |fc|
    ensures MSum(Used(fc, elems), LeafCost(maxCode, fc, dl)) == Weighted(fc[..maxCode + 1], dl[..maxCode + 1])
  {
    hide MSum, Used, Distinct;
    var n := maxCode + 1;
    UsedTrim(fc, elems, maxCode);
    UsedSum(fc, n, LeafCost(maxCode, fc, dl));
    RangeSumFrame(LeafCost(maxCode, fc, dl), Costs(fc[..n], dl[..n]), n);
  }

  /** The change of opt_len is the change of the coded size. */
  lemma {:induction false} DealtSize(h: seq<nat>, fc: seq<nat>, elems: nat, log: Log, maxCode: nat, dl: seq<nat>,
                                     was: seq<nat>, count: seq<nat>, m: nat, end: nat, extra: seq<nat>)
    requires Dealt(h, fc, elems, log, maxCode, dl, was, count, m, end) && |extra| == maxCode + 1 && |was| == |dl|
    ensures forall i | end <= i < |h| :: h[i] < |dl|
    ensures TailSum(h, LeafCost(maxCode, fc, dl), end) - TailSum(h, LeafCost(maxCode, fc, was), end)
         == CodedSize(fc, dl[..maxCode + 1], extra) - CodedSize(fc, was[..maxCode + 1], extra)
  {
    hide Merges, Forest, MSum, Used, Distinct, TailSum, Dealing;
    var n := maxCode + 1;
    DealtSum(h, fc, elems, log, maxCode, dl, was, count, m, end, LeafCost(maxCode, fc, dl));
    DealtSum(h, fc, elems, log, maxCode, dl, was, count, m, end, LeafCost(maxCode, fc, was));
    LeafCostSum(fc, dl, elems, maxCode);
    LeafCostSum(fc, was, elems, maxCode);
    WeightedPlus(fc[..n], dl[..n], extra, n);
    WeightedPlus(fc[..n], was[..n], extra, n);
  }
}
