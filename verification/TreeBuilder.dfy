/** build_tree: from symbol frequencies to a length-limited prefix code. */
module TreeBuilder {
  import opened Bits
  import opened Canonical
  import opened Sums
  import opened Huffman
  import opened PriorityHeap
  import opened Trees
  import opened TreeDepth

  const HEAP_SIZE := 573

  /** tree_desc */
  class TreeDesc {
    const tree: CtTree
    const staticTree: CtTree?
    const extraBits: seq<nat>
    const extraBase: nat
    const elems: nat
    const maxLength: nat
    var maxCode: int

    constructor (tree: CtTree, staticTree: CtTree?, extraBits: seq<nat>, extraBase: nat, elems: nat, maxLength: nat)
      ensures this.tree == tree && this.staticTree == staticTree && this.extraBits == extraBits
      ensures this.extraBase == extraBase && this.elems == elems && this.maxLength == maxLength
    {
      this.tree, this.staticTree, this.extraBits := tree, staticTree, extraBits;
      this.extraBase, this.elems, this.maxLength, this.maxCode := extraBase, elems, maxLength, 0;
    }

    ghost predicate Valid()
    {
      && tree.Valid()
      && 3 <= elems && 2 * elems < HEAP_SIZE && 2 * elems <= tree.fc.Length
      && 1 <= maxLength <= MAX_BITS && elems <= Pow2(maxLength)
      && elems <= extraBase + |extraBits|
      && (forall i | 0 <= i < |extraBits| && extraBase + i <= 2 :: extraBits[i] == 0)
      && (staticTree != null ==> staticTree.Valid() && elems <= staticTree.dl.Length)
      && (staticTree != null ==> staticTree.dl != tree.fc && staticTree.dl != tree.dl)
    }
  }

  /** The heap's upper end: the two nodes of every merge, last merge first. */
  ghost predicate Region(h: seq<nat>, log: Log)
  {
    && |h| == HEAP_SIZE && 2 * |log| < HEAP_SIZE
    && forall i | 0 <= i < |log| :: h[HEAP_SIZE - 1 - 2 * i] == log[i].0 && h[HEAP_SIZE - 2 - 2 * i] == log[i].1
  }

  /** The nodes of the first `k` merges point to their fathers. */
  ghost predicate Dads(dl: seq<nat>, elems: nat, log: Log, k: nat)
    requires k <= |log|
  {
    forall i | 0 <= i < k :: log[i].0 < |dl| && log[i].1 < |dl| && dl[log[i].0] == dl[log[i].1] == elems + i
  }

  /** The state of build_tree's merging loop. */
  ghost predicate Merging(h: seq<nat>, len: nat, fc: seq<nat>, dl: seq<nat>, depth: seq<nat>, leaves: multiset<nat>,
                          elems: nat, log: Log)
  {
    && HeapFrom(h, len, fc, depth, 1)
    && Contents(h, len) == Forest(leaves, elems, log)
    && Merges(leaves, fc, elems, log)
    && Region(h, log) && len + |log| == |leaves| && 1 <= len && 2 * |leaves| < HEAP_SIZE
    && |dl| == |fc| && Dads(dl, elems, log, |log|)
    && Depths(depth, leaves, elems, log) && Light(leaves, fc, elems, log) && Lowest(leaves, fc, depth, elems, log)
  }

  /** The global data of build_tree and gen_bitlen. */
  class Builder {
    const heap: array<nat>
    const depth: array<byte>
    const blCount: array<ush>
    var heapLen: nat
    var heapMax: nat
    var optLen: int
    var staticLen: int

    ghost predicate Valid()
    {
      && heap.Length == HEAP_SIZE && depth.Length == HEAP_SIZE && blCount.Length == MAX_BITS + 1
      && heap as object != depth && heap as object != blCount && depth as object != blCount
    }

    ghost function Arrays(): (s: set<object>)
    {
      {heap as object, depth as object, blCount as object}
    }

    /** The builder's arrays and those of the tree are different objects. */
    ghost predicate Apart(desc: TreeDesc)
    {
      && desc.tree.fc as object !in {heap as object, depth as object, blCount as object}
      && desc.tree.dl as object !in {heap as object, depth as object, blCount as object}
      && (desc.staticTree != null ==>
          desc.staticTree.dl as object !in {heap as object, depth as object, blCount as object})
    }

    constructor ()
      ensures Valid() && fresh(Arrays()) && allocated(Arrays())
      ensures forall i | 0 <= i <= MAX_BITS :: blCount[i] == 0
    {
      heap := new nat[HEAP_SIZE](_ => 0);
      depth := new byte[HEAP_SIZE](_ => 0);
      blCount := new ush[MAX_BITS + 1](_ => 0);
      heapLen, heapMax, optLen, staticLen := 0, 0, 0, 0;
    }

    /** Collects the symbols that occur. */
    method InitHeap(desc: TreeDesc) returns (maxCode: int)
      requires Valid() && desc.Valid() && Apart(desc)
      modifies this, heap, depth, desc.tree.dl
      ensures heapMax == HEAP_SIZE && optLen == old(optLen) && staticLen == old(staticLen)
      ensures Collected(heap[..], heapLen, desc.tree.fc[..], depth[..], desc.elems, maxCode)
      ensures forall n | 0 <= n < desc.elems && desc.tree.fc[n] == 0 :: desc.tree.dl[n] == 0
    {
      hide Collected;
      var tree := desc.tree;
      heapLen, heapMax, maxCode := 0, HEAP_SIZE, -1;
      CollectNone(heap[..], tree.fc[..], depth[..]);
      for n := 0 to desc.elems
        invariant heapLen <= n && Collected(heap[..], heapLen, tree.fc[..], depth[..], n, maxCode)
        invariant forall k | 0 <= k < n && tree.fc[k] == 0 :: tree.dl[k] == 0
        invariant heapMax == HEAP_SIZE && optLen == old(optLen) && staticLen == old(staticLen)
      {
        if tree.fc[n] != 0 {
          CollectUsed(heap[..], heapLen, tree.fc[..], depth[..], n, maxCode);
          heapLen := heapLen + 1;
          ghost var h, d := heap[..], depth[..];
          heap[heapLen] := n;
          maxCode := n;
          depth[n] := 0;
          assert heap[..] == h[heapLen := n] && depth[..] == d[n := 0];
        } else {
          CollectUnused(heap[..], heapLen, tree.fc[..], depth[..], n, maxCode);
          tree.dl[n] := 0;
        }
      }
    }

    /** At least two codes must exist: forces codes of frequency 1. */
    method ForceTwo(desc: TreeDesc, maxCode0: int) returns (maxCode: int)
      requires Valid() && desc.Valid() && Apart(desc)
      requires Collected(heap[..], heapLen, desc.tree.fc[..], depth[..], desc.elems, maxCode0)
      modifies this, heap, depth, desc.tree.fc
      ensures heapMax == old(heapMax) && heapLen >= 2 && maxCode >= 0
      ensures Collected(heap[..], heapLen, desc.tree.fc[..], depth[..], desc.elems, maxCode)
      ensures desc.tree.fc[..] == Forced(old(desc.tree.fc[..]), desc.elems)
      ensures Forcing(old(desc.tree.fc[..]), desc.tree.fc[..], desc.elems, heapLen)
      ensures optLen == old(optLen) - Added(old(desc.tree.fc[..]), desc.tree.fc[..], desc.elems, Ones(desc.elems))
      ensures desc.staticTree == null ==> staticLen == old(staticLen)
      ensures desc.staticTree != null ==>
                staticLen == old(staticLen)
                  - Added(old(desc.tree.fc[..]), desc.tree.fc[..], desc.elems, desc.staticTree.dl[..desc.elems])
    {
      hide Collected, Forcing, Added, Ones, Forced, ForcedBy;
      var fc, elems := desc.tree.fc, desc.elems;
      ghost var f0, ones := fc[..], Ones(elems);
      ghost var slens := if desc.staticTree != null then desc.staticTree.dl[..elems] else ones;
      maxCode := maxCode0;
      AddedNone(f0, elems, ones);
      AddedNone(f0, elems, slens);
      ForcedIs(heap[..], heapLen, f0, depth[..], elems, maxCode0);
      ForcedLen(heap[..], heapLen, f0, depth[..], elems, maxCode0);
      CollectedMax(heap[..], heapLen, f0, depth[..], elems, maxCode0);
      while heapLen < 2
        invariant Collected(heap[..], heapLen, fc[..], depth[..], elems, maxCode)
        invariant -1 <= maxCode && ForcedBy(fc[..], maxCode, Missing(heapLen)) == Forced(f0, elems)
        invariant heapMax == old(heapMax) && (heapLen <= 2 || heapLen == old(heapLen))
        invariant optLen == old(optLen) - Added(f0, fc[..], elems, ones)
        invariant staticLen == old(staticLen) - if desc.staticTree == null then 0 else Added(f0, fc[..], elems, slens)
        decreases 2 - heapLen
      {
        maxCode := ForceCode(desc, maxCode, f0, ones, slens);
      }
      CollectedMax(heap[..], heapLen, fc[..], depth[..], elems, maxCode);
      ForcedDone(fc[..], maxCode);
    }

    /** One more code of frequency 1. */
    method ForceCode(desc: TreeDesc, maxCode0: int, ghost f0: seq<nat>, ghost ones: seq<nat>, ghost slens: seq<nat>)
      returns (maxCode: int)
      requires Valid() && desc.Valid() && Apart(desc) && heapLen < 2 && |f0| == desc.tree.fc.Length
      requires Collected(heap[..], heapLen, desc.tree.fc[..], depth[..], desc.elems, maxCode0) && -1 <= maxCode0
      requires ones == Ones(desc.elems) && |slens| == desc.elems
      requires desc.staticTree != null ==> slens == desc.staticTree.dl[..desc.elems]
      modifies this, heap, depth, desc.tree.fc
      ensures heapLen == old(heapLen) + 1 && heapMax == old(heapMax) && -1 <= maxCode
      ensures Collected(heap[..], heapLen, desc.tree.fc[..], depth[..], desc.elems, maxCode)
      ensures ForcedBy(desc.tree.fc[..], maxCode, Missing(heapLen))
           == old(ForcedBy(desc.tree.fc[..], maxCode0, Missing(heapLen)))
      ensures optLen - old(optLen)
           == old(Added(f0, desc.tree.fc[..], desc.elems, ones)) - Added(f0, desc.tree.fc[..], desc.elems, ones)
      ensures staticLen - old(staticLen)
           == if desc.staticTree == null then 0
              else old(Added(f0, desc.tree.fc[..], desc.elems, slens)) - Added(f0, desc.tree.fc[..], desc.elems, slens)
    {
      hide Collected, Forcing, Added, Ones, Forced, ForcedBy;
      var fc, elems := desc.tree.fc, desc.elems;
      ghost var h, f, d := heap[..], fc[..], depth[..];
      CollectedMax(h, heapLen, f, d, elems, maxCode0);
      var new_: nat := if maxCode0 < 2 then maxCode0 + 1 else 0;
      ForceOne(h, heapLen, f, d, elems, maxCode0, new_);
      AddedMore(f0, f, elems, new_, ones);
      AddedMore(f0, f, elems, new_, slens);
      OnesAt(elems, new_);
      ForcedNext(f, maxCode0, Missing(heapLen));
      maxCode := if maxCode0 < 2 then maxCode0 + 1 else maxCode0;
      heapLen := heapLen + 1;
      heap[heapLen] := new_;
      fc[new_] := 1;
      depth[new_] := 0;
      assert heap[..] == h[heapLen := new_] && fc[..] == f[new_ := 1] && depth[..] == d[new_ := 0];
      optLen := optLen - 1;
      if desc.staticTree != null {
        staticLen := staticLen - desc.staticTree.dl[new_];
      }
    }

    /** Orders what was collected into a heap and loses none of it. */
    method Heapify(desc: TreeDesc)
      requires Valid() && desc.Valid() && Apart(desc) && 1 <= heapLen < HEAP_SIZE
      requires Nodes(heap[..], heapLen, desc.tree.fc[..], depth[..])
      modifies heap
      ensures HeapFrom(heap[..], heapLen, desc.tree.fc[..], depth[..], 1)
      ensures Contents(heap[..], heapLen) == old(Contents(heap[..], heapLen))
    {
      hide HeapFrom, Contents;
      var n: nat := heapLen / 2;
      NoSons(heap[..], heapLen, desc.tree.fc[..], depth[..], n + 1);
      while n >= 1
        invariant 0 <= n <= heapLen / 2
        invariant HeapFrom(heap[..], heapLen, desc.tree.fc[..], depth[..], n + 1)
        invariant Contents(heap[..], heapLen) == old(Contents(heap[..], heapLen))
      {
        PqDownHeap(heap, heapLen, desc.tree.fc, depth, n);
        n := n - 1;
      }
    }

    /** PQREMOVE: takes the node of least frequency out of the heap. */
    method PqRemove(desc: TreeDesc) returns (top: nat)
      requires Valid() && desc.Valid() && Apart(desc) && 2 <= heapLen < HEAP_SIZE
      requires HeapFrom(heap[..], heapLen, desc.tree.fc[..], depth[..], 1)
      modifies this`heapLen, heap
      ensures heapLen == old(heapLen) - 1
      ensures HeapFrom(heap[..], heapLen, desc.tree.fc[..], depth[..], 1)
      ensures Least(old(Contents(heap[..], heapLen)), desc.tree.fc[..], depth[..], top)
      ensures Contents(heap[..], heapLen) == old(Contents(heap[..], heapLen)) - multiset{top}
      ensures forall i | old(heapLen) < i < HEAP_SIZE :: heap[i] == old(heap[i])
    {
      hide HeapFrom, Contents;
      RootLeastOf(heap[..], heapLen, desc.tree.fc[..], depth[..]);
      DropRoot(heap[..], heapLen, desc.tree.fc[..], depth[..]);
      top := heap[1];
      ghost var h := heap[..];
      heap[1] := heap[heapLen];
      heapLen := heapLen - 1;
      assert heap[..] == h[1 := h[heapLen + 1]];
      PqDownHeap(heap, heapLen, desc.tree.fc, depth, 1);
    }

    /** One round of the merging loop: joins the two nodes of least frequency. */
    method MergeOne(desc: TreeDesc, node: nat, ghost leaves: multiset<nat>, ghost log: Log) returns (ghost log': Log)
      requires Valid() && desc.Valid() && Apart(desc) && 2 <= heapLen
      requires Merging(heap[..], heapLen, desc.tree.fc[..], desc.tree.dl[..], depth[..], leaves, desc.elems, log)
      requires node == desc.elems + |log| < desc.tree.fc.Length && node < HEAP_SIZE && heapMax == HEAP_SIZE - 2 * |log|
      modifies this`heapLen, this`heapMax, heap, depth, desc.tree.fc, desc.tree.dl
      ensures |log'| == |log| + 1
      ensures Merging(heap[..], heapLen, desc.tree.fc[..], desc.tree.dl[..], depth[..], leaves, desc.elems, log')
      ensures heapLen == old(heapLen) - 1 && heapMax == old(heapMax) - 2
      ensures forall x | 0 <= x < desc.tree.fc.Length && x != node :: desc.tree.fc[x] == old(desc.tree.fc[x])
      ensures forall x | 0 <= x < desc.tree.fc.Length && x !in Forest(leaves, desc.elems, log) ::
                desc.tree.dl[x] == old(desc.tree.dl[x])
    {
      hide *;
      SizesAre(desc);
      MergingFacts(heap[..], heapLen, desc.tree.fc[..], desc.tree.dl[..], depth[..], leaves, desc.elems, log);
      ghost var f := Forest(leaves, desc.elems, log);
      ghost var h0 := heap[..];
      ForestShape(leaves, desc.tree.fc[..], desc.elems, log);
      var n := PqRemove(desc);
      RegionFrame(h0, heap[..], log, old(heapLen));
      ghost var fc: seq<nat>, dl: seq<nat>, d: seq<nat> := desc.tree.fc[..], desc.tree.dl[..], depth[..];
      SecondLeast(heap[..], heapLen, fc, d, f, n);
      LeastBelow(f, fc, d, n, heap[1], node);
      FatherFits(leaves, fc, desc.elems, log, n, heap[1]);
      DepthFits(leaves, fc, desc.elems, log, d, n);
      DepthFits(leaves, fc, desc.elems, log, d, heap[1]);
      var m := PutFather(desc, n, node, f, log);
      log' := log + [(n, m)];
      MergedIs(f, n, m, node);
      MergedOnce(heap[..], heapLen, fc, desc.tree.fc[..], dl, desc.tree.dl[..], d, depth[..], leaves, desc.elems,
                 log, n, m);
    }

    lemma SizesAre(desc: TreeDesc)
      requires Valid() && desc.Valid() && Apart(desc)
      ensures heap.Length == depth.Length == HEAP_SIZE && 0 < HEAP_SIZE && desc.tree.fc.Length == desc.tree.dl.Length
      ensures heap as object != depth && heap as object != desc.tree.fc && heap as object != desc.tree.dl
      ensures depth as object != desc.tree.fc && depth as object != desc.tree.dl && desc.tree.fc != desc.tree.dl
    {
    }

    /** The node of least frequency joins `n`, and their father takes its place in the heap. */
    method PutFather(desc: TreeDesc, n: nat, node: nat, ghost f: multiset<nat>, ghost log: Log) returns (m: nat)
      requires Valid() && desc.Valid() && Apart(desc) && Region(heap[..], log) && heapMax == HEAP_SIZE - 2 * |log|
      requires 1 <= heapLen && heapLen + 2 * |log| + 3 < HEAP_SIZE && node < desc.tree.fc.Length && node < HEAP_SIZE
      requires HeapFrom(heap[..], heapLen, desc.tree.fc[..], depth[..], 1)
      requires Contents(heap[..], heapLen) == f - multiset{n} && node !in f && n < node && heap[1] < node
      requires desc.tree.fc[n] as int + desc.tree.fc[heap[1]] <= 0xffff && depth[n] < 0xff && depth[heap[1]] < 0xff
      modifies this`heapMax, heap, depth, desc.tree.fc, desc.tree.dl
      ensures m == old(heap[1]) && heapMax == old(heapMax) - 2
      ensures HeapFrom(heap[..], heapLen, desc.tree.fc[..], depth[..], 1) && Region(heap[..], log + [(n, m)])
      ensures Contents(heap[..], heapLen) == f - multiset{n} - multiset{m} + multiset{node}
      ensures desc.tree.fc[..] == old(desc.tree.fc[..])[node := old(desc.tree.fc[n]) + old(desc.tree.fc[m])]
      ensures desc.tree.dl[..] == old(desc.tree.dl[..])[n := node][m := node]
      ensures depth[..] == old(depth[..])[node := 1 + Higher(old(depth[n]), old(depth[m]))]
    {
      hide HeapFrom, Contents, Region, Higher;
      ghost var h, fc, d := heap[..], desc.tree.fc[..], depth[..];
      m := heap[1];
      JoinNodes(desc, n, m, node);
      NewRoot(h, heapLen, heap[..], fc, desc.tree.fc[..], d, depth[..], f, n, node);
      RegionExtend(h, heap[..], log, n, m, heapLen);
      ghost var h1 := heap[..];
      PqDownHeap(heap, heapLen, desc.tree.fc, depth, 1);
      RegionFrame(h1, heap[..], log + [(n, m)], heapLen);
    }

    /** The heap holds the symbols in use. */
    ghost predicate Heaped(desc: TreeDesc, leaves: multiset<nat>)
      requires Valid() && desc.Valid()
      reads this, heap, depth, desc.tree.fc
    {
      && 2 <= heapLen <= desc.elems && HeapFrom(heap[..], heapLen, desc.tree.fc[..], depth[..], 1)
      && Contents(heap[..], heapLen) == leaves == Used(desc.tree.fc[..], desc.elems)
      && Depths(depth[..], leaves, desc.elems, []) && Light(leaves, desc.tree.fc[..], desc.elems, [])
    }

    /** The finished tree, every tie of which was broken by depth. */
    ghost predicate Grown(desc: TreeDesc, leaves: multiset<nat>, log: Log)
      requires desc.Valid()
      reads this, heap, depth, desc.tree.fc, desc.tree.dl
    {
      && Assembled(heap[..], heapMax, desc.tree.fc[..], desc.tree.dl[..], leaves, desc.elems, log)
      && Depths(depth[..], leaves, desc.elems, log) && Lowest(leaves, desc.tree.fc[..], depth[..], desc.elems, log)
    }

    /** Merges until one root is left; `log` lists which nodes each merge took. */
    method MergeAll(desc: TreeDesc, ghost leaves: multiset<nat>) returns (ghost log: Log)
      requires Valid() && desc.Valid() && Apart(desc) && Heaped(desc, leaves) && heapMax == HEAP_SIZE
      modifies this`heapLen, this`heapMax, heap, depth, desc.tree.fc, desc.tree.dl
      ensures Grown(desc, leaves, log)
      ensures forall x | 0 <= x < desc.elems :: desc.tree.fc[x] == old(desc.tree.fc[x])
      ensures forall x | 0 <= x < desc.elems && desc.tree.fc[x] == 0 :: desc.tree.dl[x] == old(desc.tree.dl[x])
    {
      hide HeapFrom, Contents, Forest, Merged, Distinct, Region, Used, Mergeable, Dads, Merges, Depths, Light,
           Lowest;
      var node := desc.elems;
      log := [];
      StartMerging(heap[..], heapLen, desc.tree.fc[..], desc.tree.dl[..], depth[..], leaves, desc.elems);
      while heapLen >= 2
        invariant Merging(heap[..], heapLen, desc.tree.fc[..], desc.tree.dl[..], depth[..], leaves, desc.elems, log)
        invariant node == desc.elems + |log| && heapMax == HEAP_SIZE - 2 * |log| && |leaves| <= desc.elems
        invariant heapLen == 1 ==> log != []
        invariant forall x | 0 <= x < desc.elems :: desc.tree.fc[x] == old(desc.tree.fc[x])
        invariant forall x | 0 <= x < desc.elems && desc.tree.fc[x] == 0 :: desc.tree.dl[x] == old(desc.tree.dl[x])
        decreases heapLen
      {
        UsedFrame(old(desc.tree.fc[..]), desc.tree.fc[..], desc.elems);
        LeavesUsed(leaves, desc.tree.fc[..], desc.elems, log);
        log := MergeOne(desc, node, leaves, log);
        node := node + 1;
      }
      OneRoot(heap[..], desc.tree.fc[..], leaves, desc.elems, log);
      heapMax := heapMax - 1;
      ghost var h := heap[..];
      heap[heapMax] := heap[1];
      RegionFrame(h, heap[..], log, heapMax);
    }

    /** Files two nodes away and puts their father at the root of the heap. */
    method JoinNodes(desc: TreeDesc, n: nat, m: nat, node: nat)
      requires Valid() && desc.Valid() && Apart(desc) && 4 <= heapMax <= HEAP_SIZE
      requires n < node && m < node && node < desc.tree.fc.Length && node < HEAP_SIZE
      requires desc.tree.fc[n] as int + desc.tree.fc[m] <= 0xffff && depth[n] < 0xff && depth[m] < 0xff
      modifies this`heapMax, heap, depth, desc.tree.fc, desc.tree.dl
      ensures heapMax == old(heapMax) - 2
      ensures heap[1] == node && heap[heapMax] == m && heap[heapMax + 1] == n
      ensures forall i | 0 <= i < HEAP_SIZE && i != 1 && i != heapMax && i != heapMax + 1 :: heap[i] == old(heap[i])
      ensures desc.tree.fc[..] == old(desc.tree.fc[..])[node := old(desc.tree.fc[n]) + old(desc.tree.fc[m])]
      ensures depth[..] == old(depth[..])[node := 1 + Higher(old(depth[n]), old(depth[m]))]
      ensures desc.tree.dl[..] == old(desc.tree.dl[..])[n := node][m := node]
    {
      var tree := desc.tree;
      heapMax := heapMax - 1;
      heap[heapMax] := n;
      heapMax := heapMax - 1;
      heap[heapMax] := m;
      tree.fc[node] := tree.fc[n] + tree.fc[m];
      depth[node] := 1 + Higher(depth[n], depth[m]);
      tree.dl[n] := node;
      tree.dl[m] := node;
      heap[1] := node;
    }
  }

  /** The finished tree: one root, which lies below the nodes of all the merges. */
  ghost predicate Assembled(h: seq<nat>, heapMax: nat, fc: seq<nat>, dl: seq<nat>, leaves: multiset<nat>, elems: nat,
                            log: Log)
  {
    && Merges(leaves, fc, elems, log) && log != [] && |leaves| == |log| + 1
    && Forest(leaves, elems, log) == multiset{elems + |log| - 1}
    && Region(h, log) && heapMax == HEAP_SIZE - 2 * |log| - 1 && h[heapMax] == elems + |log| - 1
    && |dl| == |fc| && elems + |log| <= |fc| && Dads(dl, elems, log, |log|)
  }

  lemma {:induction false} StartMerging(h: seq<nat>, len: nat, fc: seq<nat>, dl: seq<nat>, depth: seq<nat>,
                                        leaves: multiset<nat>, elems: nat)
    requires HeapFrom(h, len, fc, depth, 1) && 1 <= len <= elems <= |fc| == |dl| && 2 * elems < HEAP_SIZE == |h|
    requires Contents(h, len) == leaves == Used(fc, elems)
    requires Depths(depth, leaves, elems, []) && Light(leaves, fc, elems, [])
    ensures Merging(h, len, fc, dl, depth, leaves, elems, [])
    ensures |leaves| == len
  {
    assert |h[1..len + 1]| == len;
  }

  /** Symbols that do not occur are never among the roots. */
  lemma {:induction false} LeavesUsed(leaves: multiset<nat>, fc: seq<nat>, elems: nat, log: Log)
    requires Merges(leaves, fc, elems, log) && elems <= |fc| && leaves == Used(fc, elems)
    ensures forall x | 0 <= x < elems && fc[x] == 0 :: x !in Forest(leaves, elems, log)
    decreases |log|
  {
    hide Mergeable, Distinct, Used;
    if log != [] {
      var k := |log| - 1;
      LeavesUsed(leaves, fc, elems, log[..k]);
    }
  }

  lemma {:induction false} OneRoot(h: seq<nat>, fc: seq<nat>, leaves: multiset<nat>, elems: nat, log: Log)
    requires |h| > 1 && Contents(h, 1) == Forest(leaves, elems, log) && log != [] && Merges(leaves, fc, elems, log)
    ensures h[1] == elems + |log| - 1
    ensures Forest(leaves, elems, log) == multiset{h[1]}
  {
    hide Mergeable, Distinct;
    assert h[1..2] == [h[1]];
  }

  lemma MergedIs(f: multiset<nat>, n: nat, m: nat, p: nat)
    ensures Merged(f, n, m, p) == f - multiset{n} - multiset{m} + multiset{p}
  {
  }

  lemma RegionExtend(h: seq<nat>, h': seq<nat>, log: Log, n: nat, m: nat, len: nat)
    requires Region(h, log) && |h'| == HEAP_SIZE && 2 * |log| + 3 < HEAP_SIZE
    requires h'[HEAP_SIZE - 1 - 2 * |log|] == n && h'[HEAP_SIZE - 2 - 2 * |log|] == m
    requires forall i | HEAP_SIZE - 2 * |log| <= i < HEAP_SIZE :: h'[i] == h[i]
    ensures Region(h', log + [(n, m)])
  {
  }

  lemma RegionFrame(h: seq<nat>, h': seq<nat>, log: Log, len: nat)
    requires Region(h, log) && |h'| == HEAP_SIZE && len + 2 * |log| < HEAP_SIZE
    requires forall i | len < i < HEAP_SIZE :: h'[i] == h[i]
    ensures Region(h', log)
  {
  }

  lemma NoSons(h: seq<nat>, len: nat, fc: seq<nat>, depth: seq<nat>, lo: nat)
    requires Nodes(h, len, fc, depth) && 2 * lo > len && 1 <= lo
    ensures HeapFrom(h, len, fc, depth, lo)
  {
  }

  lemma {:induction false} DropRoot(h: seq<nat>, len: nat, fc: seq<nat>, depth: seq<nat>)
    requires 2 <= len && HeapFrom(h, len, fc, depth, 1)
    ensures HeapFrom(h[1 := h[len]], len - 1, fc, depth, 2)
    ensures h[1] in Contents(h, len)
    ensures Contents(h[1 := h[len]], len - 1) == Contents(h, len) - multiset{h[1]}
  {
    hide Smaller;
    var h', len' := h[1 := h[len]], len - 1;
    forall i | 2 <= i <= len' ensures Father(h', len', fc, depth, i) {
      assert Father(h, len, fc, depth, i);
    }
    LastForRoot(h, len);
  }

  lemma {:induction false} LastForRoot(h: seq<nat>, len: nat)
    requires 2 <= len < |h|
    ensures h[1] in Contents(h, len)
    ensures Contents(h[1 := h[len]], len - 1) == Contents(h, len) - multiset{h[1]}
  {
    ContentsRemoveLast(h, len);
    ContentsUpdate(h, len - 1, 1, h[len]);
    assert h[1] == h[1..len][0];
    assert h[1] in Contents(h, len - 1);
  }

  /** Only roots get a father. */
  lemma SonsChange(dl: seq<nat>, dl': seq<nat>, f: multiset<nat>, fc: seq<nat>, d: seq<nat>, n: nat, m: nat,
                   node: nat)
    requires LeastTwo(f, fc, d, n, m) && |fc| == |dl| && dl' == dl[n := node][m := node]
    ensures forall x | 0 <= x < |dl| && x !in f :: dl'[x] == dl[x]
  {
    assert m in f;
  }

  /** Once the least root is out, the heap's root is the least of the others. */
  lemma {:induction false} SecondLeast(h: seq<nat>, len: nat, fc: seq<nat>, depth: seq<nat>, f: multiset<nat>, n: nat)
    requires HeapFrom(h, len, fc, depth, 1) && 1 <= len && Contents(h, len) == f - multiset{n}
    requires Least(f, fc, depth, n)
    ensures LeastTwo(f, fc, depth, n, h[1])
  {
    RootLeastOf(h, len, fc, depth);
    assert h[1] == h[1..len + 1][0];
  }

  /** A new node at the root of the heap, with its own frequency and depth. */
  lemma {:induction false} NewRoot(h: seq<nat>, len: nat, h': seq<nat>, fc: seq<nat>, fc': seq<nat>, d: seq<nat>,
                                   d': seq<nat>, f: multiset<nat>, n: nat, node: nat)
    requires HeapFrom(h, len, fc, d, 1) && 1 <= len && Contents(h, len) == f - multiset{n}
    requires |h'| == |h| && h'[1] == node && forall i | 2 <= i <= len :: h'[i] == h[i]
    requires node < |fc| == |fc'| && node < |d| == |d'| && node !in f
    requires (forall x | 0 <= x < |fc| && x != node :: fc'[x] == fc[x])
      && (forall x | 0 <= x < |d| && x != node :: d'[x] == d[x])
    ensures HeapFrom(h', len, fc', d', 2)
    ensures Contents(h', len) == f - multiset{n} - multiset{h[1]} + multiset{node}
  {
    hide Contents;
    NewRootContents(h, len, h', f, n, node);
    forall i | 2 <= i <= len ensures Father(h', len, fc', d', i) {
      assert Father(h, len, fc, d, i);
    }
  }

  lemma {:induction false} NewRootContents(h: seq<nat>, len: nat, h': seq<nat>, f: multiset<nat>, n: nat, node: nat)
    requires 1 <= len < |h| == |h'| && Contents(h, len) == f - multiset{n} && node !in f
    requires h'[1] == node && forall i | 2 <= i <= len :: h'[i] == h[i]
    ensures forall i | 1 <= i <= len :: h[i] != node
    ensures Contents(h', len) == f - multiset{n} - multiset{h[1]} + multiset{node}
  {
    assert h'[1..len + 1] == h[1 := node][1..len + 1];
    ContentsUpdate(h, len, 1, node);
    forall i | 1 <= i <= len ensures h[i] != node {
      assert h[i] == h[1..len + 1][i - 1];
      assert h[i] in Contents(h, len);
    }
  }

  lemma {:induction false} MergeLogged(fc: seq<nat>, fc': seq<nat>, dl: seq<nat>, dl': seq<nat>, d: seq<nat>,
                                       leaves: multiset<nat>, elems: nat, log: Log, n: nat, m: nat)
    requires Merges(leaves, fc, elems, log) && elems + |log| < |fc| == |dl|
    requires LeastTwo(Forest(leaves, elems, log), fc, d, n, m)
    requires fc' == fc[elems + |log| := fc[n] + fc[m]] && dl' == dl[n := elems + |log|][m := elems + |log|]
    requires Dads(dl, elems, log, |log|)
    ensures Merges(leaves, fc', elems, log + [(n, m)])
    ensures Forest(leaves, elems, log + [(n, m)]) == Merged(Forest(leaves, elems, log), n, m, elems + |log|)
    ensures Dads(dl', elems, log + [(n, m)], |log| + 1)
  {
    hide Merges, Forest, Merged, Distinct;
    var f := Forest(leaves, elems, log);
    ForestShape(leaves, fc, elems, log);
    MergesFrame(leaves, fc, fc', elems, log);
    assert Mergeable(f, fc', n, m, elems + |log|);
    MergesExtend(leaves, fc', elems, log, n, m);
    forall i | 0 <= i < |log| ensures log[i].0 !in f && log[i].1 !in f {
      Retired(leaves, fc, elems, log, i);
    }
  }

  /** One merge keeps the state of the loop. */
  lemma MergedOnce(h: seq<nat>, len: nat, fc: seq<nat>, fc': seq<nat>, dl: seq<nat>, dl': seq<nat>, d: seq<nat>,
                   d': seq<nat>, leaves: multiset<nat>, elems: nat, log: Log, n: nat, m: nat)
    requires Merges(leaves, fc, elems, log) && Dads(dl, elems, log, |log|) && elems + |log| < |fc| == |dl|
    requires LeastTwo(Forest(leaves, elems, log), fc, d, n, m) && n < |fc| && m < |fc|
    requires Lowest(leaves, fc, d, elems, log)
    requires fc' == fc[elems + |log| := fc[n] + fc[m]] && dl' == dl[n := elems + |log|][m := elems + |log|]
    requires len < |h| && HeapFrom(h, len, fc', d', 1) && Region(h, log + [(n, m)])
    requires Depths(d, leaves, elems, log) && elems + |log| < |d| && n < elems + |log| && m < elems + |log|
    requires d' == d[elems + |log| := 1 + Higher(d[n], d[m])] && Light(leaves, fc, elems, log)
    requires elems + |log| !in Forest(leaves, elems, log)
    requires n in Forest(leaves, elems, log) && m in Forest(leaves, elems, log) - multiset{n}
    requires Contents(h, len) == Merged(Forest(leaves, elems, log), n, m, elems + |log|)
    requires len + |log| + 1 == |leaves| && 1 <= len && 2 * |leaves| < HEAP_SIZE
    ensures Merging(h, len, fc', dl', d', leaves, elems, log + [(n, m)])
    ensures forall x | 0 <= x < |dl| && x !in Forest(leaves, elems, log) :: dl'[x] == dl[x]
  {
    hide *;
    MergeLogged(fc, fc', dl, dl', d, leaves, elems, log, n, m);
    SonsChange(dl, dl', Forest(leaves, elems, log), fc, d, n, m, elems + |log|);
    LowestStays(leaves, fc, fc', d, d', elems, log, n, m);
    LeavesBelow(d, leaves, elems, log);
    DepthsStay(d, d', leaves, elems, log, n, m);
    LightStays(leaves, fc, fc', elems, log, n, m);
    IsMerging(h, len, fc', dl', d', leaves, elems, log + [(n, m)]);
  }

  lemma MergingFacts(h: seq<nat>, len: nat, fc: seq<nat>, dl: seq<nat>, d: seq<nat>, leaves: multiset<nat>,
                     elems: nat, log: Log)
    requires Merging(h, len, fc, dl, d, leaves, elems, log)
    ensures len < |h| && HeapFrom(h, len, fc, d, 1) && Region(h, log) && Contents(h, len) == Forest(leaves, elems, log)
    ensures Merges(leaves, fc, elems, log) && Dads(dl, elems, log, |log|) && |dl| == |fc|
    ensures len + |log| == |leaves| && 1 <= len && 2 * |leaves| < HEAP_SIZE
    ensures Depths(d, leaves, elems, log) && Light(leaves, fc, elems, log) && Lowest(leaves, fc, d, elems, log)
  {
    hide Contents, Merges, Forest, Dads, Region, Depths, Light, Lowest;
  }

  lemma IsMerging(h: seq<nat>, len: nat, fc: seq<nat>, dl: seq<nat>, d: seq<nat>, leaves: multiset<nat>, elems: nat,
                  log: Log)
    requires len < |h| && HeapFrom(h, len, fc, d, 1) && Region(h, log) && Contents(h, len) == Forest(leaves, elems, log)
    requires Merges(leaves, fc, elems, log) && Dads(dl, elems, log, |log|) && |dl| == |fc|
    requires len + |log| == |leaves| && 1 <= len && 2 * |leaves| < HEAP_SIZE
    requires Depths(d, leaves, elems, log) && Light(leaves, fc, elems, log) && Lowest(leaves, fc, d, elems, log)
    ensures Merging(h, len, fc, dl, d, leaves, elems, log)
  {
    hide HeapFrom, Contents, Merges, Forest, Dads, Region, Depths, Light, Lowest;
  }

  lemma LeastBelow(f: multiset<nat>, fc: seq<nat>, d: seq<nat>, n: nat, m: nat, bound: nat)
    requires LeastTwo(f, fc, d, n, m) && forall x | x in f :: x < bound
    ensures n < bound && m < bound && bound !in f && n < |fc| && m < |fc|
    ensures n in f && m in f && m in f - multiset{n}
  {
    assert m in f;
  }

  /** The heap holds the symbols below `n` that occur and `maxCode` is the last of them. */
  ghost predicate Collected(h: seq<nat>, len: nat, fc: seq<nat>, depth: seq<nat>, n: nat, maxCode: int)
  {
    && |h| == |depth| == HEAP_SIZE && n <= |fc| && 2 * n < HEAP_SIZE && len <= n
    && Contents(h, len) == Used(fc, n)
    && (forall i | 1 <= i <= len :: h[i] < n && depth[h[i]] == 0)
    && -1 <= maxCode < n && (maxCode >= 0 ==> fc[maxCode] > 0)
    && (forall k | maxCode < k < n :: fc[k] == 0)
  }

  lemma CollectNone(h: seq<nat>, fc: seq<nat>, depth: seq<nat>)
    requires |h| == |depth| == HEAP_SIZE
    ensures Collected(h, 0, fc, depth, 0, -1)
  {
  }

  lemma {:induction false} CollectUsed(h: seq<nat>, len: nat, fc: seq<nat>, depth: seq<nat>, n: nat, maxCode: int)
    requires Collected(h, len, fc, depth, n, maxCode) && n < |fc| && 2 * n + 2 < HEAP_SIZE && fc[n] > 0
    ensures Collected(h[len + 1 := n], len + 1, fc, depth[n := 0], n + 1, n)
  {
    hide Contents, Distinct;
    ContentsPush(h, len, n);
  }

  lemma {:induction false} CollectUnused(h: seq<nat>, len: nat, fc: seq<nat>, depth: seq<nat>, n: nat, maxCode: int)
    requires Collected(h, len, fc, depth, n, maxCode) && n < |fc| && 2 * n + 2 < HEAP_SIZE && fc[n] == 0
    ensures Collected(h, len, fc, depth, n + 1, maxCode)
  {
  }

  lemma CollectedMax(h: seq<nat>, len: nat, fc: seq<nat>, depth: seq<nat>, n: nat, maxCode: int)
    requires Collected(h, len, fc, depth, n, maxCode)
    ensures -1 <= maxCode < n && (len > 0 ==> maxCode >= 0)
  {
    assert len > 0 ==> h[1] in h[1..len + 1];
  }

  lemma {:induction false} ContentsPush(h: seq<nat>, len: nat, n: nat)
    requires len + 1 < |h|
    ensures Contents(h[len + 1 := n], len + 1) == Contents(h, len) + multiset{n}
  {
    assert h[len + 1 := n][1..len + 2] == h[1..len + 1] + [n];
  }

  /** With fewer than two symbols in use, the symbol to be forced is not one of them. */
  lemma {:induction false} ForceOne(h: seq<nat>, len: nat, fc: seq<nat>, depth: seq<nat>, elems: nat, maxCode: int,
                                    n: nat)
    requires Collected(h, len, fc, depth, elems, maxCode) && len < 2 && elems >= 3
    requires n == if maxCode < 2 then maxCode + 1 else 0
    ensures n < elems && n <= 2 && fc[n] == 0
    ensures Collected(h[len + 1 := n], len + 1, fc[n := 1], depth[n := 0], elems, if maxCode < 2 then maxCode + 1
      else maxCode)
  {
    hide Contents, Distinct, Used;
    FirstUnused(h, len, fc, elems, maxCode);
    UsedUpdate(fc, elems, n, 1);
    ContentsPush(h, len, n);
  }

  lemma {:induction false} FirstUnused(h: seq<nat>, len: nat, fc: seq<nat>, elems: nat, maxCode: int)
    requires len < 2 && len < |h| && elems <= |fc| && Contents(h, len) == Used(fc, elems)
    requires -1 <= maxCode < elems && (maxCode >= 0 ==> fc[maxCode] > 0)
    ensures maxCode >= 2 ==> fc[0] == 0
  {
  }

  ghost predicate NoneUsed(f: seq<nat>, n: nat)
    requires n <= |f|
  {
    forall y | 0 <= y < n :: f[y] == 0
  }

  /** Symbol `x` is the only one in use. */
  ghost predicate OnlyUsed(f: seq<nat>, n: nat, x: nat)
    requires n <= |f|
  {
    x < n && f[x] > 0 && forall y | 0 <= y < n && y != x :: f[y] == 0
  }

  /** The frequencies with two codes forced: symbols 0 and 1 if none is in use; if only `x` is, `x + 1` for an `x`
      below 2 and 0 for any other. */
  ghost function Forced(f: seq<nat>, n: nat): (g: seq<nat>)
    requires 3 <= n <= |f|
    ensures |g| == |f|
  {
    if NoneUsed(f, n) then f[0 := 1][1 := 1]
    else if exists x: nat :: OnlyUsed(f, n, x) then
      var x: nat :| OnlyUsed(f, n, x);
      f[(if x < 2 then x + 1 else 0) := 1]
    else f
  }

  /** Symbol 2 gets a forced code if and only if symbol 1 is the only one in use. */
  lemma TwoForced(f: seq<nat>, n: nat)
    requires 3 <= n <= |f|
    ensures Forced(f, n)[2] != f[2] <==> OnlyUsed(f, n, 1)
  {
    if x: nat :| OnlyUsed(f, n, x) {
      ForcedOne(f, n, x);
    }
  }

  lemma ForcedOne(f: seq<nat>, n: nat, x: nat)
    requires 3 <= n <= |f| && OnlyUsed(f, n, x)
    ensures Forced(f, n) == f[(if x < 2 then x + 1 else 0) := 1]
  {
    forall y: nat | OnlyUsed(f, n, y) ensures y == x {
      assert f[x] > 0 && f[y] > 0;
    }
  }

  function Missing(len: nat): (k: nat)
  {
    if len < 2 then 2 - len else 0
  }

  /** What `k` rounds of the loop make of the frequencies. */
  ghost function ForcedBy(f: seq<nat>, maxCode: int, k: nat): (g: seq<nat>)
    requires -1 <= maxCode && 3 <= |f|
    decreases k
  {
    if k == 0 then f
    else
      ForcedBy(f[(if maxCode < 2 then maxCode + 1 else 0) := 1], if maxCode < 2 then maxCode + 1 else maxCode, k - 1)
  }

  lemma ForcedNext(f: seq<nat>, maxCode: int, k: nat)
    requires -1 <= maxCode && 3 <= |f| && k > 0
    ensures ForcedBy(f, maxCode, k)
         == ForcedBy(f[(if maxCode < 2 then maxCode + 1 else 0) := 1], if maxCode < 2 then maxCode + 1 else maxCode,
                     k - 1)
  {
  }

  lemma ForcedDone(f: seq<nat>, maxCode: int)
    requires -1 <= maxCode && 3 <= |f|
    ensures ForcedBy(f, maxCode, 0) == f
  {
  }

  lemma {:induction false} ForcedIs(h: seq<nat>, len: nat, f: seq<nat>, depth: seq<nat>, n: nat, maxCode: int)
    requires Collected(h, len, f, depth, n, maxCode) && 3 <= n <= |f|
    ensures ForcedBy(f, maxCode, Missing(len)) == Forced(f, n)
  {
    hide Forced, Distinct, Used;
    assert |h[1..len + 1]| == len == |Used(f, n)|;
    if len == 0 {
      assert forall y | 0 <= y < n :: y !in Used(f, n);
      NoneForced(f, n);
      assert maxCode == -1;
      assert ForcedBy(f, -1, 2) == ForcedBy(f[0 := 1], 0, 1) == f[0 := 1][1 := 1];
    } else if len == 1 {
      assert h[1] in h[1..2] && h[1] in Used(f, n);
      OneUsed(f, n, maxCode);
      ForcedOne(f, n, maxCode);
      assert ForcedBy(f, maxCode, 1) == f[(if maxCode < 2 then maxCode + 1 else 0) := 1];
    } else {
      ManyForced(f, n);
    }
  }

  lemma NoneForced(f: seq<nat>, n: nat)
    requires 3 <= n <= |f| && NoneUsed(f, n)
    ensures Forced(f, n) == f[0 := 1][1 := 1]
  {
  }

  lemma OneUsed(f: seq<nat>, n: nat, x: nat)
    requires x < n <= |f| && f[x] > 0 && |Used(f, n)| == 1
    ensures OnlyUsed(f, n, x)
  {
    hide Used;
    var rest := Used(f, n) - multiset{x};
    assert |rest| == 0;
    forall y | 0 <= y < n && y != x ensures f[y] == 0 {
      assert y !in rest;
    }
  }

  lemma ManyForced(f: seq<nat>, n: nat)
    requires 3 <= n <= |f| && |Used(f, n)| >= 2
    ensures Forced(f, n) == f
  {
    hide Used;
    var x := Pick(Used(f, n));
    var y := Pick(Used(f, n) - multiset{x});
    assert f[x] > 0 && f[y] > 0 && x != y;
  }

  /** How the frequencies `g` come from `f`: with fewer than two symbols in use, up to
      two symbols below 3 have been given frequency 1. */
  ghost predicate Forcing(f: seq<nat>, g: seq<nat>, elems: nat, len: nat)
  {
    && |f| == |g| && elems <= |f|
    && (len > 2 ==> f == g)
    && (forall n | 0 <= n < |f| :: g[n] == f[n] || (f[n] == 0 && g[n] == 1 && n <= 2 && n < elems))
  }

  /** The frequencies of the symbols leave room, in 16 bits, for the codes that may be forced. */
  ghost predicate Few(fc: seq<nat>, elems: nat)
  {
    elems <= |fc| && RangeSum(fc, elems) + 3 <= 0xffff
  }

  lemma {:induction false} ForcedSum(f: seq<nat>, g: seq<nat>, elems: nat, len: nat, n: nat)
    requires Forcing(f, g, elems, len) && n <= elems
    ensures RangeSum(g, n) <= RangeSum(f, n) + if n < 3 then n else 3
  {
    if n > 0 {
      ForcedSum(f, g, elems, len, n - 1);
    }
  }

  /** What was collected can be merged within 16 bits. */
  lemma {:induction false} CollectedLight(h: seq<nat>, len: nat, f: seq<nat>, g: seq<nat>, depth: seq<nat>,
                                          elems: nat, maxCode: int)
    requires Collected(h, len, g, depth, elems, maxCode) && Few(f, elems) && Forcing(f, g, elems, len)
    ensures Depths(depth, Used(g, elems), elems, []) && Light(Used(g, elems), g, elems, [])
  {
    hide MSum, RangeSum, Distinct;
    ForcedSum(f, g, elems, len, elems);
    UsedSum(g, elems, g);
    forall x | x in Used(g, elems)
      ensures x < elems && depth[x] == 0
    {
      assert x in Contents(h, len);
      assert x in h[1..len + 1];
      var j :| 0 <= j < len && h[1..len + 1][j] == x;
      assert h[j + 1] == x;
    }
  }

  ghost function Ones(n: nat): (s: seq<nat>)
    ensures |s| == n
  {
    seq(n, i => 1)
  }

  /** What the forced symbols would add to the weighted sum of `l`. */
  ghost function Added(f: seq<nat>, g: seq<nat>, elems: nat, l: seq<nat>): (s: int)
    requires elems <= |f| && elems <= |g| && |l| == elems
  {
    Weighted(g[..elems], l) - Weighted(f[..elems], l)
  }

  /** The sum of `l` over all symbols, each as often as it occurs. */
  ghost function Weighted(f: seq<nat>, l: seq<nat>): (s: nat)
    requires |l| == |f|
  {
    RangeSum(Costs(f, l), |f|)
  }

  lemma AddedNone(f: seq<nat>, elems: nat, l: seq<nat>)
    requires elems <= |f| && |l| == elems
    ensures Added(f, f, elems, l) == 0
  {
  }

  lemma {:induction false} AddedMore(f: seq<nat>, g: seq<nat>, elems: nat, n: nat, l: seq<nat>)
    requires elems <= |f| == |g| && |l| == elems && n < elems && g[n] == 0
    ensures Added(f, g[n := 1], elems, l) == Added(f, g, elems, l) + l[n]
  {
    var s := g[..elems];
    assert g[n := 1][..elems] == s[n := 1];
    assert Costs(s[n := 1], l) == Costs(s, l)[n := l[n]];
    RangeSumUpdate(Costs(s, l), elems, n, l[n]);
  }

  /** What forcing does, as far as sums need it. */
  lemma {:induction false} ForcedLen(h: seq<nat>, len: nat, f: seq<nat>, depth: seq<nat>, n: nat, maxCode: int)
    requires Collected(h, len, f, depth, n, maxCode) && 3 <= n <= |f|
    ensures forall k: nat | k <= 2 || k == len :: Forcing(f, Forced(f, n), n, k)
  {
    hide Distinct, Used;
    assert |h[1..len + 1]| == len == |Used(f, n)|;
    if len >= 2 {
      ManyForced(f, n);
    }
  }

  lemma OnesAt(n: nat, i: nat)
    requires i < n
    ensures Ones(n)[i] == 1
  {
  }
}
