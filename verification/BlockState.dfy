/** The state that gzip keeps from block to block, and how it writes a block. */
module BlockState {
  import opened Bits
  import opened BitWriter
  import opened Canonical
  import opened CodeLengths
  import opened Tokens
  import opened Inflate
  import opened BlockFormat
  import opened Sums
  import opened Trees
  import opened TreeBuilder
  import opened TreeLengths
  import opened OptimalLengths
  import opened BuildTree
  import opened CodeTables
  import opened Tally
  import opened BlockSize
  import opened BlockPlan
  import opened BlockBest
  import opened TreeDepth

  /** extra_blbits */
  const RUN_EXTRA: seq<nat> := [0, 0, 0, 0, 0, 0, 0, 0, 0, 0, 0, 0, 0, 0, 0, 0, 2, 3, 7]

  /** Sets the first frequencies of a tree to zero. */
  method Clear(fc: array<ush>, size: nat)
    requires size <= fc.Length
    modifies fc
    ensures forall i | 0 <= i < size :: fc[i] == 0
  {
    for n := 0 to size
      invariant forall i | 0 <= i < n :: fc[i] == 0
    {
      fc[n] := 0;
    }
  }

  /** The lengths of the three codes of a dynamic block. */
  datatype Codes = Codes(ll: seq<nat>, dd: seq<nat>, bl: seq<nat>, blCodes: nat)

  /** Lengths that build_tree makes for the literals and match lengths of some tokens. */
  ghost predicate BestLits(ts: seq<Token>, ll: seq<nat>)
  {
    AllValid(ts) && |ll| <= L_CODES && Best(LitFreqs(ts), ll, MAX_BITS)
  }

  /** The same for their distances. */
  ghost predicate BestDists(ts: seq<Token>, dd: seq<nat>)
  {
    AllValid(ts) && |dd| <= D_CODES && Best(DistFreqs(ts), dd, MAX_BITS)
  }

  /** The same for the symbols that describe both. */
  ghost predicate BestRuns(rs: seq<Run>, bl: seq<nat>)
  {
    (forall r | r in rs :: ValidRun(r)) && |bl| <= BL_CODES && Best(RunFreqs(rs), bl, 7)
  }

  ghost predicate BestCodes(ts: seq<Token>, c: Codes)
  {
    && BestLits(ts, c.ll) && BestDists(ts, c.dd)
    && AllShort(c.ll) && AllShort(c.dd) && BestRuns(Runs(c.ll, 0, -1, 0) + Runs(c.dd, 0, -1, 0), c.bl)
  }

  lemma AreBest(ts: seq<Token>, ll: seq<nat>, dd: seq<nat>, bl: seq<nat>, blCodes: nat)
    requires BestLits(ts, ll) && BestDists(ts, dd)
    requires AllShort(ll) && AllShort(dd) && BestRuns(Runs(ll, 0, -1, 0) + Runs(dd, 0, -1, 0), bl)
    ensures BestCodes(ts, Codes(ll, dd, bl, blCodes))
  {
    hide BestLits, BestDists, BestRuns;
  }

  class Coder {
    const buf: Buffers
    const dynL: CtTree
    const dynD: CtTree
    const statL: CtTree
    const statD: CtTree
    const blTree: CtTree
    const lDesc: TreeDesc
    const dDesc: TreeDesc
    const blDesc: TreeDesc
    const builder: Builder
    const tables: Tables
    const out: Output

    ghost predicate Described(desc: TreeDesc, tree: CtTree, static_: CtTree?, extra: seq<nat>, base: nat, elems: nat,
                              max: nat)
    {
      && desc.tree == tree && desc.staticTree == static_ && desc.extraBits == extra
      && desc.extraBase == base && desc.elems == elems && desc.maxLength == max
    }

    /** The sizes of the arrays and the three tree descriptors. */
    ghost predicate Wired()
    {
      && dynL.Valid() && dynD.Valid() && statL.Valid() && statD.Valid() && blTree.Valid()
      && dynL.fc.Length == HEAP_SIZE && dynD.fc.Length == 2 * D_CODES + 1 && blTree.fc.Length == 2 * BL_CODES + 1
      && statL.fc.Length == L_CODES + 2 && statD.fc.Length == D_CODES
      && Described(lDesc, dynL, statL, LENGTH_EXTRA, LITERALS + 1, L_CODES, MAX_BITS)
      && Described(dDesc, dynD, statD, DIST_EXTRA, 0, D_CODES, MAX_BITS)
      && Described(blDesc, blTree, null, RUN_EXTRA, 0, BL_CODES, 7)
      && lDesc != dDesc && lDesc != blDesc && dDesc != blDesc
      && builder.Valid() && tables.Valid() && buf.Sized()
    }

    /** No two parts share an array. */
    ghost predicate Apart()
    {
      dynL.Arrays() !! dynD.Arrays() !! blTree.Arrays() !! statL.Arrays() !! statD.Arrays()
      !! builder.Arrays() !! tables.Arrays() !! buf.Arrays() !! out.Arrays()
    }

    constructor (litSize8: nat, distSize: nat, outSize: nat, wide: bool)
      requires 8 <= litSize8 <= 0x1000 && 1 <= distSize && 4 <= outSize
      ensures Wired() && Apart() && out.Valid() && out.Bytes() == [] && out.biValid == 0
      ensures buf.flagBuf.Length == litSize8 && buf.dBuf.Length == distSize && buf.tokens == [] && buf.sent == []
      ensures fresh(Arrays()) && fresh({buf, lDesc, dDesc, blDesc, builder, out})
      ensures forall i | 0 <= i <= MAX_BITS :: builder.blCount[i] == 0
    {
      hide *;
      Sizes();
      var l, d, bl, sl, sd := NewTrees();
      ghost var s5 := l.Arrays() + d.Arrays() + bl.Arrays() + sl.Arrays() + sd.Arrays();
      lDesc := new TreeDesc(l, sl, LENGTH_EXTRA, LITERALS + 1, L_CODES, MAX_BITS);
      dDesc := new TreeDesc(d, sd, DIST_EXTRA, 0, D_CODES, MAX_BITS);
      blDesc := new TreeDesc(bl, null, RUN_EXTRA, 0, BL_CODES, 7);
      var bd, tb, bf, o := NewParts(litSize8, distSize, outSize, wide);
      assert s5 !! bd.Arrays() + tb.Arrays() + bf.Arrays() + o.Arrays();
      dynL, dynD, blTree, statL, statD := l, d, bl, sl, sd;
      builder, tables, buf, out := bd, tb, bf, o;
      new;
      IsWired();
      IsApart();
      ArraysAre();
    }

    lemma IsWired()
      requires dynL.Valid() && dynD.Valid() && statL.Valid() && statD.Valid() && blTree.Valid()
      requires dynL.fc.Length == HEAP_SIZE && dynD.fc.Length == 2 * D_CODES + 1 && blTree.fc.Length == 2 * BL_CODES + 1
      requires statL.fc.Length == L_CODES + 2 && statD.fc.Length == D_CODES
      requires lDesc.tree == dynL && lDesc.staticTree == statL && lDesc.extraBits == LENGTH_EXTRA
      requires lDesc.extraBase == LITERALS + 1 && lDesc.elems == L_CODES && lDesc.maxLength == MAX_BITS
      requires dDesc.tree == dynD && dDesc.staticTree == statD && dDesc.extraBits == DIST_EXTRA
      requires dDesc.extraBase == 0 && dDesc.elems == D_CODES && dDesc.maxLength == MAX_BITS
      requires blDesc.tree == blTree && blDesc.staticTree == null && blDesc.extraBits == RUN_EXTRA
      requires blDesc.extraBase == 0 && blDesc.elems == BL_CODES && blDesc.maxLength == 7
      requires lDesc != dDesc && lDesc != blDesc && dDesc != blDesc
      requires builder.Valid() && tables.Valid() && buf.Sized()
      ensures Wired()
    {
    }

    lemma IsApart()
      requires dynL.Arrays() !! dynD.Arrays() !! blTree.Arrays() !! statL.Arrays() !! statD.Arrays()
               !! builder.Arrays() !! tables.Arrays() !! buf.Arrays() !! out.Arrays()
      ensures Apart()
    {
    }

    lemma ArraysAre()
      ensures Arrays() == dynL.Arrays() + dynD.Arrays() + blTree.Arrays() + statL.Arrays() + statD.Arrays()
                        + builder.Arrays() + tables.Arrays() + buf.Arrays() + out.Arrays()
    {
    }

    ghost function Arrays(): (s: set<object>)
    {
      dynL.Arrays() + dynD.Arrays() + blTree.Arrays() + statL.Arrays() + statD.Arrays()
      + builder.Arrays() + tables.Arrays() + buf.Arrays() + out.Arrays()
    }


    /** ct_init has been called. */
    ghost predicate StaticReady()
      requires tables.Valid()
      reads statL.fc, statL.dl, statD.fc, statD.dl, tables.lengthCode, tables.baseLength, tables.distCode,
            tables.baseDist
    {
      && statL.Coded(FixedLitLens()) && statD.Coded(FixedDistLens())
      && tables.LengthsReady() && tables.DistsReady()
    }

    /** The frequencies are those of the tokens saved since the block began. */
    ghost predicate Counting()
      requires Wired()
      reads buf, buf.lBuf, buf.dBuf, buf.flagBuf, dynL.fc, dynD.fc, blTree.fc, builder
    {
      && buf.Valid()
      && dynL.fc[..L_CODES] == LitFreqs(buf.tokens) && dynD.fc[..D_CODES] == DistFreqs(buf.tokens)
      && (forall s | 0 <= s < BL_CODES :: blTree.fc[s] == 0)
      && builder.optLen == 0 && builder.staticLen == 0
    }

    /** init_block */
    method InitBlock()
      requires Wired() && Apart()
      modifies dynL.fc, dynD.fc, blTree.fc, builder`optLen, builder`staticLen, buf
      ensures Counting() && buf.tokens == [] && buf.sent == old(buf.sent + buf.tokens)
    {
      hide *;
      FreqsApart();
      Clear(dynL.fc, L_CODES);
      Clear(dynD.fc, D_CODES);
      Clear(blTree.fc, BL_CODES);
      dynL.fc[END_BLOCK] := 1;
      builder.optLen, builder.staticLen := 0, 0;
      buf.Reset();
      IsCounting();
    }

    lemma FreqsApart()
      requires Wired() && Apart()
      ensures dynL.fc != dynD.fc && dynL.fc != blTree.fc && dynD.fc != blTree.fc
      ensures 0 <= END_BLOCK < L_CODES <= dynL.fc.Length
      ensures 0 <= D_CODES <= dynD.fc.Length && 0 <= BL_CODES <= blTree.fc.Length && buf.Sized()
    {
      hide Buffers.Sized;
    }

    lemma IsCounting()
      requires Wired() && buf.Valid() && buf.tokens == [] && builder.optLen == 0 && builder.staticLen == 0
      requires forall s | 0 <= s < L_CODES :: dynL.fc[s] == if s == END_BLOCK then 1 else 0
      requires (forall s | 0 <= s < D_CODES :: dynD.fc[s] == 0) && forall s | 0 <= s < BL_CODES :: blTree.fc[s] == 0
      ensures Counting()
    {
      hide Buffers.Valid;
      assert dynL.fc[..L_CODES] == LitFreqs([]);
      assert dynD.fc[..D_CODES] == DistFreqs([]);
    }

    /** ct_init */
    method CtInit()
      requires Wired() && Apart() && forall i | 0 <= i <= MAX_BITS :: builder.blCount[i] == 0
      modifies tables.lengthCode, tables.baseLength, tables.distCode, tables.baseDist, statL.fc, statL.dl, statD.fc,
               statD.dl, builder.blCount, dynL.fc, dynD.fc, blTree.fc, builder`optLen, builder`staticLen, buf
      ensures StaticReady() && Counting() && buf.tokens == [] && buf.sent == old(buf.sent + buf.tokens)
    {
      hide *;
      StaticApart();
      InitStatics();
      InitBlock();
    }

    /** The tables and the two fixed codes. */
    method InitStatics()
      requires Wired() && Apart() && forall i | 0 <= i <= MAX_BITS :: builder.blCount[i] == 0
      modifies tables.lengthCode, tables.baseLength, tables.distCode, tables.baseDist
      modifies statL.fc, statL.dl, statD.fc, statD.dl, builder.blCount
      ensures StaticReady()
    {
      hide *;
      StaticApart();
      StaticSizes();
      tables.InitLengths();
      tables.InitDists();
      InitStatic(statL, statD, builder.blCount);
      StaticIsReady();
    }

    lemma StaticApart()
      requires Wired() && Apart()
      ensures tables.Valid()
      ensures {statL.fc, statL.dl} !! {statD.fc, statD.dl} !! {builder.blCount}
        !! {tables.lengthCode as object, tables.baseLength as object}
        !! {tables.distCode as object, tables.baseDist as object}
        !! {dynL.fc as object, dynD.fc as object, blTree.fc as object}
    {
    }

    lemma StaticSizes()
      requires Wired()
      ensures statL.Valid() && statL.fc.Length == 288 && statD.Valid() && statD.fc.Length == D_CODES
      ensures builder.blCount.Length == MAX_BITS + 1
    {
    }

    lemma StaticIsReady()
      requires tables.Valid() && statL.Coded(FixedLitLens()) && statD.Coded(FixedDistLens())
      requires tables.LengthsReady() && tables.DistsReady()
      ensures StaticReady()
    {
    }

    lemma TreesApart()
      requires Apart()
      ensures dynL.fc as object !in {dynD.fc as object, dynD.dl as object, blTree.fc as object, blTree.dl as object,
        builder.heap as object, builder.depth as object, builder.blCount as object}
      ensures dynL.dl as object !in {dynD.fc as object, dynD.dl as object, blTree.fc as object, blTree.dl as object,
        builder.heap as object, builder.depth as object, builder.blCount as object}
      ensures dynD.fc as object !in {blTree.fc as object, blTree.dl as object, builder.heap as object,
        builder.depth as object, builder.blCount as object}
      ensures dynD.dl as object !in {blTree.fc as object, blTree.dl as object, builder.heap as object,
        builder.depth as object, builder.blCount as object}
      ensures {blTree.fc as object, blTree.dl as object}
        !! {builder.heap as object, builder.depth as object, builder.blCount as object}
    {
      var l, d, bl, b := dynL.Arrays(), dynD.Arrays(), blTree.Arrays(), builder.Arrays();
      assert l !! d && l !! bl && l !! b && d !! bl && d !! b && bl !! b;
    }

    lemma DescsValid()
      requires Wired() && Apart()
      ensures lDesc.Valid() && dDesc.Valid() && blDesc.Valid() && builder.Valid()
      ensures builder.Apart(lDesc) && builder.Apart(dDesc) && builder.Apart(blDesc)
    {
      Pow2Constants();
      assert {statL.dl as object} !! dynL.Arrays() && {statD.dl as object} !! dynD.Arrays();
      assert dynL.Arrays() !! builder.Arrays() && dynD.Arrays() !! builder.Arrays()
        && blTree.Arrays() !! builder.Arrays();
      assert statL.Arrays() !! builder.Arrays() && statD.Arrays() !! builder.Arrays();
    }

    /** The literal/length tree holds a complete code for the tokens. */
    ghost predicate LitBuilt(ts: seq<Token>)
      requires Wired()
      reads lDesc, dynL.fc, dynL.dl
    {
      && AllValid(ts) && END_BLOCK <= lDesc.maxCode < L_CODES
      && dynL.Coded(dynL.dl[..lDesc.maxCode + 1]) && CompleteCode(dynL.dl[..lDesc.maxCode + 1], MAX_BITS)
      && Expresses(LitFreqs(ts), dynL.dl[..lDesc.maxCode + 1])
    }

    ghost predicate LitBest(ts: seq<Token>)
      reads lDesc, dynL.dl
    {
      0 <= lDesc.maxCode < dynL.dl.Length && BestLits(ts, dynL.dl[..lDesc.maxCode + 1])
    }

    /** build_tree(&l_desc) */
    method BuildLit(ghost ts: seq<Token>)
      requires Wired() && Apart() && statL.Coded(FixedLitLens()) && AllValid(ts) && |ts| < 0x8000
      requires dynL.fc[..L_CODES] == LitFreqs(ts)
      modifies builder, builder.heap, builder.depth, builder.blCount, lDesc`maxCode, dynL.fc, dynL.dl
      ensures LitBuilt(ts)
      ensures var n := lDesc.maxCode + 1;
              && builder.optLen == old(builder.optLen) + CodedSize(LitFreqs(ts), dynL.dl[..n], LitExtras(n))
              && builder.staticLen == old(builder.staticLen)
                + CodedSize(LitFreqs(ts), FixedLitLens()[..n], LitExtras(n))
      ensures LitBest(ts)
    {
      hide LitFreqs, DistFreqs, FixedLitLens, CodedSize, Builder.Valid, Builder.Apart, TreeDesc.Valid, KraftTo,
           Ordered, Optimal, OptimumFits, Forced, Used, Few, RangeSum, Best, Fibonacci;
      DescsValid();
      EndCounted(ts);
      FreqSums(ts);
      FewOf(dynL.fc[..], LitFreqs(ts), L_CODES);
      var freq := Build(builder, lDesc);
      ghost var n := lDesc.maxCode + 1;
      LitExtrasOf(lDesc.maxCode);
      assert statL.dl[..n] == FixedLitLens()[..n];
      assert forall x | 0 <= x < L_CODES :: LitFreqs(ts)[x] == old(dynL.fc[x]);
      assert LitFreqs(ts)[END_BLOCK] > 0;
      assert Expresses(LitFreqs(ts), dynL.dl[..n]);
      IsBest(LitFreqs(ts), freq, dynL.dl[..], n, MAX_BITS);
    }

    lemma LitExtrasOf(m: nat)
      requires Wired() && lDesc.Valid() && m < L_CODES
      ensures ExtraOf(lDesc, m) == LitExtras(m + 1)
    {
    }

    ghost predicate DistBuilt(ts: seq<Token>)
      requires Wired()
      reads dDesc, dynD.fc, dynD.dl
    {
      && AllValid(ts) && 0 <= dDesc.maxCode < D_CODES
      && dynD.Coded(dynD.dl[..dDesc.maxCode + 1]) && CompleteCode(dynD.dl[..dDesc.maxCode + 1], MAX_BITS)
      && Expresses(DistFreqs(ts), dynD.dl[..dDesc.maxCode + 1])
    }

    ghost predicate DistBest(ts: seq<Token>)
      reads dDesc, dynD.dl
    {
      0 <= dDesc.maxCode < dynD.dl.Length && BestDists(ts, dynD.dl[..dDesc.maxCode + 1])
    }

    /** build_tree(&d_desc) */
    method BuildDist(ghost ts: seq<Token>)
      requires Wired() && Apart() && statD.Coded(FixedDistLens()) && AllValid(ts) && |ts| < 0x8000
      requires dynD.fc[..D_CODES] == DistFreqs(ts)
      modifies builder, builder.heap, builder.depth, builder.blCount, dDesc`maxCode, dynD.fc, dynD.dl
      ensures DistBuilt(ts)
      ensures var n := dDesc.maxCode + 1;
              && builder.optLen == old(builder.optLen) + CodedSize(DistFreqs(ts), dynD.dl[..n], DistExtras(n))
              && builder.staticLen == old(builder.staticLen)
                + CodedSize(DistFreqs(ts), FixedDistLens()[..n], DistExtras(n))
      ensures DistBest(ts)
    {
      hide LitFreqs, DistFreqs, FixedDistLens, CodedSize, Builder.Valid, Builder.Apart, TreeDesc.Valid, KraftTo,
           Ordered, Optimal, OptimumFits, Forced, Used, Few, RangeSum, Best, Fibonacci;
      DescsValid();
      FreqSums(ts);
      FewOf(dynD.fc[..], DistFreqs(ts), D_CODES);
      var freq := Build(builder, dDesc);
      ghost var n := dDesc.maxCode + 1;
      DistExtrasOf(dDesc.maxCode);
      assert statD.dl[..n] == FixedDistLens()[..n];
      assert forall x | 0 <= x < D_CODES :: DistFreqs(ts)[x] == old(dynD.fc[x]);
      assert Expresses(DistFreqs(ts), dynD.dl[..n]);
      IsBest(DistFreqs(ts), freq, dynD.dl[..], n, MAX_BITS);
    }

    lemma DistExtrasOf(m: nat)
      requires Wired() && dDesc.Valid() && m < D_CODES
      ensures ExtraOf(dDesc, m) == DistExtras(m + 1)
    {
    }

    /** build_tree(&bl_desc) */
    method BuildRuns(ghost rs: seq<Run>)
      requires Wired() && Apart() && (forall r | r in rs :: ValidRun(r)) && |rs| < 0x8000
      requires blTree.fc[..BL_CODES] == RunFreqs(rs)
      modifies builder, builder.heap, builder.depth, builder.blCount, blDesc`maxCode, blTree.fc, blTree.dl
      ensures blTree.Coded(blTree.dl[..BL_CODES]) && CompleteCode(blTree.dl[..BL_CODES], 7)
      ensures CoversRuns(blTree.dl[..BL_CODES], rs) && BestRuns(rs, blTree.dl[..BL_CODES])
      ensures builder.optLen == old(builder.optLen) + |RunsBits(blTree.dl[..BL_CODES], rs)|
      ensures builder.staticLen == old(builder.staticLen)
    {
      hide CodedSize, Builder.Valid, Builder.Apart, TreeDesc.Valid, KraftTo, Ordered, Optimal, OptimumFits, Forced,
           Used, RunFreqs, CtTree.Coded, Few, RangeSum, Best, Fibonacci;
      DescsValid();
      RunSum(rs);
      FewOf(blTree.fc[..], RunFreqs(rs), BL_CODES);
      var freq := Build(builder, blDesc);
      ghost var n, bl := blDesc.maxCode + 1, blTree.dl[..BL_CODES];
      assert bl[..n] == blTree.dl[..n];
      RunExtrasOf(blDesc.maxCode);
      assert forall x | 0 <= x < BL_CODES :: RunFreqs(rs)[x] == old(blTree.fc[x]);
      RunsExpressed(rs, blTree.dl[..n], bl);
      PaddedCode(blTree, n, BL_CODES);
      RunsSize(bl, rs, n);
      IsBest(RunFreqs(rs), freq, blTree.dl[..], BL_CODES, 7);
    }

    lemma RunExtrasOf(m: nat)
      requires Wired() && blDesc.Valid() && m < BL_CODES
      ensures ExtraOf(blDesc, m) == RunExtras(m + 1)
    {
    }

    /** The calls of scan_tree in build_bl_tree. */
    method ScanTrees(ghost ll: seq<nat>, ghost dd: seq<nat>)
      requires Wired() && Apart() && AllShort(ll) && AllShort(dd) && dynL.Coded(ll) && dynD.Coded(dd)
      requires 0 <= lDesc.maxCode < L_CODES && dynL.dl[..lDesc.maxCode + 1] == ll
      requires 0 <= dDesc.maxCode < D_CODES && dynD.dl[..dDesc.maxCode + 1] == dd
      requires forall s | 0 <= s < BL_CODES :: blTree.fc[s] == 0
      modifies dynL.dl, dynD.dl, blTree.fc
      ensures blTree.fc[..BL_CODES] == RunFreqs(Runs(ll, 0, -1, 0) + Runs(dd, 0, -1, 0))
      ensures dynL.Coded(ll) && dynD.Coded(dd)
      ensures dynL.dl[..|ll|] == ll && dynL.dl[|ll|] == 0xffff && dynD.dl[..|dd|] == dd && dynD.dl[|dd|] == 0xffff
    {
      hide Runs, Occurs, RunFreqs, Code, Reversed;
      ScanTree(dynL, lDesc.maxCode, blTree);
      ScanTree(dynD, dDesc.maxCode, blTree);
      RunsJoin(Runs(ll, 0, -1, 0), Runs(dd, 0, -1, 0));
    }

    /** The last loop of build_bl_tree: how many code length code lengths to send. */
    method LastBlIndex(ghost r: Run) returns (maxBlindex: nat)
      requires Wired() && ValidRun(r) && r.Length? && blTree.dl[Symbol(r)] > 0
      ensures 3 <= maxBlindex < BL_CODES && blTree.dl[BlOrder(maxBlindex)] != 0
      ensures forall s | 0 <= s < BL_CODES && BlRank(s) > maxBlindex :: blTree.dl[s] == 0
    {
      hide BlOrder, BlRank;
      LengthRank(r);
      BlOrderInverse(Symbol(r));
      var m: int := BL_CODES - 1;
      while m >= 3
        invariant BlRank(Symbol(r)) <= m < BL_CODES
        invariant forall k | m < k < BL_CODES :: blTree.dl[BlOrder(k)] == 0
      {
        if blTree.dl[BlOrder(m)] != 0 {
          break;
        }
        m := m - 1;
      }
      maxBlindex := m;
      forall s | 0 <= s < BL_CODES && BlRank(s) > maxBlindex ensures blTree.dl[s] == 0 {
        BlOrderInverse(s);
      }
    }

    ghost predicate HasCodes(c: Codes)
      requires Wired()
      reads lDesc, dDesc, dynL.fc, dynL.dl, dynD.fc, dynD.dl, blTree.fc, blTree.dl
    {
      && |c.ll| == lDesc.maxCode + 1 && dynL.Coded(c.ll) && |c.ll| < dynL.dl.Length && dynL.dl[|c.ll|] == 0xffff
      && |c.dd| == dDesc.maxCode + 1 && dynD.Coded(c.dd) && |c.dd| < dynD.dl.Length && dynD.dl[|c.dd|] == 0xffff
      && blTree.Coded(c.bl)
    }

    /** build_bl_tree: chooses the code length code and adds the size of the header. */
    method BuildBlTree(ghost ts: seq<Token>) returns (maxBlindex: nat, ghost c: Codes)
      requires Wired() && Apart() && LitBuilt(ts) && DistBuilt(ts) && LitBest(ts) && DistBest(ts)
      requires forall s | 0 <= s < BL_CODES :: blTree.fc[s] == 0
      modifies builder, builder.heap, builder.depth, builder.blCount, blDesc`maxCode, blTree.fc, blTree.dl, dynL.dl,
               dynD.dl
      ensures maxBlindex + 1 == c.blCodes && HasCodes(c)
      ensures c.ll == old(dynL.dl[..lDesc.maxCode + 1]) && c.dd == old(dynD.dl[..dDesc.maxCode + 1])
      ensures ValidHeader(c.ll, c.dd, c.bl, c.blCodes) && PrefixFree(c.bl) && BestCodes(ts, c)
      ensures builder.optLen == old(builder.optLen) + |TreesBits(c.ll, c.dd, c.bl, c.blCodes)|
      ensures builder.staticLen == old(builder.staticLen)
    {
      hide *;
      Sizes();
      TreesApart();
      BuiltFacts(ts);
      BestFacts(ts);
      ghost var ll, dd := dynL.dl[..lDesc.maxCode + 1], dynD.dl[..dDesc.maxCode + 1];
      ghost var rl, rd := Runs(ll, 0, -1, 0), Runs(dd, 0, -1, 0);
      ScanTrees(ll, dd);
      RunsJoin(rl, rd);
      RunsShort(ll, 0, -1, 0);
      RunsShort(dd, 0, -1, 0);
      BuildRuns(rl + rd);
      ghost var bl := blTree.dl[..BL_CODES];
      EndHasWord(ts, ll);
      ghost var r := SomeLengthSent(ll, END_BLOCK);
      CoversParts(bl, rl, rd, r);
      maxBlindex := LastBlIndex(r);
      builder.optLen := builder.optLen + 3 * (maxBlindex + 1) + 5 + 5 + 4;
      c := Codes(ll, dd, bl, maxBlindex + 1);
      HeaderBuilt(ll, dd, bl, maxBlindex + 1);
      CodesBuilt(c);
      AreBest(ts, ll, dd, bl, maxBlindex + 1);
    }

    lemma BuiltFacts(ts: seq<Token>)
      requires Wired() && LitBuilt(ts) && DistBuilt(ts)
      ensures END_BLOCK == 256 <= lDesc.maxCode < L_CODES && 0 <= dDesc.maxCode < D_CODES && AllValid(ts)
      ensures L_CODES < dynL.dl.Length == dynL.fc.Length && D_CODES < dynD.dl.Length == dynD.fc.Length
      ensures BL_CODES < blTree.dl.Length == blTree.fc.Length && lDesc != blDesc && dDesc != blDesc
      ensures dynL.fc != dynL.dl && dynD.fc != dynD.dl && blTree.fc != blTree.dl
      ensures var ll, dd := dynL.dl[..lDesc.maxCode + 1], dynD.dl[..dDesc.maxCode + 1];
              && dynL.Coded(ll) && dynD.Coded(dd) && AllShort(ll) && AllShort(dd)
              && CompleteCode(ll, MAX_BITS) && CompleteCode(dd, MAX_BITS)
              && Expresses(LitFreqs(ts), ll) && Expresses(DistFreqs(ts), dd)
    {
    }

    lemma BestFacts(ts: seq<Token>)
      requires LitBest(ts) && DistBest(ts)
      ensures 0 <= lDesc.maxCode < dynL.dl.Length && 0 <= dDesc.maxCode < dynD.dl.Length
      ensures BestLits(ts, dynL.dl[..lDesc.maxCode + 1]) && BestDists(ts, dynD.dl[..dDesc.maxCode + 1])
    {
      hide BestLits, BestDists;
    }

    /** Everything that changes while a file is compressed. */
    ghost function Region(): (s: set<object>)
    {
      {buf, builder, lDesc, dDesc, blDesc, out} + Arrays()
    }

    ghost predicate Ready()
      reads Region()
    {
      && Wired() && Apart() && out.Valid()
      && StaticReady() && Counting()
    }

    /** ct_tally */
    method Tally(dist: nat, lc: byte, inLength: nat) returns (flush: bool)
      requires Ready() && buf.lastLit + 1 < buf.lBuf.Length && buf.lastDist < buf.dBuf.Length && dist <= 0x8000
      modifies Region()
      ensures Ready() && buf.tokens == old(buf.tokens) + [Tallied(dist, lc)] && out.Stream() == old(out.Stream())
      ensures buf.sent == old(buf.sent)
      ensures flush <==>
              || (buf.lastLit % 0x1000 == 0 && buf.lastDist < buf.lastLit / 2 && Guess(buf.tokens) / 8 < inLength / 2)
              || buf.lastLit == buf.lBuf.Length - 1 || buf.lastDist == buf.dBuf.Length
      ensures !flush ==> buf.lastLit + 1 < buf.lBuf.Length && buf.lastDist < buf.dBuf.Length
    {
      hide *;
      TallyFacts();
      forall a: object | Outside(a) { OutsideIs(a); }
      flush := CtTally(buf, dynL, dynD, tables, dist, lc, inLength);
      StillReady();
    }

    lemma BeginFacts()
      requires Apart()
      ensures out.outbuf as object !in Scratch() && out.outbuf as object !in buf.Arrays()
      ensures out.outbuf as object !in {statL.fc as object, statL.dl as object, statD.fc as object, statD.dl as object}
      ensures out.outbuf as object !in {tables.lengthCode as object, tables.baseLength as object,
        tables.distCode as object, tables.baseDist as object}
      ensures {dynL.fc as object, dynL.dl as object, dynD.fc as object, dynD.dl as object, blTree.fc as object,
        blTree.dl as object, builder.heap as object, builder.depth as object, builder.blCount as object} <= Scratch()
      ensures buf.lBuf as object in buf.Arrays() && buf.flagBuf as object in buf.Arrays() && buf.dBuf in buf.Arrays()
      ensures {statL.fc as object, statL.dl as object, statD.fc as object, statD.dl as object,
        tables.lengthCode as object, tables.baseLength as object, tables.distCode as object,
          tables.baseDist as object} <= Region()
      ensures Scratch() <= Region() && buf.Arrays() <= Region() && buf in Region() && out in Region()
        && out.outbuf as object in Region() && builder in Region()
      ensures allocated(Region())
    {
      assert out.Arrays() !! Scratch() && out.Arrays() !! buf.Arrays();
      assert out.Arrays() !! statL.Arrays() + statD.Arrays() + tables.Arrays();
      assert out.outbuf as object in out.Arrays();
    }

    lemma TallyFacts()
      requires Ready()
      ensures Wired() && Apart() && out.Valid() && StaticReady() && Counting() && buf.Valid()
      ensures tables.Valid() && tables.LengthsReady() && tables.DistsReady()
      ensures dynL.Valid() && L_CODES <= dynL.fc.Length && dynL.fc[..L_CODES] == LitFreqs(buf.tokens)
      ensures dynD.Valid() && D_CODES <= dynD.fc.Length && dynD.fc[..D_CODES] == DistFreqs(buf.tokens)
      ensures BL_CODES <= blTree.fc.Length && builder.optLen == 0 && builder.staticLen == 0
      ensures forall s | 0 <= s < BL_CODES :: blTree.fc[s] == 0
      ensures {buf.lBuf as object, buf.flagBuf as object}
        !! {buf.dBuf as object, dynL.fc as object, dynD.fc as object, tables.lengthCode as object,
          tables.distCode as object}
      ensures dynL.fc != dynD.fc && {tables.lengthCode as object, tables.distCode as object}
        !! {dynL.fc as object, dynD.fc as object}
      ensures buf.dBuf as object !in {dynL.fc as object, dynD.fc as object, tables.lengthCode as object,
        tables.distCode as object, tables.baseLength as object, tables.baseDist as object}
      ensures Outside(blTree.fc) && Outside(out.outbuf) && Outside(statL.fc) && Outside(statL.dl)
        && Outside(statD.fc) && Outside(statD.dl)
      ensures Outside(tables.lengthCode) && Outside(tables.baseLength) && Outside(tables.distCode)
        && Outside(tables.baseDist)
      ensures {buf, buf.lBuf, buf.dBuf, buf.flagBuf, dynL.fc, dynD.fc} <= Region()
    {
      hide LitFreqs, DistFreqs, FixedLitLens, FixedDistLens, CtTree.Coded, Tables.LengthsReady, Tables.DistsReady,
           Buffers.Valid;
      var used, others := buf.Arrays() + dynL.Arrays() + dynD.Arrays(),
        blTree.Arrays() + out.Arrays() + statL.Arrays() + statD.Arrays() + tables.Arrays();
      assert used !! others && buf.Arrays() !! dynL.Arrays() && buf.Arrays() !! dynD.Arrays()
        && dynL.Arrays() !! dynD.Arrays();
      assert used <= Region();
    }

    /** The array is none of those that ct_tally writes. */
    ghost predicate Outside(a: object)
    {
      a !in {buf.lBuf as object, buf.dBuf as object, buf.flagBuf as object, dynL.fc as object, dynD.fc as object}
    }

    lemma OutsideIs(a: object)
      requires Outside(a)
      ensures a != buf.lBuf && a != buf.dBuf && a != buf.flagBuf && a != dynL.fc && a != dynD.fc
    {
    }

    /** After init_block there is room for more tokens. */
    lemma IsReady()
      requires Wired() && Apart() && out.Valid() && StaticReady() && Counting() && buf.tokens == []
      ensures Ready() && buf.lastLit + 1 < buf.lBuf.Length && buf.lastDist < buf.dBuf.Length
    {
      hide LitFreqs, DistFreqs, FixedLitLens, FixedDistLens, CtTree.Coded, Tables.LengthsReady, Tables.DistsReady;
    }

    lemma StillReady()
      requires Wired() && Apart() && out.Valid() && StaticReady() && buf.Valid()
      requires dynL.fc[..L_CODES] == LitFreqs(buf.tokens) && dynD.fc[..D_CODES] == DistFreqs(buf.tokens)
      requires (forall s | 0 <= s < BL_CODES :: blTree.fc[s] == 0) && builder.optLen == 0 && builder.staticLen == 0
      ensures Ready()
    {
      hide LitFreqs, DistFreqs, FixedLitLens, FixedDistLens, CtTree.Coded, Tables.LengthsReady, Tables.DistsReady,
           Buffers.Valid;
    }

    lemma StartFacts()
      requires Wired() && Apart() && StaticReady() && Counting()
      ensures builder.optLen == 0 && builder.staticLen == 0 && AllValid(buf.tokens) && |buf.tokens| < 0x8000
      ensures statL.Coded(FixedLitLens()) && statD.Coded(FixedDistLens())
      ensures L_CODES <= dynL.fc.Length && D_CODES <= dynD.fc.Length && BL_CODES <= blTree.fc.Length
      ensures dynL.fc[..L_CODES] == LitFreqs(buf.tokens) && dynD.fc[..D_CODES] == DistFreqs(buf.tokens)
      ensures forall s | 0 <= s < BL_CODES :: blTree.fc[s] == 0
      ensures lDesc != dDesc && dynD.fc as object !in {dynL.fc as object, dynL.dl as object, builder.heap as object,
        builder.depth as object, builder.blCount as object}
      ensures dynL.fc as object !in {dynD.fc as object, dynD.dl as object, builder.heap as object,
        builder.depth as object, builder.blCount as object}
      ensures dynL.dl as object !in {dynD.fc as object, dynD.dl as object, builder.heap as object,
        builder.depth as object, builder.blCount as object}
      ensures {blTree.fc as object, statD.fc as object, statD.dl as object, statL.fc as object, statL.dl as object}
        !! {dynL.fc as object, dynL.dl as object, dynD.fc as object, dynD.dl as object, builder.heap as object,
          builder.depth as object, builder.blCount as object}
    {
      hide LitFreqs, DistFreqs, FixedLitLens, FixedDistLens, CtTree.Coded, Buffers.Valid;
      TreesApart();
      assert statL.Arrays() + statD.Arrays() !! dynL.Arrays() + dynD.Arrays() + builder.Arrays();
      buf.Room();
    }

    /** flush_block saves the flags of the last items first. */
    method SaveFlags(ghost window: array<byte>)
      requires Wired() && Apart() && StaticReady() && Counting() && window as object !in Arrays()
      modifies buf.flagBuf
      ensures StaticReady() && Counting() && buf.Valid() && buf.flagBuf[buf.lastFlags] == buf.flags
    {
      hide LitFreqs, DistFreqs, FixedLitLens, FixedDistLens, CtTree.Coded, Tables.LengthsReady, Tables.DistsReady,
           Buffers.Valid;
      assert buf.Arrays() !! dynL.Arrays() + dynD.Arrays() + blTree.Arrays() + statL.Arrays() + statD.Arrays()
        + tables.Arrays() + builder.Arrays();
      buf.Room();
      buf.SaveFlags();
    }

    ghost function Scratch(): (s: set<object>)
    {
      dynL.Arrays() + dynD.Arrays() + blTree.Arrays() + builder.Arrays()
    }

    lemma FlushFacts(window: array<byte>)
      requires Apart() && window as object !in Arrays()
      ensures window as object !in Scratch() && window !in {out.outbuf, buf.flagBuf}
      ensures buf.lBuf as object !in Scratch() && buf.flagBuf as object !in Scratch() && buf.dBuf !in Scratch()
      ensures statL.fc !in Scratch() && statL.dl !in Scratch() && statD.fc !in Scratch() && statD.dl !in Scratch()
      ensures tables.lengthCode !in Scratch() && tables.baseLength !in Scratch()
      ensures tables.distCode !in Scratch() && tables.baseDist !in Scratch()
      ensures out.outbuf as object !in Scratch() && out.outbuf as object !in buf.Arrays()
      ensures buf.lBuf as object in buf.Arrays() && buf.flagBuf as object in buf.Arrays() && buf.dBuf in buf.Arrays()
      ensures {dynL.fc as object, dynL.dl as object, dynD.fc as object, dynD.dl as object, blTree.fc as object,
        blTree.dl as object, builder.heap as object, builder.depth as object, builder.blCount as object} <= Scratch()
    {
      assert out.Arrays() !! buf.Arrays();
      assert Scratch() !! buf.Arrays() + statL.Arrays() + statD.Arrays() + tables.Arrays() + out.Arrays();
      assert buf.flagBuf as object in buf.Arrays() && out.outbuf as object in out.Arrays();
      assert Scratch() + buf.Arrays() + out.Arrays() <= Arrays();
    }

    lemma ScratchFacts()
      ensures buf as object !in Scratch() && out as object !in Scratch() && Scratch() <= Region()
      ensures {dynL.fc as object, dynL.dl as object, dynD.fc as object, dynD.dl as object, blTree.fc as object,
        blTree.dl as object, builder.heap as object, builder.depth as object, builder.blCount as object} <= Scratch()
    {
    }

    lemma RegionFacts()
      ensures {builder as object, lDesc as object, dDesc as object, blDesc as object, buf as object,
        out as object} <= Region()
      ensures {dynL.fc, dynL.dl, dynD.fc, dynD.dl, blTree.fc, blTree.dl} <= Region()
      ensures {builder.heap as object, builder.depth as object, builder.blCount as object} <= Region()
        && {buf.flagBuf as object, out.outbuf as object} <= Region()
      ensures forall a: object | a in Arrays() :: a in Region()
    {
    }

    lemma EndFacts()
      requires Wired() && Apart()
      ensures tables.Valid()
      ensures {statL.fc as object, statL.dl as object, statD.fc as object, statD.dl as object,
        tables.lengthCode as object, tables.baseLength as object, tables.distCode as object, tables.baseDist as object}
        !! {dynL.fc, dynD.fc, blTree.fc}
      ensures out.outbuf as object !in {dynL.fc as object, dynD.fc as object, blTree.fc as object,
        buf.dBuf as object} && out.outbuf as object !in {buf.lBuf as object, buf.flagBuf as object}
      ensures out.outbuf as object !in {statL.fc as object, statL.dl as object, statD.fc as object, statD.dl as object}
      ensures out.outbuf as object !in {tables.lengthCode as object, tables.baseLength as object,
        tables.distCode as object, tables.baseDist as object}
    {
    }

    lemma CompressFacts(c: Codes)
      requires Wired() && Apart() && StaticReady() && HasCodes(c)
      ensures statL.Coded(FixedLitLens()) && statD.Coded(FixedDistLens())
      ensures dynL.Coded(c.ll) && dynD.Coded(c.dd) && |c.ll| == lDesc.maxCode + 1 && |c.dd| == dDesc.maxCode + 1
      ensures tables.Valid() && tables.LengthsReady() && tables.DistsReady()
      ensures out.outbuf !in {buf.lBuf, buf.flagBuf}
      ensures out.outbuf as object !in {dynL.fc as object, dynL.dl as object, dynD.fc as object, dynD.dl as object,
        buf.dBuf as object}
      ensures out.outbuf as object !in {statL.fc as object, statL.dl as object, statD.fc as object, statD.dl as object}
      ensures out.outbuf as object !in {tables.lengthCode as object, tables.baseLength as object,
        tables.distCode as object, tables.baseDist as object}
      ensures out.outbuf as object !in {blTree.fc as object, blTree.dl as object}
    {
      hide FixedLitLens, FixedDistLens, CtTree.Coded, Tables.LengthsReady, Tables.DistsReady;
      assert out.Arrays() !! buf.Arrays() + dynL.Arrays() + dynD.Arrays() + blTree.Arrays() + statL.Arrays()
        + statD.Arrays() + tables.Arrays();
    }

    lemma SendFacts(c: Codes)
      requires Wired() && Apart() && HasCodes(c)
      ensures dynL.Valid() && dynD.Valid() && blTree.Coded(c.bl)
      ensures |c.ll| < dynL.dl.Length && dynL.dl[..|c.ll|] == c.ll && dynL.dl[|c.ll|] == 0xffff
      ensures |c.dd| < dynD.dl.Length && dynD.dl[..|c.dd|] == c.dd && dynD.dl[|c.dd|] == 0xffff
      ensures out.outbuf as object !in {dynL.dl as object, dynD.dl as object, blTree.fc as object, blTree.dl as object}
    {
      hide Code, Reversed;
      assert out.Arrays() !! dynL.Arrays() + dynD.Arrays() + blTree.Arrays();
    }

    lemma CodesBuilt(c: Codes)
      requires Wired() && |c.ll| == lDesc.maxCode + 1 && |c.dd| == dDesc.maxCode + 1
      requires |c.ll| < dynL.dl.Length && dynL.dl[..|c.ll|] == c.ll && dynL.dl[|c.ll|] == 0xffff
      requires |c.dd| < dynD.dl.Length && dynD.dl[..|c.dd|] == c.dd && dynD.dl[|c.dd|] == 0xffff
      requires dynL.Coded(c.ll) && dynD.Coded(c.dd) && blTree.Coded(c.bl)
      ensures HasCodes(c)
    {
    }
  }

  lemma {:induction false} HeaderBuilt(ll: seq<nat>, dd: seq<nat>, bl: seq<nat>, blCodes: nat)
    requires 257 <= |ll| <= L_CODES && 1 <= |dd| <= D_CODES && 4 <= blCodes <= BL_CODES && AllShort(ll) && AllShort(dd)
    requires CompleteCode(bl, 7) && CoversRuns(bl, Runs(ll, 0, -1, 0)) && CoversRuns(bl, Runs(dd, 0, -1, 0))
    requires forall s | 0 <= s < BL_CODES && BlRank(s) >= blCodes :: bl[s] == 0
    ensures ValidHeader(ll, dd, bl, blCodes) && PrefixFree(bl)
    ensures |TreesBits(ll, dd, bl, blCodes)| ==
      14 + 3 * blCodes + |RunsBits(bl, Runs(ll, 0, -1, 0) + Runs(dd, 0, -1, 0))|
  {
    hide Runs, RunsBits, KraftTo, PrefixFree, BlRank, TreesBits;
    CanonicalPrefixFree(bl, 7);
    HeaderSize(ll, dd, bl, blCodes);
  }

  lemma {:induction false} EndHasWord(ts: seq<Token>, ll: seq<nat>)
    requires AllValid(ts) && Expresses(LitFreqs(ts), ll)
    ensures END_BLOCK < |ll| && ll[END_BLOCK] > 0
  {
    EndCounted(ts);
  }

  lemma CoversParts(bl: seq<nat>, a: seq<Run>, b: seq<Run>, r: Run)
    requires CoversRuns(bl, a + b) && r in a
    ensures CoversRuns(bl, a) && CoversRuns(bl, b) && ValidRun(r) && bl[Symbol(r)] > 0
  {
    assert (forall q | q in a :: q in a + b) && (forall q | q in b :: q in a + b);
  }

  method NewTrees() returns (l: CtTree, d: CtTree, bl: CtTree, sl: CtTree, sd: CtTree)
    ensures l.Valid() && d.Valid() && bl.Valid() && sl.Valid() && sd.Valid()
    ensures l.fc.Length == HEAP_SIZE && d.fc.Length == 2 * D_CODES + 1 && bl.fc.Length == 2 * BL_CODES + 1
    ensures sl.fc.Length == L_CODES + 2 && sd.fc.Length == D_CODES
    ensures l.Arrays() !! d.Arrays() !! bl.Arrays() !! sl.Arrays() !! sd.Arrays()
    ensures fresh(l.Arrays() + d.Arrays() + bl.Arrays() + sl.Arrays() + sd.Arrays())
    ensures allocated(l.Arrays() + d.Arrays() + bl.Arrays() + sl.Arrays() + sd.Arrays())
  {
    hide *;
    Sizes();
    l := new CtTree(HEAP_SIZE);
    d := new CtTree(2 * D_CODES + 1);
    ghost var s2 := l.Arrays() + d.Arrays();
    bl := new CtTree(2 * BL_CODES + 1);
    assert s2 !! bl.Arrays();
    ghost var s3 := s2 + bl.Arrays();
    sl := new CtTree(L_CODES + 2);
    assert s3 !! sl.Arrays();
    sd := new CtTree(D_CODES);
  }

  method NewParts(litSize8: nat, distSize: nat, outSize: nat, wide: bool)
    returns (bd: Builder, tb: Tables, bf: Buffers, o: Output)
    requires 8 <= litSize8 <= 0x1000 && 1 <= distSize && 4 <= outSize
    ensures bd.Valid() && tb.Valid() && bf.Sized() && o.Valid() && o.Bytes() == [] && o.biValid == 0
    ensures bf.flagBuf.Length == litSize8 && bf.dBuf.Length == distSize && bf.tokens == [] && bf.sent == []
    ensures forall i | 0 <= i <= MAX_BITS :: bd.blCount[i] == 0
    ensures bd.Arrays() !! tb.Arrays() !! bf.Arrays() !! o.Arrays()
    ensures fresh(bd.Arrays() + tb.Arrays() + bf.Arrays() + o.Arrays()) && fresh({bd, bf, o})
    ensures allocated(bd.Arrays() + tb.Arrays() + bf.Arrays() + o.Arrays())
  {
    hide *;
    Sizes();
    bd := new Builder();
    tb := new Tables();
    ghost var s2 := bd.Arrays() + tb.Arrays();
    bf := new Buffers(litSize8, distSize);
    assert s2 !! bf.Arrays();
    o := new Output(outSize, wide);
  }

  lemma Sizes()
    ensures HEAP_SIZE == 573 && D_CODES == 30 && BL_CODES == 19 && L_CODES == 286 && LITERALS == 256 && MAX_BITS == 15
  {
  }
}
