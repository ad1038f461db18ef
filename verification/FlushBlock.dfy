/** flush_block: chooses the shortest of the three formats and writes the block. */
module FlushBlock {
  import opened Bits
  import opened BitWriter
  import opened Canonical
  import opened Options
  import opened CodeLengths
  import opened Tokens
  import opened Inflate
  import opened BlockFormat
  import opened Trees
  import opened TreeBuilder
  import opened TreeLengths
  import opened OptimalLengths
  import opened BuildTree
  import opened Tally
  import opened BlockSize
  import opened BlockPlan
  import opened BlockBest
  import opened BlockWriter
  import opened BlockState

  /** The dynamic form of the block. */
  function Dynamic(ts: seq<Token>, c: Codes): (b: Block)
  {
    DynamicBlock(ts, c.ll, c.dd, c.bl, c.blCodes)
  }

  /** The bits of a compressed block after its three bits of kind. */
  ghost function DynamicSize(ts: seq<Token>, c: Codes): (n: nat)
    requires ValidBlock(Dynamic(ts, c))
  {
    |TreesBits(c.ll, c.dd, c.bl, c.blCodes)| + |BodyBits(c.ll, c.dd, ts)|
  }

  ghost function StaticSize(ts: seq<Token>): (n: nat)
    requires ValidBlock(StaticBlock(ts))
  {
    FixedHasEnd();
    |BodyBits(FixedLitLens(), FixedDistLens(), ts)|
  }

  lemma {:induction false} PlanIsValid(ts: seq<Token>, c: Codes)
    requires AllValid(ts) && ValidHeader(c.ll, c.dd, c.bl, c.blCodes) && PrefixFree(c.bl)
    requires CompleteCode(c.ll, MAX_BITS) && CompleteCode(c.dd, MAX_BITS)
    requires Expresses(LitFreqs(ts), c.ll) && Expresses(DistFreqs(ts), c.dd)
    ensures ValidBlock(Dynamic(ts, c)) && ValidBlock(StaticBlock(ts))
    ensures |BodyBits(c.ll, c.dd, ts)|
         == CodedSize(LitFreqs(ts), c.ll, LitExtras(|c.ll|)) + CodedSize(DistFreqs(ts), c.dd, DistExtras(|c.dd|))
    ensures StaticSize(ts)
         == CodedSize(LitFreqs(ts), FixedLitLens()[..|c.ll|], LitExtras(|c.ll|))
          + CodedSize(DistFreqs(ts), FixedDistLens()[..|c.dd|], DistExtras(|c.dd|))
  {
    hide LitFreqs, DistFreqs, KraftTo, PrefixFree, CodedSize, LitExtras, DistExtras, BodyBits, FixedLitLens,
         FixedDistLens, Runs, Expresses, SymbolsBelow, AllCodable, BlRank, CoversRuns;
    CanonicalPrefixFree(c.ll, MAX_BITS);
    CanonicalPrefixFree(c.dd, MAX_BITS);
    TokensExpressed(ts, c.ll, c.dd);
    FixedExpresses(ts);
    FixedHasEnd();
    BodySize(ts, c.ll, c.dd, |c.ll|, |c.dd|);
    assert c.ll[..|c.ll|] == c.ll && c.dd[..|c.dd|] == c.dd;
    BodySize(ts, FixedLitLens(), FixedDistLens(), |c.ll|, |c.dd|);
  }

  /** The first half of flush_block: opt_len and static_len are exactly the
      sizes of the dynamic and the static form. */
  method PlanBlock(g: Coder) returns (maxBlindex: nat, ghost c: Codes)
    requires g.Wired() && g.Apart() && g.StaticReady() && g.Counting()
    modifies g.builder, g.lDesc`maxCode, g.dDesc`maxCode, g.blDesc`maxCode, g.Scratch()
    ensures g.HasCodes(c) && c.blCodes == maxBlindex + 1
    ensures ValidBlock(Dynamic(g.buf.tokens, c)) && ValidBlock(StaticBlock(g.buf.tokens)) && BestCodes(g.buf.tokens, c)
    ensures g.builder.optLen == DynamicSize(g.buf.tokens, c) && g.builder.staticLen == StaticSize(g.buf.tokens)
  {
    hide *;
    ghost var ts := g.buf.tokens;
    g.ScratchFacts();
    g.StartFacts();
    g.BuildLit(ts);
    g.BuildDist(ts);
    g.BuiltFacts(ts);
    maxBlindex, c := g.BuildBlTree(ts);
    PlanIsValid(ts, c);
    SizesAre(ts, c);
  }

  lemma SizesAre(ts: seq<Token>, c: Codes)
    requires ValidBlock(Dynamic(ts, c))
    ensures ValidHeader(c.ll, c.dd, c.bl, c.blCodes)
    ensures AllCodable(c.ll, c.dd, ts) && HasWord(c.ll, END_BLOCK)
    ensures DynamicSize(ts, c) == |TreesBits(c.ll, c.dd, c.bl, c.blCodes)| + |BodyBits(c.ll, c.dd, ts)|
  {
  }

  /** send_all_trees */
  method SendAllTrees(g: Coder, lcodes: nat, dcodes: nat, blcodes: nat, ghost c: Codes)
    requires g.Wired() && g.Apart() && g.HasCodes(c) && g.out.Valid()
    requires ValidHeader(c.ll, c.dd, c.bl, c.blCodes) && lcodes == |c.ll| && dcodes == |c.dd| && blcodes == c.blCodes
    modifies g.out, g.out.outbuf
    ensures g.out.Valid() && g.out.Stream() == old(g.out.Stream()) + TreesBits(c.ll, c.dd, c.bl, c.blCodes)
  {
    hide *;
    g.SendFacts(c);
    HeaderFacts(c);
    ghost var s := g.out.Stream();
    g.out.SendBits(lcodes - 257, 5);
    g.out.SendBits(dcodes - 1, 5);
    g.out.SendBits(blcodes - 4, 4);
    assert g.out.Stream() == s + CountsBits(|c.ll|, |c.dd|, c.blCodes);
    SendBlLens(g, blcodes, c);
    SendTree(g.dynL, lcodes - 1, g.blTree, g.out, c.bl);
    SendTree(g.dynD, dcodes - 1, g.blTree, g.out, c.bl);
  }

  method SendBlLens(g: Coder, blcodes: nat, ghost c: Codes)
    requires g.out.Valid() && g.out.outbuf as object != g.blTree.dl && g.blTree.Coded(c.bl) && |c.bl| == BL_CODES
      && blcodes <= BL_CODES
    requires forall s | 0 <= s < BL_CODES :: c.bl[s] <= 7
    modifies g.out, g.out.outbuf
    ensures g.out.Valid() && g.out.Stream() == old(g.out.Stream()) + BlLensBits(c.bl, blcodes)
  {
    hide ToBits, BlOrder, Code, Reversed, BytesToBits;
    Pow2Three();
    for rank := 0 to blcodes
      invariant g.out.Valid() && g.out.Stream() == old(g.out.Stream()) + BlLensBits(c.bl, rank)
    {
      g.out.SendBits(g.blTree.dl[BlOrder(rank)], 3);
    }
  }

  lemma Pow2Three()
    ensures Pow2(3) == 8 && Pow2(4) == 16 && Pow2(5) == 32
  {
  }

  lemma HeaderFacts(c: Codes)
    requires ValidHeader(c.ll, c.dd, c.bl, c.blCodes)
    ensures 257 <= |c.ll| && |c.ll| - 257 < Pow2(5) && 1 <= |c.dd| && |c.dd| - 1 < Pow2(5) && 4 <= c.blCodes
      && c.blCodes - 4 < Pow2(4)
    ensures |c.bl| == BL_CODES && c.blCodes <= BL_CODES && forall s | 0 <= s < BL_CODES :: c.bl[s] <= 7
    ensures AllShort(c.ll) && AllShort(c.dd)
    ensures CoversRuns(c.bl, Runs(c.ll, 0, -1, 0)) && CoversRuns(c.bl, Runs(c.dd, 0, -1, 0))
    ensures CountsBits(|c.ll|, |c.dd|, c.blCodes) ==
      ToBits(|c.ll| - 257, 5) + (ToBits(|c.dd| - 1, 5) + ToBits(c.blCodes - 4, 4))
    ensures TreesBits(c.ll, c.dd, c.bl, c.blCodes)
         == CountsBits(|c.ll|, |c.dd|, c.blCodes)
          + (BlLensBits(c.bl, c.blCodes) + (RunsBits(c.bl, Runs(c.ll, 0, -1, 0))
          + RunsBits(c.bl, Runs(c.dd, 0, -1, 0))))
  {
    hide ToBits, Runs, RunsBits, BlLensBits;
    Pow2Three();
  }

  /** The length of a stored block and its complement, as one 32-bit word. */
  lemma {:induction false} LengthWord(s: seq<byte>, len: nat, v: nat)
    requires len <= 0xffff && v == len + 0x10000 * (0xffff - len)
    ensures v < 0x1_0000_0000
    ensures BytesToBits(s + LittleEndian(v, 4)) == BytesToBits(s) + (ToBits(len, 16) + ToBits(0xffff - len, 16))
  {
    hide ToBits, BytesToBits, LittleEndian;
    LittleEndianHalves(v);
    WordHalves(len, 0xffff - len);
    var low := LittleEndian(len, 2);
    assert s + LittleEndian(v, 4) == (s + low) + LittleEndian(0xffff - len, 2);
    LittleEndianBits(s, len, 2);
    LittleEndianBits(s + low, 0xffff - len, 2);
  }

  lemma WordHalves(low: nat, high: nat)
    requires low < 0x10000
    ensures (low + 0x10000 * high) % 0x10000 == low && (low + 0x10000 * high) / 0x10000 == high
  {
  }

  /** The loop of copy_block. */
  method CopyBytes(out: Output, buf: array<byte>, at: nat, len: nat)
    requires out.Valid() && out.biValid == 0 && at + len <= buf.Length && buf != out.outbuf
    modifies out, out.outbuf
    ensures out.Valid() && out.biValid == 0 && out.biBuf == old(out.biBuf)
    ensures out.Bytes() == old(out.Bytes()) + buf[at..at + len]
  {
    hide Pow2;
    var n := 0;
    while n < len
      invariant out.Valid() && out.biValid == 0 && out.biBuf == old(out.biBuf) && n <= len
      invariant out.Bytes() == old(out.Bytes()) + buf[at..at + n]
    {
      out.Put8(buf[at + n]);
      assert buf[at..at + (n + 1)] == buf[at..at + n] + [buf[at + n]];
      n := n + 1;
    }
  }

  /** copy_block: a stored block, with its length and the complement of it. */
  method CopyBlock(out: Output, buf: array<byte>, at: nat, len: nat)
    requires out.Valid() && at + len <= buf.Length && len <= 0xffff && buf != out.outbuf
    modifies out, out.outbuf
    ensures out.Valid()
    ensures out.Stream() == old(out.Stream()) + StoredBits(buf[at..at + len], |old(out.Stream())|)
  {
    hide ToBits, BytesToBits, LittleEndian, Pow2, Padding;
    ghost var start := out.Stream();
    out.BiWindup();
    NoPendingBits();
    var v := len + 0x10000 * (0xffff - len);
    LengthWord(out.Bytes(), len, v);
    out.Put32(v);
    ghost var head := out.Bytes();
    assert BytesToBits(head) == start + Padding(|start|) + (ToBits(len, 16) + ToBits(0xffff - len, 16));
    CopyBytes(out, buf, at, len);
    BytesToBitsConcat(head, buf[at..at + len]);
    if out.outcnt % 4 != 0 {
      out.FlushIfWide();
    }
  }

  lemma NoPendingBits()
    ensures Pow2(0) == 1 && forall v: nat :: ToBits(v, 0) == []
  {
  }

  /** opt_lenb and static_lenb: the size of a compressed block in bytes. */
  function InBytes(bits: nat): (n: nat)
    ensures 8 * n - 7 <= bits + 3 <= 8 * n
  {
    (bits + 3 + 7) / 8
  }

  /** The input of a block, if it is still in the window. */
  ghost function InputOf(window: array<byte>, from: Option<nat>, len: nat): (r: Option<seq<byte>>)
    requires from.Some? ==> from.value + len <= window.Length
    reads window
  {
    if from.Some? then Some(window[from.value..from.value + len]) else None
  }

  lemma InputIs(window: array<byte>, from: Option<nat>, len: nat)
    requires from.Some? ==> from.value + len <= window.Length
    ensures InputOf(window, from, len) == if from.Some? then Some(window[from.value..from.value + len]) else None
  {
  }

  /** The block that flush_block writes: the shortest form in whole bytes. It is
      stored when that is no longer than either compressed form and the input is
      still in the window; the static form wins a tie. */
  ghost predicate Chosen(b: Block, ts: seq<Token>, c: Codes, from: Option<seq<byte>>)
  {
    ValidBlock(Dynamic(ts, c)) && ValidBlock(StaticBlock(ts)) &&
    var dyn, stat := InBytes(DynamicSize(ts, c)), InBytes(StaticSize(ts));
    if from.Some? && |from.value| + 4 <= dyn && |from.value| + 4 <= stat then b == StoredBlock(from.value)
    else if stat <= dyn then b == StaticBlock(ts)
    else b == Dynamic(ts, c)
  }

  /** No form is shorter than the one chosen, counted in bytes: a stored block takes four bytes for its lengths. */
  lemma {:induction false} ChosenIsShortest(b: Block, ts: seq<Token>, c: Codes, from: Option<seq<byte>>, final: bool,
                                            pos: nat)
    requires Chosen(b, ts, c, from)
    ensures ValidBlock(Dynamic(ts, c)) && ValidBlock(StaticBlock(ts))
    ensures var dyn := (|BlockBits(Dynamic(ts, c), final, pos)| + 7) / 8;
      var stat := (|BlockBits(StaticBlock(ts), final, pos)| + 7) / 8;
      && (b.StoredBlock? ==> from == Some(b.data) && |b.data| + 4 <= dyn && |b.data| + 4 <= stat)
      && (b.StaticBlock? ==> b.tokens == ts && stat <= dyn && (from.Some? ==> stat < |from.value| + 4))
      && (b.DynamicBlock? ==> b == Dynamic(ts, c) && dyn < stat && (from.Some? ==> dyn < |from.value| + 4))
  {
    hide ValidBlock, TreesBits, BodyBits;
    FixedHasEnd();
    assert |BlockBits(Dynamic(ts, c), final, pos)| == 3 + DynamicSize(ts, c);
    assert |BlockBits(StaticBlock(ts), final, pos)| == 3 + StaticSize(ts);
  }

  /** The flags are saved, the codes are built, and both sizes are known. */
  /** With the codes built for the tokens of a block no valid dynamic block of these tokens has a shorter body, if words
      of 15 bits suffice for an optimal code, as they do for fewer than 2581 tokens. */
  lemma {:induction false} BodyIsShortest(ts: seq<Token>, c: Codes, b: Block)
    requires ValidBlock(Dynamic(ts, c)) && BestCodes(ts, c) && ValidBlock(b) && b.DynamicBlock? && b.tokens == ts
    requires |ts| < 2581 || (OptimumFits(Forced(LitFreqs(ts), L_CODES), L_CODES, 15)
                             && OptimumFits(Forced(DistFreqs(ts), D_CODES), D_CODES, 15))
    ensures |BodyBits(c.ll, c.dd, ts)| <= |BodyBits(b.ll, b.dd, ts)|
  {
    hide Best, LitFreqs, DistFreqs, BodyBits, OptimumFits, Forced, AllCodable, PrefixFree, Runs;
    if |ts| < 2581 {
      ShortestSmallBody(ts, c.ll, c.dd, b);
    } else {
      ShortestBody(ts, c.ll, c.dd, b);
    }
  }

  ghost predicate Prepared(g: Coder, maxBlindex: nat, c: Codes)
    requires g.Wired()
    reads g.Region()
  {
    && g.StaticReady() && g.HasCodes(c) && c.blCodes == maxBlindex + 1
    && g.buf.Valid() && g.buf.flagBuf[g.buf.lastFlags] == g.buf.flags
    && ValidBlock(Dynamic(g.buf.tokens, c)) && ValidBlock(StaticBlock(g.buf.tokens))
    && g.builder.optLen == DynamicSize(g.buf.tokens, c) && g.builder.staticLen == StaticSize(g.buf.tokens)
  }

  lemma PreparedFacts(g: Coder, maxBlindex: nat, c: Codes)
    requires g.Wired() && Prepared(g, maxBlindex, c)
    ensures g.StaticReady() && g.HasCodes(c) && c.blCodes == maxBlindex + 1
    ensures g.buf.Valid() && g.buf.lastFlags < g.buf.flagBuf.Length && g.buf.flagBuf[g.buf.lastFlags] == g.buf.flags
    ensures ValidBlock(Dynamic(g.buf.tokens, c)) && ValidBlock(StaticBlock(g.buf.tokens))
    ensures g.builder.optLen == DynamicSize(g.buf.tokens, c) && g.builder.staticLen == StaticSize(g.buf.tokens)
  {
  }

  lemma IsPrepared(g: Coder, maxBlindex: nat, c: Codes)
    requires g.Wired() && g.StaticReady() && g.HasCodes(c) && c.blCodes == maxBlindex + 1
    requires g.buf.Valid() && g.buf.lastFlags < g.buf.flagBuf.Length && g.buf.flagBuf[g.buf.lastFlags] == g.buf.flags
    requires ValidBlock(Dynamic(g.buf.tokens, c)) && ValidBlock(StaticBlock(g.buf.tokens))
    requires g.builder.optLen == DynamicSize(g.buf.tokens, c) && g.builder.staticLen == StaticSize(g.buf.tokens)
    ensures Prepared(g, maxBlindex, c)
  {
  }

  /** The second half of flush_block: writes the shortest form. */
  method SendBlock(g: Coder, window: array<byte>, from: Option<nat>, storedLen: nat, eof: bool, maxBlindex: nat,
                   ghost c: Codes)
    returns (ghost block: Block)
    requires g.Wired() && g.Apart() && Prepared(g, maxBlindex, c) && g.out.Valid()
    requires from.Some? ==> from.value + storedLen <= window.Length && storedLen <= 0xffff
    requires window != g.out.outbuf
    modifies g.out, g.out.outbuf
    ensures g.out.Valid() && ValidBlock(block)
    ensures Chosen(block, g.buf.tokens, c, InputOf(window, from, storedLen))
    ensures g.out.Stream() == old(g.out.Stream()) + BlockBits(block, eof, |old(g.out.Stream())|)
  {
    hide *;
    PreparedFacts(g, maxBlindex, c);
    ghost var ts, start := g.buf.tokens, g.out.Stream();
    var optLenb, staticLenb := InBytes(g.builder.optLen), InBytes(g.builder.staticLen);
    var best := if staticLenb <= optLenb then staticLenb else optLenb;
    if storedLen + 4 <= best && from.Some? {
      block := StoredBlock(window[from.value..from.value + storedLen]);
      StoredForm(block, eof, |start|);
      g.out.SendBits(2 * STORED_BLOCK + (if eof then 1 else 0), 3);
      CopyBlock(g.out, window, from.value, storedLen);
    } else if staticLenb == best {
      block := StaticBlock(ts);
      SendStatic(g, eof, c);
    } else {
      block := Dynamic(ts, c);
      SendDynamic(g, eof, maxBlindex, c);
    }
    InputIs(window, from, storedLen);
    IsChosen(block, ts, c, InputOf(window, from, storedLen));
  }

  method SendStatic(g: Coder, eof: bool, ghost c: Codes)
    requires g.Wired() && g.Apart() && g.StaticReady() && g.HasCodes(c)
    requires g.buf.Valid() && g.buf.flagBuf[g.buf.lastFlags] == g.buf.flags && g.out.Valid()
    requires ValidBlock(StaticBlock(g.buf.tokens))
    modifies g.out, g.out.outbuf
    ensures g.out.Valid()
    ensures g.out.Stream()
         == old(g.out.Stream()) + BlockBits(StaticBlock(g.buf.tokens), eof, |old(g.out.Stream())|)
  {
    hide *;
    g.CompressFacts(c);
    StaticForm(g.buf.tokens, eof, |g.out.Stream()|);
    g.out.SendBits(2 * STATIC_TREES + (if eof then 1 else 0), 3);
    CompressBlock(g.buf, g.statL, g.statD, g.tables, g.out, FixedLitLens(), FixedDistLens());
  }

  method SendDynamic(g: Coder, eof: bool, maxBlindex: nat, ghost c: Codes)
    requires g.Wired() && g.Apart() && g.StaticReady() && g.HasCodes(c) && c.blCodes == maxBlindex + 1
    requires g.buf.Valid() && g.buf.flagBuf[g.buf.lastFlags] == g.buf.flags && g.out.Valid()
    requires ValidBlock(Dynamic(g.buf.tokens, c))
    modifies g.out, g.out.outbuf
    ensures g.out.Valid()
    ensures g.out.Stream()
         == old(g.out.Stream()) + BlockBits(Dynamic(g.buf.tokens, c), eof, |old(g.out.Stream())|)
  {
    hide *;
    g.CompressFacts(c);
    DynamicForm(g.buf.tokens, c, eof, |g.out.Stream()|);
    g.out.SendBits(2 * DYN_TREES + (if eof then 1 else 0), 3);
    SendAllTrees(g, g.lDesc.maxCode + 1, g.dDesc.maxCode + 1, maxBlindex + 1, c);
    CompressBlock(g.buf, g.dynL, g.dynD, g.tables, g.out, c.ll, c.dd);
  }

  lemma IsChosen(b: Block, ts: seq<Token>, c: Codes, from: Option<seq<byte>>)
    requires ValidBlock(Dynamic(ts, c)) && ValidBlock(StaticBlock(ts))
    requires var dyn, stat := InBytes(DynamicSize(ts, c)), InBytes(StaticSize(ts));
             if from.Some? && |from.value| + 4 <= dyn && |from.value| + 4 <= stat then b == StoredBlock(from.value)
             else if stat <= dyn then b == StaticBlock(ts)
             else b == Dynamic(ts, c)
    ensures Chosen(b, ts, c, from)
  {
  }

  lemma KindFits(kind: nat, eof: bool)
    requires kind <= 2
    ensures 2 * kind + (if eof then 1 else 0) < Pow2(3)
    ensures KindBits(kind, eof) == ToBits(2 * kind + (if eof then 1 else 0), 3)
  {
    hide ToBits;
    Pow2Three();
  }

  lemma StoredForm(b: Block, eof: bool, pos: nat)
    requires b.StoredBlock? && |b.data| <= 0xffff
    ensures ValidBlock(b) && 0 <= STORED_BLOCK && 2 * STORED_BLOCK + (if eof then 1 else 0) < Pow2(3)
    ensures BlockBits(b, eof, pos) == ToBits(2 * STORED_BLOCK + (if eof then 1 else 0), 3) + StoredBits(b.data, pos + 3)
  {
    hide ToBits, StoredBits, KindBits;
    KindFits(STORED_BLOCK, eof);
  }

  lemma StaticForm(ts: seq<Token>, eof: bool, pos: nat)
    requires ValidBlock(StaticBlock(ts))
    ensures HasWord(FixedLitLens(), END_BLOCK) && AllCodable(FixedLitLens(), FixedDistLens(), ts)
    ensures 0 <= STATIC_TREES && 2 * STATIC_TREES + (if eof then 1 else 0) < Pow2(3)
    ensures BlockBits(StaticBlock(ts), eof, pos)
         == ToBits(2 * STATIC_TREES + (if eof then 1 else 0), 3) + BodyBits(FixedLitLens(), FixedDistLens(), ts)
  {
    hide ToBits, BodyBits, KindBits;
    KindFits(STATIC_TREES, eof);
    FixedHasEnd();
  }

  lemma DynamicForm(ts: seq<Token>, c: Codes, eof: bool, pos: nat)
    requires ValidBlock(Dynamic(ts, c))
    ensures HasWord(c.ll, END_BLOCK) && AllCodable(c.ll, c.dd, ts) && ValidHeader(c.ll, c.dd, c.bl, c.blCodes)
    ensures 0 <= DYN_TREES && 2 * DYN_TREES + (if eof then 1 else 0) < Pow2(3)
    ensures BlockBits(Dynamic(ts, c), eof, pos)
         == ToBits(2 * DYN_TREES + (if eof then 1 else 0), 3)
           + (TreesBits(c.ll, c.dd, c.bl, c.blCodes) + BodyBits(c.ll, c.dd, ts))
  {
    hide ToBits, BodyBits, KindBits, TreesBits;
    KindFits(DYN_TREES, eof);
  }

  /** The first half of flush_block: the flags are saved, the codes built and the sizes known. */
  method PrepareBlock(g: Coder, ghost window: array<byte>) returns (maxBlindex: nat, ghost c: Codes)
    requires g.Wired() && g.Apart() && g.StaticReady() && g.Counting() && g.out.Valid()
    requires window as object !in g.Region()
    modifies g.Region()
    ensures g.buf.tokens == old(g.buf.tokens) && g.buf.sent == old(g.buf.sent)
    ensures Prepared(g, maxBlindex, c) && BestCodes(g.buf.tokens, c)
    ensures g.out.Valid() && g.out.Stream() == old(g.out.Stream())
  {
    hide *;
    g.RegionFacts();
    g.FlushFacts(window);
    g.ScratchFacts();
    g.SaveFlags(window);
    g.buf.Room();
    maxBlindex, c := PlanBlock(g);
    IsPrepared(g, maxBlindex, c);
  }

  /** A stream after one more block, the last one being filled up to a byte. */
  ghost function Flushed(start: BitString, block: Block, eof: bool): (b: BitString)
    requires ValidBlock(block)
  {
    var sent := start + BlockBits(block, eof, |start|);
    sent + if eof then Padding(|sent|) else []
  }

  lemma FlushedIs(start: BitString, block: Block, eof: bool)
    requires ValidBlock(block)
    ensures var sent := start + BlockBits(block, eof, |start|);
            Flushed(start, block, eof) == sent + if eof then Padding(|sent|) else []
  {
  }

  /** The end of flush_block: a new block begins, and the last one ends at a byte. */
  method EndBlock(g: Coder, eof: bool)
    requires g.Wired() && g.Apart() && g.StaticReady() && g.out.Valid()
    modifies g.dynL.fc, g.dynD.fc, g.blTree.fc, g.builder`optLen, g.builder`staticLen, g.buf, g.out, g.out.outbuf
    ensures g.StaticReady() && g.Counting() && g.buf.tokens == [] && g.out.Valid()
    ensures g.buf.sent == old(g.buf.sent + g.buf.tokens)
    ensures g.out.Stream() == old(g.out.Stream()) + (if eof then Padding(|old(g.out.Stream())|) else [])
    ensures eof ==> g.out.biValid == 0
  {
    hide *;
    g.EndFacts();
    g.InitBlock();
    if eof {
      g.out.BiWindup();
    }
  }

  /** flush_block. `from` is where the block begins in the window, if it is still there. */
  method Flush(g: Coder, window: array<byte>, from: Option<nat>, storedLen: nat, eof: bool)
    returns (ghost block: Block, ghost c: Codes)
    requires g.Wired() && g.Apart() && g.StaticReady() && g.Counting() && g.out.Valid()
    requires from.Some? ==> from.value + storedLen <= window.Length && storedLen <= 0xffff
    requires window as object !in g.Region()
    modifies g.Region()
    ensures g.StaticReady() && g.Counting() && g.buf.tokens == [] && g.out.Valid()
    ensures g.buf.sent == old(g.buf.sent + g.buf.tokens)
    ensures ValidBlock(Dynamic(old(g.buf.tokens), c)) && ValidBlock(StaticBlock(old(g.buf.tokens))) && ValidBlock(block)
    ensures Chosen(block, old(g.buf.tokens), c, InputOf(window, from, storedLen)) && BestCodes(old(g.buf.tokens), c)
    ensures g.out.Stream() == Flushed(old(g.out.Stream()), block, eof)
    ensures eof ==> g.out.biValid == 0
  {
    hide *;
    g.RegionFacts();
    g.FlushFacts(window);
    var maxBlindex;
    maxBlindex, c := PrepareBlock(g, window);
    PreparedFacts(g, maxBlindex, c);
    block := SendBlock(g, window, from, storedLen, eof, maxBlindex, c);
    FlushedIs(old(g.out.Stream()), block, eof);
    EndBlock(g, eof);
  }
}
