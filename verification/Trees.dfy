/** The ct_data trees of gzip and the passes that scan and send their lengths. */
module Trees {
  import opened Bits
  import opened BitWriter
  import opened Canonical
  import opened CodeLengths

  /** An array of ct_data. Each element is two words that are used in turn: `fc`
      for the frequency and then the code, `dl` for the father in the Huffman
      tree and then the length of the code. */
  class CtTree {
    const fc: array<ush>
    const dl: array<ush>

    ghost predicate Valid()
    {
      fc != dl && fc.Length == dl.Length
    }

    constructor (size: nat)
      ensures Valid() && fresh(Arrays()) && allocated(Arrays()) && fc.Length == size
      ensures forall i | 0 <= i < size :: fc[i] == 0 && dl[i] == 0
    {
      fc := new ush[size](_ => 0);
      dl := new ush[size](_ => 0);
    }

    ghost function Arrays(): (s: set<object>)
    {
      {fc, dl}
    }

    /** The codes and lengths of the symbols below `|lens|` are the canonical ones. */
    ghost predicate Coded(lens: seq<nat>)
      reads fc, dl
    {
      && Valid()
      && |lens| <= fc.Length
      && dl[..|lens|] == lens
      && AllShort(lens)
      && forall i | 0 <= i < |lens| && lens[i] > 0 :: fc[i] == Reversed(Code(lens, i), lens[i])
    }

    lemma IsCoded(n: nat)
      requires Valid() && n <= dl.Length && AllShort(dl[..n])
      requires forall i | 0 <= i < n && dl[i] > 0 :: fc[i] == Reversed(Code(dl[..n], i), dl[i])
      ensures Coded(dl[..n])
    {
    }

    /** SEND_CODE */
    method SendCode(out: Output, c: nat, ghost lens: seq<nat>)
      requires Coded(lens) && c < |lens| && lens[c] > 0
      requires out.Valid() && out.outbuf as object !in {fc as object, dl as object}
      modifies out, out.outbuf
      ensures out.Valid()
      ensures out.Stream() == old(out.Stream()) + Word(lens, c)
    {
      hide Word, Code, Reversed, MsbBits, ToBits, Pow2;
      CodeToSend(lens, c);
      out.SendBits(fc[c], dl[c]);
    }
  }

  lemma {:induction false} CodeToSend(lens: seq<nat>, c: nat)
    requires c < |lens| && AllShort(lens)
    ensures lens[c] <= 16
    ensures ToBits(Reversed(Code(lens, c), lens[c]), lens[c]) == Word(lens, c)
  {
    ReversedBits(Code(lens, c), lens[c]);
  }

  /** scan_tree: counts the code length symbols that send_tree will use. */
  method ScanTree(tree: CtTree, maxCode: nat, bl: CtTree)
    requires tree.Valid() && maxCode + 1 < tree.dl.Length
    requires bl.Valid() && BL_CODES <= bl.fc.Length
    requires bl.fc != tree.dl && AllShort(tree.dl[..maxCode + 1])
    requires forall s | 0 <= s < BL_CODES :: bl.fc[s] + maxCode < 0xffff
    modifies tree.dl, bl.fc
    ensures forall s | 0 <= s < BL_CODES :: bl.fc[s] <= old(bl.fc[s]) + maxCode + 1
    ensures forall i | 0 <= i < tree.dl.Length :: tree.dl[i] == if i == maxCode + 1 then 0xffff else old(tree.dl[i])
    ensures forall s | BL_CODES <= s < bl.fc.Length :: bl.fc[s] == old(bl.fc[s])
    ensures var rs := Runs(old(tree.dl[..maxCode + 1]), 0, -1, 0);
            forall s | 0 <= s < BL_CODES :: bl.fc[s] == old(bl.fc[s]) + Occurs(rs, s)
  {
    ghost var lens := tree.dl[..maxCode + 1];
    var prevlen: int := -1;
    var nextlen := tree.dl[0];
    var count, maxCount, minCount := 0, 7, 4;
    if nextlen == 0 {
      maxCount, minCount := 138, 3;
    }
    tree.dl[maxCode + 1] := 0xffff;
    ghost var done: seq<Run> := [];
    for n := 0 to maxCode + 1
      invariant tree.dl[..maxCode + 1] == lens && tree.dl[maxCode + 1] == 0xffff
      invariant forall i | maxCode + 1 < i < tree.dl.Length :: tree.dl[i] == old(tree.dl[i])
      invariant nextlen == tree.dl[n]
      invariant n <= maxCode ==> maxCount == MaxCount(prevlen, nextlen) && minCount == MinCount(prevlen, nextlen)
      invariant n <= maxCode ==> count < maxCount
      invariant forall r | r in done :: ValidRun(r)
      invariant done + Runs(lens, n, prevlen, count) == Runs(lens, 0, -1, 0)
      invariant forall s | BL_CODES <= s < bl.fc.Length :: bl.fc[s] == old(bl.fc[s])
      invariant forall s | 0 <= s < BL_CODES :: bl.fc[s] == old(bl.fc[s]) + Occurs(done, s)
      invariant forall s | 0 <= s < BL_CODES :: bl.fc[s] + count <= old(bl.fc[s]) + n
    {
      var curlen := nextlen;
      nextlen := tree.dl[n + 1];
      count := count + 1;
      if count < maxCount && curlen == nextlen {
        continue;
      }
      TallyRun(bl, prevlen, curlen, count, minCount, done);
      done := done + Emit(prevlen, curlen, count);
      count := 0;
      prevlen := curlen;
      if nextlen == 0 {
        maxCount, minCount := 138, 3;
      } else if curlen == nextlen {
        maxCount, minCount := 6, 3;
      } else {
        maxCount, minCount := 7, 4;
      }
    }
    assert done == Runs(lens, 0, -1, 0);
  }

  method TallyRun(bl: CtTree, prevlen: int, curlen: nat, count: nat, minCount: nat, ghost done: seq<Run>)
    requires bl.Valid() && BL_CODES <= bl.fc.Length
    requires 0 < count <= MaxCount(prevlen, curlen) && curlen <= MAX_BITS && minCount == MinCount(prevlen, curlen)
    requires forall r | r in done :: ValidRun(r)
    requires forall s | 0 <= s < BL_CODES :: bl.fc[s] + count <= 0xffff
    modifies bl.fc
    ensures forall s | 0 <= s < BL_CODES :: bl.fc[s] <= old(bl.fc[s]) + count
    ensures forall s | BL_CODES <= s < bl.fc.Length :: bl.fc[s] == old(bl.fc[s])
    ensures forall s | 0 <= s < BL_CODES ::
              bl.fc[s] == old(bl.fc[s]) + Occurs(done + Emit(prevlen, curlen, count), s) - Occurs(done, s)
  {
    hide Emit, Occurs;
    forall s: nat
      ensures Occurs(done + Emit(prevlen, curlen, count), s) - Occurs(done, s) ==
        Occurs(Emit(prevlen, curlen, count), s)
    {
      OccursConcat(done, Emit(prevlen, curlen, count), s);
    }
    forall s: nat { OccursEmit(prevlen, curlen, count, s); }
    if count < minCount {
      bl.fc[curlen] := bl.fc[curlen] + count;
    } else if curlen != 0 {
      if curlen != prevlen {
        bl.fc[curlen] := bl.fc[curlen] + 1;
      }
      bl.fc[REP_3_6] := bl.fc[REP_3_6] + 1;
    } else if count <= 10 {
      bl.fc[REPZ_3_10] := bl.fc[REPZ_3_10] + 1;
    } else {
      bl.fc[REPZ_11_138] := bl.fc[REPZ_11_138] + 1;
    }
  }

  /** send_tree: sends the lengths of a tree with the codes in `bl`. */
  method SendTree(tree: CtTree, maxCode: nat, bl: CtTree, out: Output, ghost blLens: seq<nat>)
    requires tree.Valid() && maxCode + 1 < tree.dl.Length
    requires AllShort(tree.dl[..maxCode + 1]) && tree.dl[maxCode + 1] == 0xffff
    requires bl.Coded(blLens) && CoversRuns(blLens, Runs(tree.dl[..maxCode + 1], 0, -1, 0))
    requires out.Valid() && out.outbuf as object !in {tree.dl as object, bl.fc as object, bl.dl as object}
    modifies out, out.outbuf
    ensures out.Valid()
    ensures out.Stream() == old(out.Stream()) + RunsBits(blLens, Runs(tree.dl[..maxCode + 1], 0, -1, 0))
  {
    hide RunsBits, RunBits, Reversed, Code, Word, MsbBits, ToBits, BytesToBits, Emit;
    ghost var lens := tree.dl[..maxCode + 1];
    var prevlen: int := -1;
    var nextlen := tree.dl[0];
    var count, maxCount, minCount := 0, 7, 4;
    if nextlen == 0 {
      maxCount, minCount := 138, 3;
    }
    ghost var done: seq<Run> := [];
    for n := 0 to maxCode + 1
      invariant out.Valid()
      invariant nextlen == tree.dl[n]
      invariant n <= maxCode ==> maxCount == MaxCount(prevlen, nextlen) && minCount == MinCount(prevlen, nextlen)
      invariant n <= maxCode ==> count < maxCount
      invariant forall r | r in done :: ValidRun(r)
      invariant done + Runs(lens, n, prevlen, count) == Runs(lens, 0, -1, 0)
      invariant out.Stream() == old(out.Stream()) + RunsBits(blLens, done)
    {
      var curlen := nextlen;
      nextlen := tree.dl[n + 1];
      count := count + 1;
      if count < maxCount && curlen == nextlen {
        continue;
      }
      ghost var emitted := Emit(prevlen, curlen, count);
      assert forall r | r in emitted :: r in done + (emitted + Runs(lens, n + 1, curlen, 0));
      SendRun(prevlen, curlen, count, minCount, bl, out, blLens, done, old(out.Stream()));
      done := done + emitted;
      count := 0;
      prevlen := curlen;
      if nextlen == 0 {
        maxCount, minCount := 138, 3;
      } else if curlen == nextlen {
        maxCount, minCount := 6, 3;
      } else {
        maxCount, minCount := 7, 4;
      }
    }
    assert done == Runs(lens, 0, -1, 0);
  }

  method SendRun(prevlen: int, curlen: nat, count: nat, minCount: nat, bl: CtTree, out: Output,
                 ghost blLens: seq<nat>, ghost done: seq<Run>, ghost start: BitString)
    requires 0 < count <= MaxCount(prevlen, curlen) && curlen <= MAX_BITS && minCount == MinCount(prevlen, curlen)
    requires bl.Coded(blLens) && CoversRuns(blLens, Emit(prevlen, curlen, count))
    requires out.Valid() && out.outbuf as object !in {bl.fc as object, bl.dl as object}
    requires forall r | r in done :: ValidRun(r)
    requires out.Stream() == start + RunsBits(blLens, done)
    modifies out, out.outbuf
    ensures out.Valid()
    ensures out.Stream() == start + RunsBits(blLens, done + Emit(prevlen, curlen, count))
  {
    hide RunsBits, RunBits, Reversed, Code, Word, MsbBits, ToBits;
    ghost var rs := Emit(prevlen, curlen, count);
    assert forall r | r in rs :: bl.Coded(blLens);
    if count < minCount {
      var left := count;
      ghost var sent: seq<Run> := done;
      while left > 0
        invariant out.Valid() && left <= count
        invariant sent == done + rs[..count - left]
        invariant out.Stream() == start + RunsBits(blLens, sent)
      {
        assert Length(curlen) == rs[count - left];
        SendOne(bl, out, Length(curlen), blLens, sent, start);
        sent := sent + [Length(curlen)];
        left := left - 1;
      }
      assert rs[..count] == rs;
    } else if curlen != 0 {
      if curlen != prevlen {
        assert rs == [Length(curlen)] + [Repeat(count - 1)];
        SendOne(bl, out, Length(curlen), blLens, done, start);
        SendOne(bl, out, Repeat(count - 1), blLens, done + [Length(curlen)], start);
        assert done + rs == done + [Length(curlen)] + [Repeat(count - 1)];
      } else {
        SendOne(bl, out, Repeat(count), blLens, done, start);
      }
    } else if count <= 10 {
      SendOne(bl, out, Zeros(count), blLens, done, start);
    } else {
      SendOne(bl, out, ManyZeros(count), blLens, done, start);
    }
  }

  /** One symbol of the code length alphabet with its extra bits. */
  method SendOne(bl: CtTree, out: Output, r: Run, ghost blLens: seq<nat>, ghost done: seq<Run>, ghost start: BitString)
    requires ValidRun(r) && bl.Coded(blLens) && |blLens| == BL_CODES && blLens[Symbol(r)] > 0
    requires out.Valid() && out.outbuf as object !in {bl.fc as object, bl.dl as object}
    requires forall q | q in done :: ValidRun(q)
    requires out.Stream() == start + RunsBits(blLens, done)
    modifies out, out.outbuf
    ensures out.Valid()
    ensures out.Stream() == start + RunsBits(blLens, done + [r])
  {
    hide RunsBits, Reversed, Code, Word, MsbBits, ToBits, Pow2, ExtraValue;
    RunsBitsSnoc(blLens, done, r);
    bl.SendCode(out, Symbol(r), blLens);
    ghost var mid := out.Stream();
    var extra := ExtraBits(Symbol(r));
    if extra != 0 {
      out.SendBits(ExtraValue(r), extra);
    } else {
      assert ToBits(ExtraValue(r), 0) == [];
    }
  }
}
