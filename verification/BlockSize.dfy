/** How long a compressed block is: the sums that build_tree keeps in opt_len
    and static_len count its bits. */
module BlockSize {
  import opened Bits
  import opened Canonical
  import opened CodeLengths
  import opened Tokens
  import opened Sums
  import opened Huffman
  import opened TreeBuilder
  import opened TreeLengths
  import opened Tally

  /** The extra bits of a literal/length symbol. */
  function LitExtra(s: nat): (x: nat)
    requires s < L_CODES
  {
    if s > LITERALS then LengthExtra(s - LITERALS - 1) else 0
  }

  /** The extra bits of the first `n` literal/length symbols. */
  function LitExtras(n: nat): (s: seq<nat>)
    requires n <= L_CODES
    ensures |s| == n
  {
    seq(n, i requires 0 <= i < n => LitExtra(i))
  }

  function DistExtras(n: nat): (s: seq<nat>)
    requires n <= D_CODES
    ensures |s| == n
  {
    seq(n, i requires 0 <= i < n => DistExtra(i))
  }

  function RunExtras(n: nat): (s: seq<nat>)
    ensures |s| == n
  {
    seq(n, i requires 0 <= i < n => ExtraBits(i))
  }

  /** One more occurrence of a symbol adds its word and extra bits. */
  lemma {:induction false} CodedBump(f: seq<nat>, s: nat, lens: seq<nat>, extra: seq<nat>)
    requires s < |lens| == |extra| <= |f|
    ensures CodedSize(Bump(f, s), lens, extra) == CodedSize(f, lens, extra) + lens[s] + extra[s]
  {
    hide RangeSum;
    var n, w := |lens|, Plus(lens, extra);
    var c, d := Costs(f[..n], w), Costs(Bump(f, s)[..n], w);
    OneMore(f[s], w[s]);
    assert d == c[s := (f[s] + 1) * w[s]];
    RangeSumUpdate(c, n, s, d[s]);
  }

  lemma OneMore(f: nat, w: nat)
    ensures (f + 1) * w == f * w + w
  {
  }

  lemma {:induction false} CodedZero(f: seq<nat>, lens: seq<nat>, extra: seq<nat>, n: nat)
    requires n <= |lens| == |extra| <= |f| && forall i | 0 <= i < n :: f[i] == 0
    ensures RangeSum(Costs(f[..|lens|], Plus(lens, extra)), n) == 0
  {
    if n > 0 {
      CodedZero(f, lens, extra, n - 1);
    }
  }

  /** All the symbols of the tokens are below `n` and `m`. */
  ghost predicate SymbolsBelow(ts: seq<Token>, n: nat, m: nat)
    requires AllValid(ts)
  {
    forall t | t in ts :: LitSymbol(t) < n && (t.Match? ==> DistCode(t.dist) < m)
  }

  lemma {:induction false} TokenSize(ll: seq<nat>, dd: seq<nat>, t: Token, n: nat, m: nat)
    requires Codable(ll, dd, t) && n <= |ll| && n <= L_CODES && m <= |dd| && m <= D_CODES
    requires LitSymbol(t) < n && (t.Match? ==> DistCode(t.dist) < m)
    ensures |TokenBits(ll, dd, t)| == ll[LitSymbol(t)] + LitExtras(n)[LitSymbol(t)]
                                    + (if t.Match? then dd[DistCode(t.dist)] + DistExtras(m)[DistCode(t.dist)] else 0)
  {
    hide Word, ToBits, LengthCode, DistCode, LengthBase, DistBase, LengthExtra, DistExtra;
  }

  /** The length of the compressed data is the sum over its symbols. */
  lemma {:induction false} TokensSize(ll: seq<nat>, dd: seq<nat>, ts: seq<Token>, n: nat, m: nat)
    requires AllCodable(ll, dd, ts) && AllValid(ts) && HasWord(ll, END_BLOCK)
    requires END_BLOCK < n <= |ll| && n <= L_CODES && m <= |dd| && m <= D_CODES && SymbolsBelow(ts, n, m)
    ensures |TokensBits(ll, dd, ts)| + ll[END_BLOCK]
         == CodedSize(LitFreqs(ts), ll[..n], LitExtras(n)) + CodedSize(DistFreqs(ts), dd[..m], DistExtras(m))
    decreases |ts|
  {
    hide TokenBits, CodedSize, LitExtras, DistExtras, LitSymbol, DistCode, Bump;
    if ts == [] {
      NoTokensSize(ll, dd, n, m);
    } else {
      var init, t := ts[..|ts| - 1], ts[|ts| - 1];
      TokensSize(ll, dd, init, n, m);
      TokenSize(ll, dd, t, n, m);
      FreqsSnoc(init, t);
      assert init + [t] == ts;
      CodedBump(LitFreqs(init), LitSymbol(t), ll[..n], LitExtras(n));
      if t.Match? {
        CodedBump(DistFreqs(init), DistCode(t.dist), dd[..m], DistExtras(m));
      }
    }
  }

  lemma {:induction false} NoTokensSize(ll: seq<nat>, dd: seq<nat>, n: nat, m: nat)
    requires END_BLOCK < n <= |ll| && n <= L_CODES && m <= |dd| && m <= D_CODES
    ensures CodedSize(LitFreqs([]), ll[..n], LitExtras(n)) == ll[END_BLOCK]
    ensures CodedSize(DistFreqs([]), dd[..m], DistExtras(m)) == 0
  {
    hide RangeSum;
    var zeros: seq<nat> := seq(L_CODES, i => 0);
    CodedZero(zeros, ll[..n], LitExtras(n), n);
    assert LitFreqs([]) == Bump(zeros, END_BLOCK);
    CodedBump(zeros, END_BLOCK, ll[..n], LitExtras(n));
    CodedZero(DistFreqs([]), dd[..m], DistExtras(m), m);
  }

  /** The frequencies that scan_tree counts. */
  ghost function RunFreqs(rs: seq<Run>): (f: seq<nat>)
    requires forall r | r in rs :: ValidRun(r)
    ensures |f| == BL_CODES
  {
    seq(BL_CODES, s requires 0 <= s < BL_CODES => Occurs(rs, s))
  }

  lemma {:induction false} RunFreqsSnoc(rs: seq<Run>, r: Run)
    requires ValidRun(r) && forall q | q in rs :: ValidRun(q)
    ensures RunFreqs(rs + [r]) == Bump(RunFreqs(rs), Symbol(r))
  {
    assert (rs + [r])[..|rs|] == rs;
  }

  /** The length of a tree as it is sent is the sum over the runs. */
  lemma {:induction false} RunsSize(bl: seq<nat>, rs: seq<Run>, n: nat)
    requires CoversRuns(bl, rs) && n <= BL_CODES && forall r | r in rs :: Symbol(r) < n
    ensures |RunsBits(bl, rs)| == CodedSize(RunFreqs(rs), bl[..n], RunExtras(n))
    decreases |rs|
  {
    hide CodedSize, RunExtras, Word, ToBits, Bump;
    if rs == [] {
      CodedZero(RunFreqs(rs), bl[..n], RunExtras(n), n);
      NoRunsSize(bl, n);
    } else {
      var init, r := rs[..|rs| - 1], rs[|rs| - 1];
      RunsSize(bl, init, n);
      assert init + [r] == rs;
      RunFreqsSnoc(init, r);
      CodedBump(RunFreqs(init), Symbol(r), bl[..n], RunExtras(n));
      RunExtraAt(n, Symbol(r));
    }
  }

  lemma {:induction false} NoRunsSize(bl: seq<nat>, n: nat)
    requires |bl| == BL_CODES && n <= BL_CODES
    ensures CodedSize(RunFreqs([]), bl[..n], RunExtras(n)) == 0
  {
    hide RangeSum;
    CodedZero(RunFreqs([]), bl[..n], RunExtras(n), n);
  }

  lemma RunExtraAt(n: nat, s: nat)
    requires s < n
    ensures RunExtras(n)[s] == ExtraBits(s)
  {
  }

  // ----- how many symbols there are in all -----

  lemma {:induction false} BumpSum(f: seq<nat>, s: nat, n: nat)
    requires s < n <= |f|
    ensures RangeSum(Bump(f, s), n) == RangeSum(f, n) + 1
  {
    RangeSumUpdate(f, n, s, f[s] + 1);
  }

  lemma {:induction false} MarkSum(f: seq<nat>, s: nat, n: nat)
    requires n <= |f| && forall i | 0 <= i < n :: f[i] == if i == s then 1 else 0
    ensures RangeSum(f, n) == if s < n then 1 else 0
  {
    if n > 0 {
      MarkSum(f, s, n - 1);
    }
  }

  /** Every token has one literal/length symbol and at most one distance symbol. */
  lemma {:induction false} FreqSums(ts: seq<Token>)
    requires AllValid(ts)
    ensures RangeSum(LitFreqs(ts), L_CODES) == |ts| + 1
    ensures RangeSum(DistFreqs(ts), D_CODES) <= |ts|
    decreases |ts|
  {
    hide RangeSum, LitSymbol, DistCode, Bump;
    if ts == [] {
      MarkSum(LitFreqs(ts), END_BLOCK, L_CODES);
      MarkSum(DistFreqs(ts), D_CODES, D_CODES);
    } else {
      var init, t := ts[..|ts| - 1], ts[|ts| - 1];
      FreqSums(init);
      SymbolOf(t);
      LitSymbolFits(t);
      BumpSum(LitFreqs(init), LitSymbol(t), L_CODES);
      if t.Match? {
        BumpSum(DistFreqs(init), DistCode(t.dist), D_CODES);
      }
    }
  }

  lemma LitSymbolFits(t: Token)
    requires ValidToken(t)
    ensures LitSymbol(t) < L_CODES
  {
  }

  lemma {:induction false} RunSum(rs: seq<Run>)
    requires forall r | r in rs :: ValidRun(r)
    ensures RangeSum(RunFreqs(rs), BL_CODES) == |rs|
    decreases |rs|
  {
    hide RangeSum, Bump;
    if rs == [] {
      MarkSum(RunFreqs(rs), BL_CODES, BL_CODES);
    } else {
      var init, r := rs[..|rs| - 1], rs[|rs| - 1];
      RunSum(init);
      assert rs == init + [r];
      RunFreqsSnoc(init, r);
      BumpSum(RunFreqs(init), Symbol(r), BL_CODES);
    }
  }

  /** There are no more runs than lengths. */
  lemma {:induction false} RunsShort(lens: seq<nat>, n: nat, prev: int, count: nat)
    requires n <= |lens| && AllShort(lens) && (n < |lens| ==> count < MaxCount(prev, lens[n]))
    ensures |Runs(lens, n, prev, count)| <= |lens| - n + count
    decreases |lens| - n
  {
    if n < |lens| {
      if Continues(lens, n, prev, count + 1) {
        RunsShort(lens, n + 1, prev, count + 1);
      } else {
        RunsShort(lens, n + 1, lens[n], 0);
      }
    }
  }

  lemma FewOf(fc: seq<nat>, f: seq<nat>, elems: nat)
    requires elems <= |fc| && fc[..elems] == f && RangeSum(f, elems) + 3 <= 0xffff
    ensures Few(fc, elems)
  {
    RangeSumFrame(fc, f, elems);
  }
}
