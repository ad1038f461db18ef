/** The codes of a dynamic block are as good as any: no valid dynamic block has a shorter body for the same tokens. */
module BlockBest {
  import opened Bits
  import opened Sums
  import opened Canonical
  import opened Huffman
  import opened TreeDepth
  import opened TreeBuilder
  import opened TreeLengths
  import opened OptimalLengths
  import opened Tokens
  import opened BlockFormat
  import opened Tally
  import opened BlockSize
  import opened BlockPlan

  /** The lengths of all `n` symbols. */
  function Filled(lens: seq<nat>, n: nat): (l: seq<nat>)
    requires |lens| <= n
    ensures |l| == n
  {
    lens + ZeroLens(n - |lens|)
  }

  /** What build_tree makes of the frequencies `f`, two of them forced: a word for each symbol, and optimal lengths if
      and only if some optimal code has no word above `m` bits, as is so for low frequencies. */
  ghost predicate Best(f: seq<nat>, lens: seq<nat>, m: nat)
    requires 3 <= |f| && |lens| <= |f|
  {
    var g, l := Forced(f, |f|), Filled(lens, |f|);
    && (forall x | 0 <= x < |f| :: g[x] > 0 <==> l[x] > 0)
    && (Optimal(g, l, |f|) <==> OptimumFits(g, |f|, m))
    && (RangeSum(g, |f|) < Fibonacci(m + 1) ==> OptimumFits(g, |f|, m))
  }

  lemma {:induction false} IsBest(f: seq<nat>, g: seq<nat>, dl: seq<nat>, n: nat, m: nat)
    requires 3 <= |f| <= |dl| && n <= |f| && g == Forced(f, |f|)
    requires forall x | 0 <= x < |f| :: g[x] > 0 <==> dl[x] > 0
    requires forall x | n <= x < |f| :: dl[x] == 0
    requires Optimal(g, dl[..|f|], |f|) <==> OptimumFits(g, |f|, m)
    requires RangeSum(g, |f|) < Fibonacci(m + 1) ==> OptimumFits(g, |f|, m)
    ensures Best(f, dl[..n], m)
  {
    hide Optimal, OptimumFits, Forced, RangeSum, Fibonacci;
    assert Filled(dl[..n], |f|) == dl[..|f|];
  }

  // ----- costs -----

  /** The words of a canonical code, none for unused symbols. */
  ghost function WordsOf(lens: seq<nat>, n: nat): (w: seq<BitString>)
    ensures |w| == n
  {
    seq(n, x requires 0 <= x < n => if x < |lens| then Word(lens, x) else [])
  }

  lemma {:induction false} WordsArePrefixFree(f: seq<nat>, lens: seq<nat>)
    requires |lens| <= |f| && Expresses(f, lens) && PrefixFree(lens)
    ensures PrefixCode(Symbols(f, |f|), WordsOf(lens, |f|)) && Lengths(WordsOf(lens, |f|)) == Filled(lens, |f|)
  {
    hide Word, ZeroLens;
    var w := WordsOf(lens, |f|);
    assert forall x | x in Symbols(f, |f|) :: w[x] == Word(lens, x);
  }

  lemma {:induction false} WeightedNone(f: seq<nat>, l: seq<nat>, n: nat)
    requires n <= |f| == |l| && NoneUsed(f, n)
    ensures RangeSum(Costs(f, l), n) == 0
  {
    if n > 0 {
      WeightedNone(f, l, n - 1);
    }
  }

  lemma {:induction false} WeightedOne(f: seq<nat>, l: seq<nat>, x: nat)
    requires |f| == |l| && OnlyUsed(f, |f|, x)
    ensures Weighted(f, l) == f[x] * l[x]
  {
    hide RangeSum;
    var g := f[x := 0];
    WeightedNone(g, l, |f|);
    assert Costs(f, l) == Costs(g, l)[x := f[x] * l[x]];
    RangeSumUpdate(Costs(g, l), |f|, x, f[x] * l[x]);
  }

  lemma {:induction false} WeightedMore(f: seq<nat>, l: seq<nat>, y: nat)
    requires |f| == |l| && y < |f| && f[y] == 0
    ensures Weighted(f[y := 1], l) == Weighted(f, l) + l[y]
  {
    hide RangeSum;
    assert Costs(f[y := 1], l) == Costs(f, l)[y := l[y]];
    RangeSumUpdate(Costs(f, l), |f|, y, l[y]);
  }

  /** Two words of one bit. */
  ghost function OneBit(n: nat, x: nat, y: nat): (w: seq<BitString>)
    requires x < n && y < n
    ensures |w| == n
  {
    seq(n, z requires 0 <= z < n => if z == x then [false] else if z == y then [true] else [])
  }

  lemma {:induction false} OneBitCode(g: seq<nat>, x: nat, y: nat)
    requires x < |g| && y < |g| && x != y && forall z | 0 <= z < |g| && z != x && z != y :: g[z] == 0
    ensures PrefixCode(Symbols(g, |g|), OneBit(|g|, x, y))
  {
    var f, t: BitString := [false], [true];
    assert OneBit(|g|, x, y)[x] == f && OneBit(|g|, x, y)[y] == t;
    assert f[0] != t[0];
    assert !(f <= t) && !(t <= f);
    assert forall z | z in Symbols(g, |g|) :: z == x || z == y;
  }

  /** Optimal lengths against any words. */
  lemma {:induction false} BestAgainst(f: seq<nat>, lens: seq<nat>, m: nat, w: seq<BitString>)
    requires 3 <= |f| && |lens| <= |f| && Best(f, lens, m) && OptimumFits(Forced(f, |f|), |f|, m)
    requires |w| == |f| && PrefixCode(Symbols(Forced(f, |f|), |f|), w)
    ensures Weighted(Forced(f, |f|), Filled(lens, |f|)) <= Weighted(Forced(f, |f|), Lengths(w))
  {
    hide Weighted, OptimumFits, Filled, Forced, PrefixCode, Symbols, Lengths;
    var g, l := Forced(f, |f|), Filled(lens, |f|);
    assert g[..|f|] == g && l[..|f|] == l;
  }

  lemma {:induction false} OnlyOneBit(f: seq<nat>, lens: seq<nat>, m: nat, x: nat)
    requires 3 <= |f| && |lens| <= |f| && Best(f, lens, m) && OptimumFits(Forced(f, |f|), |f|, m)
    requires OnlyUsed(f, |f|, x)
    ensures Filled(lens, |f|)[x] == 1
  {
    hide Weighted, OptimumFits, Filled, Forced, PrefixCode, Symbols, Optimal;
    var y := if x < 2 then x + 1 else 0;
    var l, w := Filled(lens, |f|), OneBit(|f|, x, y);
    ForcedOne(f, |f|, x);
    OneBitCode(f[y := 1], x, y);
    BestAgainst(f, lens, m, w);
    WeightedMore(f, l, y);
    WeightedMore(f, Lengths(w), y);
    WeightedOne(f, l, x);
    WeightedOne(f, Lengths(w), x);
    assert f[y := 1][x] > 0 && f[y := 1][y] > 0;
    OneIsLeast(f[x], l[x], l[y]);
  }

  lemma OneIsLeast(f: nat, a: nat, b: nat)
    requires f > 0 && a > 0 && b > 0 && f * a + b <= f + 1
    ensures a == 1
  {
    assert f * (a - 1) == f * a - f <= 0;
  }

  lemma ProductGrows(f: nat, a: nat, b: nat)
    requires a <= b
    ensures f * a <= f * b
  {
  }

  /** No prefix code costs less. */
  lemma {:induction false} BestCost(f: seq<nat>, lens: seq<nat>, m: nat, other: seq<nat>)
    requires 3 <= |f| && |lens| <= |f| && Best(f, lens, m) && OptimumFits(Forced(f, |f|), |f|, m)
    requires |other| <= |f| && Expresses(f, other) && PrefixFree(other)
    ensures Weighted(f, Filled(lens, |f|)) <= Weighted(f, Filled(other, |f|))
  {
    hide Weighted, OptimumFits, Filled, Forced, PrefixFree, RangeSum;
    var n, l, l' := |f|, Filled(lens, |f|), Filled(other, |f|);
    if NoneUsed(f, n) {
      WeightedNone(f, l, n);
      assert Weighted(f, l) == 0 by {
        WeightedIs(f, l);
      }
    } else if x: nat :| OnlyUsed(f, n, x) {
      OnlyOneBit(f, lens, m, x);
      WeightedOne(f, l, x);
      WeightedOne(f, l', x);
      FilledAt(other, n, x);
      ProductGrows(f[x], 1, l'[x]);
    } else {
      NotForced(f);
      WordsArePrefixFree(f, other);
      BestAgainst(f, lens, m, WordsOf(other, n));
    }
  }

  lemma WeightedIs(f: seq<nat>, l: seq<nat>)
    requires |f| == |l|
    ensures Weighted(f, l) == RangeSum(Costs(f, l), |f|)
  {
  }

  lemma NotForced(f: seq<nat>)
    requires 3 <= |f| && !NoneUsed(f, |f|) && !exists x: nat :: OnlyUsed(f, |f|, x)
    ensures Forced(f, |f|) == f
  {
  }

  lemma FilledAt(lens: seq<nat>, n: nat, x: nat)
    requires |lens| <= n && x < |lens|
    ensures Filled(lens, n)[x] == lens[x]
  {
  }

  // ----- the bits of a block -----

  lemma {:induction false} SplitTo(f: seq<nat>, lens: seq<nat>, extra: seq<nat>, k: nat)
    requires k <= |lens| <= |f| == |extra|
    ensures RangeSum(Costs(f[..|lens|], Plus(lens, extra[..|lens|])), k)
         == RangeSum(Costs(f, Filled(lens, |f|)), k) + RangeSum(Costs(f, extra), k)
  {
    if k > 0 {
      SplitTo(f, lens, extra, k - 1);
      var i := k - 1;
      assert f[i] * (lens[i] + extra[i]) == f[i] * lens[i] + f[i] * extra[i];
    }
  }

  lemma {:induction false} TailIsFree(f: seq<nat>, l: seq<nat>, k: nat, n: nat)
    requires k <= n <= |f| == |l| && forall x | k <= x < n :: f[x] == 0
    ensures RangeSum(Costs(f, l), n) == RangeSum(Costs(f, l), k)
    decreases n
  {
    if k < n {
      TailIsFree(f, l, k, n - 1);
    }
  }

  /** The size of coded symbols is that of their words and that of their extra bits. */
  lemma {:induction false} Split(f: seq<nat>, lens: seq<nat>, extra: seq<nat>)
    requires |lens| <= |f| == |extra| && Expresses(f, lens)
    ensures CodedSize(f, lens, extra[..|lens|]) == Weighted(f, Filled(lens, |f|)) + Weighted(f, extra)
  {
    hide RangeSum, Filled;
    SplitTo(f, lens, extra, |lens|);
    TailIsFree(f, Filled(lens, |f|), |lens|, |f|);
    TailIsFree(f, extra, |lens|, |f|);
    assert f[..|lens|] == f[..|lens|][..|lens|];
  }

  /** Codes that can code all tokens have a word for every symbol that occurs. */
  lemma {:induction false} CodableExpresses(ts: seq<Token>, ll: seq<nat>, dd: seq<nat>)
    requires AllValid(ts) && AllCodable(ll, dd, ts) && HasWord(ll, END_BLOCK)
    ensures Expresses(LitFreqs(ts), ll) && Expresses(DistFreqs(ts), dd) && SymbolsBelow(ts, |ll|, |dd|)
    decreases |ts|
  {
    hide LengthCode, DistCode;
    if ts != [] {
      var before, t := ts[..|ts| - 1], ts[|ts| - 1];
      assert forall k | k in before :: k in ts;
      CodableExpresses(before, ll, dd);
      assert Codable(ll, dd, t);
    }
  }

  lemma {:induction false} BodyCost(ts: seq<Token>, ll: seq<nat>, dd: seq<nat>)
    requires AllValid(ts) && AllCodable(ll, dd, ts) && HasWord(ll, END_BLOCK) && |ll| <= L_CODES && |dd| <= D_CODES
    ensures |BodyBits(ll, dd, ts)|
         == Weighted(LitFreqs(ts), Filled(ll, L_CODES)) + Weighted(LitFreqs(ts), LitExtras(L_CODES))
          + Weighted(DistFreqs(ts), Filled(dd, D_CODES)) + Weighted(DistFreqs(ts), DistExtras(D_CODES))
  {
    hide LitFreqs, DistFreqs, CodedSize, Weighted, Filled, BodyBits, SymbolsBelow, Expresses, AllCodable;
    CodableExpresses(ts, ll, dd);
    BodySize(ts, ll, dd, |ll|, |dd|);
    assert ll[..|ll|] == ll && dd[..|dd|] == dd;
    assert LitExtras(L_CODES)[..|ll|] == LitExtras(|ll|) && DistExtras(D_CODES)[..|dd|] == DistExtras(|dd|);
    Split(LitFreqs(ts), ll, LitExtras(L_CODES));
    Split(DistFreqs(ts), dd, DistExtras(D_CODES));
  }

  /** Among all codes that code the tokens, the best ones give the shortest body. */
  lemma {:induction false} ShortestBody(ts: seq<Token>, ll: seq<nat>, dd: seq<nat>, b: Block)
    requires AllValid(ts) && AllCodable(ll, dd, ts) && HasWord(ll, END_BLOCK) && |ll| <= L_CODES && |dd| <= D_CODES
    requires Best(LitFreqs(ts), ll, MAX_BITS) && OptimumFits(Forced(LitFreqs(ts), L_CODES), L_CODES, MAX_BITS)
    requires Best(DistFreqs(ts), dd, MAX_BITS) && OptimumFits(Forced(DistFreqs(ts), D_CODES), D_CODES, MAX_BITS)
    requires ValidBlock(b) && b.DynamicBlock? && b.tokens == ts
    ensures |BodyBits(ll, dd, ts)| <= |BodyBits(b.ll, b.dd, ts)|
  {
    hide LitFreqs, DistFreqs, CodedSize, Weighted, Filled, BodyBits, Best, OptimumFits, Forced, AllCodable, Expresses,
         PrefixFree;
    BodyCost(ts, ll, dd);
    BodyCost(ts, b.ll, b.dd);
    CodableExpresses(ts, b.ll, b.dd);
    BestCost(LitFreqs(ts), ll, MAX_BITS, b.ll);
    BestCost(DistFreqs(ts), dd, MAX_BITS, b.dd);
  }

  lemma {:induction false} ForcedFew(f: seq<nat>)
    requires 3 <= |f|
    ensures RangeSum(Forced(f, |f|), |f|) <= RangeSum(f, |f|) + 2
  {
    hide RangeSum;
    if NoneUsed(f, |f|) {
      RangeSumUpdate(f, |f|, 0, 1);
      RangeSumUpdate(f[0 := 1], |f|, 1, 1);
    } else if x: nat :| OnlyUsed(f, |f|, x) {
      ForcedOne(f, |f|, x);
      RangeSumUpdate(f, |f|, if x < 2 then x + 1 else 0, 1);
    }
  }

  /** For fewer than 2581 tokens no longer words are needed. */
  lemma {:induction false} ShortestSmallBody(ts: seq<Token>, ll: seq<nat>, dd: seq<nat>, b: Block)
    requires AllValid(ts) && AllCodable(ll, dd, ts) && HasWord(ll, END_BLOCK) && |ll| <= L_CODES && |dd| <= D_CODES
    requires Best(LitFreqs(ts), ll, MAX_BITS) && Best(DistFreqs(ts), dd, MAX_BITS) && |ts| < 2581
    requires ValidBlock(b) && b.DynamicBlock? && b.tokens == ts
    ensures |BodyBits(ll, dd, ts)| <= |BodyBits(b.ll, b.dd, ts)|
  {
    hide LitFreqs, DistFreqs, BodyBits, OptimumFits, Optimal, Forced, AllCodable, ValidBlock, RangeSum, Fibonacci,
         Filled;
    FreqSums(ts);
    ForcedFew(LitFreqs(ts));
    ForcedFew(DistFreqs(ts));
    Fibonacci16();
    ShortestBody(ts, ll, dd, b);
  }

  lemma Fibonacci16()
    ensures Fibonacci(16) == 2584
  {
    assert Fibonacci(4) == 8 && Fibonacci(5) == 13;
    assert Fibonacci(8) == 55 && Fibonacci(9) == 89;
    assert Fibonacci(12) == 377 && Fibonacci(13) == 610;
  }
}
