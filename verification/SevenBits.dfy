/** Frequencies for which gen_bitlen is not optimal: the cheapest code needs eight bits, and the code length code
    has seven. */
module SevenBits {
  import opened Bits
  import opened Sums
  import opened Huffman
  import opened TreeBuilder
  import opened OptimalLengths

  const DOUBLING: seq<nat> := [1, 1, 2, 4, 8, 16, 32, 64, 128]

  lemma NineSum(w: seq<nat>)
    requires |w| == 9
    ensures RangeSum(w, 9) == w[0] + w[1] + w[2] + w[3] + w[4] + w[5] + w[6] + w[7] + w[8]
  {
    assert RangeSum(w, 0) == 0 && RangeSum(w, 1) == w[0] && RangeSum(w, 2) == w[0] + w[1];
    assert RangeSum(w, 4) == RangeSum(w, 3) + w[3] && RangeSum(w, 6) == RangeSum(w, 5) + w[5];
    assert RangeSum(w, 8) == RangeSum(w, 7) + w[7];
  }

  /** What a word of `l` bits costs, its share in the code being worth four times its size. */
  lemma Worth(l: nat)
    requires l <= 7
    ensures var p := 4 * Pow2(7 - l);
            && l + p >= 11 && 2 * l + p >= 18 && 4 * l + p >= 32 && 8 * l + p >= 56
            && 16 * l + p >= 96 && 32 * l + p >= 160 && 64 * l + p >= 256 && 128 * l + p >= 384
  {
    assert Pow2(0) == 1 && Pow2(1) == 2 && Pow2(2) == 4 && Pow2(3) == 8;
    assert Pow2(4) == 16 && Pow2(5) == 32 && Pow2(6) == 64 && Pow2(7) == 128;
  }

  lemma CostsAre(l: seq<nat>)
    requires |l| == 9
    ensures var c := Costs(DOUBLING, l);
            && c[0] == l[0] && c[1] == l[1] && c[2] == 2 * l[2] && c[3] == 4 * l[3] && c[4] == 8 * l[4]
            && c[5] == 16 * l[5] && c[6] == 32 * l[6] && c[7] == 64 * l[7] && c[8] == 128 * l[8]
  {
    hide Costs;
    CostAt(DOUBLING, l, 0);
    CostAt(DOUBLING, l, 1);
    CostAt(DOUBLING, l, 2);
    CostAt(DOUBLING, l, 3);
    CostAt(DOUBLING, l, 4);
    CostAt(DOUBLING, l, 5);
    CostAt(DOUBLING, l, 6);
    CostAt(DOUBLING, l, 7);
    CostAt(DOUBLING, l, 8);
  }

  const WORTH: seq<nat> := [11, 11, 18, 32, 56, 96, 160, 256, 384]

  lemma WorthAt(l: seq<nat>, x: nat)
    requires |l| == 9 && x < 9 && l[x] <= 7
    ensures Costs(DOUBLING, l)[x] + 4 * Shares(l, 7)[x] >= WORTH[x]
  {
    hide Costs, Shares, Pow2;
    ShareAt(l, 7, x);
    CostsAre(l);
    Worth(l[x]);
  }

  /** Nine words of at most seven bits cost at least 512. */
  lemma {:induction false} SevenCost(l: seq<nat>)
    requires |l| == 9 && (forall x | 0 <= x < 9 :: l[x] <= 7) && RangeSum(Shares(l, 7), 9) <= 128
    ensures Weighted(DOUBLING, l) >= 512
  {
    hide RangeSum, Costs, Shares;
    NineSum(Shares(l, 7));
    NineSum(Costs(DOUBLING, l));
    WorthAt(l, 0);
    WorthAt(l, 1);
    WorthAt(l, 2);
    WorthAt(l, 3);
    WorthAt(l, 4);
    WorthAt(l, 5);
    WorthAt(l, 6);
    WorthAt(l, 7);
    WorthAt(l, 8);
  }

  /** A word of eight bits for symbol 0, and one bit less for each after symbol 1. */
  function EightBits(x: nat): (w: BitString)
    requires x <= 8
    ensures |w| == if x == 0 then 8 else 9 - x
  {
    if x == 0 then seq(8, _ => true) else seq(9 - x, i => i != 8 - x)
  }

  lemma {:induction false} EightBitsCode() returns (words: seq<BitString>)
    ensures |words| == 9 && PrefixCode(Symbols(DOUBLING, 9), words) && Weighted(DOUBLING, Lengths(words)) == 510
  {
    words := seq(9, x requires 0 <= x < 9 => EightBits(x));
    forall x, y | 0 <= x < 9 && 0 <= y < 9 && x != y ensures !(EightBits(x) <= EightBits(y)) {
      if |EightBits(x)| <= |EightBits(y)| {
        var i := if x == 0 then 7 else 8 - x;
        assert EightBits(x)[i] != EightBits(y)[i];
      }
    }
    hide RangeSum, Costs, EightBits;
    NineSum(Costs(DOUBLING, Lengths(words)));
    CostsAre(Lengths(words));
  }

  /** No optimal code for these frequencies has words of at most seven bits. */
  lemma {:induction false} SevenTooFew()
    ensures !OptimumFits(DOUBLING, 9, 7)
  {
    hide Weighted, PrefixCode, NoLonger;
    var best := EightBitsCode();
    forall words: seq<BitString> | |words| == 9 && PrefixCode(Symbols(DOUBLING, 9), words)
      && NoLonger(Symbols(DOUBLING, 9), words, 7)
      ensures !Optimal(DOUBLING, Lengths(words), 9)
    {
      SevenShares(words);
      SevenCost(Lengths(words));
      assert DOUBLING[..9] == DOUBLING && Lengths(words)[..9] == Lengths(words);
    }
  }

  lemma {:induction false} SevenShares(words: seq<BitString>)
    requires |words| == 9 && PrefixCode(Symbols(DOUBLING, 9), words) && NoLonger(Symbols(DOUBLING, 9), words, 7)
    ensures (forall x | 0 <= x < 9 :: Lengths(words)[x] <= 7) && RangeSum(Shares(Lengths(words), 7), 9) <= 128
  {
    hide Used, MSum, Shares, RangeSum;
    var s := Symbols(DOUBLING, 9);
    KraftFrom(s, words, 7, 0);
    UsedSymbols(DOUBLING, 9);
    DistinctToSet(Used(DOUBLING, 9), s);
    UsedSum(DOUBLING, 9, Shares(Lengths(words), 7));
    LengthsAt(words);
    forall x | 0 <= x < 9 ensures x in s {
    }
    Pow2Constants();
  }

  /** What gen_bitlen makes of them is complete and ordered, but not optimal. */
  lemma SevenBitsBeaten(dl: seq<nat>)
    requires GoodLengths(DOUBLING, dl, 9, 8, 7)
    ensures !Optimal(DOUBLING, dl, 9)
  {
    hide GoodLengths, OptimumFits, Optimal;
    SevenTooFew();
    NotOptimal(DOUBLING, dl, 9, 8, 7);
  }
}
