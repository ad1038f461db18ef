/** What flush_block needs to know before it chooses a format: the codes of the
    block can express it, and how long it will be. */
module BlockPlan {
  import opened Bits
  import opened Canonical
  import opened CodeLengths
  import opened Tokens
  import opened Inflate
  import opened BlockFormat
  import opened Trees
  import opened Tally
  import opened BlockSize
  import opened TreeLengths

  // ----- unused symbols at the end of a code -----

  function ZeroLens(k: nat): (z: seq<nat>)
    ensures |z| == k && forall i | 0 <= i < k :: z[i] == 0
  {
    seq(k, i => 0)
  }

  lemma {:induction false} CountPad(lens: seq<nat>, k: nat, b: nat)
    requires b > 0
    ensures Count(lens + ZeroLens(k), b) == Count(lens, b)
    decreases k
  {
    if k == 0 {
      assert lens + ZeroLens(0) == lens;
    } else {
      var padded := lens + ZeroLens(k);
      assert padded[..|padded| - 1] == lens + ZeroLens(k - 1);
      CountPad(lens, k - 1, b);
    }
  }

  lemma {:induction false} FirstCodePad(lens: seq<nat>, k: nat, b: nat)
    ensures FirstCode(lens + ZeroLens(k), b) == FirstCode(lens, b)
  {
    hide Count;
    if b > 1 {
      FirstCodePad(lens, k, b - 1);
      CountPad(lens, k, b - 1);
    }
  }

  lemma {:induction false} KraftPad(lens: seq<nat>, k: nat, m: nat, b: nat)
    requires b <= m
    ensures KraftTo(lens + ZeroLens(k), m, b) == KraftTo(lens, m, b)
  {
    hide Count, Shl;
    if b > 0 {
      KraftPad(lens, k, m, b - 1);
      CountPad(lens, k, b);
    }
  }

  /** Unused symbols at the end change no word of the code. */
  lemma {:induction false} PaddedCode(tree: CtTree, n: nat, m: nat)
    requires n <= m <= tree.dl.Length && tree.Coded(tree.dl[..n]) && forall x | n <= x < m :: tree.dl[x] == 0
    ensures tree.Coded(tree.dl[..m])
    ensures forall k: nat :: KraftTo(tree.dl[..m], k, k) == KraftTo(tree.dl[..n], k, k)
  {
    hide Count, FirstCode, Reversed, KraftTo;
    var short, long := tree.dl[..n], tree.dl[..m];
    assert long == short + ZeroLens(m - n);
    forall i | 0 <= i < m && long[i] > 0 ensures tree.fc[i] == Reversed(Code(long, i), long[i]) {
      FirstCodePad(short, m - n, long[i]);
      assert long[..i] == short[..i];
    }
    forall k: nat ensures KraftTo(long, k, k) == KraftTo(short, k, k) {
      KraftPad(short, m - n, k, k);
    }
  }

  // ----- the codes express the block -----

  /** Every symbol that occurs has a word. */
  ghost predicate Expresses(f: seq<nat>, lens: seq<nat>)
  {
    forall x | 0 <= x < |f| && f[x] > 0 :: x < |lens| && lens[x] > 0
  }

  lemma {:induction false} TokensExpressed(ts: seq<Token>, ll: seq<nat>, dd: seq<nat>)
    requires AllValid(ts) && Expresses(LitFreqs(ts), ll) && Expresses(DistFreqs(ts), dd)
    ensures AllCodable(ll, dd, ts) && HasWord(ll, END_BLOCK) && SymbolsBelow(ts, |ll|, |dd|)
  {
    hide LitFreqs, DistFreqs, LengthCode, DistCode;
    EndCounted(ts);
    forall t | t in ts
      ensures Codable(ll, dd, t) && LitSymbol(t) < |ll| && (t.Match? ==> DistCode(t.dist) < |dd|)
    {
      var k :| 0 <= k < |ts| && ts[k] == t;
      FreqPositive(ts, k);
    }
  }

  lemma {:induction false} FixedExpresses(ts: seq<Token>)
    requires AllValid(ts)
    ensures AllCodable(FixedLitLens(), FixedDistLens(), ts)
  {
    hide LengthCode, DistCode;
    forall t | t in ts ensures Codable(FixedLitLens(), FixedDistLens(), t) {
    }
  }

  lemma {:induction false} OccursPositive(rs: seq<Run>, k: nat)
    requires k < |rs| && forall r | r in rs :: ValidRun(r)
    ensures Occurs(rs, Symbol(rs[k])) > 0
    decreases |rs|
  {
    if k < |rs| - 1 {
      OccursPositive(rs[..|rs| - 1], k);
    }
  }

  lemma {:induction false} RunsExpressed(rs: seq<Run>, lens: seq<nat>, bl: seq<nat>)
    requires (forall r | r in rs :: ValidRun(r)) && Expresses(RunFreqs(rs), lens) && lens <= bl && |bl| == BL_CODES
    ensures CoversRuns(bl, rs) && forall r | r in rs :: Symbol(r) < |lens|
  {
    hide Occurs;
    forall r | r in rs ensures ValidRun(r) && bl[Symbol(r)] > 0 && Symbol(r) < |lens| {
      var k :| 0 <= k < |rs| && rs[k] == r;
      OccursPositive(rs, k);
      assert RunFreqs(rs)[Symbol(r)] > 0;
    }
  }

  lemma RunsJoin(a: seq<Run>, b: seq<Run>)
    requires (forall r | r in a :: ValidRun(r)) && (forall r | r in b :: ValidRun(r))
    ensures forall r | r in a + b :: ValidRun(r)
    ensures forall s | 0 <= s < BL_CODES :: RunFreqs(a + b)[s] == Occurs(a, s) + Occurs(b, s)
  {
    forall s: nat | s < BL_CODES { OccursConcat(a, b, s); }
  }

  /** Runs that never send a length can only stand for zeros. */
  lemma {:induction false} NoLengthSent(rs: seq<Run>, acc: seq<nat>)
    requires (forall r | r in rs :: !r.Length?) && (forall i | 0 <= i < |acc| :: acc[i] == 0)
    ensures var s := ExpandAll(rs, acc); s.Some? ==> forall i | 0 <= i < |s.value| :: s.value[i] == 0
    decreases |rs|
  {
    if rs != [] {
      var next := Expand(rs[0], acc);
      if next.Some? {
        NoLengthSent(rs[1..], next.value);
      }
    }
  }

  /** A code with a word sends at least one length, so that more than the three
      repeat symbols are in use. */
  lemma {:induction false} SomeLengthSent(lens: seq<nat>, i: nat) returns (r: Run)
    requires AllShort(lens) && i < |lens| && lens[i] > 0
    ensures r in Runs(lens, 0, -1, 0) && r.Length?
  {
    hide Runs, ExpandAll;
    var rs := Runs(lens, 0, -1, 0);
    ExpandRuns(lens, 0, -1, 0, []);
    assert [] + lens[0..] == lens;
    if forall r | r in rs :: !r.Length? {
      NoLengthSent(rs, []);
    }
    r :| r in rs && r.Length?;
  }

  lemma LengthRank(r: Run)
    requires ValidRun(r) && r.Length?
    ensures BlRank(Symbol(r)) >= 3
  {
  }

  // ----- sizes -----

  /** The compressed data with the codes `ll` and `dd`. */
  lemma {:induction false} BodySize(ts: seq<Token>, ll: seq<nat>, dd: seq<nat>, n: nat, m: nat)
    requires AllValid(ts) && AllCodable(ll, dd, ts) && HasWord(ll, END_BLOCK)
    requires END_BLOCK < n <= |ll| && n <= L_CODES && m <= |dd| && m <= D_CODES && SymbolsBelow(ts, n, m)
    ensures |BodyBits(ll, dd, ts)|
         == CodedSize(LitFreqs(ts), ll[..n], LitExtras(n)) + CodedSize(DistFreqs(ts), dd[..m], DistExtras(m))
  {
    hide CodedSize, LitFreqs, DistFreqs, LitExtras, DistExtras;
    TokensSize(ll, dd, ts, n, m);
  }

  /** The header of a dynamic block. */
  lemma {:induction false} HeaderSize(ll: seq<nat>, dd: seq<nat>, bl: seq<nat>, blCodes: nat)
    requires ValidHeader(ll, dd, bl, blCodes)
    ensures |TreesBits(ll, dd, bl, blCodes)| ==
      14 + 3 * blCodes + |RunsBits(bl, Runs(ll, 0, -1, 0) + Runs(dd, 0, -1, 0))|
  {
    hide Runs, RunsBits, CountsBits, BlLensBits;
    RunsBitsConcat(bl, Runs(ll, 0, -1, 0), Runs(dd, 0, -1, 0));
  }
}
