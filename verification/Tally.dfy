/** The tally buffers of a block: which tokens it holds and how often each symbol occurs. */
module Tally {
  import opened Bits
  import opened Tokens
  import opened Trees
  import opened CodeTables

  // ----- symbols of tokens and their frequencies -----

  /** The literal/length symbol of a token. */
  function LitSymbol(t: Token): (s: nat)
    requires ValidToken(t)
    ensures s < L_CODES && s != END_BLOCK
  {
    match t
    case Literal(c) => c
    case Match(len, _) => LITERALS + 1 + LengthCode(len)
  }

  /** How often each literal/length symbol occurs, the end of the block included. */
  ghost function LitFreqs(ts: seq<Token>): (f: seq<nat>)
    requires AllValid(ts)
    ensures |f| == L_CODES
  {
    if ts == [] then seq(L_CODES, i => if i == END_BLOCK then 1 else 0)
    else Bump(LitFreqs(ts[..|ts| - 1]), LitSymbol(ts[|ts| - 1]))
  }

  /** How often each distance symbol occurs. */
  ghost function DistFreqs(ts: seq<Token>): (f: seq<nat>)
    requires AllValid(ts)
    ensures |f| == D_CODES
  {
    if ts == [] then seq(D_CODES, i => 0)
    else
      var before := DistFreqs(ts[..|ts| - 1]);
      match ts[|ts| - 1]
      case Literal(_) => before
      case Match(_, dist) => Bump(before, DistCode(dist))
  }

  function Bump(f: seq<nat>, s: nat): (g: seq<nat>)
    requires s < |f|
    ensures |g| == |f|
  {
    f[s := f[s] + 1]
  }

  ghost predicate AllValid(ts: seq<Token>)
  {
    forall t | t in ts :: ValidToken(t)
  }

  lemma {:induction false} FreqsSnoc(ts: seq<Token>, t: Token)
    requires AllValid(ts) && ValidToken(t)
    ensures AllValid(ts + [t])
    ensures LitFreqs(ts + [t]) == Bump(LitFreqs(ts), LitSymbol(t))
    ensures DistFreqs(ts + [t]) == if t.Match? then Bump(DistFreqs(ts), DistCode(t.dist)) else DistFreqs(ts)
  {
    hide LitSymbol, DistCode, Bump;
    assert (ts + [t])[..|ts|] == ts;
  }

  /** No frequency is above the number of tokens and the end of the block. */
  lemma {:induction false} FreqBound(ts: seq<Token>)
    requires AllValid(ts)
    ensures forall s | 0 <= s < L_CODES :: LitFreqs(ts)[s] <= |ts| + 1
    ensures forall s | 0 <= s < D_CODES :: DistFreqs(ts)[s] <= |ts|
    decreases |ts|
  {
    hide LitSymbol, DistCode;
    if ts != [] {
      FreqBound(ts[..|ts| - 1]);
    }
  }

  lemma {:induction false} FreqPositive(ts: seq<Token>, k: nat)
    requires AllValid(ts) && k < |ts|
    ensures LitFreqs(ts)[LitSymbol(ts[k])] > 0
    ensures ts[k].Match? ==> DistFreqs(ts)[DistCode(ts[k].dist)] > 0
    decreases |ts|
  {
    hide LitSymbol, DistCode;
    if k < |ts| - 1 {
      FreqPositive(ts[..|ts| - 1], k);
    }
  }

  lemma {:induction false} EndCounted(ts: seq<Token>)
    requires AllValid(ts)
    ensures LitFreqs(ts)[END_BLOCK] == 1
    decreases |ts|
  {
    if ts != [] {
      EndCounted(ts[..|ts| - 1]);
    }
  }

  // ----- the buffers -----

  /** What l_buf keeps of a token. */
  function Lc(t: Token): (v: byte)
    requires ValidToken(t)
  {
    match t
    case Literal(c) => c
    case Match(len, _) => len - MIN_MATCH
  }

  ghost function Lcs(ts: seq<Token>): (s: seq<byte>)
    requires AllValid(ts)
    ensures |s| == |ts| && forall i | 0 <= i < |ts| :: s[i] == Lc(ts[i])
  {
    seq(|ts|, i requires 0 <= i < |ts| => Lc(ts[i]))
  }

  /** What d_buf keeps: the distances less 1. */
  ghost function Dists(ts: seq<Token>): (s: seq<nat>)
    requires AllValid(ts)
    ensures |s| <= |ts|
  {
    if ts == [] then []
    else
      var before := Dists(ts[..|ts| - 1]);
      assert ValidToken(ts[|ts| - 1]);
      match ts[|ts| - 1]
      case Literal(_) => before
      case Match(_, dist) => var d: nat := dist - 1; before + [d]
  }

  /** What flag_buf keeps: which tokens are matches. */
  function Flags(ts: seq<Token>): (b: BitString)
    ensures |b| == |ts| && forall i | 0 <= i < |ts| :: b[i] == ts[i].Match?
  {
    seq(|ts|, i requires 0 <= i < |ts| => ts[i].Match?)
  }

  /** `f` is kept as whole bytes and the low `k` bits of `flags`. */
  ghost predicate Flagged(bytes: seq<byte>, flags: nat, flagBit: nat, k: nat, f: BitString)
  {
    && flags < flagBit == Pow2(k)
    && BytesToBits(bytes) + ToBits(flags, k) == f
  }

  class Buffers {
    const lBuf: array<byte>
    const dBuf: array<ush>
    const flagBuf: array<byte>
    var lastLit: nat
    var lastDist: nat
    var lastFlags: nat
    var flags: nat
    var flagBit: nat
    /** The tokens of the current block, and those of all blocks before it. */
    ghost var tokens: seq<Token>
    ghost var sent: seq<Token>

    ghost predicate Sized()
    {
      && 8 <= flagBuf.Length && lBuf.Length == 8 * flagBuf.Length <= 0x8000
      && 1 <= dBuf.Length
      && lBuf != flagBuf && dBuf as object !in {lBuf as object, flagBuf as object}
    }

    ghost function Arrays(): (s: set<object>)
    {
      {lBuf as object, flagBuf as object, dBuf as object}
    }

    /** The first two buffers hold the tokens, but for what the flags tell. */
    ghost predicate Kept()
      reads this, lBuf, dBuf
    {
      && Sized() && AllValid(tokens)
      && lastLit == |tokens| < lBuf.Length && lBuf[..lastLit] == Lcs(tokens)
      && lastDist == |Dists(tokens)| <= dBuf.Length && dBuf[..lastDist] == Dists(tokens)
    }

    /** The buffers hold the tokens. */
    ghost predicate Valid()
      reads this, lBuf, dBuf, flagBuf
    {
      && Kept()
      && lastFlags == lastLit / 8 && Flagged(flagBuf[..lastFlags], flags, flagBit, lastLit % 8, Flags(tokens))
    }

    constructor (litSize8: nat, distSize: nat)
      requires 8 <= litSize8 <= 0x1000 && 1 <= distSize
      ensures Sized() && fresh(Arrays()) && allocated(Arrays())
      ensures flagBuf.Length == litSize8 && dBuf.Length == distSize && tokens == [] && sent == []
    {
      lBuf := new byte[8 * litSize8](_ => 0);
      dBuf := new ush[distSize](_ => 0);
      flagBuf := new byte[litSize8](_ => 0);
      lastLit, lastDist, lastFlags, flags, flagBit := 0, 0, 0, 0, 1;
      tokens, sent := [], [];
    }

    /** The counters part of init_block. */
    method Reset()
      requires Sized()
      modifies this
      ensures Valid() && tokens == [] && sent == old(sent + tokens)
    {
      lastLit, lastDist, lastFlags := 0, 0, 0;
      flags, flagBit := 0, 1;
      tokens, sent := [], sent + tokens;
      assert lBuf[..0] == [] && dBuf[..0] == [] && flagBuf[..0] == [];
    }

    lemma Room()
      requires Valid()
      ensures AllValid(tokens) && lastLit == |tokens| < lBuf.Length && lastDist == |Dists(tokens)| <= dBuf.Length
      ensures lBuf.Length == 8 * flagBuf.Length <= 0x8000 && lastFlags == lastLit / 8
    {
    }

    /** Saves the flags of the last items. */
    method SaveFlags()
      requires Valid()
      modifies flagBuf
      ensures Valid() && flagBuf[lastFlags] == flags
    {
      hide Dists, Lcs;
      FlagsFit(flagBuf[..lastFlags], flags, flagBit, lastLit % 8, Flags(tokens));
      flagBuf[lastFlags] := flags;
      assert flagBuf[..lastFlags] == old(flagBuf[..lastFlags]);
      assert lBuf[..lastLit] == old(lBuf[..lastLit]);
    }

    /** The part of ct_tally that saves the token. */
    method Save(t: Token)
      requires Valid() && ValidToken(t)
      requires lastLit + 1 < lBuf.Length && (t.Match? ==> lastDist < dBuf.Length)
      modifies this, lBuf, dBuf, flagBuf
      ensures Valid() && tokens == old(tokens) + [t] && sent == old(sent)
    {
      hide Flagged, Dists, Lcs, AllValid;
      ghost var before := Flags(tokens);
      SaveBytes(t);
      assert Flags(tokens) == before + [t.Match?];
      SaveFlag(t.Match?, before);
    }

    /** The bytes of the token. */
    method SaveBytes(t: Token)
      requires Kept() && ValidToken(t)
      requires lastLit + 1 < lBuf.Length && (t.Match? ==> lastDist < dBuf.Length)
      modifies this`lastLit, this`lastDist, this`tokens, lBuf, dBuf
      ensures Kept() && tokens == old(tokens) + [t] && lastLit == old(lastLit) + 1
    {
      hide Dists, Lc;
      DistsSnoc(tokens, t);
      lBuf[lastLit] := Lc(t);
      lastLit := lastLit + 1;
      if t.Match? {
        dBuf[lastDist] := t.dist - 1;
        lastDist := lastDist + 1;
      }
      tokens := tokens + [t];
      assert lBuf[..lastLit] == Lcs(tokens);
      assert dBuf[..lastDist] == Dists(tokens);
    }

    /** The flag of the last token, which may complete a byte of flags. */
    method SaveFlag(match_: bool, ghost before: BitString)
      requires Kept() && lastLit > 0 && Flags(tokens) == before + [match_] && lastFlags == (lastLit - 1) / 8
      requires lastFlags < flagBuf.Length
      requires Flagged(flagBuf[..lastFlags], flags, flagBit, (lastLit - 1) % 8, before)
      modifies this`flags, this`flagBit, this`lastFlags, flagBuf
      ensures Valid() && tokens == old(tokens)
    {
      hide Flagged, Dists, Lcs, Flags, AllValid;
      FlagsSnoc(flagBuf[..lastFlags], flags, flagBit, (lastLit - 1) % 8, before, match_);
      if match_ {
        flags := flags + flagBit;
      }
      flagBit := flagBit * 2;
      if lastLit % 8 == 0 {
        flagBuf[lastFlags] := flags;
        lastFlags := lastFlags + 1;
        assert flagBuf[..lastFlags] == old(flagBuf[..lastFlags]) + [flags as byte];
        flags := 0;
        flagBit := 1;
      }
    }
  }

  lemma {:induction false} DistsSnoc(ts: seq<Token>, t: Token)
    requires AllValid(ts) && ValidToken(t)
    ensures AllValid(ts + [t])
    ensures Dists(ts + [t]) == if t.Match? then Dists(ts) + [t.dist - 1] else Dists(ts)
  {
    assert (ts + [t])[..|ts|] == ts;
  }

  lemma {:induction false} FlagsSnoc(bytes: seq<byte>, flags: nat, flagBit: nat, k: nat, f: BitString, bit: bool)
    requires k < 8 && Flagged(bytes, flags, flagBit, k, f)
    ensures var more := if bit then flags + flagBit else flags;
            && Flagged(bytes, more, flagBit * 2, k + 1, f + [bit])
            && (k == 7 ==> more < 256 && Flagged(bytes + [more], 0, 1, 0, f + [bit]))
  {
    hide ToBits, BytesToBits;
    var more := if bit then flags + flagBit else flags;
    FlagBit(flags, k, bit);
    assert BytesToBits(bytes) + (ToBits(flags, k) + [bit]) == f + [bit];
    if k == 7 {
      Pow2Constants();
      BytesToBitsSnoc(bytes, more);
      assert BytesToBits(bytes + [more]) + ToBits(0, 0) == BytesToBits(bytes + [more]);
    }
  }

  /** One more bit above the `k` bits of the flags. */
  lemma FlagBit(flags: nat, k: nat, bit: bool)
    requires flags < Pow2(k)
    ensures var more := if bit then flags + Pow2(k) else flags;
            more < Pow2(k + 1) && ToBits(more, k + 1) == ToBits(flags, k) + [bit]
  {
    hide ToBits;
    var hi: nat := if bit then 1 else 0;
    Pow2Shl(k, 0);
    ShlZero(k);
    ToBitsConcat(flags, k, hi, 1);
    OneBit(hi);
  }

  lemma {:induction false} FlagsFit(bytes: seq<byte>, flags: nat, flagBit: nat, k: nat, f: BitString)
    requires k < 8 && Flagged(bytes, flags, flagBit, k, f)
    ensures flags < 256
  {
    Pow2Constants();
    Pow2Monotone(k, 8);
  }

  lemma OneBit(v: nat)
    requires v < 2
    ensures ToBits(v, 1) == [v == 1]
  {
  }

  /** The token that ct_tally(dist, lc) stands for. */
  function Tallied(dist: nat, lc: byte): (t: Token)
    requires dist <= 0x8000
    ensures ValidToken(t)
  {
    if dist == 0 then Literal(lc) else Match(lc + MIN_MATCH, dist)
  }

  /** ct_tally: saves the token and counts its symbols. The result says
      whether the block must be flushed; it must be when a buffer is full. */
  method CtTally(buf: Buffers, dynL: CtTree, dynD: CtTree, tables: Tables, dist: nat, lc: byte, inLength: nat)
    returns (flush: bool)
    requires buf.Valid() && buf.lastLit + 1 < buf.lBuf.Length && buf.lastDist < buf.dBuf.Length
    requires dist <= 0x8000
    requires tables.Valid() && tables.LengthsReady() && tables.DistsReady()
    requires dynL.Valid() && L_CODES <= dynL.fc.Length && dynL.fc[..L_CODES] == LitFreqs(buf.tokens)
    requires dynD.Valid() && D_CODES <= dynD.fc.Length && dynD.fc[..D_CODES] == DistFreqs(buf.tokens)
    requires {buf.lBuf as object, buf.flagBuf as object}
      !! {buf.dBuf as object, dynL.fc as object, dynD.fc as object, tables.lengthCode as object,
        tables.distCode as object}
    requires dynL.fc != dynD.fc && buf.dBuf as object !in {dynL.fc as object, dynD.fc as object,
      tables.lengthCode as object, tables.distCode as object, tables.baseLength as object, tables.baseDist as object}
    requires {tables.lengthCode as object, tables.distCode as object} !! {dynL.fc as object, dynD.fc as object}
    modifies buf, buf.lBuf, buf.dBuf, buf.flagBuf, dynL.fc, dynD.fc
    ensures buf.Valid()
    ensures buf.tokens == old(buf.tokens) + [Tallied(dist, lc)] && buf.sent == old(buf.sent)
    ensures dynL.fc[..L_CODES] == LitFreqs(buf.tokens) && dynL.fc[L_CODES..] == old(dynL.fc[L_CODES..])
    ensures dynD.fc[..D_CODES] == DistFreqs(buf.tokens) && dynD.fc[D_CODES..] == old(dynD.fc[D_CODES..])
    ensures flush <==>
            || (buf.lastLit % 0x1000 == 0 && buf.lastDist < buf.lastLit / 2 && Guess(buf.tokens) / 8 < inLength / 2)
            || buf.lastLit == buf.lBuf.Length - 1 || buf.lastDist == buf.dBuf.Length
    ensures buf.lastLit == |buf.tokens| < buf.lBuf.Length && buf.lastDist == |Dists(buf.tokens)| <= buf.dBuf.Length
  {
    hide *;
    var t := Tallied(dist, lc);
    buf.Room();
    buf.Save(t);
    CountToken(dynL, dynD, tables, dist, lc, old(buf.tokens));
    buf.Room();
    if buf.lastLit % 0x1000 == 0 {
      var outLength := EstimatedSize(buf.lastLit, dynD.fc);
      assert dynD.fc[..][..D_CODES] == dynD.fc[..D_CODES];
      GuessOf(buf.tokens, dynD.fc[..]);
      if buf.lastDist < buf.lastLit / 2 && outLength < inLength / 2 {
        return true;
      }
    }
    return buf.lastLit == buf.lBuf.Length - 1 || buf.lastDist == buf.dBuf.Length;
  }

  /** The part of ct_tally that counts the symbols. */
  method CountToken(dynL: CtTree, dynD: CtTree, tables: Tables, dist: nat, lc: byte, ghost ts: seq<Token>)
    requires dist <= 0x8000 && AllValid(ts) && |ts| < 0x8000
    requires tables.Valid() && tables.LengthsReady() && tables.DistsReady()
    requires dynL.Valid() && L_CODES <= dynL.fc.Length && dynL.fc[..L_CODES] == LitFreqs(ts)
    requires dynD.Valid() && D_CODES <= dynD.fc.Length && dynD.fc[..D_CODES] == DistFreqs(ts)
    requires dynL.fc != dynD.fc && {tables.lengthCode as object, tables.distCode as object}
      !! {dynL.fc as object, dynD.fc as object}
    modifies dynL.fc, dynD.fc
    ensures var t := Tallied(dist, lc);
            && AllValid(ts + [t])
            && dynL.fc[..L_CODES] == LitFreqs(ts + [t])
            && dynD.fc[..D_CODES] == DistFreqs(ts + [t])
    ensures dynL.fc[L_CODES..] == old(dynL.fc[L_CODES..]) && dynD.fc[D_CODES..] == old(dynD.fc[D_CODES..])
  {
    hide LitFreqs, DistFreqs, LitSymbol, DistCode, LengthCode;
    ghost var t := Tallied(dist, lc);
    FreqsSnoc(ts, t);
    FreqBound(ts);
    SymbolOf(t);
    if dist == 0 {
      dynL.fc[lc] := dynL.fc[lc] + 1;
    } else {
      var lcode, dcode := tables.lengthCode[lc] + LITERALS + 1, tables.DCode(dist - 1);
      dynL.fc[lcode] := dynL.fc[lcode] + 1;
      dynD.fc[dcode] := dynD.fc[dcode] + 1;
    }
  }

  lemma SymbolOf(t: Token)
    requires ValidToken(t)
    ensures t.Literal? ==> LitSymbol(t) == t.c
    ensures t.Match? ==> LitSymbol(t) == LengthCode(t.len) + LITERALS + 1 < L_CODES
    ensures t.Match? ==> DistCode(t.dist) < D_CODES
  {
  }

  /** A byte for every token, and five bits and the extra bits for every distance. */
  method EstimatedSize(lastLit: nat, dfc: array<ush>) returns (size: nat)
    requires D_CODES <= dfc.Length
    ensures size == (8 * lastLit + DistBitsEstimate(dfc[..], D_CODES)) / 8
  {
    var outLength := lastLit * 8;
    for dcode := 0 to D_CODES
      invariant outLength == 8 * lastLit + DistBitsEstimate(dfc[..], dcode)
    {
      outLength := outLength + dfc[dcode] * (5 + DistExtra(dcode));
    }
    size := outLength / 8;
  }

  function DistBitsEstimate(f: seq<nat>, n: nat): (s: nat)
    requires n <= D_CODES <= |f|
  {
    if n == 0 then 0 else DistBitsEstimate(f, n - 1) + f[n - 1] * (5 + DistExtra(n - 1))
  }

  /** What the estimate says of some tokens: a byte for each, and for every match five bits and the extra bits of its
      distance. */
  ghost function Guess(ts: seq<Token>): (bits: nat)
    requires AllValid(ts)
  {
    if ts == [] then 0
    else
      var t := ts[|ts| - 1];
      assert ValidToken(t);
      Guess(ts[..|ts| - 1]) + 8 + if t.Match? then 5 + DistExtra(DistCode(t.dist)) else 0
  }

  lemma {:induction false} GuessOf(ts: seq<Token>, f: seq<nat>)
    requires AllValid(ts) && D_CODES <= |f| && f[..D_CODES] == DistFreqs(ts)
    ensures 8 * |ts| + DistBitsEstimate(f, D_CODES) == Guess(ts)
  {
    hide DistFreqs, DistBitsEstimate, DistCode, DistExtra;
    GuessIs(ts);
    EstimateFrame(f, DistFreqs(ts), D_CODES);
  }

  lemma {:induction false} EstimateFrame(f: seq<nat>, g: seq<nat>, n: nat)
    requires n <= D_CODES <= |f| && D_CODES <= |g| && f[..D_CODES] == g[..D_CODES]
    ensures DistBitsEstimate(f, n) == DistBitsEstimate(g, n)
  {
    if n > 0 {
      EstimateFrame(f, g, n - 1);
      assert f[n - 1] == f[..D_CODES][n - 1] && g[n - 1] == g[..D_CODES][n - 1];
    }
  }

  lemma {:induction false} GuessIs(ts: seq<Token>)
    requires AllValid(ts)
    ensures 8 * |ts| + DistBitsEstimate(DistFreqs(ts), D_CODES) == Guess(ts)
  {
    hide DistBitsEstimate, DistCode, DistExtra;
    if ts == [] {
      EstimateZero(DistFreqs(ts), D_CODES);
    } else {
      var init, t := ts[..|ts| - 1], ts[|ts| - 1];
      assert ValidToken(t);
      GuessIs(init);
      if t.Match? {
        EstimateBump(DistFreqs(init), DistCode(t.dist), D_CODES);
      }
    }
  }

  lemma {:induction false} EstimateZero(f: seq<nat>, n: nat)
    requires n <= D_CODES <= |f| && forall i | 0 <= i < D_CODES :: f[i] == 0
    ensures DistBitsEstimate(f, n) == 0
  {
    if n > 0 {
      EstimateZero(f, n - 1);
    }
  }

  lemma {:induction false} EstimateBump(f: seq<nat>, s: nat, n: nat)
    requires n <= D_CODES <= |f| && s < D_CODES
    ensures DistBitsEstimate(Bump(f, s), n) == DistBitsEstimate(f, n) + if s < n then 5 + DistExtra(s) else 0
  {
    hide DistExtra;
    if n > 0 {
      EstimateBump(f, s, n - 1);
      OneTimesMore(f[n - 1], 5 + DistExtra(n - 1));
    }
  }

  lemma OneTimesMore(a: nat, b: nat)
    ensures (a + 1) * b == a * b + b
  {
  }
}
