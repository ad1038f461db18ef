/** The three block formats of RFC 1951 as they are written, and the proof that
    the reference inflater reads each of them back. */
module BlockFormat {
  import opened Bits
  import opened BitWriter
  import opened Canonical
  import opened Options
  import opened CodeLengths
  import opened Tokens
  import opened Inflate

  const STORED_BLOCK := 0
  const STATIC_TREES := 1
  const DYN_TREES := 2

  /** A block with everything that decides its bits. A dynamic block carries the
      lengths of its three codes and how many code length code lengths it sends. */
  datatype Block =
    | StoredBlock(data: seq<byte>)
    | StaticBlock(tokens: seq<Token>)
    | DynamicBlock(tokens: seq<Token>, ll: seq<nat>, dd: seq<nat>, bl: seq<nat>, blCodes: nat)

  ghost predicate ValidBlock(b: Block)
  {
    match b
    case StoredBlock(data) => |data| <= 0xffff
    case StaticBlock(ts) => AllCodable(FixedLitLens(), FixedDistLens(), ts)
    case DynamicBlock(ts, ll, dd, bl, blCodes) =>
      && ValidHeader(ll, dd, bl, blCodes)
      && PrefixFree(ll) && PrefixFree(dd) && PrefixFree(bl)
      && AllCodable(ll, dd, ts) && HasWord(ll, END_BLOCK)
  }

  ghost predicate ValidHeader(ll: seq<nat>, dd: seq<nat>, bl: seq<nat>, blCodes: nat)
  {
    && 257 <= |ll| <= L_CODES && 1 <= |dd| <= D_CODES && |bl| == BL_CODES
    && 4 <= blCodes <= BL_CODES
    && AllShort(ll) && AllShort(dd)
    && (forall s | 0 <= s < BL_CODES :: bl[s] <= 7)
    && (forall s | 0 <= s < BL_CODES && BlRank(s) >= blCodes :: bl[s] == 0)
    && CoversRuns(bl, Runs(ll, 0, -1, 0)) && CoversRuns(bl, Runs(dd, 0, -1, 0))
  }

  function ContentOf(b: Block): (c: Content)
  {
    if b.StoredBlock? then Raw(b.data) else Coded(b.tokens)
  }

  /** The three bits that start a block. */
  function KindBits(kind: nat, final: bool): (h: BitString)
  {
    ToBits(2 * kind + (if final then 1 else 0), 3)
  }

  function StoredBits(data: seq<byte>, pos: nat): (b: BitString)
    requires |data| <= 0xffff
  {
    Padding(pos) + (ToBits(|data|, 16) + (ToBits(0xffff - |data|, 16) + BytesToBits(data)))
  }

  /** The first `n` code length code lengths, in the order they are sent. */
  function BlLensBits(bl: seq<nat>, n: nat): (b: BitString)
    requires |bl| == BL_CODES && n <= BL_CODES
    ensures |b| == 3 * n
  {
    if n == 0 then [] else BlLensBits(bl, n - 1) + ToBits(bl[BlOrder(n - 1)], 3)
  }

  function CountsBits(nl: nat, nd: nat, nb: nat): (b: BitString)
    requires 257 <= nl && 1 <= nd && 4 <= nb
    ensures |b| == 14
  {
    ToBits(nl - 257, 5) + (ToBits(nd - 1, 5) + ToBits(nb - 4, 4))
  }

  /** The header of a dynamic block: counts, code length code, the two codes. */
  ghost function TreesBits(ll: seq<nat>, dd: seq<nat>, bl: seq<nat>, blCodes: nat): (b: BitString)
    requires ValidHeader(ll, dd, bl, blCodes)
  {
    CountsBits(|ll|, |dd|, blCodes)
    + (BlLensBits(bl, blCodes) + (RunsBits(bl, Runs(ll, 0, -1, 0)) + RunsBits(bl, Runs(dd, 0, -1, 0))))
  }

  /** The block as written at bit position `pos`. */
  ghost function BlockBits(b: Block, final: bool, pos: nat): (r: BitString)
    requires ValidBlock(b)
  {
    match b
    case StoredBlock(data) => KindBits(STORED_BLOCK, final) + StoredBits(data, pos + 3)
    case StaticBlock(ts) =>
      FixedHasEnd();
      KindBits(STATIC_TREES, final) + BodyBits(FixedLitLens(), FixedDistLens(), ts)
    case DynamicBlock(ts, ll, dd, bl, blCodes) =>
      KindBits(DYN_TREES, final) + (TreesBits(ll, dd, bl, blCodes) + BodyBits(ll, dd, ts))
  }

  lemma FixedHasEnd()
    ensures HasWord(FixedLitLens(), END_BLOCK)
  {
  }

  // ----- the fixed codes are prefix codes -----

  lemma {:induction false} FixedLitCount(n: nat, b: nat)
    requires n <= 288
    ensures Count(FixedLitLens()[..n], b)
         == if b == 8 then (if n <= 144 then n else if n <= 280 then 144 else n - 136)
            else if b == 9 then (if n <= 144 then 0 else if n <= 256 then n - 144 else 112)
            else if b == 7 then (if n <= 256 then 0 else if n <= 280 then n - 256 else 24)
            else 0
  {
    if n > 0 {
      FixedLitCount(n - 1, b);
      assert FixedLitLens()[..n][..n - 1] == FixedLitLens()[..n - 1];
    }
  }

  lemma {:induction false} FixedDistCount(n: nat, b: nat)
    requires n <= 30
    ensures Count(FixedDistLens()[..n], b) == if b == 5 then n else 0
  {
    if n > 0 {
      FixedDistCount(n - 1, b);
      assert FixedDistLens()[..n][..n - 1] == FixedDistLens()[..n - 1];
    }
  }

  lemma {:induction false} FixedLitPrefixFree()
    ensures PrefixFree(FixedLitLens())
  {
    hide Count, PrefixFree, Shl;
    var lens := FixedLitLens();
    assert lens[..288] == lens;
    forall b: nat ensures Count(lens, b) == if b == 8 then 152 else if b == 9 then 112 else if b == 7 then 24 else 0 {
      FixedLitCount(288, b);
    }
    KraftZero(lens, 9, 6);
    assert Shl(24, 2) == 96 by { ShlTwo(24); }
    assert Shl(152, 1) == 304;
    assert Shl(112, 0) == 112;
    assert KraftTo(lens, 9, 7) == 96;
    assert KraftTo(lens, 9, 8) == 400;
    assert KraftTo(lens, 9, 9) == 512 == Pow2(9);
    CanonicalPrefixFree(lens, 9);
  }

  lemma {:induction false} FixedDistPrefixFree()
    ensures PrefixFree(FixedDistLens())
  {
    hide Count, PrefixFree, Shl;
    var lens := FixedDistLens();
    assert lens[..30] == lens;
    forall b: nat ensures Count(lens, b) == if b == 5 then 30 else 0 {
      FixedDistCount(30, b);
    }
    KraftZero(lens, 5, 4);
    assert Shl(30, 0) == 30;
    assert KraftTo(lens, 5, 5) == 30 <= Pow2(5);
    CanonicalPrefixFree(lens, 5);
  }

  lemma {:induction false} KraftZero(lens: seq<nat>, m: nat, b: nat)
    requires b <= m && forall k | 1 <= k <= b :: Count(lens, k) == 0
    ensures KraftTo(lens, m, b) == 0
  {
    if b > 0 {
      KraftZero(lens, m, b - 1);
      ShlZero(m - b);
    }
  }

  lemma {:induction false} ShlTwo(v: nat)
    ensures Shl(v, 2) == 4 * v
  {
    assert Shl(v, 1) == 2 * v;
  }

  // ----- stored blocks -----

  lemma {:induction false} ReadBytesWritten(bits: BitString, pos: nat, data: seq<byte>)
    requires At(bits, pos, BytesToBits(data))
    ensures ReadBytes(bits, pos, |data|) == Some(data)
    decreases |data|
  {
    hide BytesToBits, ToBits, At, ReadBits;
    if data == [] {
      assert pos <= |bits| by { AtBound(bits, pos, BytesToBits(data)); }
    } else {
      assert data == data[..1] + data[1..] && data[..1] == [] + [data[0]];
      BytesToBitsConcat(data[..1], data[1..]);
      BytesToBitsSnoc([], data[0]);
      assert BytesToBits([]) == [];
      assert BytesToBits(data[..1]) == ToBits(data[0], 8);
      AtConcat(bits, pos, BytesToBits(data[..1]), BytesToBits(data[1..]));
      assert data[0] < Pow2(8) by { Pow2Constants(); }
      ReadBitsWritten(bits, pos, data[0], 8);
      ReadBytesWritten(bits, pos + 8, data[1..]);
      assert data == [data[0]] + data[1..];
    }
  }

  lemma AtBound(bits: BitString, pos: nat, w: BitString)
    requires At(bits, pos, w)
    ensures pos + |w| <= |bits|
  {
  }

  lemma {:induction false} ReadStoredWritten(bits: BitString, pos: nat, data: seq<byte>)
    requires |data| <= 0xffff && At(bits, pos, StoredBits(data, pos))
    ensures ReadStored(bits, pos) == Some((Raw(data), pos + |StoredBits(data, pos)|))
  {
    hide BytesToBits, ToBits, At, ReadBits, ReadBytes, Padding, NextByte;
    var p := pos + |Padding(pos)|;
    assert p == NextByte(pos) by { PaddingReaches(pos); }
    var len, nlen, body := ToBits(|data|, 16), ToBits(0xffff - |data|, 16), BytesToBits(data);
    AtConcat(bits, pos, Padding(pos), len + (nlen + body));
    AtConcat(bits, p, len, nlen + body);
    AtConcat(bits, p + 16, nlen, body);
    assert Pow2(16) == 0x10000 by { Pow2Constants(); }
    ReadBitsWritten(bits, p, |data|, 16);
    ReadBitsWritten(bits, p + 16, 0xffff - |data|, 16);
    ReadBytesWritten(bits, p + 32, data);
  }

  lemma PaddingReaches(pos: nat)
    ensures pos + |Padding(pos)| == NextByte(pos)
  {
  }

  // ----- dynamic blocks -----

  lemma {:induction false} BlLensBitsAt(bits: BitString, pos: nat, bl: seq<nat>, n: nat, k: nat)
    requires |bl| == BL_CODES && k < n <= BL_CODES && At(bits, pos, BlLensBits(bl, n))
    ensures At(bits, pos + 3 * k, ToBits(bl[BlOrder(k)], 3))
    decreases n
  {
    hide ToBits, At;
    AtConcat(bits, pos, BlLensBits(bl, n - 1), ToBits(bl[BlOrder(n - 1)], 3));
    if k < n - 1 {
      BlLensBitsAt(bits, pos, bl, n - 1, k);
    }
  }

  /** The lengths at ranks `k` to `n - 1`. */
  function Ranked(bl: seq<nat>, k: nat, n: nat): (s: seq<nat>)
    requires |bl| == BL_CODES && k <= n <= BL_CODES
    ensures |s| == n - k
    ensures forall i | 0 <= i < n - k :: s[i] == bl[BlOrder(k + i)]
  {
    seq(n - k, i requires 0 <= i < n - k => bl[BlOrder(k + i)])
  }

  lemma {:induction false} ReadBlLensWritten(bits: BitString, pos: nat, bl: seq<nat>, n: nat, k: nat)
    requires |bl| == BL_CODES && k <= n <= BL_CODES && At(bits, pos, BlLensBits(bl, n))
    requires forall s | 0 <= s < BL_CODES :: bl[s] <= 7
    ensures ReadBlLens(bits, pos + 3 * k, n - k) == Some(Ranked(bl, k, n))
    decreases n - k
  {
    hide ToBits, At, ReadBits, BlOrder, BlLensBits;
    AtBound(bits, pos, BlLensBits(bl, n));
    if k < n {
      BlLensBitsAt(bits, pos, bl, n, k);
      ReadBitsWritten(bits, pos + 3 * k, bl[BlOrder(k)], 3);
      ReadBlLensWritten(bits, pos, bl, n, k + 1);
      assert Ranked(bl, k, n) == [bl[BlOrder(k)]] + Ranked(bl, k + 1, n);
    } else {
      assert Ranked(bl, k, n) == [];
    }
  }

  lemma {:induction false} UnpermuteSent(bl: seq<nat>, n: nat)
    requires |bl| == BL_CODES && n <= BL_CODES
    requires forall s | 0 <= s < BL_CODES && BlRank(s) >= n :: bl[s] == 0
    ensures Unpermute(Ranked(bl, 0, n)) == bl
  {
    hide BlRank, BlOrder;
    forall s | 0 <= s < BL_CODES ensures Unpermute(Ranked(bl, 0, n))[s] == bl[s] {
      BlOrderInverse(s);
    }
  }

  lemma {:induction false} ExpandGrows(rs: seq<Run>, acc: seq<nat>)
    requires ExpandAll(rs, acc).Some? && forall r | r in rs :: ValidRun(r)
    ensures |ExpandAll(rs, acc).value| >= |acc| + |rs|
    decreases |rs|
  {
    if rs != [] {
      assert ValidRun(rs[0]);
      assert |Expand(rs[0], acc).value| >= |acc| + 1;
      ExpandGrows(rs[1..], Expand(rs[0], acc).value);
    }
  }

  lemma {:induction false} ReadLensWritten(bl: seq<nat>, bits: BitString, pos: nat, rs: seq<Run>, acc: seq<nat>)
    requires PrefixFree(bl) && CoversRuns(bl, rs) && pos <= |bits|
    requires ExpandAll(rs, acc).Some? && At(bits, pos, RunsBits(bl, rs))
    ensures ReadLens(bl, bits, pos, |ExpandAll(rs, acc).value|, acc)
         == Some((ExpandAll(rs, acc).value, pos + |RunsBits(bl, rs)|))
    decreases |rs|
  {
    hide PrefixFree, At, Word, ToBits, RunsBits, Expand, Symbol, ExtraValue, ReadBits;
    ExpandGrows(rs, acc);
    if rs != [] {
      var r, rest := rs[0], rs[1..];
      var w := Word(bl, Symbol(r));
      var x := ToBits(ExtraValue(r), ExtraBits(Symbol(r)));
      assert rs == [r] + rest;
      RunsBitsConcat(bl, [r], rest);
      RunsBitsSnoc(bl, [], r);
      assert [] + [r] == [r];
      assert RunsBits(bl, rs) == w + x + RunsBits(bl, rest);
      AtConcat(bits, pos, w + x, RunsBits(bl, rest));
      AtConcat(bits, pos, w, x);
      ReadWritten(bl, bits, pos, Symbol(r), 0);
      ReadBitsWritten(bits, pos + |w|, ExtraValue(r), ExtraBits(Symbol(r)));
      RunOfSymbol(r);
      AtBound(bits, pos, w + x);
      ReadLensWritten(bl, bits, pos + |w| + |x|, rest, Expand(r, acc).value);
    }
  }

  /** Both sets of lengths come back from one run of the decoder. */
  lemma {:induction false} ReadBothLens(bl: seq<nat>, bits: BitString, pos: nat, ll: seq<nat>, dd: seq<nat>)
    requires PrefixFree(bl) && pos <= |bits| && AllShort(ll) && AllShort(dd) && |ll| > 0 && |dd| > 0
    requires CoversRuns(bl, Runs(ll, 0, -1, 0)) && CoversRuns(bl, Runs(dd, 0, -1, 0))
    requires At(bits, pos, RunsBits(bl, Runs(ll, 0, -1, 0)) + RunsBits(bl, Runs(dd, 0, -1, 0)))
    ensures ReadLens(bl, bits, pos, |ll| + |dd|, [])
         == Some((ll + dd, pos + |RunsBits(bl, Runs(ll, 0, -1, 0)) + RunsBits(bl, Runs(dd, 0, -1, 0))|))
  {
    hide PrefixFree, At, RunsBits, ReadLens, ExpandAll, Runs;
    var a, b := Runs(ll, 0, -1, 0), Runs(dd, 0, -1, 0);
    ExpandRuns(ll, 0, -1, 0, []);
    assert [] + ll[0..] == ll;
    ExpandRuns(dd, 0, -1, 0, ll);
    assert ll + dd[0..] == ll + dd;
    ExpandConcat(a, b, [], ll);
    RunsBitsConcat(bl, a, b);
    ReadLensWritten(bl, bits, pos, a + b, []);
  }

  lemma {:induction false} ReadCountsWritten(bits: BitString, pos: nat, nl: nat, nd: nat, nb: nat)
    requires 257 <= nl <= L_CODES && 1 <= nd <= D_CODES && 4 <= nb <= BL_CODES
    requires At(bits, pos, CountsBits(nl, nd, nb))
    ensures ReadBits(bits, pos, 5) == Some(nl - 257)
    ensures ReadBits(bits, pos + 5, 5) == Some(nd - 1)
    ensures ReadBits(bits, pos + 10, 4) == Some(nb - 4)
  {
    hide ToBits, At, ReadBits;
    var a, b, c := ToBits(nl - 257, 5), ToBits(nd - 1, 5), ToBits(nb - 4, 4);
    AtConcat(bits, pos, a, b + c);
    AtConcat(bits, pos + 5, b, c);
    assert Pow2(4) == 16 && Pow2(5) == 32;
    ReadBitsWritten(bits, pos, nl - 257, 5);
    ReadBitsWritten(bits, pos + 5, nd - 1, 5);
    ReadBitsWritten(bits, pos + 10, nb - 4, 4);
  }

  lemma {:induction false} ReadDynamicWritten(bits: BitString, pos: nat, b: Block)
    requires b.DynamicBlock? && ValidBlock(b) && pos <= |bits|
    requires At(bits, pos, TreesBits(b.ll, b.dd, b.bl, b.blCodes) + BodyBits(b.ll, b.dd, b.tokens))
    ensures ReadDynamic(bits, pos)
         == Some((Coded(b.tokens), pos + |TreesBits(b.ll, b.dd, b.bl, b.blCodes) + BodyBits(b.ll, b.dd, b.tokens)|))
  {
    hide PrefixFree, At, RunsBits, ReadLens, ReadBlLens, ReadBits, Unpermute, CountsBits, BlLensBits, BodyBits,
         ReadTokens, Runs, AllCodable, AllShort, CoversRuns, BlRank;
    var DynamicBlock(ts, ll, dd, bl, nb) := b;
    var counts, bls := CountsBits(|ll|, |dd|, nb), BlLensBits(bl, nb);
    var runs, body := RunsBits(bl, Runs(ll, 0, -1, 0)) + RunsBits(bl, Runs(dd, 0, -1, 0)), BodyBits(ll, dd, ts);
    AtConcat(bits, pos, TreesBits(ll, dd, bl, nb), body);
    AtConcat(bits, pos, counts, bls + runs);
    AtConcat(bits, pos + 14, bls, runs);
    ReadCountsWritten(bits, pos, |ll|, |dd|, nb);
    ReadBlLensWritten(bits, pos + 14, bl, nb, 0);
    UnpermuteSent(bl, nb);
    var p := pos + 14 + 3 * nb;
    AtBound(bits, p, runs);
    ReadBothLens(bl, bits, p, ll, dd);
    assert (ll + dd)[..|ll|] == ll && (ll + dd)[|ll|..] == dd;
    AtBound(bits, p + |runs|, body);
    ReadTokensWritten(ll, dd, bits, p + |runs|, ts);
  }

  /** Every block reads back as what was written, whichever format it has. */
  lemma {:induction false} ReadBlockWritten(bits: BitString, pos: nat, b: Block, final: bool)
    requires ValidBlock(b) && At(bits, pos, BlockBits(b, final, pos))
    ensures ReadBlock(bits, pos) == Some((final, ContentOf(b), pos + |BlockBits(b, final, pos)|))
  {
    hide PrefixFree, At, ReadBits, ReadStored, ReadCoded, ReadDynamic, StoredBits, TreesBits, BodyBits, ToBits,
         FixedLitLens, FixedDistLens, ValidHeader, AllCodable;
    var kind := match b case StoredBlock(_) => STORED_BLOCK case StaticBlock(_) => STATIC_TREES case DynamicBlock(_,
      _, _, _, _) => DYN_TREES;
    var h := KindBits(kind, final);
    var body := BlockBits(b, final, pos)[3..];
    assert BlockBits(b, final, pos) == h + body;
    AtConcat(bits, pos, h, body);
    assert Pow2(3) == 8;
    ReadBitsWritten(bits, pos, 2 * kind + (if final then 1 else 0), 3);
    AtBound(bits, pos, h);
    match b
    case StoredBlock(data) =>
      ReadStoredWritten(bits, pos + 3, data);
    case StaticBlock(ts) =>
      FixedHasEnd();
      ReadStaticWritten(bits, pos + 3, ts);
    case DynamicBlock(ts, ll, dd, bl, blCodes) =>
      ReadDynamicWritten(bits, pos + 3, b);
  }

  lemma {:induction false} ReadStaticWritten(bits: BitString, pos: nat, ts: seq<Token>)
    requires AllCodable(FixedLitLens(), FixedDistLens(), ts) && HasWord(FixedLitLens(), END_BLOCK) && pos <= |bits|
    requires At(bits, pos, BodyBits(FixedLitLens(), FixedDistLens(), ts))
    ensures ReadCoded(FixedLitLens(), FixedDistLens(), bits, pos)
         == Some((Coded(ts), pos + |BodyBits(FixedLitLens(), FixedDistLens(), ts)|))
  {
    hide PrefixFree, At, BodyBits, FixedLitLens, FixedDistLens, ReadTokens, AllCodable;
    FixedLitPrefixFree();
    FixedDistPrefixFree();
    ReadTokensWritten(FixedLitLens(), FixedDistLens(), bits, pos, ts);
  }
}
