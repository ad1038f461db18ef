/** The rules and tables of RFC 1951 as the standard states them, proved of the definitions that reader and writer
    share. */
module Rfc1951 {
  import opened Bits
  import opened Options
  import opened Canonical
  import opened CodeLengths
  import opened Tokens
  import opened BackCopy
  import opened Inflate
  import opened BlockFormat
  import Primes

  // ----- section 3.1.1: bits and bytes -----

  lemma DivTwice(v: nat, p: nat)
    requires p > 0
    ensures v / 2 / p == v / (2 * p)
  {
    var q, r := v / 2 / p, v / 2 % p;
    assert v / 2 == q * p + r;
    assert v == (2 * p) * q + (2 * r + v % 2);
    Primes.DivUnique(v, 2 * p, q, 2 * r + v % 2);
  }

  /** Numbers are packed starting with their lowest bit. */
  lemma {:induction false} ToBitsAt(v: nat, n: nat, k: nat)
    requires k < n
    ensures ToBits(v, n)[k] <==> v / Pow2(k) % 2 == 1
  {
    if k > 0 {
      assert ToBits(v, n)[k] == ToBits(v / 2, n - 1)[k - 1];
      ToBitsAt(v / 2, n - 1, k - 1);
      DivTwice(v, Pow2(k - 1));
      assert Pow2(k) == 2 * Pow2(k - 1);
    }
  }

  /** Huffman codes are packed starting with their highest bit. */
  lemma {:induction false} MsbBitsAt(v: nat, n: nat, k: nat)
    requires k < n
    ensures MsbBits(v, n)[k] <==> v / Pow2(n - 1 - k) % 2 == 1
  {
    hide ToBits, MsbBits, Pow2;
    MsbMirror(v, n);
    ToBitsAt(v, n, n - 1 - k);
  }

  /** The bits of a stream fill every byte from its lowest bit on. */
  lemma {:induction false} BytesToBitsAt(s: seq<byte>, i: nat, k: nat)
    requires i < |s| && k < 8
    ensures BytesToBits(s)[8 * i + k] <==> s[i] / Pow2(k) % 2 == 1
  {
    hide ToBits, Pow2;
    var last := |s| - 1;
    if i < last {
      BytesToBitsAt(s[..last], i, k);
    } else {
      ToBitsAt(s[i], 8, k);
    }
  }

  // ----- section 3.2.2: which code a symbol gets -----

  lemma {:induction false} CountJoin(lens: seq<nat>, i: nat, j: nat, b: nat)
    requires i <= j <= |lens|
    ensures Count(lens[..j], b) == Count(lens[..i], b) + Count(lens[i..j], b)
    decreases j
  {
    if i < j {
      CountJoin(lens, i, j - 1, b);
      assert lens[..j][..j - 1] == lens[..j - 1] && lens[i..j][..j - 1 - i] == lens[i..j - 1];
    }
  }

  /** The first rule: codes of one length are consecutive numbers, in the order of their symbols. */
  lemma {:induction false} SameLengthRule(lens: seq<nat>, i: nat, j: nat)
    requires i <= j < |lens| && lens[i] == lens[j]
    ensures Code(lens, j) == Code(lens, i) + |(set k | i <= k < j && lens[k] == lens[i])|
  {
    hide Count, FirstCode;
    CountJoin(lens, i, j, lens[i]);
    CountIsSize(lens, i, j, lens[i]);
  }

  lemma {:induction false} CountIsSize(lens: seq<nat>, i: nat, j: nat, b: nat)
    requires i <= j <= |lens|
    ensures Count(lens[i..j], b) == |(set k | i <= k < j && lens[k] == b)|
    decreases j
  {
    hide Count;
    var all := set k | i <= k < j && lens[k] == b;
    if i == j {
      assert all == {};
      CountNone(b);
    } else {
      CountIsSize(lens, i, j - 1, b);
      var before := set k | i <= k < j - 1 && lens[k] == b;
      CountSnoc(lens[i..j - 1], lens[j - 1], b);
      assert lens[i..j] == lens[i..j - 1] + [lens[j - 1]];
      assert all == before + if lens[j - 1] == b then {j - 1} else {};
    }
  }

  lemma CountNone(b: nat)
    ensures Count([], b) == 0
  {
  }

  lemma CountSnoc(lens: seq<nat>, l: nat, b: nat)
    ensures Count(lens + [l], b) == Count(lens, b) + if l == b then 1 else 0
  {
    assert (lens + [l])[..|lens|] == lens;
  }

  /** The second rule: shorter codes come before longer ones, whatever follows them. */
  lemma {:induction false} ShorterFirstRule(lens: seq<nat>, m: nat, i: nat, j: nat)
    requires Decodable(lens, m) && i < |lens| && j < |lens| && 0 < lens[i] < lens[j]
    ensures Pow2(lens[j] - lens[i]) * (Code(lens, i) + 1) <= Code(lens, j)
  {
    hide Pow2, Shl, Count, KraftTo, Code;
    var k, c, d := lens[j] - lens[i], Code(lens, i), Code(lens, j);
    WordInterval(lens, m, i);
    WordInterval(lens, m, j);
    KraftMonotone(lens, m, lens[i], lens[j] - 1);
    ShlShl(c + 1, k, m - lens[j]);
    ShlCancel(Shl(c + 1, k), d, m - lens[j]);
    ShlIsTimes(c + 1, k);
  }

  // ----- section 3.2.5: lengths and distances -----

  /** Extra bits and first length of every length code. */
  lemma {:induction false} LengthTable(c: nat)
    requires c < 29
    ensures LengthExtra(c) == if c < 8 || c == 28 then 0 else c / 4 - 1
    ensures LengthBase(c) == if c < 8 then 3 + c else if c == 28 then 258 else 3 + Pow2(c / 4 - 1) * (4 + c % 4)
  {
    assert Pow2(1) == 2 && Pow2(2) == 4 && Pow2(3) == 8 && Pow2(4) == 16 && Pow2(5) == 32;
  }

  /** Extra bits and first distance of every distance code. */
  /** The longest match has a code of its own, although code 27 reaches it. */
  lemma {:induction false} LongestLength()
    ensures LengthCode(258) == 28 && LengthCode(257) == 27
  {
    LengthCodeRange(257);
  }

  lemma {:induction false} DistTable(c: nat)
    requires c < 30
    ensures DistExtra(c) == if c < 4 then 0 else c / 2 - 1
    ensures DistBase(c) == if c < 4 then 1 + c else 1 + Pow2(c / 2 - 1) * (2 + c % 2)
  {
    hide DistExtra, DistBase, Pow2;
    if c < 10 {
      DistTableLow(c);
    } else if c < 20 {
      DistTableMiddle(c);
    } else {
      DistTableHigh(c);
    }
  }

  lemma {:induction false} DistTableLow(c: nat)
    requires c < 10
    ensures DistExtra(c) == if c < 4 then 0 else c / 2 - 1
    ensures DistBase(c) == if c < 4 then 1 + c else 1 + Pow2(c / 2 - 1) * (2 + c % 2)
  {
    assert Pow2(1) == 2 && Pow2(2) == 4 && Pow2(3) == 8;
  }

  lemma {:induction false} DistTableMiddle(c: nat)
    requires 10 <= c < 20
    ensures DistExtra(c) == c / 2 - 1
    ensures DistBase(c) == 1 + Pow2(c / 2 - 1) * (2 + c % 2)
  {
    assert Pow2(4) == 16 && Pow2(5) == 32 && Pow2(6) == 64 && Pow2(7) == 128 && Pow2(8) == 256;
  }

  lemma {:induction false} DistTableHigh(c: nat)
    requires 20 <= c < 30
    ensures DistExtra(c) == c / 2 - 1
    ensures DistBase(c) == 1 + Pow2(c / 2 - 1) * (2 + c % 2)
  {
    Pow2Eight(1);
    assert Pow2(9) == 512 && Pow2(10) == 1024 && Pow2(11) == 2048 && Pow2(12) == 4096 && Pow2(13) == 8192;
  }

  /** The bits of token `k` of a block, a literal being the word of its byte, and those of the symbol 256 at its end. */
  lemma {:induction false} BodyForm(ll: seq<nat>, dd: seq<nat>, ts: seq<Token>, k: nat)
    requires AllCodable(ll, dd, ts) && HasWord(ll, 256) && k < |ts|
    ensures var body, at := BodyBits(ll, dd, ts), |TokensBits(ll, dd, ts[..k])|;
      && at + |TokenBits(ll, dd, ts[k])| + ll[256] <= |body|
      && body[at..at + |TokenBits(ll, dd, ts[k])|] == TokenBits(ll, dd, ts[k])
      && (ts[k].Literal? ==> TokenBits(ll, dd, ts[k]) == MsbBits(Code(ll, ts[k].c), ll[ts[k].c]))
      && body[|body| - ll[256]..] == MsbBits(Code(ll, 256), ll[256])
  {
    hide TokenBits, TokensBits, Code, MsbBits;
    TokenStands(ll, dd, ts, k);
    LiteralIs(ll, dd, ts[k]);
  }

  lemma LiteralIs(ll: seq<nat>, dd: seq<nat>, t: Token)
    requires Tokens.Codable(ll, dd, t)
    ensures t.Literal? ==> TokenBits(ll, dd, t) == MsbBits(Code(ll, t.c), ll[t.c])
  {
  }

  lemma {:induction false} TokenStands(ll: seq<nat>, dd: seq<nat>, ts: seq<Token>, k: nat)
    requires AllCodable(ll, dd, ts) && k < |ts|
    ensures var b, at, w := TokensBits(ll, dd, ts), |TokensBits(ll, dd, ts[..k])|, TokenBits(ll, dd, ts[k]);
      at + |w| <= |b| && b[at..at + |w|] == w
    decreases |ts|
  {
    hide TokenBits;
    var init := ts[..|ts| - 1];
    if k == |ts| - 1 {
      assert ts[..k] == init;
    } else {
      TokenStands(ll, dd, init, k);
      assert init[..k] == ts[..k] && init[k] == ts[k];
    }
  }

  /** A match is sent as the code of its length from 257 on, its extra bits, the code of its distance and the extra
      bits of that. */
  lemma {:induction false} MatchForm(ll: seq<nat>, dd: seq<nat>, len: nat, dist: nat)
    requires Codable(ll, dd, Match(len, dist))
    ensures var bits, c, d := TokenBits(ll, dd, Match(len, dist)), LengthCode(len), DistCode(dist);
      var p := ll[257 + c];
      var q := p + LengthExtra(c);
      var r := q + dd[d];
      && |bits| == r + DistExtra(d)
      && bits[..p] == Word(ll, 257 + c) && LengthBase(c) + FromBits(bits[p..q]) == len
      && bits[q..r] == Word(dd, d) && DistBase(d) + FromBits(bits[r..]) == dist
  {
    hide ToBits, FromBits, Word, LengthBase, DistBase, LengthExtra, DistExtra, LengthCode, DistCode, Pow2;
    LengthCodeRange(len);
    DistCodeRange(dist);
    var bits, c, d := TokenBits(ll, dd, Match(len, dist)), LengthCode(len), DistCode(dist);
    var p := ll[257 + c];
    var q := p + LengthExtra(c);
    var r := q + dd[d];
    FromToBits(len - LengthBase(c), LengthExtra(c));
    FromToBits(dist - DistBase(d), DistExtra(d));
    assert bits[..p] == Word(ll, 257 + c);
    assert bits[p..q] == ToBits(len - LengthBase(c), LengthExtra(c));
    assert bits[q..r] == Word(dd, d);
    assert bits[r..] == ToBits(dist - DistBase(d), DistExtra(d));
  }

  /** A match repeats, byte by byte, what stands `dist` bytes before, its own beginning included. */
  lemma {:induction false} CopyAt(out: seq<byte>, dist: nat, len: nat, i: nat)
    requires 1 <= dist <= |out| && i < |out| + len
    ensures Copy(out, dist, len)[i] == if i < |out| then out[i] else Copy(out, dist, len)[i - dist]
    decreases len
  {
    if len > 0 {
      CopyAt(out + [out[|out| - dist]], dist, len - 1, i);
      if i == |out| {
        CopyAt(out + [out[|out| - dist]], dist, len - 1, i - dist);
      }
    }
  }

  // ----- section 3.2.6: the fixed codes -----

  lemma {:induction false} FixedFirst()
    ensures FirstCode(FixedLitLens(), 7) == 0 && FirstCode(FixedLitLens(), 8) == 48
    ensures FirstCode(FixedLitLens(), 9) == 400
  {
    hide Count;
    var lens := FixedLitLens();
    assert lens[..288] == lens;
    forall b: nat ensures Count(lens, b) == if b == 8 then 152 else if b == 9 then 112 else if b == 7 then 24 else 0 {
      FixedLitCount(288, b);
    }
    assert FirstCode(lens, 4) == 0;
    assert FirstCode(lens, 7) == 0;
  }

  /** Lengths and codes of the fixed literal code. */
  lemma {:induction false} FixedLitTable(i: nat)
    requires i < 288
    ensures i <= 143 ==> FixedLitLens()[i] == 8 && Code(FixedLitLens(), i) == 0x30 + i
    ensures 144 <= i <= 255 ==> FixedLitLens()[i] == 9 && Code(FixedLitLens(), i) == 0x190 + (i - 144)
    ensures 256 <= i <= 279 ==> FixedLitLens()[i] == 7 && Code(FixedLitLens(), i) == i - 256
    ensures 280 <= i ==> FixedLitLens()[i] == 8 && Code(FixedLitLens(), i) == 0xC0 + (i - 280)
  {
    hide Count, FirstCode;
    FixedFirst();
    FixedLitCount(i, FixedLitLens()[i]);
  }

  // ----- sections 3.2.3, 3.2.4 and 3.2.7: the forms of a block -----

  /** The order in which the lengths of the code length code are sent: 16, 17, 18, 0, and then outwards from 8. */
  lemma {:induction false} LengthOrder(rank: nat)
    requires rank < 19
    ensures BlOrder(rank) == if rank < 3 then 16 + rank else if rank == 3 then 0
      else if rank % 2 == 0 then 6 + rank / 2 else (19 - rank) / 2
  {
  }

  /** What the symbols of the code length code stand for. */
  lemma {:induction false} LengthSymbols(s: nat, x: nat, acc: seq<nat>)
    requires s < 19
    ensures ExtraBits(s) == if s == 16 then 2 else if s == 17 then 3 else if s == 18 then 7 else 0
    ensures s < 16 ==> Expand(RunOf(s, x), acc) == Some(acc + [s])
    ensures s == 16 && acc != [] ==> Expand(RunOf(s, x), acc) == Some(acc + Copies(acc[|acc| - 1], 3 + x))
    ensures s == 17 ==> Expand(RunOf(s, x), acc) == Some(acc + Copies(0, 3 + x))
    ensures s == 18 ==> Expand(RunOf(s, x), acc) == Some(acc + Copies(0, 11 + x))
  {
  }

  /** BFINAL and BTYPE. */
  lemma {:induction false} BlockKinds(b: Block, final: bool, pos: nat)
    requires ValidBlock(b)
    ensures |BlockBits(b, final, pos)| >= 3
    ensures BlockBits(b, final, pos)[..3]
         == [final] + if b.StoredBlock? then [false, false] else if b.StaticBlock? then [true, false]
                      else [false, true]
  {
    hide StoredBits, TreesBits, BodyBits, ValidBlock;
    KindIs(b, final);
  }

  lemma KindIs(b: Block, final: bool)
    ensures KindBits(0, final) == [final, false, false]
    ensures KindBits(1, final) == [final, true, false]
    ensures KindBits(2, final) == [final, false, true]
  {
    var f := if final then 1 else 0;
    assert ToBits(f, 3) == [f % 2 == 1] + ToBits(f / 2, 2);
    assert ToBits(2 + f, 3) == [(2 + f) % 2 == 1] + ToBits((2 + f) / 2, 2);
    assert ToBits(4 + f, 3) == [(4 + f) % 2 == 1] + ToBits((4 + f) / 2, 2);
    assert ToBits(0, 2) == [false, false] && ToBits(1, 2) == [true, false] && ToBits(2, 2) == [false, true];
  }

  /** A stored block: LEN and its complement from the next byte boundary on, and then the bytes. */
  lemma {:induction false} StoredForm(data: seq<byte>, final: bool, pos: nat)
    requires |data| <= 0xffff
    ensures var p := NextByte(pos + 3) - pos;
      var bits := BlockBits(StoredBlock(data), final, pos);
      && |bits| == p + 32 + 8 * |data| && NextByte(pos + 3) % 8 == 0 && p < 11
      && FromBits(bits[p..p + 16]) == |data| && FromBits(bits[p + 16..p + 32]) == 0xffff - |data|
      && bits[p + 32..] == BytesToBits(data)
  {
    hide ToBits, FromBits, BytesToBits, Pow2;
    Pow2Constants();
    PaddingReaches(pos + 3);
    FromToBits(|data|, 16);
    FromToBits(0xffff - |data|, 16);
    var p := NextByte(pos + 3) - pos;
    var bits := BlockBits(StoredBlock(data), final, pos);
    assert bits[p..p + 16] == ToBits(|data|, 16);
    assert bits[p + 16..p + 32] == ToBits(0xffff - |data|, 16);
    assert bits[p + 32..] == BytesToBits(data);
  }

  /** The numbers at the beginning of a dynamic block: HLIT, HDIST, HCLEN and the lengths of the code length code. */
  lemma {:induction false} DynamicForm(b: Block, final: bool, pos: nat)
    requires ValidBlock(b) && b.DynamicBlock?
    ensures var bits := BlockBits(b, final, pos);
      && |bits| >= 17 + 3 * b.blCodes
      && FromBits(bits[3..8]) == |b.ll| - 257 && FromBits(bits[8..13]) == |b.dd| - 1
      && FromBits(bits[13..17]) == b.blCodes - 4
      && forall i | 0 <= i < b.blCodes :: FromBits(bits[17 + 3 * i..20 + 3 * i]) == b.bl[BlOrder(i)]
  {
    hide ToBits, FromBits, RunsBits, BodyBits, BlLensBits, Pow2;
    var bits := BlockBits(b, final, pos);
    var lens := BlLensBits(b.bl, b.blCodes);
    SmallPowers();
    FromToBits(|b.ll| - 257, 5);
    FromToBits(|b.dd| - 1, 5);
    FromToBits(b.blCodes - 4, 4);
    assert bits[3..8] == ToBits(|b.ll| - 257, 5);
    assert bits[8..13] == ToBits(|b.dd| - 1, 5);
    assert bits[13..17] == ToBits(b.blCodes - 4, 4);
    assert bits[17..17 + 3 * b.blCodes] == lens;
    forall i | 0 <= i < b.blCodes ensures FromBits(bits[17 + 3 * i..20 + 3 * i]) == b.bl[BlOrder(i)] {
      SentLength(b.bl, b.blCodes, i);
      FromToBits(b.bl[BlOrder(i)], 3);
      assert bits[17 + 3 * i..20 + 3 * i] == lens[3 * i..3 * i + 3];
    }
  }

  lemma SmallPowers()
    ensures Pow2(3) == 8 && Pow2(4) == 16 && Pow2(5) == 32
  {
  }

  lemma {:induction false} SentLength(bl: seq<nat>, n: nat, i: nat)
    requires |bl| == BL_CODES && i < n <= BL_CODES
    ensures BlLensBits(bl, n)[3 * i..3 * i + 3] == ToBits(bl[BlOrder(i)], 3)
  {
    hide ToBits, BlOrder;
    if i < n - 1 {
      SentLength(bl, n - 1, i);
      assert BlLensBits(bl, n)[3 * i..3 * i + 3] == BlLensBits(bl, n - 1)[3 * i..3 * i + 3];
    }
  }
}
