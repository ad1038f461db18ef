/** Literals and matches, and how a compressed block codes them (section 3.2.5
    of RFC 1951). */
module Tokens {
  import opened Bits
  import opened Canonical
  import opened Options

  const MIN_MATCH := 3
  const MAX_MATCH := 258
  const LITERALS := 256
  const END_BLOCK := 256
  const LENGTH_CODES := 29
  const L_CODES := 286
  const D_CODES := 30

  datatype Token = Literal(c: byte) | Match(len: nat, dist: nat)

  predicate ValidToken(t: Token)
  {
    t.Match? ==> MIN_MATCH <= t.len <= MAX_MATCH && 1 <= t.dist <= 0x8000
  }

  /** extra_lbits */
  const LENGTH_EXTRA: seq<nat> := [
    0, 0, 0, 0, 0, 0, 0, 0, 1, 1, 1, 1, 2, 2, 2, 2, 3, 3, 3, 3, 4, 4, 4, 4, 5, 5, 5, 5, 0]

  /** The first length of each code, as section 3.2.5 tabulates them. */
  const LENGTH_FIRST: seq<nat> := [
    3, 4, 5, 6, 7, 8, 9, 10, 11, 13, 15, 17, 19, 23, 27, 31, 35, 43, 51, 59, 67, 83, 99, 115, 131, 163, 195, 227, 258]

  /** extra_dbits */
  const DIST_EXTRA: seq<nat> := [
    0, 0, 0, 0, 1, 1, 2, 2, 3, 3, 4, 4, 5, 5, 6, 6, 7, 7, 8, 8, 9, 9, 10, 10, 11, 11, 12, 12, 13, 13]

  /** The first distance of each code, as section 3.2.5 tabulates them. */
  const DIST_FIRST: seq<nat> := [
    1, 2, 3, 4, 5, 7, 9, 13, 17, 25, 33, 49, 65, 97, 129, 193, 257, 385, 513, 769,
    1025, 1537, 2049, 3073, 4097, 6145, 8193, 12289, 16385, 24577]

  function LengthExtra(c: nat): (x: nat)
    requires c < LENGTH_CODES
  {
    LENGTH_EXTRA[c]
  }

  function LengthBase(c: nat): (b: nat)
    requires c < LENGTH_CODES
  {
    LENGTH_FIRST[c]
  }

  function DistExtra(c: nat): (x: nat)
    requires c < D_CODES
  {
    DIST_EXTRA[c]
  }

  function DistBase(c: nat): (b: nat)
    requires c < D_CODES
  {
    DIST_FIRST[c]
  }

  lemma {:induction false} LengthStep(c: nat)
    requires c < LENGTH_CODES
    ensures LengthExtra(c) <= 5
    ensures c + 2 < LENGTH_CODES ==> LengthBase(c + 1) == LengthBase(c) + Pow2(LengthExtra(c))
    ensures c == 0 ==> LengthBase(c) == 3
    ensures c == 27 ==> LengthBase(c) + Pow2(LengthExtra(c)) == 259
    ensures c == 28 ==> LengthBase(c) == 258 && LengthExtra(c) == 0
  {
    assert Pow2(0) == 1 && Pow2(1) == 2 && Pow2(2) == 4 && Pow2(3) == 8 && Pow2(4) == 16 && Pow2(5) == 32;
  }

  lemma {:induction false} DistStepLow(c: nat)
    requires c < 15
    ensures DistExtra(c) <= 13
    ensures DistBase(c + 1) == DistBase(c) + Pow2(DistExtra(c))
    ensures c == 0 ==> DistBase(c) == 1
    ensures c < 4 ==> DistExtra(c) == 0
  {
    assert Pow2(0) == 1 && Pow2(1) == 2 && Pow2(2) == 4 && Pow2(3) == 8 && Pow2(4) == 16 && Pow2(5) == 32;
    assert Pow2(6) == 64;
  }

  lemma {:induction false} DistStepHigh(c: nat)
    requires 15 <= c < D_CODES
    ensures DistExtra(c) <= 13
    ensures c + 1 < D_CODES ==> DistBase(c + 1) == DistBase(c) + Pow2(DistExtra(c))
    ensures c == 29 ==> DistBase(c) + Pow2(DistExtra(c)) == 0x8001
    ensures c == 16 ==> DistBase(c) == 257
    ensures c >= 16 ==> 7 <= DistExtra(c)
  {
    assert Pow2(6) == 64 && Pow2(7) == 128 && Pow2(8) == 256 && Pow2(9) == 512 && Pow2(10) == 1024;
    assert Pow2(11) == 2048 && Pow2(12) == 4096 && Pow2(13) == 8192;
  }

  lemma {:induction false} DistStep(c: nat)
    requires c < D_CODES
    ensures DistExtra(c) <= 13
    ensures c + 1 < D_CODES ==> DistBase(c + 1) == DistBase(c) + Pow2(DistExtra(c))
    ensures c == 0 ==> DistBase(c) == 1
    ensures c == 29 ==> DistBase(c) + Pow2(DistExtra(c)) == 0x8001
    ensures c == 16 ==> DistBase(c) == 257
    ensures c >= 16 ==> 7 <= DistExtra(c)
    ensures c < 4 ==> DistExtra(c) == 0
  {
    hide *;
    if c < 15 {
      DistStepLow(c);
    } else {
      DistStepHigh(c);
    }
  }

  /** The last code, from `c` down, whose first length is at most `len`. */
  function LengthCodeFrom(len: nat, c: nat): (r: nat)
    requires c < LENGTH_CODES
    ensures r <= c
  {
    if c == 0 || LengthBase(c) <= len then c else LengthCodeFrom(len, c - 1)
  }

  /** The code of a match length, counted from 257. */
  function LengthCode(len: nat): (c: nat)
    ensures c < LENGTH_CODES
  {
    LengthCodeFrom(len, LENGTH_CODES - 1)
  }

  function DistCodeFrom(dist: nat, c: nat): (r: nat)
    requires c < D_CODES
    ensures r <= c
  {
    if c == 0 || DistBase(c) <= dist then c else DistCodeFrom(dist, c - 1)
  }

  function DistCode(dist: nat): (c: nat)
    ensures c < D_CODES
  {
    DistCodeFrom(dist, D_CODES - 1)
  }

  /** Every length falls in the range of its code, and in no other range above it. */
  lemma {:induction false} LengthInRange(len: nat, c: nat)
    requires 3 <= len <= 258 && c < LENGTH_CODES
    requires c < 28 ==> len < LengthBase(c) + Pow2(LengthExtra(c))
    ensures var r := LengthCodeFrom(len, c); LengthBase(r) <= len < LengthBase(r) + Pow2(LengthExtra(r))
  {
    hide LengthBase, LengthExtra;
    LengthStep(c);
    if c == 28 {
      LengthStep(27);
      if LengthBase(c) > len {
        LengthInRange(len, 27);
      }
    } else if c > 0 && LengthBase(c) > len {
      LengthStep(c - 1);
      LengthInRange(len, c - 1);
    }
  }

  lemma {:induction false} DistInRange(dist: nat, c: nat)
    requires 1 <= dist && c < D_CODES
    requires dist < DistBase(c) + Pow2(DistExtra(c))
    ensures var r := DistCodeFrom(dist, c); DistBase(r) <= dist < DistBase(r) + Pow2(DistExtra(r))
  {
    hide DistBase, DistExtra;
    DistStep(c);
    if c > 0 && DistBase(c) > dist {
      DistStep(c - 1);
      DistInRange(dist, c - 1);
    }
  }

  lemma {:induction false} LengthCodeRange(len: nat)
    requires 3 <= len <= 258
    ensures var c := LengthCode(len);
            LengthBase(c) <= len < LengthBase(c) + Pow2(LengthExtra(c)) && LengthExtra(c) <= 5
  {
    hide LengthBase, LengthExtra;
    LengthInRange(len, LENGTH_CODES - 1);
    LengthStep(LengthCode(len));
  }

  lemma {:induction false} DistCodeRange(dist: nat)
    requires 1 <= dist <= 0x8000
    ensures var c := DistCode(dist);
            DistBase(c) <= dist < DistBase(c) + Pow2(DistExtra(c)) && DistExtra(c) <= 13
  {
    hide DistBase, DistExtra;
    DistStep(D_CODES - 1);
    DistInRange(dist, D_CODES - 1);
    DistStep(DistCode(dist));
  }

  /** The code that contains a length is the one LengthCode finds. */
  lemma {:induction false} LengthCodeUnique(len: nat, c: nat, from: nat)
    requires c <= from < LENGTH_CODES && LengthBase(c) <= len
    requires forall k | c < k <= from :: len < LengthBase(k)
    ensures LengthCodeFrom(len, from) == c
  {
    hide LengthBase;
    if c < from {
      LengthCodeUnique(len, c, from - 1);
    }
  }

  lemma {:induction false} DistCodeUnique(dist: nat, c: nat, from: nat)
    requires c <= from < D_CODES && DistBase(c) <= dist
    requires forall k | c < k <= from :: dist < DistBase(k)
    ensures DistCodeFrom(dist, from) == c
  {
    hide DistBase;
    if c < from {
      DistCodeUnique(dist, c, from - 1);
    }
  }

  lemma {:induction false} LengthBaseMonotone(c: nat, d: nat)
    requires c <= d < LENGTH_CODES
    ensures LengthBase(c) <= LengthBase(d)
    ensures c < d && d < 28 ==> LengthBase(c) + Pow2(LengthExtra(c)) <= LengthBase(d)
    ensures c < d == 28 ==> LengthBase(c) + Pow2(LengthExtra(c)) <= LengthBase(d) + 1
  {
    hide LengthBase, LengthExtra;
    if c < d {
      LengthBaseMonotone(c, d - 1);
      LengthStep(d - 1);
      LengthStep(d);
    }
  }

  lemma {:induction false} DistBaseMonotone(c: nat, d: nat)
    requires c <= d < D_CODES
    ensures DistBase(c) <= DistBase(d)
    ensures c < d ==> DistBase(c) + Pow2(DistExtra(c)) <= DistBase(d)
  {
    hide DistBase, DistExtra;
    if c < d {
      DistBaseMonotone(c, d - 1);
      DistStep(d - 1);
    }
  }

  /** The two codes have a word for every symbol the token needs. */
  predicate Codable(ll: seq<nat>, dd: seq<nat>, t: Token)
  {
    && ValidToken(t)
    && match t
       case Literal(c) => HasWord(ll, c)
       case Match(len, dist) => HasWord(ll, LITERALS + 1 + LengthCode(len)) && HasWord(dd, DistCode(dist))
  }

  ghost predicate AllCodable(ll: seq<nat>, dd: seq<nat>, ts: seq<Token>)
  {
    forall t | t in ts :: Codable(ll, dd, t)
  }

  function LengthBits(ll: seq<nat>, len: nat): (b: BitString)
    requires MIN_MATCH <= len <= MAX_MATCH && HasWord(ll, LITERALS + 1 + LengthCode(len))
  {
    LengthCodeRange(len);
    var c := LengthCode(len);
    Word(ll, LITERALS + 1 + c) + ToBits(len - LengthBase(c), LengthExtra(c))
  }

  function DistBits(dd: seq<nat>, dist: nat): (b: BitString)
    requires 1 <= dist <= 0x8000 && HasWord(dd, DistCode(dist))
  {
    DistCodeRange(dist);
    var c := DistCode(dist);
    Word(dd, c) + ToBits(dist - DistBase(c), DistExtra(c))
  }

  function TokenBits(ll: seq<nat>, dd: seq<nat>, t: Token): (b: BitString)
    requires Codable(ll, dd, t)
  {
    match t
    case Literal(c) => Word(ll, c)
    case Match(len, dist) => LengthBits(ll, len) + DistBits(dd, dist)
  }

  function TokensBits(ll: seq<nat>, dd: seq<nat>, ts: seq<Token>): (b: BitString)
    requires AllCodable(ll, dd, ts)
    ensures ts == [] ==> b == []
  {
    if ts == [] then [] else TokensBits(ll, dd, ts[..|ts| - 1]) + TokenBits(ll, dd, ts[|ts| - 1])
  }

  /** The tokens of a block and the end-of-block symbol. */
  function BodyBits(ll: seq<nat>, dd: seq<nat>, ts: seq<Token>): (b: BitString)
    requires AllCodable(ll, dd, ts) && HasWord(ll, END_BLOCK)
  {
    TokensBits(ll, dd, ts) + Word(ll, END_BLOCK)
  }

  lemma {:induction false} TokensBitsCons(ll: seq<nat>, dd: seq<nat>, t: Token, ts: seq<Token>)
    requires AllCodable(ll, dd, [t] + ts) && AllCodable(ll, dd, ts) && Codable(ll, dd, t)
    ensures TokensBits(ll, dd, [t] + ts) == TokenBits(ll, dd, t) + TokensBits(ll, dd, ts)
  {
    hide TokenBits;
    if ts == [] {
      assert [t] + ts == [t];
      assert TokensBits(ll, dd, [t][..0]) == [];
    } else {
      var all := [t] + ts;
      assert all[..|all| - 1] == [t] + ts[..|ts| - 1];
      TokensBitsCons(ll, dd, t, ts[..|ts| - 1]);
    }
  }

  // ----- reading tokens back -----

  function ReadBits(bits: BitString, pos: nat, n: nat): (v: Option<nat>)
    ensures v.Some? ==> pos + n <= |bits|
  {
    if pos + n <= |bits| then Some(FromBits(bits[pos..pos + n])) else None
  }

  lemma {:induction false} ReadBitsWritten(bits: BitString, pos: nat, v: nat, n: nat)
    requires v < Pow2(n) && At(bits, pos, ToBits(v, n))
    ensures ReadBits(bits, pos, n) == Some(v)
  {
    FromToBits(v, n);
  }

  /** A match length: its symbol is known, its extra bits are read. */
  function ReadLength(bits: BitString, pos: nat, c: nat): (r: Option<(nat, nat)>)
    requires pos <= |bits|
    ensures r.Some? ==> pos <= r.value.1 <= |bits|
  {
    if c >= LENGTH_CODES then None
    else
      var x := ReadBits(bits, pos, LengthExtra(c));
      if x.None? then None else Some((LengthBase(c) + x.value, pos + LengthExtra(c)))
  }

  function ReadDist(dd: seq<nat>, bits: BitString, pos: nat): (r: Option<(nat, nat)>)
    requires pos <= |bits|
    ensures r.Some? ==> pos <= r.value.1 <= |bits|
  {
    var s := ReadSymbol(dd, bits, pos);
    if s.None? || s.value >= D_CODES then None
    else
      var c, p := s.value, pos + dd[s.value];
      var x := ReadBits(bits, p, DistExtra(c));
      if x.None? then None else Some((DistBase(c) + x.value, p + DistExtra(c)))
  }

  /** One token, or None inside the pair at the end of the block. */
  function ReadToken(ll: seq<nat>, dd: seq<nat>, bits: BitString, pos: nat): (r: Option<(Option<Token>, nat)>)
    requires pos <= |bits|
    ensures r.Some? ==> pos < r.value.1 <= |bits|
  {
    var s := ReadSymbol(ll, bits, pos);
    if s.None? then None
    else
      var p := pos + ll[s.value];
      if s.value < LITERALS then Some((Some(Literal(s.value)), p))
      else if s.value == END_BLOCK then Some((None, p))
      else
        var len := ReadLength(bits, p, s.value - LITERALS - 1);
        if len.None? then None
        else
          var dist := ReadDist(dd, bits, len.value.1);
          if dist.None? then None
          else Some((Some(Match(len.value.0, dist.value.0)), dist.value.1))
  }

  /** The tokens up to the end of the block, and the position after it. */
  function ReadTokens(ll: seq<nat>, dd: seq<nat>, bits: BitString, pos: nat): (r: Option<(seq<Token>, nat)>)
    requires pos <= |bits|
    ensures r.Some? ==> pos < r.value.1 <= |bits|
    decreases |bits| - pos
  {
    var t := ReadToken(ll, dd, bits, pos);
    if t.None? then None
    else if t.value.0.None? then Some(([], t.value.1))
    else
      var rest := ReadTokens(ll, dd, bits, t.value.1);
      if rest.None? then None else Some(([t.value.0.value] + rest.value.0, rest.value.1))
  }

  lemma AtConcat(bits: BitString, pos: nat, u: BitString, v: BitString)
    ensures At(bits, pos, u + v) <==> At(bits, pos, u) && At(bits, pos + |u|, v)
  {
    if At(bits, pos, u + v) {
      var w := bits[pos..pos + |u + v|];
      assert w[..|u|] == bits[pos..pos + |u|] && (u + v)[..|u|] == u;
      assert w[|u|..] == bits[pos + |u|..pos + |u + v|] && (u + v)[|u|..] == v;
    }
    if At(bits, pos, u) && At(bits, pos + |u|, v) {
      assert bits[pos..pos + |u + v|] == bits[pos..pos + |u|] + bits[pos + |u|..pos + |u| + |v|];
    }
  }

  lemma {:induction false} ReadDistWritten(dd: seq<nat>, bits: BitString, pos: nat, dist: nat)
    requires PrefixFree(dd) && pos <= |bits| && 1 <= dist <= 0x8000 && HasWord(dd, DistCode(dist))
    requires At(bits, pos, DistBits(dd, dist))
    ensures ReadDist(dd, bits, pos) == Some((dist, pos + |DistBits(dd, dist)|))
  {
    hide DistBase, DistExtra, DistCode, Word, ToBits, ReadBits, PrefixFree, At;
    DistCodeRange(dist);
    var c := DistCode(dist);
    AtConcat(bits, pos, Word(dd, c), ToBits(dist - DistBase(c), DistExtra(c)));
    ReadWritten(dd, bits, pos, c, 0);
    ReadBitsWritten(bits, pos + dd[c], dist - DistBase(c), DistExtra(c));
  }

  lemma {:induction false} ReadLengthWritten(bits: BitString, pos: nat, len: nat)
    requires MIN_MATCH <= len <= MAX_MATCH && pos <= |bits|
    requires LengthBase(LengthCode(len)) <= len
    requires At(bits, pos, ToBits(len - LengthBase(LengthCode(len)), LengthExtra(LengthCode(len))))
    ensures ReadLength(bits, pos, LengthCode(len)) == Some((len, pos + LengthExtra(LengthCode(len))))
  {
    hide LengthBase, LengthExtra, LengthCode, ToBits, At, ReadBits;
    LengthCodeRange(len);
    var c := LengthCode(len);
    ReadBitsWritten(bits, pos, len - LengthBase(c), LengthExtra(c));
  }

  lemma {:induction false} ReadMatchWritten(ll: seq<nat>, dd: seq<nat>, bits: BitString, pos: nat, len: nat, dist: nat)
    requires PrefixFree(ll) && PrefixFree(dd) && pos <= |bits|
    requires Codable(ll, dd, Match(len, dist))
    requires At(bits, pos, LengthBits(ll, len) + DistBits(dd, dist))
    ensures ReadToken(ll, dd, bits, pos) == Some((Some(Match(len, dist)),
      pos + |LengthBits(ll, len) + DistBits(dd, dist)|))
  {
    hide LengthBase, LengthExtra, LengthCode, DistBits, DistCode, Word, ToBits, ReadLength, ReadDist, PrefixFree, At;
    LengthCodeRange(len);
    var c := LengthCode(len);
    var x := ToBits(len - LengthBase(c), LengthExtra(c));
    var w := Word(ll, LITERALS + 1 + c);
    AtConcat(bits, pos, LengthBits(ll, len), DistBits(dd, dist));
    AtConcat(bits, pos, w, x);
    ReadWritten(ll, bits, pos, LITERALS + 1 + c, 0);
    ReadLengthWritten(bits, pos + |w|, len);
    ReadDistWritten(dd, bits, pos + |w| + |x|, dist);
  }

  lemma {:induction false} ReadLiteralWritten(ll: seq<nat>, dd: seq<nat>, bits: BitString, pos: nat, c: byte)
    requires PrefixFree(ll) && pos <= |bits| && HasWord(ll, c)
    requires At(bits, pos, Word(ll, c))
    ensures ReadToken(ll, dd, bits, pos) == Some((Some(Literal(c)), pos + |Word(ll, c)|))
  {
    hide PrefixFree, At, Word, ReadLength, ReadDist;
    ReadWritten(ll, bits, pos, c, 0);
  }

  /** A prefix code reads back the token that was written. */
  lemma {:induction false} ReadTokenWritten(ll: seq<nat>, dd: seq<nat>, bits: BitString, pos: nat, t: Token)
    requires PrefixFree(ll) && PrefixFree(dd) && pos <= |bits|
    requires Codable(ll, dd, t)
    requires At(bits, pos, TokenBits(ll, dd, t))
    ensures ReadToken(ll, dd, bits, pos) == Some((Some(t), pos + |TokenBits(ll, dd, t)|))
  {
    hide PrefixFree, At, Word, LengthBits, DistBits, ReadToken;
    match t
    case Literal(c) =>
      ReadLiteralWritten(ll, dd, bits, pos, c);
    case Match(len, dist) =>
      ReadMatchWritten(ll, dd, bits, pos, len, dist);
  }

  /** Reading back the tokens of a block. */
  lemma {:induction false} ReadTokensWritten(ll: seq<nat>, dd: seq<nat>, bits: BitString, pos: nat, ts: seq<Token>)
    requires PrefixFree(ll) && PrefixFree(dd) && pos <= |bits|
    requires AllCodable(ll, dd, ts) && HasWord(ll, END_BLOCK)
    requires At(bits, pos, BodyBits(ll, dd, ts))
    ensures ReadTokens(ll, dd, bits, pos) == Some((ts, pos + |BodyBits(ll, dd, ts)|))
    decreases |ts|
  {
    hide PrefixFree, At, Word, TokenBits, TokensBits, Codable;
    if ts == [] {
      assert BodyBits(ll, dd, ts) == Word(ll, END_BLOCK);
      ReadWritten(ll, bits, pos, END_BLOCK, 0);
    } else {
      var t, rest := ts[0], ts[1..];
      assert ts == [t] + rest;
      TokensBitsCons(ll, dd, t, rest);
      var w := TokenBits(ll, dd, t);
      assert BodyBits(ll, dd, ts) == w + BodyBits(ll, dd, rest);
      AtConcat(bits, pos, w, BodyBits(ll, dd, rest));
      ReadTokenWritten(ll, dd, bits, pos, t);
      ReadTokensWritten(ll, dd, bits, pos + |w|, rest);
    }
  }
}
