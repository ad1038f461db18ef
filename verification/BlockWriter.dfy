/** compress_block: the tokens of a block, from the tally buffers to the output. */
module BlockWriter {
  import opened Bits
  import opened BitWriter
  import opened Canonical
  import opened Tokens
  import opened Trees
  import opened CodeTables
  import opened Tally

  lemma {:induction false} BitAt(v: nat, n: nat, k: nat)
    requires k < n
    ensures ToBits(v, n)[k] == (Shr(v, k) % 2 == 1)
    decreases k
  {
    if k > 0 {
      BitAt(v / 2, n - 1, k - 1);
    }
  }

  lemma {:induction false} ByteBitAt(s: seq<byte>, i: nat)
    requires i < 8 * |s|
    ensures BytesToBits(s)[i] == (Shr(s[i / 8], i % 8) % 2 == 1)
  {
    var last := |s| - 1;
    if i < 8 * last {
      ByteBitAt(s[..last], i);
    } else {
      BitAt(s[last], 8, i - 8 * last);
    }
  }

  /** The flags are read back one by one: bytes first, then what is left over. */
  lemma {:induction false} FlagRead(bytes: seq<byte>, flags: nat, flagBit: nat, f: BitString, last: byte, i: nat)
    requires Flagged(bytes, flags, flagBit, |f| % 8, f) && |bytes| == |f| / 8 && i < |f| && last == flags
    ensures f[i] == (Shr((bytes + [last])[i / 8], i % 8) % 2 == 1)
  {
    hide ToBits;
    if i < 8 * |bytes| {
      ByteBitAt(bytes, i);
    } else {
      BitAt(flags, |f| % 8, i - 8 * |bytes|);
    }
  }

  lemma {:induction false} DistsAt(ts: seq<Token>, i: nat)
    requires AllValid(ts) && i < |ts|
    ensures AllValid(ts[..i]) && AllValid(ts[..i + 1])
    ensures |Dists(ts[..i + 1])| == |Dists(ts[..i])| + (if ts[i].Match? then 1 else 0)
    ensures ts[i].Match? ==> |Dists(ts[..i])| < |Dists(ts)| && Dists(ts)[|Dists(ts[..i])|] == ts[i].dist - 1
    decreases |ts|
  {
    assert ts[..i + 1] == ts[..i] + [ts[i]];
    DistsSnoc(ts[..i], ts[i]);
    if i + 1 == |ts| {
      assert ts[..i + 1] == ts;
    } else {
      var init := ts[..|ts| - 1];
      DistsAt(init, i);
      assert init[..i] == ts[..i];
      DistsSnoc(init, ts[|ts| - 1]);
      assert init + [ts[|ts| - 1]] == ts;
    }
  }

  lemma {:induction false} TokensBitsSnoc(ll: seq<nat>, dd: seq<nat>, ts: seq<Token>, i: nat)
    requires i < |ts| && AllCodable(ll, dd, ts)
    ensures AllCodable(ll, dd, ts[..i]) && AllCodable(ll, dd, ts[..i + 1]) && Codable(ll, dd, ts[i])
    ensures TokensBits(ll, dd, ts[..i + 1]) == TokensBits(ll, dd, ts[..i]) + TokenBits(ll, dd, ts[i])
  {
    hide TokenBits, Codable;
    assert ts[..i + 1][..i] == ts[..i];
  }

  /** A match length: its code and its extra bits. */
  method SendLength(lc: byte, ltree: CtTree, tables: Tables, out: Output, ghost ll: seq<nat>)
    requires ltree.Coded(ll) && HasWord(ll, LITERALS + 1 + LengthCode(lc + MIN_MATCH))
    requires tables.Valid() && tables.LengthsReady()
    requires out.Valid() && out.outbuf as object !in {ltree.fc as object, ltree.dl as object,
      tables.lengthCode as object, tables.baseLength as object}
    modifies out, out.outbuf
    ensures out.Valid()
    ensures out.Stream() == old(out.Stream()) + LengthBits(ll, lc + MIN_MATCH)
  {
    hide Word, ToBits, Pow2, LengthExtra, LengthBase, LengthCode, BytesToBits;
    ghost var start := out.Stream();
    var code := tables.lengthCode[lc];
    LengthCodeRange(lc + MIN_MATCH);
    LengthStep(code);
    ltree.SendCode(out, code + LITERALS + 1, ll);
    var extra := LengthExtra(code);
    if extra != 0 {
      out.SendBits(lc - tables.baseLength[code], extra);
    } else {
      assert ToBits(lc + MIN_MATCH - LengthBase(code), 0) == [];
    }
  }

  /** A distance: its code and its extra bits. */
  method SendDist(dist: nat, dtree: CtTree, tables: Tables, out: Output, ghost dd: seq<nat>)
    requires dist < 0x8000 && dtree.Coded(dd) && HasWord(dd, DistCode(dist + 1))
    requires tables.Valid() && tables.DistsReady()
    requires out.Valid() && out.outbuf as object !in {dtree.fc as object, dtree.dl as object,
      tables.distCode as object, tables.baseDist as object}
    modifies out, out.outbuf
    ensures out.Valid()
    ensures out.Stream() == old(out.Stream()) + DistBits(dd, dist + 1)
  {
    hide Word, ToBits, Pow2, DistExtra, DistBase, DistCode, BytesToBits;
    ghost var start := out.Stream();
    var code := tables.DCode(dist);
    DistCodeRange(dist + 1);
    dtree.SendCode(out, code, dd);
    var extra := DistExtra(code);
    if extra != 0 {
      out.SendBits(dist - tables.baseDist[code], extra);
    } else {
      assert ToBits(dist + 1 - DistBase(code), 0) == [];
    }
  }

  /** What compress_block sends for one token. `dist` counts only for a match. */
  method SendToken(match_: bool, lc: byte, dist: nat, ltree: CtTree, dtree: CtTree, tables: Tables, out: Output,
                   ghost t: Token, ghost ll: seq<nat>, ghost dd: seq<nat>)
    requires Codable(ll, dd, t) && t.Match? == match_ && lc == Lc(t) && (match_ ==> dist == t.dist - 1)
    requires ltree.Coded(ll) && dtree.Coded(dd)
    requires tables.Valid() && tables.LengthsReady() && tables.DistsReady()
    requires out.Valid() && out.outbuf as object !in {ltree.fc as object, ltree.dl as object, dtree.fc as object,
      dtree.dl as object}
    requires out.outbuf as object !in {tables.lengthCode as object, tables.baseLength as object,
      tables.distCode as object, tables.baseDist as object}
    modifies out, out.outbuf
    ensures out.Valid()
    ensures out.Stream() == old(out.Stream()) + TokenBits(ll, dd, t)
  {
    hide Word, ToBits, Pow2, LengthCode, DistCode, TokenBits, Codable, BytesToBits, LengthBits, DistBits, Code,
         Reversed;
    if !match_ {
      LiteralBits(ll, dd, t);
      ltree.SendCode(out, lc, ll);
    } else {
      MatchBits(ll, dd, t);
      SendLength(lc, ltree, tables, out, ll);
      SendDist(dist, dtree, tables, out, dd);
    }
  }

  /** compress_block */
  method CompressBlock(buf: Buffers, ltree: CtTree, dtree: CtTree, tables: Tables, out: Output, ghost ll: seq<nat>,
                       ghost dd: seq<nat>)
    requires buf.Valid() && buf.flagBuf[buf.lastFlags] == buf.flags
    requires ltree.Coded(ll) && dtree.Coded(dd) && AllCodable(ll, dd, buf.tokens) && HasWord(ll, END_BLOCK)
    requires tables.Valid() && tables.LengthsReady() && tables.DistsReady()
    requires out.Valid() && out.outbuf !in {buf.lBuf, buf.flagBuf}
    requires out.outbuf as object !in {ltree.fc as object, ltree.dl as object, dtree.fc as object,
      dtree.dl as object, buf.dBuf as object}
    requires out.outbuf as object !in {tables.lengthCode as object, tables.baseLength as object,
      tables.distCode as object, tables.baseDist as object}
    modifies out, out.outbuf
    ensures out.Valid()
    ensures out.Stream() == old(out.Stream()) + BodyBits(ll, dd, buf.tokens)
  {
    hide *;
    ghost var start, ts := out.Stream(), buf.tokens;
    var lx, dx, fx := 0, 0, 0;
    var flag: nat := 0;
    NoneSent(ll, dd, ts);
    buf.Room();
    EndSent(ll, dd, ts);
    while lx < buf.lastLit
      invariant out.Valid() && lx <= buf.lastLit && fx == (lx + 7) / 8
      invariant AllValid(ts[..lx]) && dx == |Dists(ts[..lx])|
      invariant lx % 8 != 0 ==> flag == Shr(buf.flagBuf[lx / 8], lx % 8)
      invariant AllCodable(ll, dd, ts[..lx]) && out.Stream() == start + TokensBits(ll, dd, ts[..lx])
    {
      if lx % 8 == 0 {
        flag := buf.flagBuf[fx];
        fx := fx + 1;
      }
      NextToken(buf, lx, flag);
      TokensBitsSnoc(ll, dd, ts, lx);
      var lc, match_ := buf.lBuf[lx], flag % 2 != 0;
      var dist := if match_ then buf.dBuf[dx] else 0;
      SendToken(match_, lc, dist, ltree, dtree, tables, out, ts[lx], ll, dd);
      lx := lx + 1;
      dx := if match_ then dx + 1 else dx;
      flag := flag / 2;
    }
    assert ts[..lx] == ts;
    ltree.SendCode(out, END_BLOCK, ll);
  }

  lemma NoneSent(ll: seq<nat>, dd: seq<nat>, ts: seq<Token>)
    ensures ts[..0] == [] && AllCodable(ll, dd, []) && AllValid([]) && Dists([]) == []
    ensures forall v: nat :: Shr(v, 0) == v
  {
  }

  lemma EndSent(ll: seq<nat>, dd: seq<nat>, ts: seq<Token>)
    requires AllCodable(ll, dd, ts) && HasWord(ll, END_BLOCK)
    ensures 0 <= END_BLOCK < |ll| && ll[END_BLOCK] > 0
    ensures BodyBits(ll, dd, ts) == TokensBits(ll, dd, ts) + Word(ll, END_BLOCK)
  {
  }

  lemma {:induction false} NextToken(buf: Buffers, lx: nat, flag: nat)
    requires buf.Valid() && buf.flagBuf[buf.lastFlags] == buf.flags && lx < buf.lastLit
    requires flag == Shr(buf.flagBuf[lx / 8], lx % 8)
    ensures AllValid(buf.tokens[..lx]) && AllValid(buf.tokens[..lx + 1])
    ensures var t := buf.tokens[lx]; var dx := |Dists(buf.tokens[..lx])|;
            && t.Match? == (flag % 2 == 1) && buf.lBuf[lx] == Lc(t)
            && (t.Match? ==> dx < buf.dBuf.Length && buf.dBuf[dx] == t.dist - 1)
            && |Dists(buf.tokens[..lx + 1])| == dx + (if t.Match? then 1 else 0)
    ensures lx % 8 < 7 ==> flag / 2 == Shr(buf.flagBuf[(lx + 1) / 8], (lx + 1) % 8)
  {
    hide Flagged, Dists, Lc;
    FlagRead(buf.flagBuf[..buf.lastFlags], buf.flags, buf.flagBit, Flags(buf.tokens), buf.flagBuf[buf.lastFlags], lx);
    DistsAt(buf.tokens, lx);
    ShrNext(buf.flagBuf[lx / 8], lx % 8);
    assert buf.lBuf[..buf.lastLit][lx] == buf.lBuf[lx];
  }

  lemma {:induction false} ShrNext(v: nat, k: nat)
    ensures Shr(v, k + 1) == Shr(v, k) / 2
  {
    ShrShr(v, k, 1);
    assert Shr(Shr(v, k) / 2, 0) == Shr(v, k) / 2;
  }

  lemma LiteralBits(ll: seq<nat>, dd: seq<nat>, t: Token)
    requires Codable(ll, dd, t) && t.Literal?
    ensures HasWord(ll, t.c) && TokenBits(ll, dd, t) == Word(ll, t.c) && Lc(t) == t.c
  {
  }

  lemma MatchBits(ll: seq<nat>, dd: seq<nat>, t: Token)
    requires Codable(ll, dd, t) && t.Match?
    ensures MIN_MATCH <= t.len <= MAX_MATCH && 1 <= t.dist <= 0x8000 && Lc(t) + MIN_MATCH == t.len
    ensures HasWord(ll, LITERALS + 1 + LengthCode(t.len)) && HasWord(dd, DistCode(t.dist))
    ensures TokenBits(ll, dd, t) == LengthBits(ll, t.len) + DistBits(dd, t.dist)
  {
    hide LengthCode, DistCode, LengthBits, DistBits;
  }
}
