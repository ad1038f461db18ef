/** deflate: lazy matching over the sliding window, block after block. */
module Deflate {
  import opened Bits
  import opened BitWriter
  import opened Options
  import opened Tokens
  import opened Inflate
  import opened BlockFormat
  import opened Tally
  import opened BlockState
  import opened FlushBlock
  import opened HashKeys
  import opened HashChains
  import opened Window
  import opened Lz77
  import opened LazyMatching

  const TOO_FAR := 4096

  // ----- matches -----

  /** What longest_match found is a true match, as far as the input goes. */
  lemma {:induction false} FoundMatch(w: seq<byte>, end: nat, input: seq<byte>, base: nat, keys: seq<nat>, bits: nat,
                                      m: nat, s: nat, best: nat, len: nat)
    requires Holds(w, end, input, base) && Keyed(keys, input, bits) && 8 <= bits
    requires SameKey(keys, base, m, s) && s - m <= MAX_DIST
    requires Agree(w, m, s, best) && MIN_MATCH <= len <= best && s + len <= end
    ensures TrueMatch(input, base + s, base + m, len)
  {
    hide Hash3, Keyed;
    var a, b := base + m, base + s;
    forall k | 0 <= k < len ensures Same(input, a, b, k) {
      if k == 2 {
        assert Same(w, m, s, 0) && Same(w, m, s, 1);
        ThirdByteAgrees(keys, input, bits, a, b);
      } else {
        assert Same(w, m, s, k);
      }
    }
  }

  ghost function TuningOf(m: Matcher): (t: Tuning)
  {
    Tuning(m.maxChainLength, m.maxLazyMatch, m.goodMatch, m.niceMatch, m.hashBits)
  }

  /** Looks for a match at the current position that is better than the pending one. */
  method FindMatch(m: Matcher, hashHead: nat) returns (matchLength: nat, ghost f: Find)
    requires m.Sized() && m.Filled() && m.Linked() && |m.keys| == m.base + m.strstart + 1 && m.lookahead >= 1
    requires hashHead != 0 ==> SameKey(m.keys, m.base, hashHead, m.strstart)
    requires hashHead == Link(m.prev[..], m.strstart) && (m.base == 0 || m.strstart >= MAX_DIST)
    requires 2 <= m.prevLength <= MAX_MATCH
    modifies m`matchStart
    ensures 1 <= matchLength <= MAX_MATCH && (matchLength >= 2 || m.lookahead == 1)
    ensures matchLength >= MIN_MATCH && matchLength > m.prevLength ==>
              TrueMatch(m.src.delivered, m.base + m.strstart, m.base + m.matchStart, matchLength)
    ensures f.len == matchLength && f.from == m.base + m.matchStart
    ensures Justified(m.src.delivered, TuningOf(m), m.base + m.strstart, m.prevLength, f)
  {
    hide Heads, Links, Keyed, Holds, Agree, NoneLonger, SameKey, Pow2, TrueMatch, Source.Valid, Searched, Rival, Link,
         Candidates, Tried;
    matchLength := MIN_MATCH - 1;
    ghost var end, at := m.strstart + m.lookahead, m.base + m.strstart;
    HoldsEnd(m.window[..], end, m.src.delivered, m.base);
    if hashHead != 0 && m.prevLength < m.maxLazyMatch && m.strstart - hashHead <= MAX_DIST {
      ghost var visited;
      matchLength, visited := m.LongestMatch(hashHead);
      ghost var best := matchLength;
      if matchLength > m.lookahead {
        matchLength := m.lookahead;
      }
      if matchLength == MIN_MATCH && m.strstart - m.matchStart > TOO_FAR {
        matchLength := matchLength - 1;
      }
      f := SearchFound(m, hashHead, best, visited, matchLength);
    } else {
      f := Find(2, m.base + m.matchStart, 2, 0);
      if m.lookahead >= 3 && m.prevLength < m.maxLazyMatch {
        forall q: nat ensures !Rival(m.src.delivered, m.hashBits, at, q) {
          NoRival(m.window[..], end, m.src.delivered, m.base, m.keys, m.prev[..], m.hashBits, m.strstart, hashHead, q);
        }
      }
    }
  }

  /** The result of longest_match, as a search of the input. */
  lemma {:induction false} SearchFound(m: Matcher, hashHead: nat, best: nat, visited: nat, len: nat) returns (f: Find)
    requires m.Sized() && m.Filled() && m.Linked() && |m.keys| == m.base + m.strstart + 1 && m.lookahead >= 1
    requires SameKey(m.keys, m.base, hashHead, m.strstart) && m.strstart - hashHead <= MAX_DIST
    requires hashHead == Link(m.prev[..], m.strstart) && (m.base == 0 || m.strstart >= MAX_DIST)
    requires m.prevLength < m.maxLazyMatch && m.prevLength <= best <= MAX_MATCH
    requires best > m.prevLength ==>
      m.InReach(m.matchStart) && best >= MIN_MATCH && Agree(m.window[..], m.matchStart, m.strstart, best)
    requires var all := Candidates(m.prev[..], hashHead, if m.strstart > MAX_DIST then m.strstart - MAX_DIST else 0);
      && 0 < visited <= |all| && NoneLonger(m.window[..], all[..visited], m.strstart, best)
      && (|| visited == |all| || (best > m.prevLength && best >= m.niceMatch)
          || Tried(if m.prevLength >= m.goodMatch then m.maxChainLength / 4 else m.maxChainLength, visited))
    requires len == Kept(best, m.lookahead, m.strstart - m.matchStart)
    ensures f.len == len && f.from == m.base + m.matchStart
    ensures Justified(m.src.delivered, TuningOf(m), m.base + m.strstart, m.prevLength, f)
    ensures len >= MIN_MATCH && len > m.prevLength ==>
              TrueMatch(m.src.delivered, m.base + m.strstart, m.base + m.matchStart, len)
  {
    hide Heads, LinkLatest, Keyed, Holds, Agree, NoneLonger, SameKey, Pow2, TrueMatch, Source.Valid, Searched, Rival,
         Link, Candidates, Tried;
    var limit := if m.strstart > MAX_DIST then m.strstart - MAX_DIST else 0;
    var all := Candidates(m.prev[..], hashHead, limit);
    var end, input, at := m.strstart + m.lookahead, m.src.delivered, m.base + m.strstart;
    HoldsEnd(m.window[..], end, input, m.base);
    f := Find(len, m.base + m.matchStart, best, if visited == |all| then 0 else m.base + all[visited - 1]);
    if m.lookahead >= 3 {
      var n := if best > m.lookahead then m.lookahead else best;
      if best > m.prevLength {
        FoundMatch(m.window[..], end, input, m.base, m.keys, m.hashBits, m.matchStart, m.strstart, best, n);
      }
      FoundIsSearched(m.window[..], end, input, m.base, m.keys, m.prev[..], TuningOf(m), m.strstart, hashHead, limit,
                      m.prevLength, visited, f);
    }
  }

  /** Inserts all strings up to the end of the match that was just emitted. */
  method InsertRest(m: Matcher, ghost end: nat)
    requires m.Sized() && Holds(m.window[..], end, m.src.delivered, m.base) && m.Linked() && m.Hashing()
    requires |m.keys| == m.base + m.strstart + 1 && m.prevLength > 0 && m.strstart + m.prevLength < WINDOW_SIZE
    modifies m`strstart, m`prevLength, m`insH, m`keys, m.prev, m.head
    ensures m.Linked() && m.Hashing() && m.strstart == old(m.strstart) + old(m.prevLength)
    ensures |m.keys| == m.base + m.strstart + 1
  {
    hide *;
    while true
      invariant m.Linked() && m.Hashing() && |m.keys| == m.base + m.strstart + 1
      invariant m.prevLength > 0 && m.strstart + m.prevLength == old(m.strstart) + old(m.prevLength)
      decreases m.prevLength
    {
      m.strstart := m.strstart + 1;
      var _ := m.InsertString(m.strstart, end);
      m.prevLength := m.prevLength - 1;
      if m.prevLength == 0 {
        break;
      }
    }
  }

  // ----- blocks -----

  /** The window and the coder share nothing. */
  ghost predicate Separate(g: Coder, m: Matcher)
  {
    {m as object, m.src as object} + m.Arrays() !! g.Region()
  }

  /** The stream is finished: the inflater reads `out` from it, whatever follows,
      and stops in its last byte. */
  ghost predicate Complete(s: BitString, head: BitString, out: seq<byte>)
  {
    head <= s && exists pos: nat | |s| < pos + 8 && pos <= |s| :: EndsAt(s, head, out, pos)
  }

  ghost predicate EndsAt(s: BitString, head: BitString, out: seq<byte>, pos: nat)
  {
    forall rest: BitString :: InflateFrom(s + rest, |head|, []) == Some((out, pos))
  }

  /** Whichever form was chosen, the block stands for the input it was made from. */
  lemma {:induction false} ChosenUnpacks(b: Block, ts: seq<Token>, c: Codes, from: Option<seq<byte>>,
                                         input: seq<byte>, blockAt: int, emitted: int)
    requires ValidBlock(Dynamic(ts, c)) && ValidBlock(StaticBlock(ts)) && Chosen(b, ts, c, from)
    requires Expanded(input, blockAt, emitted, ts) && (from.Some? ==> from.value == input[blockAt..emitted])
    ensures Unpack(input[..blockAt], ContentOf(b)) == Some(input[..emitted])
  {
    hide ValidBlock, DynamicSize, StaticSize, ExpandTokens, InBytes;
    assert input[..blockAt] + input[blockAt..emitted] == input[..emitted];
  }

  lemma {:induction false} StreamFinished(s: BitString, head: BitString, out: seq<byte>, b: Block, next: seq<byte>,
                                          pad: BitString)
    requires Decodes(s, head, out) && ValidBlock(b) && Unpack(out, ContentOf(b)) == Some(next) && |pad| < 8
    ensures Complete(s + BlockBits(b, true, |s|) + pad, head, next)
  {
    hide ValidBlock, BlockBits, Unpack, Decodes, InflateFrom;
    var sw := s + BlockBits(b, true, |s|);
    HeadStays(s, head, out);
    forall rest: BitString ensures InflateFrom(sw + pad + rest, |head|, []) == Some((next, |sw|)) {
      assert sw + pad + rest == sw + (pad + rest);
      DecodesFinal(s, head, out, b, next, pad + rest);
    }
    assert EndsAt(sw + pad, head, next, |sw|);
  }

  lemma HeadStays(s: BitString, head: BitString, out: seq<byte>)
    requires Decodes(s, head, out)
    ensures head <= s
  {
  }

  lemma PaddingShort(pos: nat)
    ensures |Padding(pos)| < 8
  {
  }

  /** The input of the block as it stands in the window. */
  lemma BlockInWindow(w: seq<byte>, end: nat, input: seq<byte>, base: nat, from: nat, to: nat)
    requires Holds(w, end, input, base) && from <= to <= end
    ensures w[from..to] == input[base + from..base + to]
  {
  }

  /** FLUSH_BLOCK */
  method FlushHere(g: Coder, m: Matcher, eof: bool, ghost head: BitString)
    requires g.Ready() && m.Filled() && Separate(g, m) && m.strstart <= 0xffff
    requires Expanded(m.src.delivered, m.base + m.blockStart, m.base + m.strstart, g.buf.tokens)
    requires Decodes(g.out.Stream(), head, m.src.delivered[..m.base + m.blockStart])
    modifies g.Region()
    ensures g.Ready() && g.buf.tokens == [] && g.buf.lastLit + 1 < g.buf.lBuf.Length
      && g.buf.lastDist < g.buf.dBuf.Length
    ensures g.buf.sent == old(g.buf.sent + g.buf.tokens)
    ensures m.base + m.strstart <= |m.src.delivered|
    ensures !eof ==> Decodes(g.out.Stream(), head, m.src.delivered[..m.base + m.strstart])
    ensures eof ==> Complete(g.out.Stream(), head, m.src.delivered[..m.base + m.strstart]) && g.out.biValid == 0
  {
    hide *;
    ghost var input, blockAt, emitted, ts := m.src.delivered, m.base + m.blockStart, m.base + m.strstart, g.buf.tokens;
    FlushHereFacts(g, m);
    ghost var s := g.out.Stream();
    ExpandedBounds(input, blockAt, emitted, ts);
    var from := if m.blockStart >= 0 then Some(m.blockStart) else None;
    var storedLen := m.strstart - m.blockStart;
    if from.Some? {
      BlockInWindow(m.window[..], m.strstart + m.lookahead, input, m.base, m.blockStart, m.strstart);
    }
    ghost var block, c := Flush(g, m.window, from, storedLen, eof);
    InputIs(m.window, from, storedLen);
    FlushedIs(s, block, eof);
    ghost var data := if from.Some? then Some(m.window[from.value..from.value + storedLen]) else None;
    assert from.Some? ==> data.value == m.window[..][m.blockStart..m.strstart];
    ChosenUnpacks(block, ts, c, data, input, blockAt, emitted);
    if eof {
      PaddingShort(|s + BlockBits(block, true, |s|)|);
      StreamFinished(s, head, input[..blockAt], block, input[..emitted], Padding(|s + BlockBits(block, true, |s|)|));
    } else {
      DecodesBlock(s, head, input[..blockAt], block, input[..emitted]);
      assert s + BlockBits(block, false, |s|) + [] == s + BlockBits(block, false, |s|);
    }
    g.IsReady();
  }

  lemma ExpandedBounds(input: seq<byte>, blockAt: int, emitted: int, ts: seq<Token>)
    requires Expanded(input, blockAt, emitted, ts)
    ensures 0 <= blockAt <= emitted <= |input|
  {
  }

  lemma FlushHereFacts(g: Coder, m: Matcher)
    requires g.Ready() && m.Filled() && Separate(g, m)
    ensures g.Wired() && g.Apart() && g.StaticReady() && g.Counting() && g.out.Valid()
    ensures m.window as object !in g.Region() && m.window as object !in g.Arrays() && m !in g.Region()
      && m.src !in g.Region()
    ensures m.strstart + m.lookahead <= m.window.Length
      && Holds(m.window[..], m.strstart + m.lookahead, m.src.delivered, m.base)
    ensures g.builder in g.Region() && g.lDesc in g.Region() && g.dDesc in g.Region() && g.blDesc in g.Region()
      && g.buf in g.Region() && g.out in g.Region()
    ensures g.dynL.fc in g.Region() && g.dynL.dl in g.Region() && g.dynD.fc in g.Region() && g.dynD.dl in g.Region()
    ensures g.blTree.fc in g.Region() && g.blTree.dl in g.Region() && g.buf.flagBuf as object in g.Region()
      && g.out.outbuf as object in g.Region()
    ensures g.builder.heap in g.Region() && g.builder.depth in g.Region() && g.builder.blCount in g.Region()
  {
    HoldsEnd(m.window[..], m.strstart + m.lookahead, m.src.delivered, m.base);
    hide Holds, Source.Valid, Coder.StaticReady, Coder.Counting, Coder.Apart, Coder.Wired;
    assert m.window as object in m.Arrays();
  }

  lemma SeparateFacts(g: Coder, m: Matcher)
    requires Separate(g, m)
    ensures m !in g.Region() && m.src !in g.Region()
    ensures m.window as object !in g.Region() && m.prev !in g.Region() && m.head !in g.Region()
  {
    assert m.window as object in m.Arrays() && m.prev in m.Arrays() && m.head in m.Arrays();
  }

  // ----- the main loop -----

  /** The match found at the previous position, if any, is a true one. */
  ghost predicate Pending(m: Matcher, avail: bool, matchLength: nat)
    reads m, m.src
  {
    && (avail ==> m.strstart >= 1) && (!avail ==> matchLength == MIN_MATCH - 1)
    && 1 <= matchLength <= MAX_MATCH && (matchLength >= 2 || m.lookahead == 0)
    && (matchLength >= MIN_MATCH ==>
        TrueMatch(m.src.delivered, m.base + m.strstart - 1, m.base + m.matchStart, matchLength))
  }

  /** How much of the input the tokens stand for. */
  function Emitted(at: int, avail: bool): (n: int)
  {
    if avail then at - 1 else at
  }

  /** The blocks written so far and the tokens saved since stand for the input up to `emitted`. */
  ghost predicate Coded(g: Coder, m: Matcher, emitted: int, head: BitString)
    requires g.out.Valid()
    reads g.buf, g.out, g.out.outbuf, m`base, m`blockStart, m.src
  {
    && Expanded(m.src.delivered, m.base + m.blockStart, emitted, g.buf.tokens)
    && Decodes(g.out.Stream(), head, m.src.delivered[..m.base + m.blockStart])
  }

  ghost predicate HasRoom(g: Coder)
    reads g.buf
  {
    g.buf.lastLit + 1 < g.buf.lBuf.Length && g.buf.lastDist < g.buf.dBuf.Length
  }

  ghost predicate ChainsReady(m: Matcher)
    reads m, m.window, m.prev, m.head, m.src
  {
    m.Sized() && m.Filled() && m.Linked() && m.Hashing()
  }

  /** What holds at the head of the loop of deflate, except that the lookahead may be short. */
  ghost predicate Deflating(g: Coder, m: Matcher, avail: bool, matchLength: nat, head: BitString)
    reads g.Region(), m, m.window, m.prev, m.head, m.src
  {
    && g.Ready() && HasRoom(g) && Separate(g, m)
    && ChainsReady(m) && |m.keys| == m.base + m.strstart && Pending(m, avail, matchLength)
    && Coded(g, m, Emitted(m.base + m.strstart, avail), head)
  }

  /** Outputs the literal before the current position. */
  method EmitLiteral(g: Coder, m: Matcher, ghost head: BitString)
    requires g.Ready() && HasRoom(g) && Separate(g, m) && m.Filled() && Coded(g, m, m.base + m.strstart - 1, head)
    requires m.strstart >= 1 && m.lookahead >= 1 && (m.lookahead >= MIN_LOOKAHEAD || m.eofile)
    modifies g.Region(), m`strstart, m`lookahead, m`blockStart
    ensures g.Ready() && HasRoom(g) && m.Filled() && Coded(g, m, m.base + m.strstart - 1, head)
    ensures m.strstart == old(m.strstart) + 1 && m.lookahead == old(m.lookahead) - 1
    ensures old(m.base + m.strstart) <= |m.src.delivered|
    ensures g.buf.sent + g.buf.tokens
         == old(g.buf.sent + g.buf.tokens) + [Literal(m.src.delivered[old(m.base + m.strstart) - 1])]
  {
    hide *;
    Consts();
    SeparateFacts(g, m);
    ReadyFacts(g, m);
    ghost var input, p, end := m.src.delivered, m.base + m.strstart, m.strstart + m.lookahead;
    CodedFacts(g, m, p - 1, head);
    FilledFacts(m, end);
    InputByte(m.window[..], end, input, m.base, m.strstart - 1);
    var c := m.window[m.strstart - 1];
    ExpandLiteral(input, m.base + m.blockStart, p - 1, g.buf.tokens, c);
    ExpandedBounds(input, m.base + m.blockStart, p, g.buf.tokens + [Literal(c)]);
    TalliedIs(0, c);
    RoomIs(g);
    var flush := g.Tally(0, c, m.strstart - m.blockStart);
    FilledAre(m, end);
    FlushIfFull(g, m, flush, head);
    FilledFacts(m, end);
    m.strstart, m.lookahead := m.strstart + 1, m.lookahead - 1;
    FilledAre(m, end);
  }

  /** FLUSH_BLOCK, if ct_tally asked for it. */
  method FlushIfFull(g: Coder, m: Matcher, flush: bool, ghost head: BitString)
    requires g.Ready() && m.Filled() && Separate(g, m) && m.strstart <= 0xffff
    requires Expanded(m.src.delivered, m.base + m.blockStart, m.base + m.strstart, g.buf.tokens)
    requires Decodes(g.out.Stream(), head, m.src.delivered[..m.base + m.blockStart])
    requires !flush ==> g.buf.lastLit + 1 < g.buf.lBuf.Length && g.buf.lastDist < g.buf.dBuf.Length
    modifies g.Region(), m`blockStart
    ensures g.Ready() && HasRoom(g) && m.Filled() && Coded(g, m, m.base + m.strstart, head)
    ensures g.buf.sent + g.buf.tokens == old(g.buf.sent + g.buf.tokens)
    ensures if flush then g.buf.tokens == [] && m.blockStart == m.strstart
      else g.buf.tokens == old(g.buf.tokens) && m.blockStart == old(m.blockStart)
  {
    hide *;
    SeparateFacts(g, m);
    ReadyFacts(g, m);
    ExpandedBounds(m.src.delivered, m.base + m.blockStart, m.base + m.strstart, g.buf.tokens);
    if flush {
      FlushHere(g, m, false, head);
      m.blockStart := m.strstart;
      NothingExpanded(m.src.delivered, m.base + m.strstart);
    }
    ReadyFacts(g, m);
    IsCoded(g, m, m.base + m.strstart, head);
    RoomIs(g);
  }

  /** Outputs the pending match, which starts before the current position, and
      moves behind it. */
  method EmitMatch(g: Coder, m: Matcher, prevMatch: int, ghost head: BitString)
    requires g.Ready() && HasRoom(g) && Separate(g, m) && ChainsReady(m) && Coded(g, m, m.base + m.strstart - 1, head)
    requires |m.keys| == m.base + m.strstart + 1 && MIN_MATCH <= m.prevLength <= MAX_MATCH
    requires TrueMatch(m.src.delivered, m.base + m.strstart - 1, m.base + prevMatch, m.prevLength)
    requires m.strstart >= 1 && m.lookahead >= 1 && (m.lookahead >= MIN_LOOKAHEAD || m.eofile)
    modifies g.Region(), m`strstart, m`lookahead, m`blockStart, m`prevLength, m`insH, m`keys, m.prev, m.head
    ensures g.Ready() && HasRoom(g) && ChainsReady(m) && Coded(g, m, m.base + m.strstart, head)
    ensures |m.keys| == m.base + m.strstart && (m.lookahead >= 2 || m.eofile)
    ensures m.strstart == old(m.strstart) + old(m.prevLength) - 1
      && m.lookahead == old(m.lookahead) - (old(m.prevLength) - 1)
    ensures g.buf.sent + g.buf.tokens
         == old(g.buf.sent + g.buf.tokens) + [Match(old(m.prevLength), old(m.strstart) - 1 - prevMatch)]
  {
    hide *;
    Consts();
    SeparateFacts(g, m);
    ReadyFacts(g, m);
    TablesFacts(m);
    ghost var input, p, end, len := m.src.delivered, m.base + m.strstart - 1, m.strstart + m.lookahead, m.prevLength;
    CodedFacts(g, m, p, head);
    FilledFacts(m, end);
    MatchBounds(input, p, m.base + prevMatch, len);
    ExpandMatch(input, m.base + m.blockStart, p, g.buf.tokens, m.base + prevMatch, len);
    TalliedIs(m.strstart - 1 - prevMatch, m.prevLength - 3);
    RoomIs(g);
    var flush := g.Tally(m.strstart - 1 - prevMatch, m.prevLength - 3, m.strstart - m.blockStart);
    m.lookahead := m.lookahead - (m.prevLength - 1);
    m.prevLength := m.prevLength - 2;
    InsertRest(m, end);
    m.strstart := m.strstart + 1;
    FilledAre(m, end);
    FlushIfFull(g, m, flush, head);
    TablesAre(m);
  }

  lemma MatchBounds(input: seq<byte>, p: int, m: int, len: nat)
    requires TrueMatch(input, p, m, len)
    ensures 0 <= m < p <= m + MAX_DIST && p + len <= |input|
  {
  }

  lemma TablesFacts(m: Matcher)
    requires ChainsReady(m)
    ensures m.Sized() && m.Filled() && m.Linked() && m.Hashing()
    ensures m.window as object !in {m.prev as object, m.head as object}
  {
    hide Matcher.Filled, Matcher.Linked, Matcher.Hashing;
  }

  lemma TablesAre(m: Matcher)
    requires m.Sized() && m.Filled() && m.Linked() && m.Hashing()
    ensures ChainsReady(m)
  {
    hide Matcher.Filled, Matcher.Linked, Matcher.Hashing;
  }

  lemma RoomIs(g: Coder)
    ensures HasRoom(g) <==> g.buf.lastLit + 1 < g.buf.lBuf.Length && g.buf.lastDist < g.buf.dBuf.Length
  {
  }

  lemma ReadyFacts(g: Coder, m: Matcher)
    requires g.Ready()
    ensures g.out.Valid() && g.out in g.Region() && g.out.outbuf as object in g.Region() && g.buf in g.Region()
    ensures allocated(g.Region())
  {
    hide Coder.StaticReady, Coder.Counting, Coder.Apart, Coder.Wired;
  }

  lemma CodedFacts(g: Coder, m: Matcher, emitted: int, head: BitString)
    requires g.out.Valid() && Coded(g, m, emitted, head)
    ensures 0 <= m.base + m.blockStart <= emitted <= |m.src.delivered|
    ensures Expanded(m.src.delivered, m.base + m.blockStart, emitted, g.buf.tokens)
    ensures Decodes(g.out.Stream(), head, m.src.delivered[..m.base + m.blockStart])
  {
    hide Decodes, ExpandTokens;
  }

  lemma IsCoded(g: Coder, m: Matcher, emitted: int, head: BitString)
    requires g.out.Valid() && Expanded(m.src.delivered, m.base + m.blockStart, emitted, g.buf.tokens)
    requires 0 <= m.base + m.blockStart <= |m.src.delivered|
    requires Decodes(g.out.Stream(), head, m.src.delivered[..m.base + m.blockStart])
    ensures Coded(g, m, emitted, head)
  {
    hide Decodes, ExpandTokens;
  }

  lemma FilledFacts(m: Matcher, end: nat)
    requires m.Filled() && end == m.strstart + m.lookahead
    ensures m.FilledTo(end) && Holds(m.window[..], end, m.src.delivered, m.base) && end <= WINDOW_SIZE
      && (m.eofile ==> end <= WINDOW_SIZE - 2)
    ensures end <= m.window.Length && m.base + end == |m.src.delivered|
  {
  }

  lemma FilledAre(m: Matcher, end: nat)
    requires m.FilledTo(end) && end == m.strstart + m.lookahead
    ensures m.Filled()
  {
  }

  lemma InputByte(w: seq<byte>, end: nat, input: seq<byte>, base: nat, i: nat)
    requires Holds(w, end, input, base) && i < end
    ensures w[i] == input[base + i]
  {
  }

  lemma Consts()
    ensures MIN_MATCH == 3 && MAX_MATCH == 258 && MIN_LOOKAHEAD == 262 && WINDOW_SIZE == 65536 && MAX_DIST == 32506
      && WSIZE == 32768
  {
  }

  lemma TalliedIs(dist: nat, lc: byte)
    requires dist <= 0x8000
    ensures Tallied(dist, lc) == if dist == 0 then Literal(lc) else Match(lc + 3, dist)
  {
  }

  lemma DeflatingFacts(g: Coder, m: Matcher, avail: bool, matchLength: nat, head: BitString)
    requires Deflating(g, m, avail, matchLength, head)
    ensures g.Ready() && HasRoom(g) && Separate(g, m) && ChainsReady(m) && g.out.Valid()
    ensures |m.keys| == m.base + m.strstart && Pending(m, avail, matchLength)
    ensures Coded(g, m, if avail then m.base + m.strstart - 1 else m.base + m.strstart, head)
    ensures avail ==> m.strstart >= 1
    ensures 1 <= matchLength <= MAX_MATCH && (matchLength >= 2 || m.lookahead == 0) && (!avail ==> matchLength == 2)
    ensures matchLength >= MIN_MATCH ==>
      TrueMatch(m.src.delivered, m.base + m.strstart - 1, m.base + m.matchStart, matchLength)
  {
    hide Coder.Ready, HasRoom, Separate, ChainsReady, Coded, TrueMatch;
    ReadyFacts(g, m);
  }

  lemma DeflatingAre(g: Coder, m: Matcher, avail: bool, matchLength: nat, head: BitString)
    requires g.Ready() && HasRoom(g) && Separate(g, m) && ChainsReady(m) && g.out.Valid()
    requires |m.keys| == m.base + m.strstart
    requires Coded(g, m, if avail then m.base + m.strstart - 1 else m.base + m.strstart, head)
    requires avail ==> m.strstart >= 1
    requires 1 <= matchLength <= MAX_MATCH && (matchLength >= 2 || m.lookahead == 0) && (!avail ==> matchLength == 2)
    requires matchLength >= MIN_MATCH ==>
      TrueMatch(m.src.delivered, m.base + m.strstart - 1, m.base + m.matchStart, matchLength)
    ensures Deflating(g, m, avail, matchLength, head)
  {
    hide Coder.Ready, HasRoom, Separate, ChainsReady, Coded, TrueMatch;
  }

  /** The head of a round: the current string is inserted and looked for. */
  method Search(m: Matcher, wasLength: nat) returns (prevMatch: int, matchLength: nat, ghost f: Find)
    requires ChainsReady(m) && |m.keys| == m.base + m.strstart && m.lookahead >= 1 && 2 <= wasLength <= MAX_MATCH
    requires m.base == 0 || m.strstart >= MAX_DIST
    modifies m`prevLength, m`matchStart, m`insH, m`keys, m.prev, m.head
    ensures ChainsReady(m) && |m.keys| == m.base + m.strstart + 1
    ensures m.prevLength == wasLength && prevMatch == old(m.matchStart)
    ensures 1 <= matchLength <= MAX_MATCH && (matchLength >= 2 || m.lookahead == 1)
    ensures matchLength >= MIN_MATCH && matchLength > wasLength ==>
              TrueMatch(m.src.delivered, m.base + m.strstart, m.base + m.matchStart, matchLength)
    ensures f.len == matchLength && f.from == m.base + m.matchStart
    ensures Justified(m.src.delivered, TuningOf(m), m.base + m.strstart, wasLength, f)
  {
    hide *;
    Consts();
    ghost var end := m.strstart + m.lookahead;
    TablesFacts(m);
    FilledFacts(m, end);
    PrevSize(m);
    ghost var prev := m.prev[..];
    var hashHead := m.InsertString(m.strstart, end);
    Linked(prev, m.strstart, hashHead);
    m.prevLength := wasLength;
    prevMatch := m.matchStart;
    FilledAre(m, end);
    matchLength, f := FindMatch(m, hashHead);
    TablesAre(m);
  }

  lemma PrevSize(m: Matcher)
    requires m.Sized()
    ensures m.prev.Length == WSIZE
  {
  }

  lemma Linked(prev: seq<nat>, s: nat, h: nat)
    requires |prev| == WSIZE
    ensures Link(prev[s % WSIZE := h], s) == h
  {
  }

  /** A round without a match to output: the literal before the current position, if one is pending. */
  method EmitPrevious(g: Coder, m: Matcher, avail: bool, ghost head: BitString)
    requires g.Ready() && HasRoom(g) && Separate(g, m) && ChainsReady(m) && g.out.Valid()
    requires Coded(g, m, Emitted(m.base + m.strstart, avail), head) && (avail ==> m.strstart >= 1)
    requires m.lookahead >= 1 && (m.lookahead >= MIN_LOOKAHEAD || m.eofile)
    modifies g.Region(), m`strstart, m`lookahead, m`blockStart
    ensures g.Ready() && HasRoom(g) && ChainsReady(m) && g.out.Valid() && Coded(g, m, m.base + m.strstart - 1, head)
    ensures m.strstart == old(m.strstart) + 1 && m.lookahead == old(m.lookahead) - 1
    ensures avail ==> 1 <= old(m.base + m.strstart) <= |m.src.delivered|
    ensures g.buf.sent + g.buf.tokens == old(g.buf.sent + g.buf.tokens)
              + if avail then [Literal(m.src.delivered[old(m.base + m.strstart) - 1])] else []
  {
    hide *;
    SeparateFacts(g, m);
    ReadyFacts(g, m);
    ghost var end := m.strstart + m.lookahead;
    TablesFacts(m);
    FilledFacts(m, end);
    EmittedIs(m.base + m.strstart, avail);
    if avail {
      EmitLiteral(g, m, head);
    } else {
      m.strstart, m.lookahead := m.strstart + 1, m.lookahead - 1;
      FilledAre(m, end);
    }
    ReadyFacts(g, m);
    TablesAre(m);
  }

  /** The state of the loop as the rule of lazy matching sees it. */
  ghost function LazyOf(g: Coder, m: Matcher, avail: bool, matchLength: nat): (s: Lazy)
    requires m.base + m.strstart >= 0
    reads g.buf, m
  {
    Lazy(m.base + m.strstart, avail, matchLength, m.base + m.matchStart, g.buf.sent + g.buf.tokens)
  }

  /** One round of the loop of deflate, up to the refilling of the window: a proper search, and the step that the rule
      of lazy matching makes of it. */
  method Round(g: Coder, m: Matcher, wasAvail: bool, wasLength: nat, ghost head: BitString)
    returns (avail: bool, matchLength: nat, ghost f: Find)
    requires Deflating(g, m, wasAvail, wasLength, head) && m.lookahead != 0
      && (m.lookahead >= MIN_LOOKAHEAD || m.eofile) && (m.base == 0 || m.strstart >= MAX_DIST)
    modifies g.Region(), m`strstart, m`lookahead, m`blockStart, m`prevLength, m`matchStart, m`insH, m`keys, m.prev,
      m.head
    ensures Deflating(g, m, avail, matchLength, head) && (m.lookahead >= 2 || m.eofile)
    ensures m.base + m.strstart > old(m.base + m.strstart) && m.lookahead < old(m.lookahead)
    ensures Justified(m.src.delivered, TuningOf(m), old(m.base + m.strstart), wasLength, f)
    ensures LazyOf(g, m, avail, matchLength) == LazyStep(m.src.delivered, old(LazyOf(g, m, wasAvail, wasLength)), f)
  {
    hide *;
    Consts();
    DeflatingFacts(g, m, wasAvail, wasLength, head);
    SeparateFacts(g, m);
    ReadyFacts(g, m);
    ghost var was := LazyOf(g, m, wasAvail, wasLength);
    LazyIs(g, m, wasAvail, wasLength);
    TablesFacts(m);
    FilledFacts(m, m.strstart + m.lookahead);
    if wasLength >= MIN_MATCH {
      MatchBounds(m.src.delivered, m.base + m.strstart - 1, m.base + m.matchStart, wasLength);
    }
    var prevMatch;
    prevMatch, matchLength, f := Search(m, wasLength);
    if m.prevLength >= MIN_MATCH && matchLength <= m.prevLength {
      EmitMatch(g, m, prevMatch, head);
      avail, matchLength := false, MIN_MATCH - 1;
    } else {
      EmittedIs(m.base + m.strstart, wasAvail);
      EmitPrevious(g, m, wasAvail, head);
      avail := true;
    }
    ReadyFacts(g, m);
    DeflatingAre(g, m, avail, matchLength, head);
    LazyIs(g, m, avail, matchLength);
    StepIs(m.src.delivered, was, f);
  }

  lemma LazyIs(g: Coder, m: Matcher, avail: bool, matchLength: nat)
    requires m.base + m.strstart >= 0
    ensures LazyOf(g, m, avail, matchLength)
         == Lazy(m.base + m.strstart, avail, matchLength, m.base + m.matchStart, g.buf.sent + g.buf.tokens)
  {
  }

  lemma StepIs(input: seq<byte>, s: Lazy, f: Find)
    requires s.avail ==> 1 <= s.at <= |input|
    requires s.len >= 3 && f.len <= s.len ==> s.from < s.at
    ensures LazyStep(input, s, f) ==
      if s.len >= 3 && f.len <= s.len then
        Lazy(s.at + s.len - 1, false, 2, f.from, s.tokens + [Match(s.len, s.at - 1 - s.from)])
      else Lazy(s.at + 1, true, f.len, f.from, s.tokens + if s.avail then [Literal(input[s.at - 1])] else [])
  {
  }

  /** fill_window_if_needed at the end of a round. */
  method Refill(g: Coder, m: Matcher, avail: bool, matchLength: nat, ghost head: BitString)
    requires Deflating(g, m, avail, matchLength, head) && (m.lookahead >= 2 || m.eofile)
    modifies m, m.src, m.window, m.prev, m.head
    ensures Deflating(g, m, avail, matchLength, head) && (m.lookahead >= MIN_LOOKAHEAD || m.eofile)
    ensures m.base + m.strstart == old(m.base + m.strstart) && m.base + m.matchStart == old(m.base + m.matchStart)
    ensures old(m.src.delivered) <= m.src.delivered && (old(m.eofile) ==> m.src.delivered == old(m.src.delivered))
    ensures old(m.base == 0 || m.strstart >= MAX_DIST) ==> m.base == 0 || m.strstart >= MAX_DIST
    ensures old(m.eofile) ==> m.eofile
  {
    hide *;
    Consts();
    DeflatingFacts(g, m, avail, matchLength, head);
    SeparateFacts(g, m);
    ReadyFacts(g, m);
    RoomIs(g);
    TablesFacts(m);
    ghost var input, at, blockAt := m.src.delivered, m.base + m.strstart, m.base + m.blockStart;
    CodedFacts(g, m, if avail then at - 1 else at, head);
    FilledFacts(m, m.strstart + m.lookahead);
    m.FillWindowIfNeeded();
    FilledFacts(m, m.strstart + m.lookahead);
    ghost var longer := m.src.delivered;
    assert longer[..blockAt] == input[..blockAt];
    ExpandedGrows(input, longer, blockAt, if avail then at - 1 else at, g.buf.tokens);
    if matchLength >= MIN_MATCH {
      TrueMatchGrows(input, longer, at - 1, m.base + m.matchStart, matchLength);
    }
    ReadyFacts(g, m);
    RoomIs(g);
    IsCoded(g, m, if avail then at - 1 else at, head);
    TablesAre(m);
    DeflatingAre(g, m, avail, matchLength, head);
  }

  /** The rounds so far: every search was a proper one, and the rule of lazy matching leads to this state. */
  ghost predicate Traced(g: Coder, m: Matcher, avail: bool, matchLength: nat, finds: seq<Find>)
    reads g.buf, m, m.src
  {
    && (m.base == 0 || m.strstart >= MAX_DIST) && Lawful(m.src.delivered, TuningOf(m), finds)
    && LazyRun(m.src.delivered, finds) == LazyOf(g, m, avail, matchLength)
    && (m.eofile || Looked(m.src.delivered, finds))
  }

  /** Every search had all the bytes before it that it can look at. */
  ghost predicate Looked(input: seq<byte>, finds: seq<Find>)
  {
    forall i | 0 <= i < |finds| :: LazyRun(input, finds[..i]).at + MIN_LOOKAHEAD <= |input|
  }

  /** One search more. */
  lemma {:induction false} TraceStep(input: seq<byte>, t: Tuning, finds: seq<Find>, f: Find)
    ensures Lawful(input, t, finds + [f]) <==>
      Lawful(input, t, finds) && Justified(input, t, LazyRun(input, finds).at, LazyRun(input, finds).len, f)
    ensures LazyRun(input, finds + [f]) == LazyStep(input, LazyRun(input, finds), f)
    ensures Looked(input, finds + [f]) <==>
      Looked(input, finds) && LazyRun(input, finds).at + MIN_LOOKAHEAD <= |input|
  {
    hide Justified, LazyStep;
    assert (finds + [f])[..|finds|] == finds;
    assert forall i | 0 <= i < |finds| :: (finds + [f])[..i] == finds[..i];
  }

  lemma {:induction false} TraceGrows(input: seq<byte>, longer: seq<byte>, t: Tuning, finds: seq<Find>)
    requires Lawful(input, t, finds) && Looked(input, finds) && input <= longer
    ensures Lawful(longer, t, finds) && LazyRun(longer, finds) == LazyRun(input, finds) && Looked(longer, finds)
  {
    hide Justified, Lawful, LazyRun, Looked;
    if finds == [] {
      TraceEmpty(longer, t);
      TraceEmpty(input, t);
    } else {
      var before, f := finds[..|finds| - 1], finds[|finds| - 1];
      assert finds == before + [f];
      TraceStep(input, t, before, f);
      TraceStep(longer, t, before, f);
      TraceGrows(input, longer, t, before);
      var s := LazyRun(input, before);
      JustifiedGrows(input, longer, t, s.at, s.len, f);
      assert LazyStep(longer, s, f) == LazyStep(input, s, f);
    }
  }

  lemma TraceEmpty(input: seq<byte>, t: Tuning)
    ensures Lawful(input, t, []) && LazyRun(input, []) == Lazy(0, false, 2, 0, []) && Looked(input, [])
  {
  }

  /** deflate: the finished stream inflates to the whole input, and its tokens are those of lazy matching. */
  method DeflateAll(g: Coder, m: Matcher, ghost head: BitString) returns (ghost finds: seq<Find>)
    requires Deflating(g, m, false, MIN_MATCH - 1, head) && (m.lookahead >= MIN_LOOKAHEAD || m.eofile)
    requires m.base == 0 && m.strstart == 0 && m.matchStart == 0 && g.buf.sent + g.buf.tokens == []
    modifies g.Region(), m, m.src, m.window, m.prev, m.head
    ensures g.Ready() && g.out.biValid == 0 && Complete(g.out.Stream(), head, m.src.delivered)
    ensures m.src.Valid() && m.Finished()
    ensures LazyParse(m.src.delivered, TuningOf(m), finds, g.buf.sent)
  {
    hide *;
    Consts();
    var avail, matchLength: nat := false, MIN_MATCH - 1;
    finds := [];
    TraceBegins(g, m);
    while m.lookahead != 0
      invariant Deflating(g, m, avail, matchLength, head) && (m.lookahead >= MIN_LOOKAHEAD || m.eofile)
      invariant Traced(g, m, avail, matchLength, finds)
      decreases |m.src.data| - (m.base + m.strstart)
    {
      Progress(g, m, avail, matchLength, head);
      avail, matchLength, finds := NextRound(g, m, avail, matchLength, head, finds);
    }
    DeflatingFacts(g, m, avail, matchLength, head);
    TablesFacts(m);
    EmittedIs(m.base + m.strstart, avail);
    assert matchLength < MIN_MATCH by {
      NoMatchLeft(m, avail, matchLength);
    }
    SeparateFacts(g, m);
    ReadyFacts(g, m);
    ghost var was := LazyOf(g, m, avail, matchLength);
    TracedFacts(g, m, avail, matchLength, finds);
    LazyIs(g, m, avail, matchLength);
    LastBlock(g, m, avail, head);
    ParseIs(m.src.delivered, TuningOf(m), finds, was, g.buf.sent);
  }

  /** What deflate does when the input is used up. */
  method LastBlock(g: Coder, m: Matcher, avail: bool, ghost head: BitString)
    requires g.Ready() && HasRoom(g) && Separate(g, m) && ChainsReady(m) && m.lookahead == 0 && m.eofile
    requires Coded(g, m, Emitted(m.base + m.strstart, avail), head) && (avail ==> m.strstart >= 1)
    modifies g.Region()
    ensures g.Ready() && g.out.biValid == 0 && Complete(g.out.Stream(), head, m.src.delivered)
    ensures m.src.Valid() && m.Finished() && |m.src.delivered| == m.base + m.strstart
    ensures avail ==> 1 <= m.base + m.strstart
    ensures g.buf.sent == old(g.buf.sent + g.buf.tokens)
              + if avail then [Literal(m.src.delivered[m.base + m.strstart - 1])] else []
  {
    hide *;
    Consts();
    SeparateFacts(g, m);
    ReadyFacts(g, m);
    TablesFacts(m);
    ghost var input, p := m.src.delivered, m.base + m.strstart;
    FilledFacts(m, m.strstart);
    EndFacts(m);
    EmittedIs(p, avail);
    CodedFacts(g, m, Emitted(p, avail), head);
    if avail {
      InputByte(m.window[..], m.strstart, input, m.base, m.strstart - 1);
      var c := m.window[m.strstart - 1];
      ExpandLiteral(input, m.base + m.blockStart, p - 1, g.buf.tokens, c);
      TalliedIs(0, c);
      RoomIs(g);
      var _ := g.Tally(0, c, m.strstart - m.blockStart);
    }
    FlushHere(g, m, true, head);
    assert input[..p] == input;
  }

  /** A round and the refilling after it. */
  method NextRound(g: Coder, m: Matcher, wasAvail: bool, wasLength: nat, ghost head: BitString,
                   ghost wasFinds: seq<Find>)
    returns (avail: bool, matchLength: nat, ghost finds: seq<Find>)
    requires Deflating(g, m, wasAvail, wasLength, head) && m.lookahead != 0
      && (m.lookahead >= MIN_LOOKAHEAD || m.eofile)
    requires Traced(g, m, wasAvail, wasLength, wasFinds)
    modifies g.Region(), m, m.src, m.window, m.prev, m.head
    ensures Deflating(g, m, avail, matchLength, head) && (m.lookahead >= MIN_LOOKAHEAD || m.eofile)
    ensures m.base + m.strstart > old(m.base + m.strstart)
    ensures Traced(g, m, avail, matchLength, finds)
  {
    hide *;
    Consts();
    DeflatingFacts(g, m, wasAvail, wasLength, head);
    TablesFacts(m);
    FilledFacts(m, m.strstart + m.lookahead);
    TracedFacts(g, m, wasAvail, wasLength, wasFinds);
    LazyIs(g, m, wasAvail, wasLength);
    SeparateFacts(g, m);
    ReadyFacts(g, m);
    ghost var f, input, t := *, m.src.delivered, TuningOf(m);
    avail, matchLength, f := Round(g, m, wasAvail, wasLength, head);
    finds := wasFinds + [f];
    TraceStep(input, t, wasFinds, f);
    LazyIs(g, m, avail, matchLength);
    ghost var state := LazyOf(g, m, avail, matchLength);
    DeflatingFacts(g, m, avail, matchLength, head);
    TablesFacts(m);
    FilledFacts(m, m.strstart + m.lookahead);
    SeparateFacts(g, m);
    ReadyFacts(g, m);
    ghost var eof := m.eofile;
    Refill(g, m, avail, matchLength, head);
    if !eof {
      TraceGrows(input, m.src.delivered, t, finds);
    }
    LazyIs(g, m, avail, matchLength);
    IsTraced(g, m, avail, matchLength, finds);
  }

  lemma TraceBegins(g: Coder, m: Matcher)
    requires m.base == 0 && m.strstart == 0 && m.matchStart == 0 && g.buf.sent + g.buf.tokens == []
    ensures Traced(g, m, false, MIN_MATCH - 1, [])
  {
  }

  lemma TracedFacts(g: Coder, m: Matcher, avail: bool, matchLength: nat, finds: seq<Find>)
    requires Traced(g, m, avail, matchLength, finds)
    ensures m.base + m.strstart >= 0 && (m.base == 0 || m.strstart >= MAX_DIST)
    ensures Lawful(m.src.delivered, TuningOf(m), finds) && (m.eofile || Looked(m.src.delivered, finds))
    ensures LazyRun(m.src.delivered, finds) == LazyOf(g, m, avail, matchLength)
  {
    hide Lawful, LazyRun, Looked;
  }

  lemma IsTraced(g: Coder, m: Matcher, avail: bool, matchLength: nat, finds: seq<Find>)
    requires m.base + m.strstart >= 0 && (m.base == 0 || m.strstart >= MAX_DIST)
    requires Lawful(m.src.delivered, TuningOf(m), finds) && (m.eofile || Looked(m.src.delivered, finds))
    requires LazyRun(m.src.delivered, finds) == LazyOf(g, m, avail, matchLength)
    ensures Traced(g, m, avail, matchLength, finds)
  {
    hide Lawful, LazyRun, Looked;
  }

  lemma ParseIs(input: seq<byte>, t: Tuning, finds: seq<Find>, s: Lazy, ts: seq<Token>)
    requires Lawful(input, t, finds) && s == LazyRun(input, finds) && s.at == |input| && (s.avail ==> s.at >= 1)
    requires ts == s.tokens + if s.avail then [Literal(input[s.at - 1])] else []
    ensures LazyParse(input, t, finds, ts)
  {
    hide Lawful, LazyRun;
  }

  lemma EmittedIs(at: int, avail: bool)
    ensures Emitted(at, avail) == if avail then at - 1 else at
  {
  }

  lemma EndFacts(m: Matcher)
    requires m.Filled() && m.eofile
    ensures m.src.Valid() && m.Finished()
  {
  }

  lemma Progress(g: Coder, m: Matcher, avail: bool, matchLength: nat, head: BitString)
    requires Deflating(g, m, avail, matchLength, head)
    ensures m.base + m.strstart + m.lookahead <= |m.src.data|
  {
    hide Coder.Ready, HasRoom, Separate, Coded, Matcher.Linked, Matcher.Hashing, Pending;
    FilledFacts(m, m.strstart + m.lookahead);
  }

  /** No match is left pending at the end of the input. */
  lemma NoMatchLeft(m: Matcher, avail: bool, matchLength: nat)
    requires m.Filled() && m.lookahead == 0 && Pending(m, avail, matchLength)
    ensures matchLength < MIN_MATCH
  {
    FilledFacts(m, m.strstart);
  }
}
