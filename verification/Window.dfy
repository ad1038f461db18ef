/** The sliding window: reading, inserting strings and finding matches. */
module Window {
  import opened Bits
  import opened Crc32
  import opened Tokens
  import opened HashKeys
  import opened HashChains

  const MIN_LOOKAHEAD := MAX_MATCH + MIN_MATCH + 1
  const MAX_DIST := WSIZE - MIN_LOOKAHEAD
  const WINDOW_SIZE := 2 * WSIZE

  lemma SizeStep(d: nat, n: nat)
    ensures (d % 0x1_0000_0000 + n) % 0x1_0000_0000 == (d + n) % 0x1_0000_0000
  {
  }

  /** The input. The n-th read delivers at most `pace(n)` bytes, and fails if
      that is not positive. */
  class Source {
    const data: seq<byte>
    const pace: nat -> int
    const crcTable: seq<word>
    var calls: nat
    var crc: word
    var isize: word
    /** What has been read so far. */
    ghost var delivered: seq<byte>
    var rest: seq<byte>

    ghost predicate Valid()
      reads this
    {
      && delivered + rest == data
      && IsTable(crcTable) && crc == Register(0xffff_ffff, BytesToBits(delivered))
      && isize == |delivered| % 0x1_0000_0000
    }

    constructor (data: seq<byte>, pace: nat -> int, crcTable: seq<word>)
      requires IsTable(crcTable)
      ensures Valid() && this.data == data && this.pace == pace && delivered == []
    {
      this.data, this.pace, this.crcTable := data, pace, crcTable;
      calls, crc, isize, delivered, rest := 0, 0xffff_ffff, 0, [], data;
    }

    /** updcrc */
    method UpdCrc(buf: array<byte>, at: nat, n: nat)
      requires at + n <= buf.Length && IsTable(crcTable)
      modifies `crc
      ensures crc == Register(old(crc), BytesToBits(buf[at..at + n]))
    {
      crc := BlockCrc(crc, buf, at, n, crcTable);
    }

    /** file_read: the number of bytes read, 0 at the end or -1 on failure. */
    method Read(buf: array<byte>, at: nat, size: nat) returns (n: int)
      requires Valid() && at + size <= buf.Length && size > 0
      modifies this, buf
      ensures Valid() && -1 <= n <= size
      ensures n <= 0 ==> delivered == old(delivered) && (n == 0 ==> rest == []) && (n == -1 ==> pace(old(calls)) <= 0)
      ensures n > 0 ==> delivered == old(delivered) + buf[at..at + n]
      ensures forall i | 0 <= i < at :: buf[i] == old(buf[i])
    {
      hide Register, BytesToBits, IsTable;
      var want := pace(calls);
      calls := calls + 1;
      if want <= 0 {
        return -1;
      }
      n := if want < size then want else size;
      n := if n < |rest| then n else |rest|;
      forall i | 0 <= i < n {
        buf[at + i] := rest[i];
      }
      ghost var new_ := rest[..n];
      assert buf[at..at + n] == new_;
      BytesToBitsConcat(delivered, new_);
      RegisterConcat(0xffff_ffff, BytesToBits(delivered), BytesToBits(new_));
      UpdCrc(buf, at, n);
      SizeStep(|delivered|, n);
      isize := (isize + n) % 0x1_0000_0000;
      delivered := delivered + new_;
      rest := rest[n..];
    }
  }

  /** The first `end` bytes of the window are the input from `base` on. */
  ghost predicate Holds(w: seq<byte>, end: nat, input: seq<byte>, base: nat)
  {
    && end <= |w| && base + end == |input|
    && forall i | 0 <= i < end :: w[i] == input[base + i]
  }

  lemma HoldsEnd(w: seq<byte>, end: nat, input: seq<byte>, base: nat)
    requires Holds(w, end, input, base)
    ensures base + end == |input| && end <= |w|
  {
  }

  lemma HoldsMore(w: seq<byte>, w': seq<byte>, end: nat, n: nat, input: seq<byte>, base: nat)
    requires Holds(w, end, input, base) && end + n <= |w'| && |w| == |w'| && forall i | 0 <= i < end :: w[i] == w'[i]
    ensures Holds(w', end + n, input + w'[end..end + n], base)
  {
  }

  /** The window, the keys and the running hash stay right when more input is read. */
  lemma {:induction false} InputGrows(w: seq<byte>, w': seq<byte>, end: nat, n: nat, input: seq<byte>, base: nat,
                                      keys: seq<nat>, h: nat, bits: nat)
    requires Holds(w, end, input, base) && end + n <= |w'| && |w| == |w'| && forall i | 0 <= i < end :: w[i] == w'[i]
    requires Keyed(keys, input, bits) && (keys == [] || |keys| + 2 <= |input|)
    ensures var longer := input + w'[end..end + n];
            && Holds(w', end + n, longer, base) && Keyed(keys, longer, bits)
            && (Rolling(h, input, |keys|, bits) && |keys| + 2 <= |input| ==> Rolling(h, longer, |keys|, bits))
  {
    hide Holds, Keyed, Rolling;
    var new_ := w'[end..end + n];
    HoldsMore(w, w', end, n, input, base);
    KeyedGrows(keys, input, new_, bits);
    if Rolling(h, input, |keys|, bits) && |keys| + 2 <= |input| {
      RollingGrows(h, input, new_, |keys|, bits);
    }
  }

  lemma HoldsSlid(w: seq<byte>, w': seq<byte>, end: nat, input: seq<byte>, base: nat)
    requires Holds(w, end, input, base) && WSIZE <= end <= 2 * WSIZE <= |w| == |w'|
    requires forall i | 0 <= i < WSIZE :: w'[i] == w[WSIZE + i]
    ensures Holds(w', end - WSIZE, input, base + WSIZE)
  {
  }

  /** The compressor's view of its input: window, hash chains and positions.
      The window is followed by bytes that may be looked at but do not matter. */
  class Matcher {
    const window: array<byte>
    const prev: array<ush>
    const head: array<ush>
    const hashBits: nat
    const maxChainLength: nat
    const maxLazyMatch: nat
    const goodMatch: nat
    const niceMatch: nat
    const src: Source
    var insH: nat
    var strstart: nat
    var lookahead: nat
    var prevLength: nat
    var matchStart: int
    var blockStart: int
    var eofile: bool
    /** The place of window[0] in the input. */
    ghost var base: nat
    /** The hash key of every string inserted so far. */
    ghost var keys: seq<nat>

    ghost predicate Sized()
    {
      && window.Length == WINDOW_SIZE + MAX_MATCH && prev.Length == WSIZE
      && 13 <= hashBits <= 15 && head.Length == Pow2(hashBits)
      && prev != head && window as object !in {prev as object, head as object}
    }

    ghost function Arrays(): (s: set<object>)
    {
      {window as object, prev as object, head as object}
    }

    /** A new file: head[] is cleared, prev[] and the window hold anything. */
    constructor (src: Source, hashBits: nat, maxChainLength: nat, maxLazyMatch: nat, goodMatch: nat, niceMatch: nat)
      requires src.Valid() && src.delivered == [] && 13 <= hashBits <= 15
      ensures Sized() && Filled() && Linked() && fresh(Arrays()) && allocated(Arrays())
      ensures this.src == src && this.hashBits == hashBits && base == 0 && keys == []
      ensures strstart == 0 && lookahead == 0 && blockStart == 0 && matchStart == 0 && !eofile && insH == 0
      ensures this.maxChainLength == maxChainLength && this.maxLazyMatch == maxLazyMatch
      ensures this.goodMatch == goodMatch && this.niceMatch == niceMatch
    {
      this.src, this.hashBits, this.maxChainLength, this.maxLazyMatch := src, hashBits, maxChainLength, maxLazyMatch;
      this.goodMatch, this.niceMatch := goodMatch, niceMatch;
      window := new byte[WINDOW_SIZE + MAX_MATCH];
      prev := new ush[WSIZE];
      head := new ush[Pow2(hashBits)](_ => 0);
      insH, strstart, lookahead, prevLength, matchStart, blockStart, eofile := 0, 0, 0, 0, 0, 0, false;
      base, keys := 0, [];
    }

    /** The window holds the input from `base` up to the end of the lookahead. */
    ghost predicate Filled()
      reads `base, `strstart, `lookahead, `eofile, window, src
    {
      FilledTo(strstart + lookahead)
    }

    ghost predicate FilledTo(end: nat)
      reads `base, `eofile, window, src
    {
      && src.Valid() && end <= WINDOW_SIZE
      && Holds(window[..], end, src.delivered, base)
      && (eofile ==> end <= WINDOW_SIZE - 2 && Finished())
    }

    /** The input is exhausted, or a read failed. */
    ghost predicate Finished()
      reads src
    {
      src.rest == [] || exists k: nat :: src.pace(k) <= 0
    }

    ghost predicate Linked()
      reads `base, `keys, prev, head, src
    {
      && Heads(head[..], keys, base) && Links(prev[..], keys, base)
      && Keyed(keys, src.delivered, hashBits)
    }

    ghost predicate Hashing()
      reads `insH, `keys, src
    {
      Rolling(insH, src.delivered, |keys|, hashBits)
    }

    /** INSERT_STRING. The result is the most recent string with the same key, or 0.
        The input in the window ends at `end`; the bytes after it may be anything. */
    method InsertString(s: nat, ghost end: nat) returns (matchHead: nat)
      requires Sized() && Holds(window[..], end, src.delivered, base) && Linked() && Hashing() && |keys| == base + s
        && s < WINDOW_SIZE
      modifies `insH, `keys, prev, head
      ensures Linked() && Hashing() && |keys| == base + s + 1 && keys[..base + s] == old(keys)
      ensures matchHead != 0 ==> SameKey(keys, base, matchHead, s)
      ensures keys[base + s] == insH < head.Length && matchHead == old(head[..])[insH]
      ensures head[..] == old(head[..])[insH := s] && prev[..] == old(prev[..])[s % WSIZE := matchHead]
    {
      hide UpdateHash, Hash3, Heads, Links, Keyed, Rolling, SameKey, Source.Valid, Finished, Pow2;
      ghost var input, p := src.delivered, base + s;
      var c := window[s + MIN_MATCH - 1];
      assert p + 2 < |input| ==> c == input[p + 2];
      RollingStep(insH, input, p, hashBits, c);
      insH := UpdateHash(insH, c, hashBits);
      InsertKeeps(head[..], prev[..], keys, base, s, insH);
      KeyedStep(keys, input, hashBits, insH);
      ghost var h: seq<nat>, q: seq<nat> := head[..], prev[..];
      matchHead := head[insH];
      prev[s % WSIZE] := matchHead;
      head[insH] := s;
      keys := keys + [insH];
      assert head[..] == h[insH := s] && prev[..] == q[s % WSIZE := matchHead];
    }

    /** The part of fill_window that moves the upper half of the window to the lower one. */
    method Slide()
      requires Sized() && Filled() && Linked() && |keys| == base + strstart && strstart >= WSIZE
      modifies `base, `matchStart, `strstart, `blockStart, window, prev, head
      ensures Filled() && Linked() && |keys| == base + strstart
      ensures base == old(base) + WSIZE && strstart == old(strstart) - WSIZE && (old(Hashing()) ==> Hashing())
      ensures matchStart == old(matchStart) - WSIZE && blockStart == old(blockStart) - WSIZE
    {
      hide Heads, Links, Keyed, Source.Valid, Finished, Pow2, Slid, Holds;
      ghost var h, q, w := head[..], prev[..], window[..];
      SlideKeeps(h, q, keys, base);
      forall i | 0 <= i < WSIZE {
        window[i] := window[WSIZE + i];
      }
      assert head[..] == h;
      SlideArray(head);
      assert prev[..] == q;
      SlideArray(prev);
      assert head[..] == SlidAll(h);
      matchStart, strstart, blockStart := matchStart - WSIZE, strstart - WSIZE, blockStart - WSIZE;
      base := base + WSIZE;
      HoldsSlid(w, window[..], old(strstart) + lookahead, src.delivered, old(base));
    }

    /** The loops over head[] and prev[] in fill_window. */
    method SlideArray(a: array<ush>)
      modifies a
      ensures a[..] == SlidAll(old(a[..]))
    {
      for n := 0 to a.Length
        invariant forall i | 0 <= i < n :: a[i] == Slid(old(a[i]))
        invariant forall i | n <= i < a.Length :: a[i] == old(a[i])
      {
        var m := a[n];
        a[n] := if m >= WSIZE then m - WSIZE else 0;
      }
    }

    /** The part of fill_window that reads. */
    method ReadMore(more: nat)
      requires Sized() && Filled() && Linked() && |keys| == base + strstart && (keys == [] || lookahead >= 2)
      requires strstart + lookahead + more == WINDOW_SIZE && more >= 2 && !eofile
      modifies `lookahead, `eofile, src, window
      ensures Filled() && Linked() && old(src.delivered) <= src.delivered
      ensures if eofile then lookahead == old(lookahead) else lookahead > old(lookahead)
      ensures old(Hashing()) && old(lookahead) >= 2 ==> Hashing()
    {
      hide Heads, Links, Keyed, Rolling, Source.Valid, Pow2, Holds;
      ghost var input, w, end := src.delivered, window[..], strstart + lookahead;
      HoldsEnd(w, end, input, base);
      var n := src.Read(window, strstart + lookahead, more);
      InputGrows(w, window[..], end, if n <= 0 then 0 else n, input, base, keys, insH, hashBits);
      if n <= 0 {
        assert input + window[..][end..end] == input;
        eofile := true;
      } else {
        assert window[end..end + n] == window[..][end..end + n];
        lookahead := lookahead + n;
      }
    }

    /** fill_window. The free space never comes out negative, so its first test never holds. */
    method FillWindow()
      requires Sized() && Filled() && Linked() && |keys| == base + strstart && (keys == [] || lookahead >= 2 || eofile)
      requires lookahead < MIN_LOOKAHEAD
      modifies this, src, window, prev, head
      ensures Filled() && Linked() && |keys| == base + strstart && keys == old(keys)
      ensures old(src.delivered) <= src.delivered && base + strstart == old(base + strstart)
      ensures base + matchStart == old(base + matchStart) && base + blockStart == old(base + blockStart)
      ensures lookahead >= old(lookahead) && (eofile || lookahead > old(lookahead)) && (old(eofile) ==> eofile)
      ensures strstart == old(strstart) || strstart >= MAX_DIST
      ensures old(Hashing()) && old(lookahead >= 2 || eofile) ==> Hashing()
      ensures insH == old(insH) && prevLength == old(prevLength)
    {
      hide Filled, Linked, Hashing, Pow2;
      FilledRoom();
      var more := WINDOW_SIZE - lookahead - strstart;
      if strstart >= WSIZE + MAX_DIST {
        Slide();
        more := more + WSIZE;
      }
      if !eofile {
        ReadMore(more);
      }
    }

    lemma FilledRoom()
      requires Filled()
      ensures strstart + lookahead <= WINDOW_SIZE && base + strstart + lookahead == |src.delivered|
    {
    }

    /** fill_window_if_needed */
    method FillWindowIfNeeded()
      requires Sized() && Filled() && Linked() && |keys| == base + strstart && (keys == [] || lookahead >= 2 || eofile)
      modifies this, src, window, prev, head
      ensures Filled() && Linked() && |keys| == base + strstart && keys == old(keys)
      ensures old(src.delivered) <= src.delivered && base + strstart == old(base + strstart)
      ensures base + matchStart == old(base + matchStart) && base + blockStart == old(base + blockStart)
      ensures lookahead >= old(lookahead) && (lookahead >= MIN_LOOKAHEAD || eofile)
      ensures old(eofile) ==> eofile && lookahead == old(lookahead)
      ensures strstart == old(strstart) || strstart >= MAX_DIST
      ensures old(Hashing()) && old(lookahead >= 2 || eofile) ==> Hashing()
      ensures insH == old(insH) && prevLength == old(prevLength)
    {
      hide Filled, Linked, Hashing, Pow2;
      while lookahead < MIN_LOOKAHEAD && !eofile
        invariant Filled() && Linked() && |keys| == base + strstart && keys == old(keys)
        invariant old(src.delivered) <= src.delivered && base + strstart == old(base + strstart)
        invariant base + matchStart == old(base + matchStart) && base + blockStart == old(base + blockStart)
        invariant lookahead >= old(lookahead) && (old(eofile) ==> eofile && lookahead == old(lookahead))
        invariant strstart == old(strstart) || strstart >= MAX_DIST
        invariant old(Hashing()) && old(lookahead >= 2 || eofile) ==> Hashing()
        invariant insH == old(insH) && prevLength == old(prevLength)
        decreases !eofile, MIN_LOOKAHEAD - lookahead
      {
        FillWindow();
      }
    }

    /** lm_init */
    method LmInit()
      requires Sized() && Filled() && Linked() && keys == [] && base == 0 && strstart == 0 && lookahead == 0
        && insH == 0 && !eofile
      modifies this, src, window, prev, head
      ensures Filled() && Linked() && Hashing() && keys == [] && base == 0 && strstart == 0
        && blockStart == old(blockStart) && matchStart == old(matchStart)
      ensures lookahead >= MIN_LOOKAHEAD || eofile
    {
      hide UpdateHash, Heads, Links, Keyed, Source.Valid, Finished, Pow2;
      ReadMore(2 * WSIZE);
      if eofile {
        FilledRoom();
        NoneHashed(insH, src.delivered, hashBits);
        return;
      }
      FillWindowIfNeeded();
      for j := 0 to MIN_MATCH - 1
        invariant Filled() && Linked() && keys == [] && base == 0 && strstart == 0 && blockStart == old(blockStart)
        invariant matchStart == old(matchStart)
        invariant lookahead >= MIN_LOOKAHEAD || eofile
        invariant insH == if j == 0 then 0 else if j == 1 then UpdateHash(0, window[0], hashBits)
                          else UpdateHash(UpdateHash(0, window[0], hashBits), window[1], hashBits)
      {
        insH := UpdateHash(insH, window[j], hashBits);
      }
    }

    /** The comparison loop of longest_match: how far the strings agree from their
        fourth byte on. The end of the longest match is looked for only after
        every eighth comparison. */
    method AgreeFrom3(cur: nat) returns (len: nat)
      requires Sized() && cur < strstart < WINDOW_SIZE
      ensures MIN_MATCH <= len <= MAX_MATCH && forall k | 3 <= k < len :: Same(window[..], cur, strstart, k)
      ensures len < MAX_MATCH ==> !Same(window[..], cur, strstart, len)
    {
      hide Same, Pow2;
      ghost var w := window[..];
      len := 2;
      var equal := true;
      while equal && len < MAX_MATCH
        invariant 2 <= len <= MAX_MATCH && (equal ==> len % 8 == 2) && (!equal ==> len >= 3)
        invariant forall k | 3 <= k < len :: Same(w, cur, strstart, k)
        invariant equal && len >= 3 ==> Same(w, cur, strstart, len)
        invariant !equal && len < MAX_MATCH ==> !Same(w, cur, strstart, len)
        decreases equal, MAX_MATCH - len
      {
        var n, start := 0, len;
        while n < 8 && equal
          invariant n <= 8 && len == start + n && (n == 0 ==> equal)
          invariant forall k | 3 <= k < len :: Same(w, cur, strstart, k)
          invariant equal && len >= 3 ==> Same(w, cur, strstart, len)
          invariant !equal && len < MAX_MATCH ==> !Same(w, cur, strstart, len)
          decreases 8 - n
        {
          len := len + 1;
          SameIs(w, cur, strstart, len);
          equal := window[strstart + len] == window[cur + len];
          n := n + 1;
        }
      }
    }

    /** One candidate of longest_match: takes it if it is longer than the best so far. */
    method TryCandidate(cur: nat, best: nat) returns (bestLen: nat)
      requires Sized() && cur < strstart < WINDOW_SIZE && 1 <= best <= MAX_MATCH
      modifies `matchStart
      ensures best <= bestLen <= MAX_MATCH && NotLonger(window[..], cur, strstart, bestLen)
      ensures bestLen == best ==> matchStart == old(matchStart)
      ensures bestLen > best ==> matchStart == cur && bestLen >= MIN_MATCH && Agree(window[..], cur, strstart, bestLen)
    {
      hide Same, Pow2;
      ghost var w := window[..];
      bestLen := best;
      SameIs(w, cur, strstart, best);
      SameIs(w, cur, strstart, best - 1);
      SameIs(w, cur, strstart, 0);
      SameIs(w, cur, strstart, 1);
      if window[cur + best] != window[strstart + best] || window[cur + best - 1] != window[strstart + best - 1]
        || window[cur] != window[strstart] || window[cur + 1] != window[strstart + 1] {
        return;
      }
      var len := AgreeFrom3(cur);
      if len > best {
        matchStart, bestLen := cur, len;
      }
    }

    /** A string within reach that has the key of the current one. */
    ghost predicate InReach(m: int)
      reads `base, `keys, `strstart
    {
      m >= 0 && SameKey(keys, base, m, strstart) && strstart - m <= MAX_DIST
    }

    /** longest_match. No candidate among the `visited` first ones is longer than the result; the search ends at the
        end of the chain, with a match that is long enough, or after max_chain_length candidates, a quarter of them
        if the match to beat is good. Counting down from 0 wraps around. */
    method LongestMatch(hashHead: nat) returns (bestLen: nat, ghost visited: nat)
      requires Sized() && Linked() && |keys| == base + strstart + 1 && strstart < WINDOW_SIZE
      requires InReach(hashHead) && 1 <= prevLength <= MAX_MATCH
      modifies `matchStart
      ensures prevLength <= bestLen <= MAX_MATCH
      ensures bestLen == prevLength ==> matchStart == old(matchStart)
      ensures bestLen > prevLength ==>
        InReach(matchStart) && bestLen >= MIN_MATCH && Agree(window[..], matchStart, strstart, bestLen)
      ensures var all := Candidates(prev[..], hashHead, if strstart > MAX_DIST then strstart - MAX_DIST else 0);
        && 0 < visited <= |all| && NoneLonger(window[..], all[..visited], strstart, bestLen)
        && (|| visited == |all| || (bestLen > prevLength && bestLen >= niceMatch)
            || Tried(if prevLength >= goodMatch then maxChainLength / 4 else maxChainLength, visited))
    {
      hide *;
      MaxDist();
      var limit := if strstart > MAX_DIST then strstart - MAX_DIST else 0;
      var chainLength := maxChainLength;
      if prevLength >= goodMatch {
        chainLength := chainLength / 4;
      }
      TriedIs(chainLength);
      bestLen, visited := WalkChain(hashHead, limit, if chainLength == 0 then 0x1_0000_0000 else chainLength);
    }

    /** The loop of longest_match. */
    method WalkChain(hashHead: nat, limit: nat, chainLength0: nat) returns (bestLen: nat, ghost visited: nat)
      requires Sized() && Linked() && |keys| == base + strstart + 1 && strstart < WINDOW_SIZE
      requires InReach(hashHead) && 1 <= prevLength <= MAX_MATCH && chainLength0 > 0 && strstart <= limit + MAX_DIST
      modifies `matchStart
      ensures prevLength <= bestLen <= MAX_MATCH
      ensures bestLen == prevLength ==> matchStart == old(matchStart)
      ensures bestLen > prevLength ==>
        InReach(matchStart) && bestLen >= MIN_MATCH && Agree(window[..], matchStart, strstart, bestLen)
      ensures 0 < visited <= |Candidates(prev[..], hashHead, limit)|
      ensures NoneLonger(window[..], Candidates(prev[..], hashHead, limit)[..visited], strstart, bestLen)
      ensures || visited == |Candidates(prev[..], hashHead, limit)| || visited == chainLength0
              || (bestLen > prevLength && bestLen >= niceMatch)
    {
      hide Pow2, SameKey, Agree, NoneLonger, Heads, Links, Keyed, Link, Chain;
      ghost var q, all := prev[..], Candidates(prev[..], hashHead, limit);
      var cur, chainLength := hashHead, chainLength0;
      bestLen, visited := prevLength, 0;
      NoneYet(window[..], strstart, bestLen);
      while true
        invariant InReach(cur) && prevLength <= bestLen <= MAX_MATCH && chainLength > 0
          && chainLength + visited == chainLength0
        invariant visited < |all| && all[visited..] == [cur] + Chain(q, Link(q, cur), limit)
        invariant bestLen == prevLength ==> matchStart == old(matchStart)
        invariant bestLen > prevLength ==>
          InReach(matchStart) && bestLen >= MIN_MATCH && Agree(window[..], matchStart, strstart, bestLen)
        invariant NoneLonger(window[..], all[..visited], strstart, bestLen)
        decreases cur
      {
        KeyBelow(keys, base, cur, strstart);
        var was := bestLen;
        bestLen := TryCandidate(cur, was);
        assert all[..visited + 1] == all[..visited] + [cur];
        OneMoreNotLonger(window[..], all[..visited], cur, strstart, was, bestLen);
        visited := visited + 1;
        if bestLen > was && bestLen >= niceMatch {
          return;
        }
        NextLink(q, keys, base, cur, strstart, limit);
        assert all[visited..] == Chain(q, Link(q, cur), limit);
        var next := prev[cur % WSIZE];
        LinkIs(q, cur);
        if next <= limit {
          return;
        }
        cur := next;
        chainLength := chainLength - 1;
        if chainLength == 0 {
          return;
        }
      }
    }
  }

  lemma MaxDist()
    ensures MAX_DIST == 32506
  {
  }

  lemma TriedIs(chainLength: nat)
    ensures Tried(chainLength, if chainLength == 0 then 0x1_0000_0000 else chainLength)
  {
  }

  /** `n` candidates use up the chain length. */
  predicate Tried(chainLength: nat, n: nat)
  {
    n == if chainLength == 0 then 0x1_0000_0000 else chainLength
  }

  /** The strings at `a` and `b` agree on `len` bytes, the third one left aside. */
  ghost predicate Agree(w: seq<byte>, a: nat, b: nat, len: nat)
  {
    forall k | 0 <= k < len && k != 2 :: Same(w, a, b, k)
  }

  ghost predicate NotLonger(w: seq<byte>, m: nat, s: nat, len: nat)
  {
    len >= MAX_MATCH || exists k | 0 <= k <= len :: !Same(w, m, s, k)
  }

  ghost predicate NoneLonger(w: seq<byte>, ms: seq<nat>, s: nat, len: nat)
  {
    forall m | m in ms :: NotLonger(w, m, s, len)
  }

  lemma NoneYet(w: seq<byte>, s: nat, len: nat)
    ensures NoneLonger(w, [], s, len)
  {
  }

  lemma OneMoreNotLonger(w: seq<byte>, ms: seq<nat>, m: nat, s: nat, was: nat, len: nat)
    requires NoneLonger(w, ms, s, was) && was <= len && NotLonger(w, m, s, len)
    ensures NoneLonger(w, ms + [m], s, len)
  {
    hide Same;
    forall n | n in ms + [m] ensures NotLonger(w, n, s, len) {
      if n != m {
        assert NotLonger(w, n, s, was);
      }
    }
  }

  lemma KeyBelow(keys: seq<nat>, base: nat, m: nat, s: nat)
    requires SameKey(keys, base, m, s)
    ensures m < s
  {
  }

  lemma LinkIs(prev: seq<nat>, s: nat)
    requires |prev| == WSIZE
    ensures Link(prev, s) == prev[s % WSIZE]
  {
  }

  /** The next string on the chain, while it is in reach. */
  lemma NextLink(prev: seq<nat>, keys: seq<nat>, base: nat, m: nat, s: nat, limit: nat)
    requires Links(prev, keys, base) && SameKey(keys, base, m, s) && |keys| == base + s + 1
    requires s - m <= MAX_DIST && s - limit <= MAX_DIST
    ensures Link(prev, m) <= limit ==> Chain(prev, Link(prev, m), limit) == []
    ensures Link(prev, m) > limit ==>
              && SameKey(keys, base, Link(prev, m), s) && s - Link(prev, m) <= MAX_DIST && Link(prev, m) < m
              && Chain(prev, Link(prev, m), limit) == [Link(prev, m)] + Chain(prev, Link(prev, Link(prev, m)), limit)
  {
    hide Link;
    var n := Link(prev, m);
    if n > limit {
      assert LinkLatest(prev, keys, base, m);
      assert LinkLatest(prev, keys, base, n);
    }
  }

  /** The strings at `a` and `b` agree on byte `k`. */
  predicate Same(w: seq<byte>, a: nat, b: nat, k: nat)
  {
    a + k < |w| && b + k < |w| && w[a + k] == w[b + k]
  }

  lemma SameIs(w: seq<byte>, a: nat, b: nat, k: nat)
    requires a + k < |w| && b + k < |w|
    ensures Same(w, a, b, k) <==> w[a + k] == w[b + k]
  {
  }

  lemma NoneHashed(h: nat, input: seq<byte>, bits: nat)
    requires |input| < 2
    ensures Rolling(h, input, 0, bits)
  {
  }
}
