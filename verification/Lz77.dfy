/** What the tokens stand for: expansion, true matches, and streams of blocks. */
module Lz77 {
  import opened Bits
  import opened Options
  import opened Tokens
  import opened BackCopy
  import opened Inflate
  import opened BlockFormat
  import opened Window

  /** The tokens of the block that starts at `blockAt` expand to the input up to `emitted`. */
  ghost predicate Expanded(input: seq<byte>, blockAt: int, emitted: int, ts: seq<Token>)
  {
    0 <= blockAt <= emitted <= |input| && ExpandTokens(input[..blockAt], ts) == Some(input[..emitted])
  }

  lemma NothingExpanded(input: seq<byte>, at: nat)
    requires at <= |input|
    ensures Expanded(input, at, at, [])
  {
  }

  lemma ExpandedGrows(input: seq<byte>, longer: seq<byte>, blockAt: int, emitted: int, ts: seq<Token>)
    requires Expanded(input, blockAt, emitted, ts) && input <= longer
    ensures Expanded(longer, blockAt, emitted, ts)
  {
    assert longer[..blockAt] == input[..blockAt] && longer[..emitted] == input[..emitted];
  }

  lemma {:induction false} ExpandLiteral(input: seq<byte>, blockAt: int, emitted: int, ts: seq<Token>, c: byte)
    requires Expanded(input, blockAt, emitted, ts) && emitted < |input| && c == input[emitted]
    ensures Expanded(input, blockAt, emitted + 1, ts + [Literal(c)])
  {
    assert (ts + [Literal(c)])[..|ts|] == ts;
    assert input[..emitted + 1] == input[..emitted] + [c];
  }

  /** The string at `m` is the same as the one at `p`, for `len` bytes. */
  ghost predicate TrueMatch(input: seq<byte>, p: int, m: int, len: nat)
  {
    0 <= m < p <= m + MAX_DIST && p + len <= |input| && forall k | 0 <= k < len :: Same(input, m, p, k)
  }

  lemma TrueMatchGrows(input: seq<byte>, longer: seq<byte>, p: int, m: int, len: nat)
    requires TrueMatch(input, p, m, len) && input <= longer
    ensures TrueMatch(longer, p, m, len)
  {
    forall k | 0 <= k < len ensures Same(longer, m, p, k) {
      assert Same(input, m, p, k);
    }
  }

  /** Copying a true match, overlapping or not, continues the input. */
  lemma {:induction false} CopyMatch(input: seq<byte>, p: nat, m: nat, len: nat)
    requires m < p && p + len <= |input| && forall k | 0 <= k < len :: Same(input, m, p, k)
    ensures Copy(input[..p], p - m, len) == input[..p + len]
    decreases len
  {
    if len > 0 {
      assert Same(input, m, p, 0);
      assert input[..p] + [input[..p][m]] == input[..p + 1];
      var p', m' := p + 1, m + 1;
      forall k | 0 <= k < len - 1 ensures Same(input, m', p', k) {
        assert Same(input, m, p, k + 1);
      }
      CopyMatch(input, p', m', len - 1);
    }
  }

  lemma {:induction false} ExpandMatch(input: seq<byte>, blockAt: int, emitted: int, ts: seq<Token>, m: int, len: nat)
    requires Expanded(input, blockAt, emitted, ts) && TrueMatch(input, emitted, m, len)
    ensures Expanded(input, blockAt, emitted + len, ts + [Match(len, emitted - m)])
  {
    hide Same, Copy;
    assert (ts + [Match(len, emitted - m)])[..|ts|] == ts;
    CopyMatch(input, emitted, m, len);
  }

  // ----- streams -----

  /** Whatever follows, the inflater gets through `s` and has then produced `out`. */
  ghost predicate Decodes(s: BitString, head: BitString, out: seq<byte>)
  {
    head <= s && forall rest: BitString :: InflateFrom(s + rest, |head|, []) == InflateFrom(s + rest, |s|, out)
  }

  lemma NothingDecoded(s: BitString)
    ensures Decodes(s, s, [])
  {
  }

  lemma {:induction false} BlockAppended(s: BitString, b: Block, final: bool, rest: BitString)
    requires ValidBlock(b)
    ensures var all := s + (BlockBits(b, final, |s|) + rest);
            ReadBlock(all, |s|) == Some((final, ContentOf(b), |s| + |BlockBits(b, final, |s|)|))
  {
    hide BlockBits, ReadBlock, ValidBlock;
    var w := BlockBits(b, final, |s|);
    var all := s + (w + rest);
    assert all[|s|..|s| + |w|] == w;
    ReadBlockWritten(all, |s|, b, final);
  }

  /** A block that is not the last one. */
  lemma {:induction false} DecodesBlock(s: BitString, head: BitString, out: seq<byte>, b: Block, next: seq<byte>)
    requires Decodes(s, head, out) && ValidBlock(b) && Unpack(out, ContentOf(b)) == Some(next)
    ensures Decodes(s + BlockBits(b, false, |s|), head, next)
  {
    hide BlockBits, ReadBlock, ValidBlock, Unpack;
    var w := BlockBits(b, false, |s|);
    forall rest: BitString ensures InflateFrom(s + w + rest, |head|, []) == InflateFrom(s + w + rest, |s + w|, next) {
      assert s + w + rest == s + (w + rest);
      BlockAppended(s, b, false, rest);
    }
  }

  /** The last block. */
  lemma {:induction false} DecodesFinal(s: BitString, head: BitString, out: seq<byte>, b: Block, next: seq<byte>,
                                        rest: BitString)
    requires Decodes(s, head, out) && ValidBlock(b) && Unpack(out, ContentOf(b)) == Some(next)
    ensures var w := BlockBits(b, true, |s|); InflateFrom(s + w + rest, |head|, []) == Some((next, |s + w|))
  {
    hide BlockBits, ReadBlock, ValidBlock, Unpack;
    var w := BlockBits(b, true, |s|);
    assert s + w + rest == s + (w + rest);
    BlockAppended(s, b, true, rest);
  }
}
