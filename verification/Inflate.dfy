/** A reference inflater: sections 3.2.3 to 3.2.7 of RFC 1951 read as functions. */
module Inflate {
  import opened Bits
  import opened Canonical
  import opened Options
  import opened CodeLengths
  import opened Tokens
  import opened BackCopy

  /** bl_order: the order in which the lengths of the code length code come. */
  const BL_ORDER: seq<nat> := [16, 17, 18, 0, 8, 7, 9, 6, 10, 5, 11, 4, 12, 3, 13, 2, 14, 1, 15]
  /** Where each code length symbol stands in that order. */
  const BL_RANK: seq<nat> := [3, 17, 15, 13, 11, 9, 7, 5, 4, 6, 8, 10, 12, 14, 16, 18, 0, 1, 2]

  function BlOrder(rank: nat): (s: nat)
    requires rank < BL_CODES
    ensures s < BL_CODES
  {
    BL_ORDER[rank]
  }

  function BlRank(s: nat): (rank: nat)
    requires s < BL_CODES
    ensures rank < BL_CODES
  {
    BL_RANK[s]
  }

  lemma {:induction false} BlOrderInverse(s: nat)
    requires s < BL_CODES
    ensures BlOrder(BlRank(s)) == s
  {
  }

  /** The lengths of the fixed literal/length code (section 3.2.6). */
  function FixedLitLens(): (lens: seq<nat>)
    ensures |lens| == 288
  {
    seq(288, i requires 0 <= i => if i <= 143 then 8 else if i <= 255 then 9 else if i <= 279 then 7 else 8)
  }

  function FixedDistLens(): (lens: seq<nat>)
    ensures |lens| == 30
  {
    seq(30, i requires 0 <= i => 5)
  }

  /** What a block holds. */
  datatype Content = Raw(data: seq<byte>) | Coded(tokens: seq<Token>)

  // ----- reading -----

  function NextByte(pos: nat): (p: nat)
    ensures p >= pos
  {
    if pos % 8 == 0 then pos else pos + 8 - pos % 8
  }

  /** `n` whole bytes from bit `pos`. */
  function ReadBytes(bits: BitString, pos: nat, n: nat): (s: Option<seq<byte>>)
    ensures s.Some? ==> pos + 8 * n <= |bits|
    decreases n
  {
    if n == 0 then if pos <= |bits| then Some([]) else None
    else
      var b := ReadBits(bits, pos, 8);
      if b.None? || b.value >= 256 then None
      else
        var rest := ReadBytes(bits, pos + 8, n - 1);
        if rest.None? then None else Some([b.value as byte] + rest.value)
  }

  function ReadStored(bits: BitString, pos: nat): (r: Option<(Content, nat)>)
    ensures r.Some? ==> pos <= r.value.1 <= |bits|
  {
    var p := NextByte(pos);
    var len, nlen := ReadBits(bits, p, 16), ReadBits(bits, p + 16, 16);
    if len.None? || nlen.None? || len.value + nlen.value != 0xffff then None
    else
      var data := ReadBytes(bits, p + 32, len.value);
      if data.None? then None else Some((Raw(data.value), p + 32 + 8 * len.value))
  }

  function ReadCoded(ll: seq<nat>, dd: seq<nat>, bits: BitString, pos: nat): (r: Option<(Content, nat)>)
    requires pos <= |bits|
    ensures r.Some? ==> pos <= r.value.1 <= |bits|
  {
    var ts := ReadTokens(ll, dd, bits, pos);
    if ts.None? then None else Some((Coded(ts.value.0), ts.value.1))
  }

  /** `n` lengths of three bits each. */
  function ReadBlLens(bits: BitString, pos: nat, n: nat): (s: Option<seq<nat>>)
    ensures s.Some? ==> |s.value| == n && pos + 3 * n <= |bits|
    decreases n
  {
    if n == 0 then if pos <= |bits| then Some([]) else None
    else
      var l := ReadBits(bits, pos, 3);
      if l.None? then None
      else
        var rest := ReadBlLens(bits, pos + 3, n - 1);
        if rest.None? then None else Some([l.value] + rest.value)
  }

  /** The lengths that were sent, put back in symbol order. */
  function Unpermute(sent: seq<nat>): (bl: seq<nat>)
    ensures |bl| == BL_CODES
  {
    seq(BL_CODES, s requires 0 <= s < BL_CODES => if BlRank(s) < |sent| then sent[BlRank(s)] else 0)
  }

  /** Code lengths until there are `want` of them. */
  function ReadLens(bl: seq<nat>, bits: BitString, pos: nat, want: nat, acc: seq<nat>): (r: Option<(seq<nat>, nat)>)
    requires pos <= |bits|
    ensures r.Some? ==> pos <= r.value.1 <= |bits| && |r.value.0| == want
    decreases |bits| - pos
  {
    if |acc| >= want then
      if |acc| == want then Some((acc, pos)) else None
    else
      var s := ReadSymbol(bl, bits, pos);
      if s.None? then None
      else
        var p := pos + bl[s.value];
        var x := ReadBits(bits, p, ExtraBits(s.value));
        if x.None? then None
        else
          var next := Expand(RunOf(s.value, x.value), acc);
          if next.None? then None
          else ReadLens(bl, bits, p + ExtraBits(s.value), want, next.value)
  }

  function ReadDynamic(bits: BitString, pos: nat): (r: Option<(Content, nat)>)
    ensures r.Some? ==> pos <= r.value.1 <= |bits|
  {
    var hlit, hdist, hclen := ReadBits(bits, pos, 5), ReadBits(bits, pos + 5, 5), ReadBits(bits, pos + 10, 4);
    if hlit.None? || hdist.None? || hclen.None? then None
    else
      var nl, nd, nb := hlit.value + 257, hdist.value + 1, hclen.value + 4;
      var sent := ReadBlLens(bits, pos + 14, nb);
      if sent.None? then None
      else
        var lens := ReadLens(Unpermute(sent.value), bits, pos + 14 + 3 * nb, nl + nd, []);
        if lens.None? then None
        else ReadCoded(lens.value.0[..nl], lens.value.0[nl..], bits, lens.value.1)
  }

  /** One block: whether it is the last one, what it holds and where it ends. */
  function ReadBlock(bits: BitString, pos: nat): (r: Option<(bool, Content, nat)>)
    ensures r.Some? ==> pos < r.value.2 <= |bits|
  {
    var hdr := ReadBits(bits, pos, 3);
    if hdr.None? then None
    else
      var kind := hdr.value / 2;
      var r := if kind == 0 then ReadStored(bits, pos + 3)
               else if kind == 1 then ReadCoded(FixedLitLens(), FixedDistLens(), bits, pos + 3)
               else if kind == 2 then ReadDynamic(bits, pos + 3)
               else None;
      if r.None? then None else Some((hdr.value % 2 == 1, r.value.0, r.value.1))
  }

  // ----- what the blocks stand for -----

  function ExpandTokens(out: seq<byte>, ts: seq<Token>): (r: Option<seq<byte>>)
    ensures ts == [] ==> r == Some(out)
  {
    if ts == [] then Some(out)
    else
      var before := ExpandTokens(out, ts[..|ts| - 1]);
      if before.None? then None
      else match ts[|ts| - 1]
        case Literal(c) => Some(before.value + [c])
        case Match(len, dist) =>
          if 1 <= dist <= |before.value| then Some(Copy(before.value, dist, len)) else None
  }

  function Unpack(out: seq<byte>, c: Content): (r: Option<seq<byte>>)
  {
    match c
    case Raw(data) => Some(out + data)
    case Coded(ts) => ExpandTokens(out, ts)
  }

  /** Inflates the blocks from bit `pos` up to the final one. */
  function InflateFrom(bits: BitString, pos: nat, out: seq<byte>): (r: Option<(seq<byte>, nat)>)
    decreases |bits| - pos
  {
    var b := ReadBlock(bits, pos);
    if b.None? then None
    else
      var next := Unpack(out, b.value.1);
      if next.None? then None
      else if b.value.0 then Some((next.value, b.value.2))
      else InflateFrom(bits, b.value.2, next.value)
  }
}
