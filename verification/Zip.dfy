/** zip: a whole gzip file (RFC 1952), and the proof that it reads back. */
module Zip {
  import opened Bits
  import opened BitWriter
  import opened Crc32
  import opened Canonical
  import opened Options
  import opened Tokens
  import opened Inflate
  import opened BlockState
  import opened Window
  import opened Lz77
  import opened LazyMatching
  import opened Deflate

  /** What is chosen when gzip is built and by the compression level. */
  datatype Config = Config(litSize8: nat, distSize: nat, outSize: nat, wideStores: bool, hashBits: nat,
                           maxChainLength: nat, maxLazyMatch: nat, goodMatch: nat, niceMatch: nat, slowest: bool)

  predicate ValidConfig(c: Config)
  {
    8 <= c.litSize8 <= 0x1000 && 1 <= c.distSize && 4 <= c.outSize && 13 <= c.hashBits <= 15
  }

  const HEADER_SIZE := 10

  /** The ten bytes before the compressed data: magic number, method 8, no flags,
      no time, extra flags, and 3 for Unix. */
  function Header(slowest: bool): (h: seq<byte>)
    ensures |h| == HEADER_SIZE
  {
    [0x1f, 0x8b, 8, 0, 0, 0, 0, 0, if slowest then 2 else 0, 3]
  }

  /** Four bytes as a number, lowest first. */
  function Number32(s: seq<int>): (n: int)
    requires |s| == 4
  {
    s[0] + 0x100 * s[1] + 0x1_0000 * s[2] + 0x100_0000 * s[3]
  }

  /** Reads a gzip file of one member without optional fields (section 2.3 of RFC 1952). */
  function Gunzip(file: seq<byte>): (r: Option<seq<byte>>)
  {
    if |file| < HEADER_SIZE + 8 || file[..4] != [0x1f, 0x8b, 8, 0] then None
    else
      var r := InflateFrom(BytesToBits(file), 8 * HEADER_SIZE, []);
      if r.None? then None
      else
        var data, end := r.value.0, (r.value.1 + 7) / 8;
        if end + 8 == |file| && Number32(file[end..end + 4]) == CheckValue(data)
           && Number32(file[end + 4..]) == |data| % 0x1_0000_0000 then Some(data)
        else None
  }

  lemma {:induction false} HeaderBytes(slowest: bool)
    ensures LittleEndian(0x00088b1f, 4) + LittleEndian(0, 4) + LittleEndian(0x300 + (if slowest then 2 else 0), 2) ==
      Header(slowest)
  {
    hide LittleEndian;
    LittleEndianHalves(0x00088b1f);
    LittleEndian16(0x8b1f);
    LittleEndian16(0x0008);
    LittleEndianHalves(0);
    LittleEndian16(0);
    LittleEndian16(0x300 + (if slowest then 2 else 0));
  }

  lemma {:induction false} Number32Of(n: word)
    ensures Number32(LittleEndian(n, 4)) == n
  {
    hide LittleEndian;
    LittleEndianHalves(n);
    LittleEndian16(n % 0x10000);
    LittleEndian16(n / 0x10000);
  }

  /** A complete stream behind the header, with the right check value and size, is a gzip file of the data. */
  lemma {:induction false} GunzipWritten(body: seq<byte>, slowest: bool, data: seq<byte>, check: seq<byte>,
                                         size: seq<byte>)
    requires Complete(BytesToBits(body), BytesToBits(Header(slowest)), data) && Header(slowest) <= body
    requires |check| == 4 && Number32(check) == CheckValue(data)
    requires |size| == 4 && Number32(size) == |data| % 0x1_0000_0000
    ensures Gunzip(body + check + size) == Some(data)
  {
    hide InflateFrom, CheckValue, BytesToBits, EndsAt, Number32;
    var s, file := BytesToBits(body), body + check + size;
    assert file == body + (check + size);
    BytesToBitsConcat(body, check + size);
    var pos: nat :| |s| < pos + 8 && pos <= |s| && EndsAt(s, BytesToBits(Header(slowest)), data, pos);
    EndsThere(s, BytesToBits(Header(slowest)), data, pos, BytesToBits(check + size));
    assert (pos + 7) / 8 == |body|;
    assert file[|body|..|body| + 4] == check && file[|body| + 4..] == size;
    assert file[..4] == body[..4] == Header(slowest)[..4];
  }

  lemma EndsThere(s: BitString, head: BitString, out: seq<byte>, pos: nat, rest: BitString)
    requires EndsAt(s, head, out, pos)
    ensures InflateFrom(s + rest, |head|, []) == Some((out, pos))
  {
  }

  lemma {:induction false} ByteAt(s: seq<byte>, i: nat)
    requires i < |s|
    ensures BytesToBits(s)[8 * i..8 * i + 8] == ToBits(s[i], 8)
  {
    hide ToBits;
    var last := |s| - 1;
    var before := BytesToBits(s[..last]);
    assert BytesToBits(s) == before + ToBits(s[last], 8) && |before| == 8 * last;
    if i < last {
      ByteAt(s[..last], i);
      assert BytesToBits(s)[8 * i..8 * i + 8] == before[8 * i..8 * i + 8];
    } else {
      assert BytesToBits(s)[8 * i..8 * i + 8] == ToBits(s[last], 8);
    }
  }

  /** Bytes are known from their bits. */
  lemma {:induction false} BytesPrefix(h: seq<byte>, b: seq<byte>)
    requires BytesToBits(h) <= BytesToBits(b)
    ensures h <= b
  {
    hide BytesToBits, ToBits, Pow2;
    forall i | 0 <= i < |h| ensures h[i] == b[i] {
      ByteAt(h, i);
      ByteAt(b, i);
      assert BytesToBits(h)[8 * i..8 * i + 8] == BytesToBits(b)[8 * i..8 * i + 8];
      Pow2Constants();
      FromToBits(h[i], 8);
      FromToBits(b[i], 8);
    }
  }

  /** The magic number and the time stamp, then ct_init. */
  method Open(g: Coder)
    requires g.Wired() && g.Apart() && g.out.Valid() && g.out.Bytes() == [] && g.out.biValid == 0
    requires forall i | 0 <= i <= MAX_BITS :: g.builder.blCount[i] == 0
    modifies g.Region()
    ensures g.Ready() && HasRoom(g) && g.buf.tokens == [] && g.buf.sent == old(g.buf.sent + g.buf.tokens)
    ensures g.out.Valid() && g.out.biValid == 0 && g.out.Bytes() == LittleEndian(0x00088b1f, 4) + LittleEndian(0, 4)
  {
    hide *;
    g.BeginFacts();
    g.out.Put32(0x00088b1f);
    g.out.Put32(0);
    g.CtInit();
    g.IsReady();
    RoomIs(g);
  }

  /** The last two bytes of the header. */
  method WriteFlags(g: Coder, slowest: bool)
    requires g.Ready() && HasRoom(g) && g.buf.tokens == []
    requires g.out.Valid() && g.out.biValid == 0 && g.out.Bytes() == LittleEndian(0x00088b1f, 4) + LittleEndian(0, 4)
    modifies g.Region()
    ensures g.Ready() && HasRoom(g) && g.buf.tokens == [] && g.buf.sent == old(g.buf.sent)
    ensures g.out.Valid() && g.out.biValid == 0 && g.out.Bytes() == Header(slowest)
  {
    hide *;
    HeaderBytes(slowest);
    g.TallyFacts();
    g.BeginFacts();
    g.out.Put16(0x300 + (if slowest then 2 else 0));
    g.out.FlushIfWide();
    g.IsReady();
    RoomIs(g);
  }

  /** The first half of zip: the header and the tables. */
  method Begin(g: Coder, m: Matcher, slowest: bool)
    requires g.Wired() && g.Apart() && g.out.Valid() && g.out.Bytes() == [] && g.out.biValid == 0 && Separate(g, m)
    requires forall i | 0 <= i <= MAX_BITS :: g.builder.blCount[i] == 0
    requires m.Sized() && m.Filled() && m.Linked() && m.keys == [] && m.base == 0 && m.strstart == 0 && m.lookahead == 0
    requires m.insH == 0 && !m.eofile && m.blockStart == 0 && m.matchStart == 0
    requires g.buf.tokens == [] && g.buf.sent == []
    modifies g.Region(), m, m.src, m.window, m.prev, m.head
    ensures Deflating(g, m, false, MIN_MATCH - 1, BytesToBits(Header(slowest)))
    ensures m.lookahead >= MIN_LOOKAHEAD || m.eofile
    ensures m.base == 0 && m.strstart == 0 && m.matchStart == 0 && g.buf.tokens == [] && g.buf.sent == []
  {
    hide *;
    Consts();
    SeparateFacts(g, m);
    g.BeginFacts();
    Open(g);
    RoomIs(g);
    m.LmInit();
    RoomIs(g);
    WriteFlags(g, slowest);
    RoomIs(g);
    StartDeflating(g, m, slowest);
  }

  lemma {:induction false} StartDeflating(g: Coder, m: Matcher, slowest: bool)
    requires g.Ready() && g.buf.lastLit + 1 < g.buf.lBuf.Length && g.buf.lastDist < g.buf.dBuf.Length
      && g.buf.tokens == []
    requires Separate(g, m) && m.Sized() && m.Filled() && m.Linked() && m.Hashing() && m.keys == [] && m.base == 0
      && m.strstart == 0 && m.blockStart == 0
    requires g.out.Valid() && g.out.Bytes() == Header(slowest) && g.out.biValid == 0
    ensures Deflating(g, m, false, MIN_MATCH - 1, BytesToBits(Header(slowest)))
  {
    hide *;
    Consts();
    RoomIs(g);
    TablesAre(m);
    PlainStream(g.out);
    NothingDecoded(BytesToBits(Header(slowest)));
    NothingExpanded(m.src.delivered, 0);
    assert m.src.delivered[..0] == [];
    IsCoded(g, m, 0, BytesToBits(Header(slowest)));
    DeflatingAre(g, m, false, MIN_MATCH - 1, BytesToBits(Header(slowest)));
  }

  lemma PlainStream(out: Output)
    requires out.Valid() && out.biValid == 0
    ensures out.Stream() == BytesToBits(out.Bytes())
  {
    hide BytesToBits;
    assert ToBits(out.biBuf, 0) == [];
  }

  /** zip: whatever the input and however the reads deliver it, what is written
      is a gzip file of the bytes that were read. */
  method Zip(data: seq<byte>, pace: nat -> int, c: Config) returns (file: seq<byte>)
    requires ValidConfig(c)
    ensures Gunzip(file).Some? && Gunzip(file).value <= data
    ensures (forall k: nat :: pace(k) > 0) ==> Gunzip(file) == Some(data)
    ensures |file| >= 18 && file[..10] == [0x1f, 0x8b, 8, 0, 0, 0, 0, 0, if c.slowest then 2 else 0, 3]
    ensures var t: seq<int>, read := file[|file| - 8..], Gunzip(file).value;
      && t[0] + 0x100 * t[1] + 0x1_0000 * t[2] + 0x100_0000 * t[3]
         == 0xffff_ffff - Register(0xffff_ffff, BytesToBits(read))
      && t[4] + 0x100 * t[5] + 0x1_0000 * t[6] + 0x100_0000 * t[7] == |read| % 0x1_0000_0000
  {
    hide *;
    var src, g, m := NewState(data, pace, c);
    Begin(g, m, c.slowest);
    ghost var finds := DeflateAll(g, m, BytesToBits(Header(c.slowest)));
    ghost var read := src.delivered;
    SourceFacts(m);
    ReadyFacts(g, m);
    PlainStream(g.out);
    file := Close(g.out, src.crc, src.isize, c.slowest, read);
    HeaderIs(c.slowest);
    GunzipTrailer(file);
  }

  lemma HeaderIs(slowest: bool)
    ensures Header(slowest) == [0x1f, 0x8b, 8, 0, 0, 0, 0, 0, if slowest then 2 else 0, 3]
  {
  }

  lemma GunzipTrailer(file: seq<byte>)
    requires Gunzip(file).Some?
    ensures |file| >= 18
    ensures var t: seq<int>, read := file[|file| - 8..], Gunzip(file).value;
      && t[0] + 0x100 * t[1] + 0x1_0000 * t[2] + 0x100_0000 * t[3]
         == 0xffff_ffff - Register(0xffff_ffff, BytesToBits(read))
      && t[4] + 0x100 * t[5] + 0x1_0000 * t[6] + 0x100_0000 * t[7] == |read| % 0x1_0000_0000
  {
    hide InflateFrom, BytesToBits, Register;
    var t: seq<int> := file[|file| - 8..];
    assert t == file[|file| - 8..|file| - 4] + file[|file| - 4..];
  }

  /** The state of the compressor, zeroed as pack_gzip does for each file. */
  method NewState(data: seq<byte>, pace: nat -> int, c: Config)
    returns (src: Source, g: Coder, m: Matcher)
    requires ValidConfig(c)
    ensures m.src == src && src.data == data && src.pace == pace
    ensures g.Wired() && g.Apart() && g.out.Valid() && g.out.Bytes() == [] && g.out.biValid == 0 && Separate(g, m)
    ensures forall i | 0 <= i <= MAX_BITS :: g.builder.blCount[i] == 0
    ensures m.Sized() && m.Filled() && m.Linked() && m.keys == [] && m.base == 0 && m.strstart == 0 && m.lookahead == 0
    ensures m.insH == 0 && !m.eofile && m.blockStart == 0 && m.matchStart == 0
    ensures TuningOf(m) == Tuning(c.maxChainLength, c.maxLazyMatch, c.goodMatch, c.niceMatch, c.hashBits)
    ensures g.buf.tokens == [] && g.buf.sent == []
    ensures fresh(g.Region()) && fresh({m as object, src as object, m.window as object, m.prev as object,
      m.head as object})
  {
    hide *;
    ConfigFacts(c);
    var table := new word[256];
    FillTable(table);
    src := new Source(data, pace, table[..]);
    g := new Coder(c.litSize8, c.distSize, c.outSize, c.wideStores);
    RegionIs(g);
    ghost var region := g.Region();
    assert src !in region && fresh(region);
    m := new Matcher(src, c.hashBits, c.maxChainLength, c.maxLazyMatch, c.goodMatch, c.niceMatch);
    MatcherArrays(m);
    AreSeparate(g, m);
    TuningIs(m);
  }

  lemma TuningIs(m: Matcher)
    ensures TuningOf(m) == Tuning(m.maxChainLength, m.maxLazyMatch, m.goodMatch, m.niceMatch, m.hashBits)
  {
  }

  lemma MatcherArrays(m: Matcher)
    ensures m.Arrays() == {m.window as object, m.prev as object, m.head as object}
  {
  }

  /** The end of zip: check value and size. */
  method Close(out: Output, crc: word, isize: word, ghost slowest: bool, ghost read: seq<byte>)
    returns (file: seq<byte>)
    requires out.Valid() && out.biValid == 0 && out.Stream() == BytesToBits(out.Bytes())
    requires Complete(out.Stream(), BytesToBits(Header(slowest)), read)
    requires crc == Register(0xffff_ffff, BytesToBits(read)) && isize == |read| % 0x1_0000_0000
    modifies out, out.outbuf
    ensures Gunzip(file) == Some(read) && Header(slowest) <= file
  {
    hide *;
    ghost var body := out.Bytes();
    HeadIs(out.Stream(), BytesToBits(Header(slowest)), read);
    BytesPrefix(Header(slowest), body);
    Number32Of(0xffff_ffff - crc);
    Number32Of(isize);
    CheckValueIs(read);
    GunzipWritten(body, slowest, read, LittleEndian(0xffff_ffff - crc, 4), LittleEndian(isize, 4));
    out.Put32(0xffff_ffff - crc);
    out.Put32(isize);
    assert out.Bytes() == body + LittleEndian(0xffff_ffff - crc, 4) + LittleEndian(isize, 4);
    file := Finish(out);
  }

  method Finish(out: Output) returns (file: seq<byte>)
    requires out.Valid()
    modifies out`outcnt, out`written
    ensures file == old(out.Bytes())
  {
    out.FlushOutbuf();
    file := out.written;
  }

  lemma ConfigFacts(c: Config)
    requires ValidConfig(c)
    ensures 8 <= c.litSize8 <= 0x1000 && 1 <= c.distSize && 4 <= c.outSize && 13 <= c.hashBits <= 15
  {
  }

  lemma CheckValueIs(data: seq<byte>)
    ensures CheckValue(data) == 0xffff_ffff - Register(0xffff_ffff, BytesToBits(data))
  {
  }

  lemma HeadIs(s: BitString, head: BitString, out: seq<byte>)
    requires Complete(s, head, out)
    ensures head <= s
  {
  }

  lemma RegionIs(g: Coder)
    ensures g.Region() == {g.buf, g.builder, g.lDesc, g.dDesc, g.blDesc, g.out} + g.Arrays() && allocated(g.Region())
  {
  }

  lemma AreSeparate(g: Coder, m: Matcher)
    requires {m as object, m.src as object} + m.Arrays() !! g.Region()
    ensures Separate(g, m)
  {
  }

  lemma SourceFacts(m: Matcher)
    requires m.src.Valid() && m.Finished()
    ensures m.src.delivered <= m.src.data && ((forall k: nat :: m.src.pace(k) > 0) ==> m.src.delivered == m.src.data)
    ensures m.src.crc == Register(0xffff_ffff, BytesToBits(m.src.delivered))
    ensures m.src.isize == |m.src.delivered| % 0x1_0000_0000
  {
  }
}
