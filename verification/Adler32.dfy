/** lzo_adler32: the checksum of section 8.2 of RFC 1950, with the modulo put off. */
module Adler32 {
  import opened Bits

  const LZO_BASE := 65521
  const LZO_NMAX := 5552

  /** The two sums, reduced after every byte. */
  datatype Sums = Sums(s1: nat, s2: nat)

  function AddByte(s: Sums, c: byte): (r: Sums)
    ensures r.s1 < LZO_BASE && r.s2 < LZO_BASE
  {
    var s1: nat := (s.s1 + c) % LZO_BASE;
    Sums(s1, (s.s2 + s1) % LZO_BASE)
  }

  function AddBytes(s: Sums, buf: seq<byte>): (r: Sums)
    ensures buf != [] ==> r.s1 < LZO_BASE && r.s2 < LZO_BASE
  {
    if buf == [] then s else AddByte(AddBytes(s, buf[..|buf| - 1]), buf[|buf| - 1])
  }

  function Halves(adler: word): (s: Sums)
    ensures s.s1 < 0x10000 && s.s2 < 0x10000
  {
    Sums(adler % 0x10000, adler / 0x10000)
  }

  function Pack(s: Sums): (adler: word)
    requires s.s1 < 0x10000 && s.s2 < 0x10000
  {
    s.s2 * 0x10000 + s.s1
  }

  /** The checksum of `buf` continued from `adler`. */
  function Checksum(adler: word, buf: seq<byte>): (r: word)
  {
    SumsFit(Halves(adler), buf);
    Pack(AddBytes(Halves(adler), buf))
  }

  lemma SumsFit(s: Sums, buf: seq<byte>)
    requires s.s1 < 0x10000 && s.s2 < 0x10000
    ensures AddBytes(s, buf).s1 < 0x10000 && AddBytes(s, buf).s2 < 0x10000
  {
  }

  lemma PackUnpack(s: Sums)
    requires s.s1 < 0x10000 && s.s2 < 0x10000
    ensures Halves(Pack(s)) == s
  {
  }

  lemma {:induction false} AddBytesConcat(s: Sums, a: seq<byte>, b: seq<byte>)
    ensures AddBytes(s, a + b) == AddBytes(AddBytes(s, a), b)
  {
    hide AddByte;
    if b == [] {
      assert a + b == a;
    } else {
      assert (a + b)[..|a + b| - 1] == a + b[..|b| - 1];
      AddBytesConcat(s, a, b[..|b| - 1]);
    }
  }

  /** The checksum of a concatenation is that of the pieces in turn. */
  lemma {:induction false} ChecksumConcat(adler: word, a: seq<byte>, b: seq<byte>)
    ensures Checksum(adler, a + b) == Checksum(Checksum(adler, a), b)
  {
    hide AddBytes, Pack, Halves;
    var s := Halves(adler);
    SumsFit(s, a);
    PackUnpack(AddBytes(s, a));
    AddBytesConcat(s, a, b);
  }

  // ----- sums that are not reduced -----

  /** The most that the first sum can be after `n` bytes of a chunk. */
  function Max1(n: nat): (m: nat)
  {
    0xffff + 255 * n
  }

  function Max2(n: nat): (m: nat)
  {
    if n == 0 then 0xffff else Max2(n - 1) + Max1(n)
  }

  lemma {:induction false} Max2Closed(n: nat)
    ensures 2 * Max2(n) == 2 * 0xffff * (n + 1) + 255 * n * (n + 1)
  {
    if n > 0 {
      Max2Closed(n - 1);
    }
  }

  lemma {:induction false} Max2Monotone(m: nat, n: nat)
    requires m <= n
    ensures Max1(m) <= Max1(n) && Max2(m) <= Max2(n)
  {
    if m < n {
      Max2Monotone(m, n - 1);
    }
  }

  /** A chunk never overflows 32 bits, even from sums that are not reduced. */
  lemma {:induction false} ChunkFits(n: nat)
    requires n <= LZO_NMAX
    ensures Max1(n) < 0x1_0000_0000 && Max2(n) < 0x1_0000_0000
  {
    Max2Closed(LZO_NMAX);
    Max2Monotone(n, LZO_NMAX);
  }

  /** Twice the largest second sum after `n` bytes, from sums that are reduced. */
  function Twice(n: nat): (m: nat)
  {
    255 * n * (n + 1) + 2 * (n + 1) * (LZO_BASE - 1)
  }

  lemma {:induction false} TwiceMonotone(m: nat, n: nat)
    requires m <= n
    ensures Twice(m) <= Twice(n)
  {
    if m < n {
      TwiceMonotone(m, n - 1);
      assert Twice(n) == Twice(n - 1) + 255 * 2 * n + 2 * (LZO_BASE - 1);
    }
  }

  /** LZO_NMAX is the largest chunk with that bound for reduced sums. */
  lemma {:induction false} NmaxIsLargest(n: nat)
    ensures Twice(n) <= 2 * 0xffff_ffff <==> n <= LZO_NMAX
  {
    assert Twice(LZO_NMAX) <= 2 * 0xffff_ffff < Twice(LZO_NMAX + 1);
    if n <= LZO_NMAX {
      TwiceMonotone(n, LZO_NMAX);
    } else {
      TwiceMonotone(LZO_NMAX + 1, n);
    }
  }

  /** A sum in `a` stands for the reduced one in `d`. */
  predicate Stands(a: nat, d: nat)
  {
    a % LZO_BASE == d % LZO_BASE
  }

  lemma ModAdd(a: nat, d: nat, x: nat, y: nat)
    requires Stands(a, d) && Stands(x, y)
    ensures Stands(a + x, d + y) && Stands(a + x, (d + y) % LZO_BASE)
  {
    ModSum(a, x);
    ModSum(d, y);
  }

  lemma ModSum(a: nat, x: nat)
    ensures (a + x) % LZO_BASE == (a % LZO_BASE + x % LZO_BASE) % LZO_BASE
  {
    var q, p := a / LZO_BASE, x / LZO_BASE;
    assert a + x == (q + p) * LZO_BASE + (a % LZO_BASE + x % LZO_BASE);
  }

  /** One chunk: the sums are 32-bit words. */
  method AddChunk(buf: array<byte>, at: nat, k: nat, a1: word, a2: word, ghost start: Sums) returns (s1: word, s2: word)
    requires at + k <= buf.Length && 0 < k <= LZO_NMAX && a1 < 0x10000 && a2 < 0x10000
    requires a1 == AddBytes(start, buf[..at]).s1 && a2 == AddBytes(start, buf[..at]).s2
    ensures s1 == AddBytes(start, buf[..at + k]).s1 && s2 == AddBytes(start, buf[..at + k]).s2
  {
    hide AddByte, Stands, Max1, Max2;
    s1, s2 := a1, a2;
    Refl(a1);
    Refl(a2);
    MaxStart();
    for n := 0 to k
      invariant s1 <= Max1(n) && s2 <= Max2(n)
      invariant Stands(s1, AddBytes(start, buf[..at + n]).s1) && Stands(s2, AddBytes(start, buf[..at + n]).s2)
    {
      assert buf[..at + (n + 1)] == buf[..at + n] + [buf[at + n]];
      ChunkFits(n + 1);
      MaxNext(n);
      StandsNext(s1, s2, AddBytes(start, buf[..at + n]), buf[at + n]);
      s1 := (s1 + buf[at + n]) % 0x1_0000_0000;
      s2 := (s2 + s1) % 0x1_0000_0000;
    }
    Reduce(s1, s2, AddBytes(start, buf[..at + k]));
    s1 := s1 % LZO_BASE;
    s2 := s2 % LZO_BASE;
  }

  lemma Refl(a: nat)
    ensures Stands(a, a)
  {
  }

  lemma MaxStart()
    ensures Max1(0) == 0xffff && Max2(0) == 0xffff
  {
  }

  lemma MaxNext(n: nat)
    ensures Max1(n + 1) == Max1(n) + 255 && Max2(n + 1) == Max2(n) + Max1(n + 1)
  {
  }

  lemma StandsNext(s1: nat, s2: nat, d: Sums, c: byte)
    requires Stands(s1, d.s1) && Stands(s2, d.s2)
    ensures Stands(s1 + c, AddByte(d, c).s1) && Stands(s2 + (s1 + c), AddByte(d, c).s2)
  {
    hide Stands;
    Refl(c);
    ModAdd(s1, d.s1, c, c);
    ModAdd(s2, d.s2, s1 + c, AddByte(d, c).s1);
  }

  lemma Reduce(s1: nat, s2: nat, d: Sums)
    requires Stands(s1, d.s1) && Stands(s2, d.s2) && d.s1 < LZO_BASE && d.s2 < LZO_BASE
    ensures s1 % LZO_BASE == d.s1 && s2 % LZO_BASE == d.s2
  {
  }

  /** lzo_adler32 */
  method LzoAdler32(adler: word, buf: array?<byte>) returns (r: word)
    ensures buf == null ==> r == 1
    ensures buf != null ==> r == Checksum(adler, buf[..])
  {
    hide AddBytes, Pack, Halves;
    if buf == null {
      return 1;
    }
    UnpackIs(adler);
    ghost var start := Halves(adler);
    var s1: word, s2: word := adler % 0x10000, adler / 0x10000 % 0x10000;
    var at: nat, len: nat := 0, buf.Length;
    NoBytes(start);
    assert buf[..0] == [];
    while len > 0
      invariant at + len == buf.Length && s1 < 0x10000 && s2 < 0x10000
      invariant s1 == AddBytes(start, buf[..at]).s1 && s2 == AddBytes(start, buf[..at]).s2
    {
      var k := if len < LZO_NMAX then len else LZO_NMAX;
      len := len - k;
      s1, s2 := AddChunk(buf, at, k, s1, s2, start);
      at := at + k;
    }
    assert buf[..at] == buf[..];
    PackIs(AddBytes(start, buf[..]));
    r := s2 * 0x10000 + s1;
  }

  lemma NoBytes(s: Sums)
    ensures AddBytes(s, []) == s
  {
  }

  lemma PackIs(s: Sums)
    requires s.s1 < 0x10000 && s.s2 < 0x10000
    ensures Pack(s) == s.s2 * 0x10000 + s.s1
  {
  }

  lemma UnpackIs(adler: word)
    ensures Halves(adler) == Sums(adler % 0x10000, adler / 0x10000 % 0x10000)
  {
  }

  // ----- the sums as RFC 1950 states them -----

  function ByteSum(buf: seq<byte>): (s: nat)
  {
    if buf == [] then 0 else ByteSum(buf[..|buf| - 1]) + buf[|buf| - 1]
  }

  /** Every byte as often as there are bytes from it on. */
  function WeightedSum(buf: seq<byte>): (s: nat)
  {
    if buf == [] then 0 else buf[0] * |buf| + WeightedSum(buf[1..])
  }

  lemma {:induction false} WeightedSnoc(buf: seq<byte>, c: byte)
    ensures WeightedSum(buf + [c]) == WeightedSum(buf) + ByteSum(buf) + c
  {
    if buf == [] {
      assert [c][1..] == [];
      assert buf + [c] == [c];
    } else {
      assert (buf + [c])[1..] == buf[1..] + [c];
      WeightedSnoc(buf[1..], c);
      ByteSumCons(buf);
      assert buf[0] * (|buf| + 1) == buf[0] * |buf| + buf[0];
    }
  }

  lemma {:induction false} ByteSumCons(buf: seq<byte>)
    requires buf != []
    ensures ByteSum(buf) == buf[0] + ByteSum(buf[1..])
  {
    if |buf| > 1 {
      var init := buf[..|buf| - 1];
      ByteSumCons(init);
      assert init[1..] == buf[1..][..|buf| - 2];
    }
  }

  /** From `s1` and `s2`, both modulo 65521: the first sum is `s1` and all bytes, the second one `s2`, `s1` for every
      byte, and every byte as often as there are bytes from it on. */
  lemma {:induction false} ClosedForm(s: Sums, buf: seq<byte>)
    requires s.s1 < 65521 && s.s2 < 65521
    ensures AddBytes(s, buf).s1 == (s.s1 + ByteSum(buf)) % 65521
    ensures AddBytes(s, buf).s2 == (s.s2 + |buf| * s.s1 + WeightedSum(buf)) % 65521
  {
    hide ByteSum, WeightedSum, AddByte;
    if buf == [] {
      NoSums();
    } else {
      var init, c := buf[..|buf| - 1], buf[|buf| - 1];
      ClosedForm(s, init);
      assert buf == init + [c];
      WeightedSnoc(init, c);
      SumSnoc(init, c);
      var x, w := s.s1 + ByteSum(init), |init| * s.s1;
      AddedByte(AddBytes(s, init), x, s.s2 + w + WeightedSum(init), c);
      assert |buf| * s.s1 == w + s.s1 by {
        OneMore(|init|, s.s1);
      }
    }
  }

  lemma OneMore(n: nat, a: nat)
    ensures (n + 1) * a == n * a + a
  {
  }

  lemma {:induction false} AddedByte(s: Sums, x: nat, y: nat, c: byte)
    requires s.s1 == x % 65521 && s.s2 == y % 65521
    ensures AddByte(s, c) == Sums((x + c) % 65521, (y + (x + c)) % 65521)
  {
    Reduced(x, y, c);
  }

  lemma NoSums()
    ensures ByteSum([]) == 0 && WeightedSum([]) == 0
  {
  }

  lemma SumSnoc(buf: seq<byte>, c: byte)
    ensures ByteSum(buf + [c]) == ByteSum(buf) + c
  {
    assert (buf + [c])[..|buf|] == buf;
  }

  lemma Reduced(x: nat, y: nat, c: byte)
    ensures (x % 65521 + c) % 65521 == (x + c) % 65521
    ensures (y % 65521 + (x % 65521 + c) % 65521) % 65521 == (y + (x + c)) % 65521
  {
    ModAdd(x % 65521, x, c, c);
    ModAdd(y % 65521, y, (x + c) % 65521, x + c);
  }

  /** The checksum of a buffer: the second sum in the upper half, from the sums 1 and 0. */
  lemma {:induction false} ChecksumIs(buf: seq<byte>)
    ensures Checksum(1, buf) == 65536 * ((|buf| + WeightedSum(buf)) % 65521) + (1 + ByteSum(buf)) % 65521
  {
    hide AddBytes, ByteSum, WeightedSum;
    ClosedForm(Sums(1, 0), buf);
    assert Halves(1) == Sums(1, 0);
  }
}
