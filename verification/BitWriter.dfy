/** The output side of gzip: a byte buffer that is flushed when full, and a
    32-bit accumulator in front of it. */
module BitWriter {
  import opened Bits

  lemma Regroup(start: BitString, a: BitString, b: BitString, c: BitString, d: BitString)
    requires a + b == c + d
    ensures start + a + b == start + c + d
  {
    assert start + (a + b) == start + a + b;
    assert start + (c + d) == start + c + d;
  }

  /** What does not fit the 32-bit accumulator: the low 32 bits are the next word
      and the unused bits of `value` stay behind. */
  lemma {:induction false} Spill(sent: seq<byte>, lo: nat, m: nat, value: nat, n: nat)
    requires lo < Pow2(m) && value < Pow2(n) && m < 32 <= m + n
    ensures var word, rest := LowBits(lo + Shl(value, m), 32), Shr(value, 32 - m);
            && word < 0x1_0000_0000
            && rest < Pow2(m + n - 32)
            && BytesToBits(sent + LittleEndian(word, 4)) + ToBits(rest, m + n - 32)
               == BytesToBits(sent) + ToBits(lo, m) + ToBits(value, n)
  {
    hide *;
    var x := lo + Shl(value, m);
    var word, rest := LowBits(x, 32), Shr(value, 32 - m);
    assert word < 0x1_0000_0000 by { Pow2Constants(); }
    ToBitsConcat(lo, m, value, n);
    ShrAppend(lo, m, value, n);
    ToBitsSplit(x, 32, m + n - 32);
    ShrShr(x, m, 32 - m);
    LittleEndianBits(sent, word, 4);
    Regroup(BytesToBits(sent), ToBits(word, 32), ToBits(rest, m + n - 32), ToBits(lo, m), ToBits(value, n));
  }

  lemma {:induction false} FitsWord(sent: BitString, lo: nat, m: nat, value: nat, n: nat)
    requires lo < Pow2(m) && value < Pow2(n) && m + n <= 32
    ensures var x := LowBits(lo + Shl(value, m), 32);
            x < Pow2(m + n) && sent + ToBits(x, m + n) == sent + ToBits(lo, m) + ToBits(value, n)
  {
    hide *;
    ToBitsConcat(lo, m, value, n);
    ShrAppend(lo, m, value, n);
    Pow2Monotone(m + n, 32);
    LowBitsFit(lo + Shl(value, m), 32);
    Regroup(sent, [], ToBits(lo + Shl(value, m), m + n), ToBits(lo, m), ToBits(value, n));
  }

  lemma {:induction false} WindupStep(sent: seq<byte>, bits: nat, cnt: nat)
    requires 8 < cnt && bits < Pow2(cnt)
    ensures BytesToBits(sent + [bits % 256]) + ToBits(bits / 256, cnt - 8) == BytesToBits(sent) + ToBits(bits, cnt)
    ensures bits / 256 < Pow2(cnt - 8)
  {
    hide *;
    ByteThenRest(bits, cnt - 8);
    BytesToBitsSnoc(sent, bits % 256);
  }

  lemma {:induction false} WindupLast(sent: seq<byte>, bits: nat, cnt: nat)
    requires 0 < cnt <= 8 && bits < Pow2(cnt)
    ensures BytesToBits(sent + [bits % 256]) == BytesToBits(sent) + ToBits(bits, cnt) + ToBits(0, 8 - cnt)
  {
    hide *;
    Pow2Monotone(cnt, 8);
    assert Pow2(8) == 256 by { Pow2Constants(); }
    BytesToBitsSnoc(sent, bits);
    assert Shl(0, cnt) == 0 by { ShlZero(cnt); }
    ToBitsConcat(bits, cnt, 0, 8 - cnt);
  }


  /** The zero bits that reach the next byte boundary from bit position `pos`. */
  function Padding(pos: nat): (b: BitString)
    ensures (pos + |b|) % 8 == 0 && |b| < 8
    ensures forall i | 0 <= i < |b| :: !b[i]
  {
    var n := if pos % 8 == 0 then 0 else 8 - pos % 8;
    seq(n, i => false)
  }

  lemma {:induction false} PaddingIs(pos: nat, n: nat)
    requires n < 8 && (pos + n) % 8 == 0
    ensures Padding(pos) == ToBits(0, n)
  {
    ZeroBits(n);
    assert |Padding(pos)| == n;
  }

  class Output {
    const outbuf: array<byte>
    /** Whether put_32bit stores whole words (OPTIMIZED_PUT_32BIT). */
    const wideStores: bool
    var outcnt: nat
    /** What has been handed to xwrite() so far. */
    var written: seq<byte>
    var biBuf: nat
    var biValid: nat

    ghost predicate Valid()
      reads this, outbuf
    {
      && 4 <= outbuf.Length
      && outcnt < outbuf.Length
      && biValid < 32
      && biBuf < Pow2(biValid)
    }

    ghost function Arrays(): (s: set<object>)
    {
      {outbuf}
    }

    /** Every byte put so far, flushed or not. */
    ghost function Bytes(): (s: seq<byte>)
      requires Valid()
      reads this, outbuf
    {
      written + outbuf[..outcnt]
    }

    /** Everything sent so far: the bytes and then the pending bits. */
    ghost function Stream(): (b: BitString)
      requires Valid()
      reads this, outbuf
    {
      BytesToBits(Bytes()) + ToBits(biBuf, biValid)
    }

    constructor (size: nat, wide: bool)
      requires 4 <= size
      ensures Valid() && fresh(Arrays()) && allocated(Arrays())
      ensures Bytes() == [] && biValid == 0
    {
      outbuf := new byte[size](_ => 0);
      wideStores := wide;
      outcnt, written, biBuf, biValid := 0, [], 0, 0;
    }

    method FlushOutbuf()
      requires outcnt <= outbuf.Length
      modifies `outcnt, `written
      ensures outcnt == 0
      ensures written == old(written + outbuf[..outcnt])
    {
      if outcnt == 0 {
        return;
      }
      written := written + outbuf[..outcnt];
      outcnt := 0;
    }

    /** flush_outbuf_if_32bit_optimized */
    method FlushIfWide()
      requires Valid()
      modifies `outcnt, `written
      ensures Valid() && Bytes() == old(Bytes())
    {
      if wideStores {
        FlushOutbuf();
      }
    }

    method Put8(c: byte)
      requires Valid()
      modifies `outcnt, `written, outbuf
      ensures Valid()
      ensures Bytes() == old(Bytes()) + [c]
    {
      outbuf[outcnt] := c;
      outcnt := outcnt + 1;
      if outcnt == outbuf.Length {
        FlushOutbuf();
      }
    }

    /** Appends the two bytes of `w`, the lower one in front. */
    method Put16(w: nat)
      requires Valid() && w < 0x10000
      modifies `outcnt, `written, outbuf
      ensures Valid()
      ensures Bytes() == old(Bytes()) + LittleEndian(w, 2)
    {
      LittleEndian16(w);
      outbuf[outcnt] := w % 256;
      if outcnt < outbuf.Length - 2 {
        outbuf[outcnt + 1] := w / 256;
        outcnt := outcnt + 2;
        return;
      }
      outcnt := outcnt + 1;
      if outcnt == outbuf.Length {
        FlushOutbuf();
      }
      Put8(w / 256);
    }

    method Put32(n: nat)
      requires Valid() && n < 0x1_0000_0000
      modifies `outcnt, `written, outbuf
      ensures Valid()
      ensures Bytes() == old(Bytes()) + LittleEndian(n, 4)
    {
      if wideStores && outcnt < outbuf.Length - 4 {
        var le := LittleEndian(n, 4);
        outbuf[outcnt], outbuf[outcnt + 1] := le[0], le[1];
        outbuf[outcnt + 2], outbuf[outcnt + 3] := le[2], le[3];
        outcnt := outcnt + 4;
        return;
      }
      LittleEndianHalves(n);
      Put16(n % 0x10000);
      Put16(n / 0x10000);
    }

    /** The stream grows by the low `length` bits of `value`, lowest in front. */
    method SendBits(value: nat, length: nat)
      requires Valid()
      requires length <= 16 && value < Pow2(length)
      modifies this, outbuf
      ensures Valid()
      ensures Stream() == old(Stream()) + ToBits(value, length)
    {
      hide ToBits, Shl, Shr, LowBits, BytesToBits, Pow2, LittleEndian;
      ghost var before := Bytes();
      var newBuf := LowBits(biBuf + Shl(value, biValid), 32);
      var newLength := length + biValid;
      if newLength >= 32 {
        Spill(before, biBuf, biValid, value, length);
        Put32(newBuf);
        newBuf := Shr(value, 32 - biValid);
        newLength := newLength - 32;
      } else {
        FitsWord(BytesToBits(before), biBuf, biValid, value, length);
      }
      biBuf, biValid := newBuf, newLength;
    }

    /** Fills the stream up with zero bits to the next whole byte. */
    method BiWindup()
      requires Valid()
      modifies this, outbuf
      ensures Valid() && biValid == 0
      ensures Stream() == old(Stream()) + Padding(|old(Stream())|)
    {
      hide BytesToBits, ToBits, Pow2, Padding;
      var bits: nat, cnt: int := biBuf, biValid;
      ghost var sent := Stream();
      while cnt > 0
        invariant Valid() && -8 < cnt
        invariant cnt > 0 ==> bits < Pow2(cnt) && BytesToBits(Bytes()) + ToBits(bits, cnt) == sent
        invariant cnt <= 0 ==> BytesToBits(Bytes()) == sent + ToBits(0, -cnt)
      {
        if cnt > 8 {
          WindupStep(Bytes(), bits, cnt);
        } else {
          WindupLast(Bytes(), bits, cnt);
        }
        Put8(bits % 256);
        bits := bits / 256;
        cnt := cnt - 8;
      }
      biBuf, biValid := 0, 0;
      PaddingIs(|sent|, -cnt);
    }
  }
}
