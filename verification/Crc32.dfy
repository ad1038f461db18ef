/** The CRC-32 of section 8 of RFC 1952, and the table of libbb that takes in a byte at a time. */
module Crc32 {
  import opened Bits

  /** The generator polynomial, highest power lowest. */
  const POLYNOMIAL: word := 0xedb8_8320

  /** One step of the shift register. */
  function Shift(c: nat): (r: nat)
  {
    if c % 2 == 1 then Xor(c / 2, POLYNOMIAL) else c / 2
  }

  function Shifts(c: nat, n: nat): (r: nat)
    decreases n
  {
    if n == 0 then c else Shifts(Shift(c), n - 1)
  }

  /** The shift register after some bits. */
  function Register(c: nat, bits: BitString): (r: nat)
    decreases |bits|
  {
    if bits == [] then c else Register(Shift(Xor(c, if bits[0] then 1 else 0)), bits[1..])
  }

  /** The check value of some bytes: all their bits, with the register inverted before and after. */
  function CheckValue(data: seq<byte>): (v: int)
  {
    0xffff_ffff - Register(0xffff_ffff, BytesToBits(data))
  }

  // ----- exclusive or -----

  lemma {:induction false} XorComm(a: nat, b: nat)
    ensures Xor(a, b) == Xor(b, a)
    decreases a + b
  {
    if a != 0 || b != 0 {
      XorComm(a / 2, b / 2);
    }
  }

  lemma {:induction false} XorZero(a: nat)
    ensures Xor(a, 0) == a && Xor(0, a) == a
  {
    if a != 0 {
      XorZero(a / 2);
    }
  }

  lemma {:induction false} XorSelf(a: nat)
    ensures Xor(a, a) == 0
  {
    if a != 0 {
      XorSelf(a / 2);
    }
  }

  lemma {:induction false} XorAssoc(a: nat, b: nat, c: nat)
    ensures Xor(Xor(a, b), c) == Xor(a, Xor(b, c))
    decreases a + b + c
  {
    hide Xor;
    if a == 0 || b == 0 || c == 0 {
      XorZero(a);
      XorZero(b);
      XorZero(c);
      XorZero(Xor(a, b));
      XorZero(Xor(b, c));
    } else {
      XorStep(a, b);
      XorStep(b, c);
      XorStep(Xor(a, b), c);
      XorStep(a, Xor(b, c));
      XorAssoc(a / 2, b / 2, c / 2);
    }
  }

  lemma {:induction false} XorFits(a: nat, b: nat, n: nat)
    requires a < Pow2(n) && b < Pow2(n)
    ensures Xor(a, b) < Pow2(n)
  {
    if n > 0 {
      XorFits(a / 2, b / 2, n - 1);
    }
  }

  /** Numbers without a common bit add up. */
  lemma {:induction false} XorLow(lo: nat, hi: nat, n: nat)
    requires lo < Pow2(n)
    ensures Xor(lo, Shl(hi, n)) == lo + Shl(hi, n)
  {
    if n == 0 {
      XorZero(hi);
    } else {
      XorStep(lo, Shl(hi, n));
      XorLow(lo / 2, hi, n - 1);
    }
  }

  // ----- the register is linear -----

  lemma {:induction false} ShiftLinear(a: nat, b: nat)
    ensures Shift(Xor(a, b)) == Xor(Shift(a), Shift(b))
  {
    hide Xor;
    var x, y, p := a / 2, b / 2, POLYNOMIAL;
    XorStep(a, b);
    if a % 2 == 1 && b % 2 == 1 {
      XorAssoc(x, p, Xor(y, p));
      XorComm(y, p);
      XorAssoc(p, p, y);
      XorSelf(p);
      XorZero(y);
    } else if a % 2 == 1 {
      XorAssoc(x, p, y);
      XorComm(p, y);
      XorAssoc(x, y, p);
    } else if b % 2 == 1 {
      XorAssoc(x, y, p);
    }
  }

  lemma {:induction false} ShiftsLinear(a: nat, b: nat, n: nat)
    ensures Shifts(Xor(a, b), n) == Xor(Shifts(a, n), Shifts(b, n))
    decreases n
  {
    hide Xor, Shift;
    if n > 0 {
      ShiftLinear(a, b);
      ShiftsLinear(Shift(a), Shift(b), n - 1);
    }
  }

  lemma {:induction false} ShiftsHigh(hi: nat, n: nat)
    ensures Shifts(Shl(hi, n), n) == hi
  {
    if n > 0 {
      ShiftsHigh(hi, n - 1);
    }
  }

  lemma {:induction false} ShiftFits(c: nat)
    requires c < 0x1_0000_0000
    ensures Shift(c) < 0x1_0000_0000
  {
    hide Xor, Pow2;
    Pow2Constants();
    XorFits(c / 2, POLYNOMIAL, 32);
  }

  lemma {:induction false} ShiftsFit(c: nat, n: nat)
    requires c < 0x1_0000_0000
    ensures Shifts(c, n) < 0x1_0000_0000
    decreases n
  {
    hide Shift;
    if n > 0 {
      ShiftFits(c);
      ShiftsFit(Shift(c), n - 1);
    }
  }

  /** Bits that come in one after the other can be taken in at once. */
  lemma {:induction false} RegisterShifts(c: nat, v: nat, n: nat)
    requires v < Pow2(n)
    ensures Register(c, ToBits(v, n)) == Shifts(Xor(c, v), n)
    decreases n
  {
    hide Xor, Shift;
    if n == 0 {
      XorZero(c);
    } else {
      var low, high := v % 2, v / 2;
      var next := Shift(Xor(c, low));
      XorLow(low, high, 1);
      assert v == Xor(low, 2 * high);
      XorAssoc(c, low, 2 * high);
      ShiftLinear(Xor(c, low), 2 * high);
      assert Shift(2 * high) == high by {
        ShiftEven(high);
      }
      assert ToBits(v, n)[1..] == ToBits(high, n - 1);
      RegisterShifts(next, high, n - 1);
    }
  }

  lemma ShiftEven(h: nat)
    ensures Shift(2 * h) == h
  {
  }

  lemma {:induction false} RegisterConcat(c: nat, a: BitString, b: BitString)
    ensures Register(c, a + b) == Register(Register(c, a), b)
    decreases |a|
  {
    hide Xor, Shift;
    if a == [] {
      assert a + b == b;
    } else {
      assert (a + b)[1..] == a[1..] + b;
      RegisterConcat(Shift(Xor(c, if a[0] then 1 else 0)), a[1..], b);
    }
  }

  lemma {:induction false} RegisterFits(c: nat, bits: BitString)
    requires c < 0x1_0000_0000
    ensures Register(c, bits) < 0x1_0000_0000
    decreases |bits|
  {
    hide Xor, Shift, Pow2;
    if bits != [] {
      Pow2Constants();
      XorFits(c, if bits[0] then 1 else 0, 32);
      ShiftFits(Xor(c, if bits[0] then 1 else 0));
      RegisterFits(Shift(Xor(c, if bits[0] then 1 else 0)), bits[1..]);
    }
  }

  /** A register that takes in its own contents is empty: this is how a check value is checked. */
  lemma {:induction false} RegisterCleared(c: word)
    ensures Register(c, ToBits(c, 32)) == 0
  {
    hide Xor, Pow2;
    Pow2Constants();
    RegisterShifts(c, c, 32);
    XorSelf(c);
    ShiftsHigh(0, 32);
    ShlZero(32);
  }

  /** The generator of ISO 3309: x^32 + x^26 + x^23 + x^22 + x^16 + x^12 + x^11 + x^10 + x^8 + x^7 + x^5 + x^4 + x^2
      + x + 1, with the coefficient of x^k in bit 31 - k. */
  lemma {:induction false} PolynomialTerms()
    ensures POLYNOMIAL == Pow2(5) + Pow2(8) + Pow2(9) + Pow2(15) + Pow2(19) + Pow2(20) + Pow2(21) + Pow2(23)
      + Pow2(24) + Pow2(26) + Pow2(27) + Pow2(29) + Pow2(30) + Pow2(31)
  {
    hide Pow2;
    FourPowers(0, 1);
    FourPowers(4, 0x10);
    FourPowers(8, 0x100);
    FourPowers(12, 0x1000);
    FourPowers(16, 0x1_0000);
    FourPowers(20, 0x10_0000);
    FourPowers(24, 0x100_0000);
    FourPowers(28, 0x1000_0000);
  }

  lemma FourPowers(n: nat, v: nat)
    requires Pow2(n) == v || (n == 0 && v == 1)
    ensures Pow2(n) == v && Pow2(n + 1) == 2 * v && Pow2(n + 2) == 4 * v && Pow2(n + 3) == 8 * v
    ensures Pow2(n + 4) == 16 * v
  {
  }

  // ----- the table -----

  /** What eight steps make of every byte. */
  ghost predicate IsTable(table: seq<word>)
  {
    |table| == 256 && forall i | 0 <= i < 256 :: table[i] == Shifts(i, 8)
  }

  /** crc32_filltable for the little-endian polynomial. */
  method FillTable(table: array<word>)
    requires table.Length == 256
    modifies table
    ensures IsTable(table[..])
  {
    hide Shifts;
    for i := 0 to 256
      invariant forall k | 0 <= k < i :: table[k] == Shifts(k, 8)
    {
      table[i] := TableEntry(i);
    }
  }

  method TableEntry(i: byte) returns (c: word)
    ensures c == Shifts(i, 8)
  {
    hide Shifts;
    c := i;
    for j := 0 to 8
      invariant Shifts(c, 8 - j) == Shifts(i, 8)
    {
      ShiftsNext(c, 8 - j);
      ShiftFits(c);
      c := if c % 2 == 1 then Xor(c / 2, POLYNOMIAL) else c / 2;
    }
    ShiftsNone(c);
  }

  lemma ShiftsNext(c: nat, n: nat)
    requires n > 0
    ensures Shifts(c, n) == Shifts(Shift(c), n - 1)
  {
  }

  lemma ShiftsNone(c: nat)
    ensures Shifts(c, 0) == c
  {
  }

  /** Taking in a byte by the table is taking in its bits. */
  lemma {:induction false} TableStep(val: word, b: byte)
    ensures Xor(val % 256, b) < 256
    ensures Xor(Shifts(Xor(val % 256, b), 8), val / 256) == Register(val, ToBits(b, 8))
    ensures Register(val, ToBits(b, 8)) < 0x1_0000_0000
  {
    hide Xor, Shift, Shifts, Pow2, Shl, Register;
    Pow2Constants();
    var lo, hi := val % 256, val / 256;
    XorFits(lo, b, 8);
    ShlEight(hi);
    ShiftsHigh(hi, 8);
    ShiftsLinear(Xor(lo, b), Shl(hi, 8), 8);
    XorAssoc(lo, b, Shl(hi, 8));
    XorComm(b, Shl(hi, 8));
    XorAssoc(lo, Shl(hi, 8), b);
    XorLow(lo, hi, 8);
    RegisterShifts(val, b, 8);
    RegisterFits(val, ToBits(b, 8));
  }

  lemma {:induction false} ShlEight(v: nat)
    ensures Shl(v, 8) == 256 * v
  {
    assert Shl(v, 8) == 2 * Shl(v, 7) == 4 * Shl(v, 6) == 8 * Shl(v, 5) == 16 * Shl(v, 4);
    assert Shl(v, 4) == 2 * Shl(v, 3) == 4 * Shl(v, 2) == 8 * Shl(v, 1) == 16 * Shl(v, 0);
  }

  /** crc32_block_endian0 */
  method BlockCrc(val0: word, buf: array<byte>, at: nat, len: nat, table: seq<word>) returns (val: word)
    requires at + len <= buf.Length && IsTable(table)
    ensures val == Register(val0, BytesToBits(buf[at..at + len]))
  {
    hide Xor, Shifts, Register, BytesToBits;
    val := val0;
    NoBits(val0);
    for n := 0 to len
      invariant val == Register(val0, BytesToBits(buf[at..at + n]))
    {
      var c := buf[at + n];
      TableStep(val, c);
      assert buf[at..at + (n + 1)] == buf[at..at + n] + [c];
      BytesToBitsSnoc(buf[at..at + n], c);
      RegisterConcat(val0, BytesToBits(buf[at..at + n]), ToBits(c, 8));
      val := Xor(table[Xor(val % 256, c)], val / 256);
    }
  }

  lemma NoBits(c: nat)
    ensures Register(c, BytesToBits([])) == c
  {
  }
}
