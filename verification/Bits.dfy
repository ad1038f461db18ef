/** Bit strings, as RFC 1951 section 3.1.1 packs them: the first bit of a
    string is the least significant one. */
module Bits {

  type byte = x: int | 0 <= x < 256

  type ush = x: int | 0 <= x < 0x1_0000

  type word = x: int | 0 <= x < 0x1_0000_0000

  type BitString = seq<bool>

  function Pow2(n: nat): (p: nat)
    ensures p >= 1
  {
    if n == 0 then 1 else 2 * Pow2(n - 1)
  }

  /** `v << n` */
  function Shl(v: nat, n: nat): (s: nat)
    ensures n == 0 ==> s == v
    ensures n == 1 ==> s == 2 * v
  {
    if n == 0 then v else 2 * Shl(v, n - 1)
  }

  /** `v >> n` */
  function Shr(v: nat, n: nat): (h: nat)
    ensures h <= v
  {
    if n == 0 then v else Shr(v / 2, n - 1)
  }

  /** `v & ((1 << n) - 1)` */
  function LowBits(v: nat, n: nat): (l: nat)
    ensures l < Pow2(n) && l <= v
  {
    if n == 0 then 0 else v % 2 + 2 * LowBits(v / 2, n - 1)
  }

  /** The low `n` bits of `v`, least significant first. */
  function ToBits(v: nat, n: nat): (b: BitString)
    ensures |b| == n
  {
    if n == 0 then [] else [v % 2 == 1] + ToBits(v / 2, n - 1)
  }

  function FromBits(b: BitString): (v: nat)
    ensures v < Pow2(|b|)
  {
    if b == [] then 0 else (if b[0] then 1 else 0) + 2 * FromBits(b[1..])
  }

  lemma {:induction false} FromToBits(v: nat, n: nat)
    requires v < Pow2(n)
    ensures FromBits(ToBits(v, n)) == v
  {
    if n > 0 {
      FromToBits(v / 2, n - 1);
      assert ToBits(v, n)[1..] == ToBits(v / 2, n - 1);
    }
  }

  lemma {:induction false} ToFromBits(b: BitString)
    ensures ToBits(FromBits(b), |b|) == b
  {
    if b != [] {
      ToFromBits(b[1..]);
      assert FromBits(b) / 2 == FromBits(b[1..]);
      assert b == [b[0]] + b[1..];
    }
  }

  lemma {:induction false} Pow2Shl(m: nat, n: nat)
    ensures Pow2(m + n) == Shl(Pow2(n), m)
  {
    if m > 0 {
      Pow2Shl(m - 1, n);
      assert Pow2(m + n) == 2 * Pow2((m - 1) + n);
    }
  }

  lemma {:induction false} Pow2Monotone(m: nat, n: nat)
    requires m <= n
    ensures Pow2(m) <= Pow2(n)
    ensures m < n ==> 2 * Pow2(m) <= Pow2(n)
  {
    if m < n {
      Pow2Monotone(m, n - 1);
    }
  }

  lemma {:induction false} ShlAdd(a: nat, b: nat, n: nat)
    ensures Shl(a + b, n) == Shl(a, n) + Shl(b, n)
  {
    if n > 0 {
      ShlAdd(a, b, n - 1);
    }
  }

  lemma {:induction false} ShlShl(v: nat, m: nat, n: nat)
    ensures Shl(Shl(v, m), n) == Shl(v, m + n)
  {
    if n > 0 {
      ShlShl(v, m, n - 1);
    }
  }

  lemma {:induction false} ShlIsTimes(v: nat, n: nat)
    ensures Shl(v, n) == Pow2(n) * v
  {
    if n > 0 {
      ShlIsTimes(v, n - 1);
      assert Pow2(n) * v == 2 * Pow2(n - 1) * v == 2 * (Pow2(n - 1) * v);
    }
  }

  lemma {:induction false} ShlZero(n: nat)
    ensures Shl(0, n) == 0
  {
    if n > 0 {
      ShlZero(n - 1);
    }
  }

  lemma {:induction false} ShlMonotone(a: nat, b: nat, n: nat)
    requires a <= b
    ensures Shl(a, n) <= Shl(b, n)
    ensures a < b ==> Shl(a, n) + Pow2(n) <= Shl(b, n)
  {
    if n > 0 {
      ShlMonotone(a, b, n - 1);
    }
  }

  lemma {:induction false} Pow2Constants()
    ensures Pow2(7) == 128
    ensures Pow2(8) == 256
    ensures Pow2(15) == 0x8000
    ensures Pow2(16) == 0x10000
    ensures Pow2(32) == 0x1_0000_0000
  {
    assert Pow2(24) == 256 * Pow2(16) by { Pow2Eight(16); }
    Pow2Eight(24);
  }

  lemma {:induction false} Pow2Eight(n: nat)
    ensures Pow2(n + 8) == 256 * Pow2(n)
  {
    assert Pow2(n + 2) == 2 * Pow2(n + 1) == 4 * Pow2(n);
    assert Pow2(n + 4) == 2 * Pow2(n + 3) == 4 * Pow2(n + 2);
    assert Pow2(n + 6) == 2 * Pow2(n + 5) == 4 * Pow2(n + 4);
    assert Pow2(n + 8) == 2 * Pow2(n + 7) == 4 * Pow2(n + 6);
  }

  /** A number below 2^m with another one above it: the bits concatenate. */
  lemma {:induction false} ToBitsConcat(lo: nat, m: nat, hi: nat, n: nat)
    requires lo < Pow2(m)
    ensures ToBits(lo + Shl(hi, m), m + n) == ToBits(lo, m) + ToBits(hi, n)
    decreases m
  {
    if m == 0 {
      assert ToBits(lo, m) + ToBits(hi, n) == ToBits(hi, n);
    } else {
      var v := lo + Shl(hi, m);
      assert v % 2 == lo % 2;
      assert v / 2 == lo / 2 + Shl(hi, m - 1);
      ToBitsConcat(lo / 2, m - 1, hi, n);
      assert ToBits(v, m + n) == [v % 2 == 1] + ToBits(v / 2, (m - 1) + n);
    }
  }

  lemma {:induction false} ShrAppend(lo: nat, m: nat, hi: nat, n: nat)
    requires lo < Pow2(m)
    ensures Shr(lo + Shl(hi, m), m) == hi
    ensures hi < Pow2(n) ==> lo + Shl(hi, m) < Pow2(m + n)
    decreases m
  {
    if m > 0 {
      assert (lo + Shl(hi, m)) / 2 == lo / 2 + Shl(hi, m - 1);
      ShrAppend(lo / 2, m - 1, hi, n);
      assert Pow2(m + n) == 2 * Pow2((m - 1) + n);
    }
  }

  lemma {:induction false} ToBitsSplit(v: nat, m: nat, n: nat)
    ensures ToBits(v, m + n) == ToBits(LowBits(v, m), m) + ToBits(Shr(v, m), n)
    ensures v < Pow2(m + n) ==> Shr(v, m) < Pow2(n)
    decreases m
  {
    if m > 0 {
      ToBitsSplit(v / 2, m - 1, n);
      assert Pow2(m + n) == 2 * Pow2((m - 1) + n);
      assert ToBits(v, m + n) == [v % 2 == 1] + ToBits(v / 2, (m - 1) + n);
      assert LowBits(v, m) % 2 == v % 2 && LowBits(v, m) / 2 == LowBits(v / 2, m - 1);
    }
  }

  lemma {:induction false} LowBitsFit(v: nat, m: nat)
    requires v < Pow2(m)
    ensures LowBits(v, m) == v
    decreases m
  {
    if m > 0 {
      LowBitsFit(v / 2, m - 1);
    }
  }

  lemma {:induction false} ShrShr(v: nat, m: nat, n: nat)
    ensures Shr(v, m + n) == Shr(Shr(v, m), n)
    decreases m
  {
    if m > 0 {
      ShrShr(v / 2, m - 1, n);
    }
  }

  lemma {:induction false} ZeroBits(n: nat)
    ensures forall i | 0 <= i < n :: !ToBits(0, n)[i]
  {
    if n > 0 {
      ZeroBits(n - 1);
    }
  }

  /** Bits of a byte string: each byte contributes its eight bits, least significant first. */
  function BytesToBits(s: seq<byte>): (b: BitString)
    ensures |b| == 8 * |s|
  {
    if s == [] then [] else BytesToBits(s[..|s| - 1]) + ToBits(s[|s| - 1], 8)
  }

  lemma {:induction false} BytesToBitsConcat(s: seq<byte>, t: seq<byte>)
    ensures BytesToBits(s + t) == BytesToBits(s) + BytesToBits(t)
  {
    hide ToBits;
    if t == [] {
      assert s + t == s;
    } else {
      var u, i, c := s + t, t[..|t| - 1], t[|t| - 1];
      assert u[..|u| - 1] == s + i && u[|u| - 1] == c;
      BytesToBitsConcat(s, i);
      assert BytesToBits(t) == BytesToBits(i) + ToBits(c, 8);
    }
  }

  lemma {:induction false} BytesToBitsSnoc(s: seq<byte>, c: byte)
    ensures BytesToBits(s + [c]) == BytesToBits(s) + ToBits(c, 8)
  {
    assert (s + [c])[..|s|] == s;
  }

  /** The low `k` bytes of `n`, low byte first. */
  function LittleEndian(n: nat, k: nat): (s: seq<byte>)
    ensures |s| == k
  {
    if k == 0 then [] else [n % 256] + LittleEndian(n / 256, k - 1)
  }

  lemma {:induction false} ByteThenRest(n: nat, m: nat)
    ensures ToBits(n, 8 + m) == ToBits(n % 256, 8) + ToBits(n / 256, m)
    ensures n < Pow2(8 + m) ==> n / 256 < Pow2(m)
  {
    EightBits(n);
    ToBitsSplit(n, 8, m);
  }

  lemma {:induction false} EightBits(n: nat)
    ensures LowBits(n, 8) == n % 256
    ensures Shr(n, 8) == n / 256
  {
    hide LowBits, Shr, Shl;
    FourBits(n);
    FourBits(n / 16);
    ShrShr(n, 4, 4);
    LowBitsSplit(n, 4, 4);
    ShlFour(n / 16 % 16);
    Nibbles(n);
  }

  lemma Nibbles(n: nat)
    ensures n % 256 == n % 16 + 16 * (n / 16 % 16)
    ensures n / 16 / 16 == n / 256
  {
  }

  lemma {:induction false} FourBits(n: nat)
    ensures LowBits(n, 4) == n % 16
    ensures Shr(n, 4) == n / 16
  {
    assert n / 2 / 2 / 2 / 2 == n / 16;
    assert Shr(n, 4) == Shr(n / 2, 3) == Shr(n / 2 / 2, 2) == Shr(n / 2 / 2 / 2, 1);
    var a, b, c := n / 2, n / 4, n / 8;
    assert LowBits(c, 1) == c % 2;
    assert LowBits(b, 2) == b % 2 + 2 * LowBits(b / 2, 1);
    assert LowBits(a, 3) == a % 2 + 2 * LowBits(a / 2, 2);
  }

  lemma {:induction false} ShlFour(n: nat)
    ensures Shl(n, 4) == 16 * n
  {
    assert Shl(n, 3) == 2 * Shl(n, 2);
  }

  lemma {:induction false} LowBitsSplit(v: nat, m: nat, n: nat)
    ensures LowBits(v, m + n) == LowBits(v, m) + Shl(LowBits(Shr(v, m), n), m)
    decreases m
  {
    if m > 0 {
      LowBitsSplit(v / 2, m - 1, n);
      var x := LowBits(Shr(v / 2, m - 1), n);
      assert Shr(v, m) == Shr(v / 2, m - 1) && Shl(x, m) == 2 * Shl(x, m - 1);
      assert LowBits(v, m) == v % 2 + 2 * LowBits(v / 2, m - 1);
      assert LowBits(v, m + n) == v % 2 + 2 * LowBits(v / 2, (m - 1) + n);
    }
  }

  lemma {:induction false} LittleEndianBits(s: seq<byte>, n: nat, k: nat)
    ensures BytesToBits(s + LittleEndian(n, k)) == BytesToBits(s) + ToBits(n, 8 * k)
    decreases k
  {
    hide ToBits, BytesToBits;
    if k == 0 {
      assert s + LittleEndian(n, k) == s;
    } else {
      var c := n % 256;
      assert s + LittleEndian(n, k) == (s + [c]) + LittleEndian(n / 256, k - 1);
      LittleEndianBits(s + [c], n / 256, k - 1);
      BytesToBitsSnoc(s, c);
      ByteThenRest(n, 8 * (k - 1));
    }
  }

  lemma {:induction false} LittleEndian16(w: nat)
    requires w < 0x10000
    ensures LittleEndian(w, 2) == [w % 256, w / 256]
  {
    assert LittleEndian(w / 256, 1) == [w / 256 % 256] + LittleEndian(w / 256 / 256, 0);
  }

  lemma HalvesArith(n: nat)
    ensures n % 0x10000 % 256 == n % 256
    ensures n % 0x10000 / 256 == n / 256 % 256
    ensures n / 0x10000 == n / 256 / 256
  {
  }

  lemma {:induction false} LittleEndianHalves(n: nat)
    ensures LittleEndian(n, 4) == LittleEndian(n % 0x10000, 2) + LittleEndian(n / 0x10000, 2)
  {
    HalvesArith(n);
    LittleEndian16(n % 0x10000);
    var m := n / 256;
    assert LittleEndian(m, 3) == [m % 256] + LittleEndian(m / 256, 2);
    assert LittleEndian(n, 4) == [n % 256] + LittleEndian(m, 3);
  }

  /** `a ^ b` */
  function Xor(a: nat, b: nat): (x: nat)
    decreases a + b
  {
    if a == 0 && b == 0 then 0
    else (if a % 2 == b % 2 then 0 else 1) + 2 * Xor(a / 2, b / 2)
  }

  /** Bit by bit. */
  lemma XorStep(a: nat, b: nat)
    ensures Xor(a, b) % 2 == (if a % 2 == b % 2 then 0 else 1) && Xor(a, b) / 2 == Xor(a / 2, b / 2)
  {
  }

  lemma {:induction false} XorCancel(a: nat, b: nat, c: nat)
    requires Xor(a, b) == Xor(a, c)
    ensures b == c
    decreases a + b + c
  {
    if a != 0 || b != 0 || c != 0 {
      XorStep(a, b);
      XorStep(a, c);
      XorCancel(a / 2, b / 2, c / 2);
    }
  }
}
