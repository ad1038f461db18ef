/** UPDATE_HASH: the running hash key of three consecutive bytes. */
module HashKeys {
  import opened Bits

  const H_SHIFT := 5

  /** `((h << H_SHIFT) ^ c) & HASH_MASK` */
  function UpdateHash(h: nat, c: byte, bits: nat): (k: nat)
    ensures k < Pow2(bits)
  {
    LowBits(Xor(Shl(h, H_SHIFT), c), bits)
  }

  /** The key of a string of three bytes. */
  function Hash3(a: byte, b: byte, c: byte, bits: nat): (k: nat)
  {
    UpdateHash(UpdateHash(UpdateHash(0, a, bits), b, bits), c, bits)
  }

  lemma {:induction false} LowBitsXor(a: nat, b: nat, n: nat)
    ensures LowBits(Xor(a, b), n) == Xor(LowBits(a, n), LowBits(b, n))
    decreases n
  {
    if n > 0 {
      var x := Xor(a, b);
      assert x % 2 == (if a % 2 == b % 2 then 0 else 1) && x / 2 == Xor(a / 2, b / 2) by { XorStep(a, b); }
      LowBitsXor(a / 2, b / 2, n - 1);
      XorStep(LowBits(a, n), LowBits(b, n));
      LowBitsStep(a, n);
      LowBitsStep(b, n);
      LowBitsStep(x, n);
    }
  }

  lemma LowBitsStep(v: nat, n: nat)
    requires n > 0
    ensures LowBits(v, n) % 2 == v % 2 && LowBits(v, n) / 2 == LowBits(v / 2, n - 1)
  {
  }

  lemma {:induction false} LowBitsShl(h: nat, k: nat, n: nat)
    ensures LowBits(Shl(h, k), k + n) == Shl(LowBits(h, n), k)
    decreases k
  {
    if k > 0 {
      LowBitsShl(h, k - 1, n);
      assert Shl(h, k) % 2 == 0 && Shl(h, k) / 2 == Shl(h, k - 1);
      LowBitsStep(Shl(h, k), k + n);
    }
  }

  lemma {:induction false} LowBitsLow(v: nat, m: nat, n: nat)
    requires m <= n
    ensures LowBits(LowBits(v, n), m) == LowBits(v, m)
    decreases m
  {
    if m > 0 {
      LowBitsStep(v, n);
      LowBitsLow(v / 2, m - 1, n - 1);
    }
  }

  /** Keys that agree on `k` low bits agree on H_SHIFT more after an update. */
  lemma {:induction false} UpdateAgrees(g: nat, h: nat, c: byte, bits: nat, k: nat, j: nat)
    requires LowBits(g, k) == LowBits(h, k) && j <= k + H_SHIFT && j <= bits && j >= H_SHIFT
    ensures LowBits(UpdateHash(g, c, bits), j) == LowBits(UpdateHash(h, c, bits), j)
  {
    hide LowBits, Xor, Shl;
    LowBitsLow(Xor(Shl(g, H_SHIFT), c), j, bits);
    LowBitsLow(Xor(Shl(h, H_SHIFT), c), j, bits);
    LowBitsXor(Shl(g, H_SHIFT), c, j);
    LowBitsXor(Shl(h, H_SHIFT), c, j);
    LowBitsShl(g, H_SHIFT, j - H_SHIFT);
    LowBitsShl(h, H_SHIFT, j - H_SHIFT);
    LowBitsLow(g, j - H_SHIFT, k);
    LowBitsLow(h, j - H_SHIFT, k);
  }

  /** Three updates give the key of three bytes, from whatever key they start. */
  lemma {:induction false} Forgets(h: nat, a: byte, b: byte, c: byte, bits: nat)
    requires 2 * H_SHIFT <= bits <= 3 * H_SHIFT
    ensures UpdateHash(UpdateHash(UpdateHash(h, a, bits), b, bits), c, bits) == Hash3(a, b, c, bits)
  {
    hide UpdateHash;
    assert LowBits(h, 0) == LowBits(0, 0);
    UpdateAgrees(h, 0, a, bits, 0, 5);
    var h1, g1 := UpdateHash(h, a, bits), UpdateHash(0, a, bits);
    UpdateAgrees(h1, g1, b, bits, 5, 10);
    var h2, g2 := UpdateHash(h1, b, bits), UpdateHash(g1, b, bits);
    UpdateAgrees(h2, g2, c, bits, 10, bits);
    LowBitsFit(UpdateHash(h2, c, bits), bits);
    LowBitsFit(UpdateHash(g2, c, bits), bits);
  }

  /** The key in one formula. */
  lemma {:induction false} KeyIs(a: byte, b: byte, c: byte, bits: nat)
    requires 8 <= bits
    ensures Hash3(a, b, c, bits) == LowBits(Xor(Shl(Xor(Shl(a, 5), b), 5), c), bits)
  {
    hide LowBits, Xor, Shl;
    Pow2Constants();
    Pow2Monotone(8, bits);
    LowBitsFit(a, bits);
    ShlZero(5);
    XorNone(a);
    var x := Xor(Shl(a, 5), b);
    LowBitsXor(Shl(LowBits(x, bits), 5), c, bits);
    LowBitsXor(Shl(x, 5), c, bits);
    LowBitsShl(LowBits(x, bits), 5, bits - 5);
    LowBitsShl(x, 5, bits - 5);
    LowBitsLow(x, bits - 5, bits);
  }

  lemma {:induction false} XorNone(a: nat)
    ensures Xor(0, a) == a
  {
    if a > 0 {
      XorStep(0, a);
      XorNone(a / 2);
    }
  }

  lemma {:induction false} ShlZero(k: nat)
    ensures Shl(0, k) == 0
  {
    if k > 0 {
      ShlZero(k - 1);
    }
  }

  /** Equal keys and two equal bytes make the third byte equal. */
  lemma {:induction false} ThirdByte(a: byte, b: byte, c: byte, d: byte, bits: nat)
    requires 8 <= bits && Hash3(a, b, c, bits) == Hash3(a, b, d, bits)
    ensures c == d
  {
    hide LowBits, Xor, Shl;
    var x := Shl(UpdateHash(UpdateHash(0, a, bits), b, bits), H_SHIFT);
    LowBitsXor(x, c, bits);
    LowBitsXor(x, d, bits);
    Pow2Constants();
    Pow2Monotone(8, bits);
    LowBitsFit(c, bits);
    LowBitsFit(d, bits);
    XorCancel(LowBits(x, bits), c, d);
  }
}
