/** Canonical Huffman codes (section 3.2.2 of RFC 1951): a code is given by the
    lengths of its words alone, `lens[i]` being the length of the word of symbol
    `i` and 0 meaning that the symbol has none. */
module Canonical {
  import opened Bits
  import opened Options

  const MAX_BITS := 15

  /** How many symbols have a word of length `b` (bl_count). */
  function Count(lens: seq<nat>, b: nat): (n: nat)
  {
    if lens == [] then 0
    else Count(lens[..|lens| - 1], b) + if lens[|lens| - 1] == b then 1 else 0
  }

  /** The value of the first word of length `b` (next_code). */
  function FirstCode(lens: seq<nat>, b: nat): (c: nat)
  {
    if b <= 1 then 0 else 2 * (FirstCode(lens, b - 1) + Count(lens, b - 1))
  }

  /** The value of the word of symbol `i`, most significant bit first. */
  function Code(lens: seq<nat>, i: nat): (c: nat)
    requires i < |lens|
  {
    FirstCode(lens, lens[i]) + Count(lens[..i], lens[i])
  }

  /** The `n` low bits of `v`, most significant first: Huffman codes are packed
      that way (section 3.1.1). */
  function MsbBits(v: nat, n: nat): (b: BitString)
    ensures |b| == n
  {
    if n == 0 then [] else MsbBits(v / 2, n - 1) + [v % 2 == 1]
  }

  function Word(lens: seq<nat>, i: nat): (b: BitString)
    requires i < |lens|
    ensures |b| == lens[i]
  {
    MsbBits(Code(lens, i), lens[i])
  }

  predicate HasWord(lens: seq<nat>, i: nat)
  {
    i < |lens| && lens[i] > 0
  }

  /** Kraft sum in units of 2^-m, over the words of length at most `b`. */
  function KraftTo(lens: seq<nat>, m: nat, b: nat): (k: nat)
    requires b <= m
  {
    if b == 0 then 0 else KraftTo(lens, m, b - 1) + Shl(Count(lens, b), m - b)
  }

  /** The word lengths fit `m` bits and leave room for a prefix code. */
  ghost predicate Decodable(lens: seq<nat>, m: nat)
  {
    && (forall i | 0 <= i < |lens| :: lens[i] <= m)
    && KraftTo(lens, m, m) <= Pow2(m)
  }

  /** No word is a prefix of the word of another symbol. */
  ghost predicate PrefixFree(lens: seq<nat>)
  {
    forall i, j | 0 <= i < |lens| && 0 <= j < |lens| && i != j && lens[i] > 0 && lens[j] > 0 ::
      !(Word(lens, i) <= Word(lens, j))
  }

  lemma {:induction false} KraftMonotone(lens: seq<nat>, m: nat, a: nat, b: nat)
    requires a <= b <= m
    ensures KraftTo(lens, m, a) <= KraftTo(lens, m, b)
  {
    if a < b {
      KraftMonotone(lens, m, a, b - 1);
    }
  }

  /** The words of length `b` start where the shorter ones end. */
  lemma {:induction false} FirstCodeStart(lens: seq<nat>, m: nat, b: nat)
    requires 1 <= b <= m
    ensures Shl(FirstCode(lens, b), m - b) == KraftTo(lens, m, b - 1)
  {
    hide Shl, Count;
    if b == 1 {
      assert Shl(0, m - b) == 0 by { ShlZero(m - b); }
    } else {
      var c, k := FirstCode(lens, b - 1), Count(lens, b - 1);
      FirstCodeStart(lens, m, b - 1);
      ShlAdd(c, k, m - b + 1);
      ShlShl(c + k, 1, m - b);
    }
  }

  lemma {:induction false} CountPrefix(lens: seq<nat>, i: nat, j: nat, b: nat)
    requires i <= j <= |lens|
    ensures Count(lens[..i], b) <= Count(lens[..j], b)
    ensures i < j && lens[i] == b ==> Count(lens[..i], b) < Count(lens[..j], b)
    decreases j
  {
    if i < j {
      assert lens[..j][..j - 1] == lens[..j - 1];
      CountPrefix(lens, i, j - 1, b);
    }
  }

  /** The interval of `m`-bit strings that start with the word of `i`. */
  lemma {:induction false} WordInterval(lens: seq<nat>, m: nat, i: nat)
    requires i < |lens| && 0 < lens[i] <= m
    ensures KraftTo(lens, m, lens[i] - 1) <= Shl(Code(lens, i), m - lens[i])
    ensures Shl(Code(lens, i) + 1, m - lens[i]) <= KraftTo(lens, m, lens[i])
  {
    hide Shl, Count, FirstCode;
    var b, c := lens[i], FirstCode(lens, lens[i]);
    FirstCodeStart(lens, m, b);
    CountPrefix(lens, i, |lens|, b);
    assert lens[..|lens|] == lens;
    ShlMonotone(c, Code(lens, i), m - b);
    ShlMonotone(Code(lens, i) + 1, c + Count(lens, b), m - b);
    ShlAdd(c, Count(lens, b), m - b);
  }

  /** Every word value fits its length. */
  lemma {:induction false} CodeFits(lens: seq<nat>, m: nat, i: nat)
    requires Decodable(lens, m)
    requires i < |lens| && 0 < lens[i]
    ensures Code(lens, i) < Pow2(lens[i])
  {
    var b := lens[i];
    WordInterval(lens, m, i);
    KraftMonotone(lens, m, b, m);
    if Code(lens, i) >= Pow2(b) {
      Pow2Shl(m - b, b);
      ShlMonotone(Pow2(b), Code(lens, i) + 1, m - b);
    }
  }

  /** The first `l` of `l + k` bits carry the value with the last `k` dropped. */
  lemma {:induction false} MsbPrefix(v: nat, l: nat, k: nat)
    ensures MsbBits(v, l + k)[..l] == MsbBits(Shr(v, k), l)
    decreases k
  {
    if k == 0 {
      assert MsbBits(v, l)[..l] == MsbBits(v, l);
    } else {
      MsbPrefix(v / 2, l, k - 1);
      assert MsbBits(v, l + k) == MsbBits(v / 2, l + (k - 1)) + [v % 2 == 1];
    }
  }

  lemma {:induction false} MsbInjective(u: nat, v: nat, n: nat)
    requires u < Pow2(n) && v < Pow2(n)
    requires MsbBits(u, n) == MsbBits(v, n)
    ensures u == v
  {
    if n > 0 {
      var a, b := MsbBits(u, n), MsbBits(v, n);
      assert a[n - 1] == (u % 2 == 1) && b[n - 1] == (v % 2 == 1);
      assert a[..n - 1] == MsbBits(u / 2, n - 1) && b[..n - 1] == MsbBits(v / 2, n - 1);
      MsbInjective(u / 2, v / 2, n - 1);
    }
  }

  lemma {:induction false} ShrInterval(v: nat, c: nat, k: nat)
    requires Shl(c + 1, k) <= v
    ensures c < Shr(v, k)
    decreases k
  {
    if k > 0 {
      ShrInterval(v / 2, c, k - 1);
    }
  }

  lemma {:induction false} ShlCancel(a: nat, b: nat, k: nat)
    requires Shl(a, k) <= Shl(b, k)
    ensures a <= b
  {
    if k > 0 {
      ShlCancel(a, b, k - 1);
    }
  }

  /** A shorter word is not a prefix of a longer one. */
  lemma {:induction false} ShorterNotPrefix(lens: seq<nat>, m: nat, i: nat, j: nat)
    requires Decodable(lens, m)
    requires i < |lens| && j < |lens| && 0 < lens[i] < lens[j]
    ensures !(Word(lens, i) <= Word(lens, j))
  {
    hide Pow2, Shl, Shr, Count, ToBits, KraftTo;
    var l, k := lens[i], lens[j] - lens[i];
    var c, d := Code(lens, i), Code(lens, j);
    WordInterval(lens, m, i);
    WordInterval(lens, m, j);
    KraftMonotone(lens, m, l, lens[j] - 1);
    ShlShl(c + 1, k, m - lens[j]);
    ShlCancel(Shl(c + 1, k), d, m - lens[j]);
    ShrInterval(d, c, k);
    if Word(lens, i) <= Word(lens, j) {
      MsbPrefix(d, l, k);
      CodeFits(lens, m, i);
      CodeFits(lens, m, j);
      assert Shr(d, k) < Pow2(l) by { assert d < Pow2(k + l); ToBitsSplit(d, k, l); }
      MsbInjective(c, Shr(d, k), l);
    }
  }

  lemma {:induction false} SameLengthDiffer(lens: seq<nat>, m: nat, i: nat, j: nat)
    requires Decodable(lens, m)
    requires i < j < |lens| && 0 < lens[i] == lens[j]
    ensures Word(lens, i) != Word(lens, j)
  {
    CountPrefix(lens, i, j, lens[i]);
    CodeFits(lens, m, i);
    CodeFits(lens, m, j);
    if Word(lens, i) == Word(lens, j) {
      MsbInjective(Code(lens, i), Code(lens, j), lens[i]);
    }
  }

  /** Canonical codes whose Kraft sum is at most 1 are prefix codes. */
  lemma {:induction false} CanonicalPrefixFree(lens: seq<nat>, m: nat)
    requires Decodable(lens, m)
    ensures PrefixFree(lens)
  {
    forall i, j | 0 <= i < |lens| && 0 <= j < |lens| && i != j && lens[i] > 0 && lens[j] > 0
      ensures !(Word(lens, i) <= Word(lens, j))
    {
      if lens[i] < lens[j] {
        ShorterNotPrefix(lens, m, i, j);
      } else if lens[i] == lens[j] {
        if i < j {
          SameLengthDiffer(lens, m, i, j);
        } else {
          SameLengthDiffer(lens, m, j, i);
        }
      }
    }
  }


  /** The word `w` starts at bit `pos` of `bits`. */
  predicate At(bits: BitString, pos: nat, w: BitString)
  {
    pos + |w| <= |bits| && bits[pos..pos + |w|] == w
  }

  /** The first symbol, from `i` on, whose word starts at `pos`. */
  function FindSymbol(lens: seq<nat>, bits: BitString, pos: nat, i: nat): (s: Option<nat>)
    requires i <= |lens|
    ensures s.Some? ==> s.value < |lens| && lens[s.value] > 0 && pos + lens[s.value] <= |bits|
    decreases |lens| - i
  {
    if i == |lens| then None
    else if lens[i] > 0 && At(bits, pos, Word(lens, i)) then Some(i)
    else FindSymbol(lens, bits, pos, i + 1)
  }

  /** Reads one symbol of the code at bit `pos`. */
  function ReadSymbol(lens: seq<nat>, bits: BitString, pos: nat): (s: Option<nat>)
    ensures s.Some? ==> s.value < |lens| && lens[s.value] > 0 && pos + lens[s.value] <= |bits|
  {
    FindSymbol(lens, bits, pos, 0)
  }

  /** A prefix code reads back the symbol whose word was written. */
  lemma {:induction false} ReadWritten(lens: seq<nat>, bits: BitString, pos: nat, k: nat, i: nat)
    requires PrefixFree(lens)
    requires i <= k < |lens| && lens[k] > 0 && At(bits, pos, Word(lens, k))
    ensures FindSymbol(lens, bits, pos, i) == Some(k)
    decreases k - i
  {
    if i < k {
      if lens[i] > 0 && At(bits, pos, Word(lens, i)) {
        PrefixesCompare(bits, pos, Word(lens, i), Word(lens, k));
      }
      ReadWritten(lens, bits, pos, k, i + 1);
    }
  }

  lemma PrefixesCompare(bits: BitString, pos: nat, u: BitString, v: BitString)
    requires At(bits, pos, u) && At(bits, pos, v)
    ensures u <= v || v <= u
  {
    if |u| <= |v| {
      assert bits[pos..pos + |v|][..|u|] == bits[pos..pos + |u|];
    } else {
      assert bits[pos..pos + |u|][..|v|] == bits[pos..pos + |v|];
    }
  }

  /** The `len` low bits of `code` in the opposite order. */
  function Reversed(code: nat, len: nat): (r: nat)
    ensures r < Pow2(len)
  {
    FromBits(MsbBits(code, len))
  }

  /** A reversed code, sent least significant bit first, is the code most
      significant bit first. */
  lemma {:induction false} ReversedBits(code: nat, len: nat)
    ensures ToBits(Reversed(code, len), len) == MsbBits(code, len)
  {
    ToFromBits(MsbBits(code, len));
  }

  lemma {:induction false} MsbFront(v: nat, n: nat)
    ensures MsbBits(v, n + 1) == [Shr(v, n) % 2 == 1] + MsbBits(v, n)
    decreases n
  {
    if n == 0 {
      assert MsbBits(v, 1) == MsbBits(v / 2, 0) + [v % 2 == 1];
    } else {
      MsbFront(v / 2, n - 1);
      assert MsbBits(v, n + 1) == MsbBits(v / 2, n) + [v % 2 == 1];
    }
  }

  lemma {:induction false} ReversedStep(code: nat, n: nat)
    ensures Reversed(code, n + 1) == 2 * Reversed(code, n) + Shr(code, n) % 2
  {
    MsbFront(code, n);
    var b := MsbBits(code, n + 1);
    assert b[1..] == MsbBits(code, n);
  }

  lemma {:induction false} MsbMirror(v: nat, n: nat)
    ensures forall i | 0 <= i < n :: MsbBits(v, n)[i] == ToBits(v, n)[n - 1 - i]
    decreases n
  {
    if n > 0 {
      MsbMirror(v / 2, n - 1);
    }
  }

  lemma {:induction false} MsbReversed(code: nat, n: nat)
    ensures MsbBits(Reversed(code, n), n) == ToBits(code, n)
  {
    hide *;
    var r := Reversed(code, n);
    MsbMirror(code, n);
    MsbMirror(r, n);
    ReversedBits(code, n);
    forall i | 0 <= i < n ensures MsbBits(r, n)[i] == ToBits(code, n)[i] {
      assert MsbBits(r, n)[i] == ToBits(r, n)[n - 1 - i];
    }
  }

  /** Reversing twice gives the code back. */
  lemma {:induction false} ReversedInvolution(code: nat, n: nat)
    requires code < Pow2(n)
    ensures Reversed(Reversed(code, n), n) == code
  {
    MsbReversed(code, n);
    FromToBits(code, n);
  }

  /** bi_reverse */
  method BiReverse(code: nat, len: nat) returns (res: nat)
    requires 1 <= len
    ensures res == Reversed(code, len)
  {
    hide Reversed;
    res := 0;
    var c, n := code, len;
    ghost var k: nat := 0;
    assert Reversed(code, 0) == 0;
    while true
      invariant 1 <= n && n + k == len
      invariant c == Shr(code, k) && res == 2 * Reversed(code, k)
      decreases n
    {
      ReversedStep(code, k);
      res := res + c % 2;
      n := n - 1;
      if n <= 0 {
        return;
      }
      ShrShr(code, k, 1);
      assert Shr(c, 1) == c / 2 by { ShrOne(c); }
      c := c / 2;
      res := res * 2;
      k := k + 1;
    }
  }

  lemma {:induction false} ShrOne(v: nat)
    ensures Shr(v, 1) == v / 2
  {
    assert Shr(v / 2, 0) == v / 2;
  }

  /** The first loop of gen_codes: the first word of every length. */
  method FirstCodes(blCount: array<ush>, ghost lens: seq<nat>) returns (nextCode: array<nat>)
    requires blCount.Length == MAX_BITS + 1 && blCount[0] == 0
    requires forall b | 1 <= b <= MAX_BITS :: blCount[b] == Count(lens, b)
    ensures fresh(nextCode) && nextCode.Length == MAX_BITS + 1
    ensures forall b | 1 <= b <= MAX_BITS :: nextCode[b] == NextCode(lens, 0, b)
  {
    nextCode := new nat[MAX_BITS + 1](_ => 0);
    var code: nat := 0;
    for bits := 1 to MAX_BITS + 1
      invariant code == FirstCode(lens, bits - 1) || (bits == 1 && code == 0)
      invariant forall b | 1 <= b < bits :: nextCode[b] == NextCode(lens, 0, b)
      modifies nextCode
    {
      code := (code + blCount[bits - 1]) * 2;
      nextCode[bits] := code;
    }
  }

  lemma ShortFits(len: nat)
    ensures len <= MAX_BITS ==> Pow2(len) <= 0x8000
  {
    if len <= MAX_BITS {
      Pow2Constants();
      Pow2Monotone(len, 15);
    }
  }

  /** gen_codes: `dl` holds the word lengths and `blCount` their statistics; the
      words, bits reversed for the LSB-first writer, go to `fc`. */
  method GenCodes(fc: array<ush>, dl: array<ush>, blCount: array<ush>, maxCode: nat)
    requires maxCode < dl.Length == fc.Length && fc != dl && fc != blCount
    requires blCount.Length == MAX_BITS + 1 && blCount[0] == 0
    requires forall n | 0 <= n <= maxCode :: dl[n] <= MAX_BITS
    requires forall b | 1 <= b <= MAX_BITS :: blCount[b] == Count(dl[..maxCode + 1], b)
    modifies fc
    ensures forall n | 0 <= n <= maxCode ::
              fc[n] == if dl[n] == 0 then old(fc[n]) else Reversed(Code(dl[..maxCode + 1], n), dl[n])
    ensures forall n | maxCode < n < fc.Length :: fc[n] == old(fc[n])
  {
    hide *;
    ghost var lens := dl[..maxCode + 1];
    var nextCode := FirstCodes(blCount, lens);
    for n := 0 to maxCode + 1
      invariant forall b | 1 <= b <= MAX_BITS :: nextCode[b] == NextCode(lens, n, b)
      invariant forall k | 0 <= k < n ::
                  fc[k] == if dl[k] == 0 then old(fc[k]) else Reversed(Code(lens, k), dl[k])
      invariant forall k | n <= k < fc.Length :: fc[k] == old(fc[k])
    {
      var len := dl[n];
      NextCodeStep(lens, n);
      if len != 0 {
        var r := BiReverse(nextCode[len], len);
        ShortFits(len);
        fc[n] := r;
        nextCode[len] := nextCode[len] + 1;
      }
    }
  }

  /** The value of the next word of length `b` once the symbols below `n` have theirs. */
  function NextCode(lens: seq<nat>, n: nat, b: nat): (c: nat)
    requires n <= |lens|
  {
    FirstCode(lens, b) + Count(lens[..n], b)
  }

  lemma {:induction false} NextCodeStep(lens: seq<nat>, n: nat)
    requires n < |lens|
    ensures NextCode(lens, n, lens[n]) == Code(lens, n)
    ensures forall b: nat :: NextCode(lens, n + 1, b) == NextCode(lens, n, b) + if lens[n] == b then 1 else 0
  {
    assert lens[..n + 1][..n] == lens[..n];
  }
}
