/** The length and distance tables of ct_init, and the static codes. */
module CodeTables {
  import opened Bits
  import opened Canonical
  import opened CodeLengths
  import opened Tokens
  import opened Inflate
  import opened BlockFormat
  import opened Trees

  class Tables {
    const lengthCode: array<nat>
    const baseLength: array<nat>
    const distCode: array<nat>
    const baseDist: array<nat>

    ghost predicate Valid()
    {
      && lengthCode.Length == 256 && baseLength.Length == LENGTH_CODES
      && distCode.Length == 512 && baseDist.Length == D_CODES
      && lengthCode != baseLength && distCode != baseDist
      && {lengthCode, baseLength} !! {distCode, baseDist}
    }

    constructor ()
      ensures Valid() && fresh(Arrays()) && allocated(Arrays())
    {
      lengthCode := new nat[256](_ => 0);
      baseLength := new nat[LENGTH_CODES](_ => 0);
      distCode := new nat[512](_ => 0);
      baseDist := new nat[D_CODES](_ => 0);
    }

    ghost function Arrays(): (s: set<object>)
    {
      {lengthCode, baseLength, distCode, baseDist}
    }

    /** D_CODE: the code of a distance, given the distance less 1. */
    function DCode(dist: nat): (c: nat)
      requires Valid() && dist < 0x8000
      reads distCode
    {
      if dist < 256 then distCode[dist] else distCode[256 + dist / 128]
    }

    ghost predicate LengthsReady()
      requires Valid()
      reads lengthCode, baseLength
    {
      && (forall lc | 0 <= lc < 256 :: lengthCode[lc] == LengthCode(lc + MIN_MATCH))
      && (forall c | 0 <= c < LENGTH_CODES - 1 :: baseLength[c] + MIN_MATCH == LengthBase(c))
    }

    ghost predicate DistsReady()
      requires Valid()
      reads distCode, baseDist
    {
      && (forall d | 0 <= d < 0x8000 :: DCode(d) == DistCode(d + 1))
      && (forall c | 0 <= c < D_CODES :: baseDist[c] + 1 == DistBase(c))
    }

    /** The first loops of ct_init: match lengths. */
    method InitLengths()
      requires Valid()
      modifies lengthCode, baseLength
      ensures LengthsReady()
    {
      hide LengthBase, LengthExtra, LengthCode, Pow2;
      LengthStep(0);
      var length := 0;
      for code := 0 to LENGTH_CODES - 1
        invariant length <= 256
        invariant code < LENGTH_CODES - 1 ==> length + MIN_MATCH == LengthBase(code)
        invariant code == LENGTH_CODES - 1 ==> length == 256
        invariant forall lc | 0 <= lc < length && lc < 255 :: lengthCode[lc] == LengthCode(lc + MIN_MATCH)
        invariant forall c | 0 <= c < code :: baseLength[c] + MIN_MATCH == LengthBase(c)
      {
        baseLength[code] := length;
        ghost var start := length;
        LengthRoom(code);
        for n := 0 to Pow2(LengthExtra(code))
          invariant length == start + n
          invariant forall lc | 0 <= lc < length && lc < 255 :: lengthCode[lc] == LengthCode(lc + MIN_MATCH)
          modifies lengthCode
        {
          if length < 255 {
            LengthCodeHere(length + MIN_MATCH, code);
          }
          lengthCode[length] := code;
          length := length + 1;
        }
        LengthStep(code);
      }
      LongestCode();
      lengthCode[length - 1] := LENGTH_CODES - 1;
    }

    /** Afterwards every distance finds its code and every code its base. */
    method InitDists()
      requires Valid()
      modifies distCode, baseDist
      ensures DistsReady()
    {
      hide DistBase, DistCode, Tables.DistsReady;
      InitShortDists();
      InitLongDists();
    }

    /** Distances up to 256, which `distCode` lists one by one. */
    method InitShortDists()
      requires Valid()
      modifies distCode, baseDist
      ensures forall d | 0 <= d < 256 :: distCode[d] == DistCode(d + 1)
      ensures forall c | 0 <= c < 16 :: baseDist[c] + 1 == DistBase(c)
    {
      hide DistBase, DistExtra, DistCode, Pow2;
      DistStep(0);
      DistStep(16);
      var dist := 0;
      for code := 0 to 16
        invariant dist <= 256 && dist + 1 == DistBase(code)
        invariant forall d | 0 <= d < dist :: distCode[d] == DistCode(d + 1)
        invariant forall c | 0 <= c < code :: baseDist[c] + 1 == DistBase(c)
      {
        baseDist[code] := dist;
        ghost var start := dist;
        DistRoom(code, 16);
        for n := 0 to Pow2(DistExtra(code))
          invariant dist == start + n
          invariant forall d | 0 <= d < dist :: distCode[d] == DistCode(d + 1)
          modifies distCode
        {
          DistCodeHere(dist + 1, code);
          distCode[dist] := code;
          dist := dist + 1;
        }
        DistStep(code);
      }
    }

    /** The last table loops of ct_init: from now on distances count in units of 128. */
    method InitLongDists()
      requires Valid()
      requires forall d | 0 <= d < 256 :: distCode[d] == DistCode(d + 1)
      requires forall c | 0 <= c < 16 :: baseDist[c] + 1 == DistBase(c)
      modifies distCode, baseDist
      ensures DistsReady()
    {
      hide DistBase, DistExtra, DistCode, Pow2;
      DistStep(16);
      DistStep(29);
      var dist := 256 / 128;
      for code := 16 to D_CODES
        invariant 2 <= dist <= 256
        invariant code < D_CODES ==> 128 * dist + 1 == DistBase(code)
        invariant code == D_CODES ==> dist == 256
        invariant forall d | 0 <= d < 256 :: distCode[d] == DistCode(d + 1)
        invariant forall d | 256 <= d < 128 * dist :: distCode[256 + d / 128] == DistCode(d + 1)
        invariant forall c | 0 <= c < code :: baseDist[c] + 1 == DistBase(c)
      {
        baseDist[code] := dist * 128;
        ghost var start := dist;
        LongDistRoom(code, dist);
        DistStep(code);
        for n := 0 to Pow2(DistExtra(code) - 7)
          invariant dist == start + n
          invariant forall d | 0 <= d < 256 :: distCode[d] == DistCode(d + 1)
          invariant forall d | 256 <= d < 128 * dist :: distCode[256 + d / 128] == DistCode(d + 1)
          modifies distCode
        {
          forall e | 128 * dist < e <= 128 * dist + 128 ensures DistCode(e) == code {
            DistCodeHere(e, code);
          }
          distCode[256 + dist] := code;
          dist := dist + 1;
        }
      }
    }
  }

  lemma {:induction false} LengthRoom(c: nat)
    requires c < LENGTH_CODES - 1
    ensures LengthBase(c) + Pow2(LengthExtra(c)) <= 259
  {
    hide LengthBase, LengthExtra, Pow2;
    LengthBaseMonotone(c, 28);
    LengthStep(28);
  }

  lemma {:induction false} LengthCodeHere(len: nat, c: nat)
    requires c < LENGTH_CODES - 1 && LengthBase(c) <= len < LengthBase(c) + Pow2(LengthExtra(c)) && len < 258
    ensures LengthCode(len) == c
  {
    hide LengthBase, LengthExtra, Pow2;
    forall k | c < k <= LENGTH_CODES - 1 ensures len < LengthBase(k) {
      LengthBaseMonotone(c, k);
      LengthStep(28);
    }
    LengthCodeUnique(len, c, LENGTH_CODES - 1);
  }

  lemma LongestCode()
    ensures LengthCode(258) == LENGTH_CODES - 1
  {
    LengthStep(28);
  }

  lemma {:induction false} DistRoom(c: nat, k: nat)
    requires c < k < D_CODES
    ensures DistBase(c) + Pow2(DistExtra(c)) <= DistBase(k)
  {
    hide DistBase, DistExtra, Pow2;
    DistBaseMonotone(c, k);
  }

  lemma {:induction false} DistCodeHere(dist: nat, c: nat)
    requires c < D_CODES && DistBase(c) <= dist < DistBase(c) + Pow2(DistExtra(c))
    ensures DistCode(dist) == c
  {
    hide DistBase, DistExtra, Pow2;
    forall k | c < k <= D_CODES - 1 ensures dist < DistBase(k) {
      DistBaseMonotone(c, k);
    }
    DistCodeUnique(dist, c, D_CODES - 1);
  }

  /** The codes from 16 on cover whole units of 128. */
  lemma {:induction false} LongDistRoom(c: nat, dist: nat)
    requires 16 <= c < D_CODES && 128 * dist + 1 == DistBase(c)
    ensures DistExtra(c) >= 7
    ensures Pow2(DistExtra(c)) == 128 * Pow2(DistExtra(c) - 7)
    ensures dist + Pow2(DistExtra(c) - 7) <= 256
  {
    hide DistBase, DistExtra;
    DistStep(c);
    Pow2Seven(DistExtra(c) - 7);
    DistStep(29);
    if c < 29 {
      DistBaseMonotone(c, 29);
    }
  }

  lemma {:induction false} Pow2Seven(n: nat)
    ensures Pow2(n + 7) == 128 * Pow2(n)
  {
    assert Pow2(n + 2) == 2 * Pow2(n + 1) == 4 * Pow2(n);
    assert Pow2(n + 4) == 2 * Pow2(n + 3) == 4 * Pow2(n + 2);
    assert Pow2(n + 7) == 2 * Pow2(n + 6) == 4 * Pow2(n + 5) == 8 * Pow2(n + 4);
  }

  /** The end of ct_init: the static trees. */
  method InitStatic(statL: CtTree, statD: CtTree, blCount: array<ush>)
    requires statL.Valid() && statL.fc.Length == 288 && statD.Valid() && statD.fc.Length == D_CODES
    requires {statL.fc, statL.dl} !! {statD.fc, statD.dl} !! {blCount}
    requires blCount.Length == MAX_BITS + 1 && forall i | 0 <= i <= MAX_BITS :: blCount[i] == 0
    modifies statL.fc, statL.dl, statD.fc, statD.dl, blCount
    ensures statL.Coded(FixedLitLens()) && statD.Coded(FixedDistLens())
  {
    hide Count, Reversed, Code, FixedLitLens, FixedDistLens;
    FillStaticLens(statL.dl);
    blCount[7] := 279 - 255;
    blCount[8] := (143 + 1) + (287 - 279);
    blCount[9] := 255 - 143;
    FixedCounts();
    GenStatic(statL, blCount);
    InitStaticDists(statD);
  }

  /** Afterwards every distance symbol has its five-bit fixed code. */
  method InitStaticDists(statD: CtTree)
    requires statD.Valid() && statD.fc.Length == D_CODES
    modifies statD.fc, statD.dl
    ensures statD.Coded(FixedDistLens())
  {
    hide Code, Reversed;
    FixedDistCodes();
    for n := 0 to D_CODES
      invariant forall i | 0 <= i < n :: statD.dl[i] == FixedDistLens()[i]
      invariant forall i | 0 <= i < n :: statD.fc[i] == Reversed(Code(FixedDistLens(), i), FixedDistLens()[i])
    {
      statD.dl[n] := 5;
      var r := BiReverse(n, 5);
      statD.fc[n] := r;
    }
    assert statD.dl[..D_CODES] == FixedDistLens();
  }

  method FillStaticLens(dl: array<ush>)
    requires dl.Length == 288
    modifies dl
    ensures dl[..] == FixedLitLens()
  {
    var n := 0;
    while n <= 143
      invariant n <= 144 && forall i | 0 <= i < n :: dl[i] == FixedLitLens()[i]
    {
      dl[n] := 8;
      n := n + 1;
    }
    while n <= 255
      invariant 144 <= n <= 256 && forall i | 0 <= i < n :: dl[i] == FixedLitLens()[i]
    {
      dl[n] := 9;
      n := n + 1;
    }
    while n <= 279
      invariant 256 <= n <= 280 && forall i | 0 <= i < n :: dl[i] == FixedLitLens()[i]
    {
      dl[n] := 7;
      n := n + 1;
    }
    while n <= 287
      invariant 280 <= n <= 288 && forall i | 0 <= i < n :: dl[i] == FixedLitLens()[i]
    {
      dl[n] := 8;
      n := n + 1;
    }
  }

  method GenStatic(statL: CtTree, blCount: array<ush>)
    requires statL.Valid() && statL.fc.Length == 288 && blCount !in {statL.fc, statL.dl}
    requires statL.dl[..] == FixedLitLens()
    requires blCount.Length == MAX_BITS + 1 && blCount[0] == 0
    requires forall b | 1 <= b <= MAX_BITS :: blCount[b] == Count(FixedLitLens(), b)
    modifies statL.fc
    ensures statL.Coded(FixedLitLens())
  {
    hide Count, Reversed, Code;
    assert statL.dl[..288] == statL.dl[..];
    assert AllShort(FixedLitLens());
    GenCodes(statL.fc, statL.dl, blCount, L_CODES + 1);
  }

  lemma {:induction false} FixedCounts()
    ensures forall b: nat :: Count(FixedLitLens(), b) == if b == 8 then 152 else if b == 9 then 112
      else if b == 7 then 24 else 0
  {
    hide Count;
    assert FixedLitLens()[..288] == FixedLitLens();
    forall b: nat ensures Count(FixedLitLens(), b) == if b == 8 then 152 else if b == 9 then 112
      else if b == 7 then 24 else 0 {
      FixedLitCount(288, b);
    }
  }

  /** The words of the fixed distance code are the numbers themselves. */
  lemma {:induction false} FixedDistCodes()
    ensures forall n | 0 <= n < D_CODES :: FixedDistLens()[n] == 5 && Code(FixedDistLens(), n) == n
  {
    hide Count;
    var lens := FixedDistLens();
    assert lens[..30] == lens;
    forall b: nat ensures Count(lens, b) == if b == 5 then 30 else 0 {
      FixedDistCount(30, b);
    }
    assert FirstCode(lens, 1) == 0 && FirstCode(lens, 2) == 0 && FirstCode(lens, 3) == 0 && FirstCode(lens, 4) == 0;
    assert FirstCode(lens, 5) == 0;
    forall n | 0 <= n < D_CODES ensures lens[n] == 5 && Code(lens, n) == n {
      FixedDistCount(n, 5);
    }
  }
}
