/** gen_bitlen's repair of codes that are too long: the counts per length are
    changed until they fit, then the lengths are dealt out again. */
module LengthLimit {
  import opened Bits

  /** The Kraft sum of `count[b]` words of each length up to `b`, in units of 2^-m. */
  ghost function CountKraft(count: seq<nat>, m: nat, b: nat): (k: nat)
    requires b <= m < |count|
  {
    if b == 0 then 0 else CountKraft(count, m, b - 1) + Shl(count[b], m - b)
  }

  /** How many words have a length from 1 to `b`. */
  ghost function CountTo(count: seq<nat>, b: nat): (n: nat)
    requires b < |count|
  {
    if b == 0 then 0 else CountTo(count, b - 1) + count[b]
  }

  lemma {:induction false} CountKraftFrame(count: seq<nat>, count': seq<nat>, m: nat, b: nat)
    requires b <= m < |count| && m < |count'| && forall i | 1 <= i <= b :: count[i] == count'[i]
    ensures CountKraft(count, m, b) == CountKraft(count', m, b)
    ensures CountTo(count, b) == CountTo(count', b)
  {
    if b > 0 {
      CountKraftFrame(count, count', m, b - 1);
    }
  }

  lemma {:induction false} CountKraftUpdate(count: seq<nat>, m: nat, b: nat, i: nat, v: nat)
    requires 1 <= i <= b <= m < |count|
    ensures CountKraft(count[i := v], m, b) + Shl(count[i], m - i) == CountKraft(count, m, b) + Shl(v, m - i)
    ensures CountTo(count[i := v], b) + count[i] == CountTo(count, b) + v
  {
    hide Shl;
    if i == b {
      CountKraftFrame(count, count[i := v], m, b - 1);
    } else {
      CountKraftUpdate(count, m, b - 1, i, v);
    }
  }

  lemma {:induction false} ShlPlus(v: nat, n: nat)
    ensures Shl(v + 1, n) == Shl(v, n) + Pow2(n)
  {
    ShlAdd(v, 1, n);
    ShlOne(n);
  }

  lemma {:induction false} ShlOne(n: nat)
    ensures Shl(1, n) == Pow2(n)
  {
    if n > 0 {
      ShlOne(n - 1);
    }
  }

  lemma {:induction false} OnlyLongest(count: seq<nat>, m: nat, b: nat)
    requires b < m < |count| && forall i | 1 <= i <= b :: count[i] == 0
    ensures CountKraft(count, m, b) == 0 && CountTo(count, b) == 0
  {
    if b > 0 {
      OnlyLongest(count, m, b - 1);
      ShlZero(m - b);
    }
  }

  /** What the repair loop keeps: the excess is half the overflow and there are
      enough words of the maximum length to take it from. */
  ghost predicate Repairing(count: seq<nat>, m: nat, overflow: int, total: nat)
  {
    && 1 <= m < |count| && overflow >= 0 && total <= Pow2(m)
    && 2 * CountKraft(count, m, m) == 2 * Pow2(m) + overflow
    && CountTo(count, m) == total
    && 2 * count[m] >= overflow + 2
    && count[0] == 0
  }

  /** If words are too many there is a word shorter than the maximum. */
  lemma {:induction false} ShorterExists(count: seq<nat>, m: nat, overflow: int, total: nat)
    requires Repairing(count, m, overflow, total) && overflow > 0
    ensures exists b :: 1 <= b < m && count[b] > 0
  {
    hide Shl;
    if forall b | 1 <= b < m :: count[b] == 0 {
      OnlyLongest(count, m, m - 1);
    }
  }

  /** One repair: a word of length `b` gets a brother and one word moves up from the maximum. */
  function Repaired(count: seq<nat>, m: nat, b: nat): (r: seq<nat>)
    requires 1 <= b < m < |count| && count[b] > 0 && count[m] > 0
    ensures |r| == |count|
  {
    var c1 := count[b := count[b] - 1];
    var c2 := c1[b + 1 := c1[b + 1] + 2];
    c2[m := c2[m] - 1]
  }

  lemma {:induction false} RepairStep(count: seq<nat>, m: nat, overflow: int, total: nat, b: nat)
    requires Repairing(count, m, overflow, total) && overflow > 0
    requires 1 <= b < m && count[b] > 0
    ensures count[m] > 0
    ensures overflow >= 2 && Repairing(Repaired(count, m, b), m, overflow - 2, total)
  {
    hide Shl, CountKraft, CountTo;
    var c1 := count[b := count[b] - 1];
    var c2 := c1[b + 1 := c1[b + 1] + 2];
    var c3 := c2[m := c2[m] - 1];
    CountKraftUpdate(count, m, m, b, count[b] - 1);
    CountKraftUpdate(c1, m, m, b + 1, c1[b + 1] + 2);
    CountKraftUpdate(c2, m, m, m, c2[m] - 1);
    ShlPlus(count[b] - 1, m - b);
    ShlPlus(c1[b + 1], m - b - 1);
    ShlPlus(c1[b + 1] + 1, m - b - 1);
    assert Shl(c2[m], 0) == c2[m] && Shl(c2[m] - 1, 0) == c2[m] - 1;
    assert Pow2(m - b) == 2 * Pow2(m - b - 1);
  }

  lemma {:induction false} CountAmong(count: seq<nat>, m: nat, b: nat)
    requires 1 <= b <= m < |count|
    ensures count[b] <= CountTo(count, m)
  {
    if b < m {
      CountAmong(count, m - 1, b);
    }
  }

  /** No count outgrows 16 bits. */
  lemma RepairFits(count: seq<nat>, m: nat, overflow: int, total: nat, b: nat)
    requires Repairing(count, m, overflow, total) && m <= 15 && 1 <= b <= m
    ensures count[b] + 2 <= 0xffff
  {
    CountAmong(count, m, b);
    Pow2Constants();
    Pow2Monotone(m, 15);
  }

  /** The last length up to `b` that occurs, 0 if none does. */
  function LastCounted(c: seq<nat>, b: nat): (r: nat)
    requires b < |c|
    ensures r <= b && forall k | r < k <= b :: c[k] == 0
  {
    if b == 0 || c[b] > 0 then b else LastCounted(c, b - 1)
  }

  /** The counts after all repairs: again and again the longest word below the maximum that there is becomes two words
      of one bit more, one of them taken from the maximum. */
  function AllRepaired(c: seq<nat>, m: nat, overflow: int): (r: seq<nat>)
    requires 0 < m < |c|
    ensures |r| == |c|
    decreases overflow
  {
    if overflow <= 0 then c
    else
      var b := LastCounted(c, m - 1);
      var moved := c[b := if c[b] > 0 then c[b] - 1 else 0][b + 1 := c[b + 1] + 2];
      AllRepaired(moved[m := if moved[m] > 0 then moved[m] - 1 else 0], m, overflow - 2)
  }

  lemma {:induction false} FoundLast(c: seq<nat>, b: nat, k: nat)
    requires k <= b < |c| && c[k] > 0 && forall i | k < i <= b :: c[i] == 0
    ensures LastCounted(c, b) == k
  {
    if k < b {
      FoundLast(c, b - 1, k);
    }
  }

  lemma {:induction false} RepairNext(c: seq<nat>, m: nat, overflow: int, b: nat)
    requires overflow > 0 && 1 <= b < m < |c| && c[b] > 0 && c[m] > 0 && forall i | b < i < m :: c[i] == 0
    ensures AllRepaired(Repaired(c, m, b), m, overflow - 2) == AllRepaired(c, m, overflow)
  {
    hide LastCounted;
    FoundLast(c, m - 1, b);
  }

  lemma NoRepair(c: seq<nat>, m: nat)
    requires 0 < m < |c|
    ensures AllRepaired(c, m, 0) == c
  {
  }

  /** The repair loop of gen_bitlen. */
  method Repair(blCount: array<ush>, maxLength: nat, overflow0: int, ghost total: nat)
    requires maxLength < blCount.Length && maxLength <= 15 && overflow0 > 0
    requires Repairing(blCount[..], maxLength, overflow0, total)
    modifies blCount
    ensures Repairing(blCount[..], maxLength, 0, total)
    ensures blCount[..] == AllRepaired(old(blCount[..]), maxLength, overflow0)
    ensures forall b | maxLength < b < blCount.Length :: blCount[b] == old(blCount[b])
  {
    hide CountKraft, CountTo, Shl, Pow2, AllRepaired;
    var overflow := overflow0;
    while overflow > 0
      invariant overflow >= 0 && Repairing(blCount[..], maxLength, overflow, total)
      invariant AllRepaired(blCount[..], maxLength, overflow) == AllRepaired(old(blCount[..]), maxLength, overflow0)
      invariant forall b | maxLength < b < blCount.Length :: blCount[b] == old(blCount[b])
    {
      ShorterExists(blCount[..], maxLength, overflow, total);
      var bits := maxLength - 1;
      while blCount[bits] == 0
        invariant 1 <= bits < maxLength
        invariant exists b :: 1 <= b <= bits && blCount[b] > 0
        invariant forall b | bits < b < maxLength :: blCount[b] == 0
        decreases bits
      {
        bits := bits - 1;
      }
      RepairStep(blCount[..], maxLength, overflow, total, bits);
      RepairFits(blCount[..], maxLength, overflow, total, bits + 1);
      RepairNext(blCount[..], maxLength, overflow, bits);
      ghost var c: seq<nat> := blCount[..];
      blCount[bits] := blCount[bits] - 1;
      blCount[bits + 1] := blCount[bits + 1] + 2;
      blCount[maxLength] := blCount[maxLength] - 1;
      assert blCount[..] == Repaired(c, maxLength, bits);
      overflow := overflow - 2;
    }
    NoRepair(blCount[..], maxLength);
  }

  // ----- dealing the lengths out again -----

  /** The sum of `w` over the nodes at places `q` and above. */
  ghost function TailSum(h: seq<nat>, w: seq<nat>, q: nat): (s: nat)
    requires q <= |h| && forall i | q <= i < |h| :: h[i] < |w|
    decreases |h| - q
  {
    if q == |h| then 0 else w[h[q]] + TailSum(h, w, q + 1)
  }

  lemma {:induction false} TailSumFrame(h: seq<nat>, v: seq<nat>, w: seq<nat>, q: nat)
    requires q <= |h| && |v| == |w| && forall i | q <= i < |h| :: h[i] < |w| && v[h[i]] == w[h[i]]
    ensures TailSum(h, v, q) == TailSum(h, w, q)
    decreases |h| - q
  {
    if q < |h| {
      TailSumFrame(h, v, w, q + 1);
    }
  }

  lemma {:induction false} TailSumMonotone(h: seq<nat>, w: seq<nat>, p: nat, q: nat)
    requires p <= q <= |h| && forall i | p <= i < |h| :: h[i] < |w|
    ensures TailSum(h, w, p) >= TailSum(h, w, q)
    ensures TailSum(h, w, p) == TailSum(h, w, q) ==> forall i | p <= i < q :: w[h[i]] == 0
    decreases q - p
  {
    if p < q {
      TailSumMonotone(h, w, p + 1, q);
    }
  }

  /** Which nodes are symbols. */
  function IsLeaf(maxCode: nat, size: nat): (w: seq<nat>)
    ensures |w| == size
  {
    seq(size, x requires 0 <= x => if x <= maxCode then 1 else 0)
  }

  /** Which nodes are symbols of length `b`. */
  function LeafWith(maxCode: nat, dl: seq<nat>, b: nat): (w: seq<nat>)
    ensures |w| == |dl|
  {
    seq(|dl|, x requires 0 <= x < |dl| => if x <= maxCode && dl[x] == b then 1 else 0)
  }

  /** The weighted length of the symbols. */
  ghost function LeafCost(maxCode: nat, fc: seq<nat>, dl: seq<nat>): (w: seq<nat>)
    requires |dl| == |fc|
    ensures |w| == |dl|
  {
    seq(|dl|, x requires 0 <= x < |dl| => if x <= maxCode then fc[x] * dl[x] else 0)
  }

  /** How many words are longer than `b`. */
  ghost function CountAbove(count: seq<nat>, m: nat, b: nat): (n: nat)
    requires b <= m < |count|
    decreases m - b
  {
    if b == m then 0 else count[b + 1] + CountAbove(count, m, b + 1)
  }

  lemma {:induction false} CountAboveTo(count: seq<nat>, m: nat, b: nat)
    requires b <= m < |count|
    ensures CountAbove(count, m, b) + CountTo(count, b) == CountTo(count, m)
    decreases m - b
  {
    if b < m {
      CountAboveTo(count, m, b + 1);
    }
  }

  /** The places of the tree nodes below the heap's end, none twice. */
  ghost predicate Places(h: seq<nat>, lo: nat, size: nat)
  {
    && lo <= |h|
    && (forall i | lo <= i < |h| :: h[i] < size)
    && (forall i, j | lo <= i < j < |h| :: h[i] != h[j])
  }

  /** Everything from place `q` on has been dealt: `left` words of length `bits` remain. */
  ghost predicate Dealing(h: seq<nat>, lo: nat, q: nat, maxCode: nat, dl: seq<nat>, was: seq<nat>, count: seq<nat>,
                          m: nat, bits: nat, left: nat)
  {
    && Places(h, lo, |dl|) && lo <= q <= |h| && |was| == |dl|
    && 1 <= m < |count| && bits <= m && left <= count[bits]
    && TailSum(h, IsLeaf(maxCode, |dl|), lo) == CountTo(count, m)
    && TailSum(h, IsLeaf(maxCode, |dl|), q) == CountAbove(count, m, bits) + (count[bits] - left)
    && (forall b | 1 <= b <= m :: TailSum(h, LeafWith(maxCode, dl, b), q)
          == if b > bits then count[b] else if b == bits then count[b] - left else 0)
    && (forall i | q <= i < |h| && h[i] <= maxCode :: 1 <= dl[h[i]] && bits <= dl[h[i]] <= m)
    && (forall i, j | q <= i < j < |h| && h[i] <= maxCode && h[j] <= maxCode :: dl[h[i]] <= dl[h[j]])
    && (forall i | lo <= i < q :: dl[h[i]] == was[h[i]])
    && (forall x | 0 <= x < |dl| && (x > maxCode || x !in h[lo..]) :: dl[x] == was[x])
  }

  lemma {:induction false} DealStart(h: seq<nat>, lo: nat, maxCode: nat, dl: seq<nat>, count: seq<nat>, m: nat)
    requires Places(h, lo, |dl|) && 1 <= m < |count|
    requires TailSum(h, IsLeaf(maxCode, |dl|), lo) == CountTo(count, m)
    ensures Dealing(h, lo, |h|, maxCode, dl, dl, count, m, m, count[m])
  {
  }

  lemma {:induction false} DealSkip(h: seq<nat>, lo: nat, q: nat, maxCode: nat, dl: seq<nat>, was: seq<nat>,
                                    count: seq<nat>, m: nat, bits: nat, left: nat)
    requires Dealing(h, lo, q, maxCode, dl, was, count, m, bits, left) && lo < q && h[q - 1] > maxCode
    ensures Dealing(h, lo, q - 1, maxCode, dl, was, count, m, bits, left)
  {
  }

  lemma {:induction false} DealShorter(h: seq<nat>, lo: nat, q: nat, maxCode: nat, dl: seq<nat>, was: seq<nat>,
                                       count: seq<nat>, m: nat, bits: nat)
    requires Dealing(h, lo, q, maxCode, dl, was, count, m, bits, 0) && 1 <= bits
    ensures Dealing(h, lo, q, maxCode, dl, was, count, m, bits - 1, count[bits - 1])
  {
    hide TailSum;
  }

  /** While words are left to deal there are symbols left to get them. */
  lemma {:induction false} DealRoom(h: seq<nat>, lo: nat, q: nat, maxCode: nat, dl: seq<nat>, was: seq<nat>,
                                    count: seq<nat>, m: nat, bits: nat, left: nat)
    requires Dealing(h, lo, q, maxCode, dl, was, count, m, bits, left) && 1 <= bits && left > 0
    ensures lo < q
  {
    hide TailSum;
    CountAboveTo(count, m, bits);
  }

  lemma {:induction false} DealCounts(h: seq<nat>, q: nat, maxCode: nat, dl: seq<nat>, bits: nat, b: nat)
    requires 1 <= q <= |h| && (forall i | q - 1 <= i < |h| :: h[i] < |dl|)
      && (forall j | q <= j < |h| :: h[q - 1] != h[j])
    requires h[q - 1] <= maxCode
    ensures var x := h[q - 1];
            TailSum(h, LeafWith(maxCode, dl[x := bits], b), q - 1)
            == TailSum(h, LeafWith(maxCode, dl, b), q) + if b == bits then 1 else 0
  {
    var x := h[q - 1];
    TailSumFrame(h, LeafWith(maxCode, dl, b), LeafWith(maxCode, dl[x := bits], b), q);
  }

  lemma {:induction false} DealOne(h: seq<nat>, lo: nat, q: nat, maxCode: nat, dl: seq<nat>, was: seq<nat>,
                                   count: seq<nat>, m: nat, bits: nat, left: nat)
    requires Dealing(h, lo, q, maxCode, dl, was, count, m, bits, left) && 1 <= bits && left > 0
    requires lo < q && h[q - 1] <= maxCode
    ensures Dealing(h, lo, q - 1, maxCode, dl[h[q - 1] := bits], was, count, m, bits, left - 1)
  {
    hide LeafWith, CountAbove, CountTo;
    var x := h[q - 1];
    var dl' := dl[x := bits];
    forall b | 1 <= b <= m
      ensures TailSum(h, LeafWith(maxCode, dl', b), q - 1)
           == if b > bits then count[b] else if b == bits then count[b] - (left - 1) else 0
    {
      DealCounts(h, q, maxCode, dl, bits, b);
    }
    assert x == h[lo..][q - 1 - lo];
  }

  lemma {:induction false} DealOneCost(h: seq<nat>, lo: nat, q: nat, maxCode: nat, fc: seq<nat>, dl: seq<nat>,
                                       was: seq<nat>, bits: nat)
    requires Places(h, lo, |dl|) && lo < q <= |h| && |fc| == |dl| == |was| && h[q - 1] <= maxCode
      && dl[h[q - 1]] == was[h[q - 1]]
    ensures var x := h[q - 1];
            TailSum(h, LeafCost(maxCode, fc, dl[x := bits]), q - 1) - TailSum(h, LeafCost(maxCode, fc, was), q - 1)
            == TailSum(h, LeafCost(maxCode, fc, dl), q) - TailSum(h, LeafCost(maxCode, fc, was), q)
              + (bits - dl[x]) * fc[x]
  {
    var x := h[q - 1];
    TailSumFrame(h, LeafCost(maxCode, fc, dl), LeafCost(maxCode, fc, dl[x := bits]), q);
    Spread(bits, dl[x], fc[x]);
  }

  lemma Spread(a: nat, b: nat, f: nat)
    ensures (a - b) * f == f * a - f * b
  {
  }

  lemma {:induction false} DealEnd(h: seq<nat>, lo: nat, q: nat, maxCode: nat, dl: seq<nat>, was: seq<nat>,
                                   count: seq<nat>, m: nat)
    requires Dealing(h, lo, q, maxCode, dl, was, count, m, 0, 0) && count[0] == 0
    ensures forall i | lo <= i < q :: h[i] > maxCode
  {
    CountAboveTo(count, m, 0);
    TailSumMonotone(h, IsLeaf(maxCode, |dl|), lo, q);
    forall i | lo <= i < q ensures h[i] > maxCode {
      assert IsLeaf(maxCode, |dl|)[h[i]] == 0;
    }
  }

  /** The second loop of gen_bitlen: recomputes all lengths, the longest going to
      the symbols of least frequency. Returns the change of opt_len. */
  method Reassign(heap: array<nat>, lo: nat, fc: array<ush>, dl: array<ush>, blCount: array<ush>, maxCode: nat,
                  maxLength: nat)
    returns (delta: int, ghost end: nat)
    requires fc.Length == dl.Length && heap as object != dl && fc != dl && blCount != dl && maxLength <= 0xffff
    requires Places(heap[..], lo, dl.Length) && 1 <= maxLength < blCount.Length && blCount[0] == 0
    requires TailSum(heap[..], IsLeaf(maxCode, dl.Length), lo) == CountTo(blCount[..], maxLength)
    modifies dl
    ensures Dealing(heap[..], lo, end, maxCode, dl[..], old(dl[..]), blCount[..], maxLength, 0, 0)
    ensures forall i | lo <= i < end :: heap[i] > maxCode
    ensures delta == TailSum(heap[..], LeafCost(maxCode, fc[..], dl[..]), end)
                     - TailSum(heap[..], LeafCost(maxCode, fc[..], old(dl[..])), end)
  {
    hide TailSum, CountTo, CountAbove, LeafCost;
    ghost var h, f, was, count := heap[..], fc[..], dl[..], blCount[..];
    var q, bits := heap.Length, maxLength;
    delta := 0;
    DealStart(h, lo, maxCode, was, count, maxLength);
    assert TailSum(h, LeafCost(maxCode, f, was), q) - TailSum(h, LeafCost(maxCode, f, was), q) == 0;
    while bits != 0
      invariant 0 <= bits <= maxLength && 0 <= q <= heap.Length
      invariant Dealing(h, lo, q, maxCode, dl[..], was, count, maxLength, bits, count[bits])
      invariant delta == TailSum(h, LeafCost(maxCode, f, dl[..]), q) - TailSum(h, LeafCost(maxCode, f, was), q)
    {
      q, delta := DealLength(heap, lo, fc, dl, blCount[bits], maxCode, bits, q, delta, was, count, maxLength);
      DealShorter(h, lo, q, maxCode, dl[..], was, count, maxLength, bits);
      bits := bits - 1;
    }
    DealEnd(h, lo, q, maxCode, dl[..], was, count, maxLength);
    end := q;
  }

  /** Gives length `bits` to the next `left0` symbols. */
  method DealLength(heap: array<nat>, lo: nat, fc: array<ush>, dl: array<ush>, left0: nat, maxCode: nat, bits: nat,
                    q0: nat, delta0: int,
                    ghost was: seq<nat>, ghost count: seq<nat>, ghost m: nat) returns (q: nat, delta: int)
    requires fc.Length == dl.Length && heap as object != dl && fc != dl && 1 <= bits <= 0xffff
    requires Dealing(heap[..], lo, q0, maxCode, dl[..], was, count, m, bits, left0)
    requires delta0 == TailSum(heap[..], LeafCost(maxCode, fc[..], dl[..]), q0)
                       - TailSum(heap[..], LeafCost(maxCode, fc[..], was), q0)
    modifies dl
    ensures q <= heap.Length
    ensures Dealing(heap[..], lo, q, maxCode, dl[..], was, count, m, bits, 0)
    ensures delta == TailSum(heap[..], LeafCost(maxCode, fc[..], dl[..]), q)
                     - TailSum(heap[..], LeafCost(maxCode, fc[..], was), q)
  {
    hide TailSum, CountTo, CountAbove, LeafCost, IsLeaf, LeafWith, Dealing, Places;
    ghost var h, f := heap[..], fc[..];
    var left := left0;
    DealFacts(h, lo, q0, maxCode, dl[..], was, count, m, bits, left);
    q, delta := q0, delta0;
    while left != 0
      invariant lo <= q <= heap.Length
      invariant Dealing(h, lo, q, maxCode, dl[..], was, count, m, bits, left)
      invariant delta == TailSum(h, LeafCost(maxCode, f, dl[..]), q) - TailSum(h, LeafCost(maxCode, f, was), q)
      decreases q
    {
      DealFacts(h, lo, q, maxCode, dl[..], was, count, m, bits, left);
      DealRoom(h, lo, q, maxCode, dl[..], was, count, m, bits, left);
      q := q - 1;
      var x := heap[q];
      if x > maxCode {
        DealSkip(h, lo, q + 1, maxCode, dl[..], was, count, m, bits, left);
        SkipCost(h, q, maxCode, f, dl[..]);
        SkipCost(h, q, maxCode, f, was);
        continue;
      }
      DealOne(h, lo, q + 1, maxCode, dl[..], was, count, m, bits, left);
      DealOneCost(h, lo, q + 1, maxCode, f, dl[..], was, bits);
      ghost var before: seq<nat> := dl[..];
      if dl[x] != bits {
        delta := delta + (bits - dl[x]) * fc[x];
        dl[x] := bits;
      }
      assert dl[..] == before[x := bits];
      left := left - 1;
    }
  }

  lemma DealFacts(h: seq<nat>, lo: nat, q: nat, maxCode: nat, dl: seq<nat>, was: seq<nat>, count: seq<nat>, m: nat,
                  bits: nat, left: nat)
    requires Dealing(h, lo, q, maxCode, dl, was, count, m, bits, left)
    ensures Places(h, lo, |dl|) && lo <= q <= |h| && |was| == |dl|
    ensures forall i | lo <= i < |h| :: h[i] < |dl|
    ensures forall i | lo <= i < q :: dl[h[i]] == was[h[i]]
  {
  }

  lemma {:induction false} SkipCost(h: seq<nat>, q: nat, maxCode: nat, fc: seq<nat>, dl: seq<nat>)
    requires q < |h| && |fc| == |dl| && (forall i | q <= i < |h| :: h[i] < |dl|) && h[q] > maxCode
    ensures TailSum(h, LeafCost(maxCode, fc, dl), q) == TailSum(h, LeafCost(maxCode, fc, dl), q + 1)
  {
  }
}
