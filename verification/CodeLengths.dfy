/** The run-length code in which a dynamic block sends its code lengths
    (section 3.2.7 of RFC 1951). */
module CodeLengths {
  import opened Bits
  import opened Canonical
  import opened Options

  const BL_CODES := 19
  const REP_3_6 := 16
  const REPZ_3_10 := 17
  const REPZ_11_138 := 18

  /** What one symbol of the code length alphabet stands for. */
  datatype Run =
    | Length(len: nat)
    | Repeat(count: nat)
    | Zeros(count: nat)
    | ManyZeros(count: nat)

  predicate ValidRun(r: Run)
  {
    match r
    case Length(l) => l <= MAX_BITS
    case Repeat(c) => 3 <= c <= 6
    case Zeros(c) => 3 <= c <= 10
    case ManyZeros(c) => 11 <= c <= 138
  }

  function Symbol(r: Run): (s: nat)
    requires ValidRun(r)
    ensures s < BL_CODES
  {
    match r
    case Length(l) => l
    case Repeat(_) => REP_3_6
    case Zeros(_) => REPZ_3_10
    case ManyZeros(_) => REPZ_11_138
  }

  /** extra_blbits */
  function ExtraBits(s: nat): (x: nat)
    ensures x <= 7
  {
    if s == REP_3_6 then 2 else if s == REPZ_3_10 then 3 else if s == REPZ_11_138 then 7 else 0
  }

  function ExtraValue(r: Run): (v: nat)
    requires ValidRun(r)
    ensures v < Pow2(ExtraBits(Symbol(r)))
  {
    Pow2Constants();
    match r
    case Length(_) => 0
    case Repeat(c) => c - 3
    case Zeros(c) => c - 3
    case ManyZeros(c) => c - 11
  }

  /** Reading a run back from its symbol and extra bits. */
  function RunOf(symbol: nat, extra: nat): (r: Run)
  {
    if symbol == REP_3_6 then Repeat(3 + extra)
    else if symbol == REPZ_3_10 then Zeros(3 + extra)
    else if symbol == REPZ_11_138 then ManyZeros(11 + extra)
    else Length(symbol)
  }

  lemma RunOfSymbol(r: Run)
    requires ValidRun(r)
    ensures RunOf(Symbol(r), ExtraValue(r)) == r
  {
  }

  function Copies(v: nat, n: nat): (s: seq<nat>)
    ensures |s| == n && forall i | 0 <= i < n :: s[i] == v
  {
    seq(n, i => v)
  }

  /** One run decoded after the lengths `acc`. */
  function Expand(r: Run, acc: seq<nat>): (s: Option<seq<nat>>)
  {
    match r
    case Length(l) => Some(acc + [l])
    case Repeat(c) => if acc == [] then None else Some(acc + Copies(acc[|acc| - 1], c))
    case Zeros(c) => Some(acc + Copies(0, c))
    case ManyZeros(c) => Some(acc + Copies(0, c))
  }

  function ExpandAll(rs: seq<Run>, acc: seq<nat>): (s: Option<seq<nat>>)
    ensures rs == [] ==> s == Some(acc)
  {
    if rs == [] then Some(acc)
    else
      var next := Expand(rs[0], acc);
      if next.None? then None else ExpandAll(rs[1..], next.value)
  }

  /** max_count and min_count for a run of `cur` after the length `prev` was sent. */
  function MaxCount(prev: int, cur: nat): (n: nat)
    ensures n > 0
  {
    if cur == 0 then 138 else if prev == cur then 6 else 7
  }

  function MinCount(prev: int, cur: nat): (n: nat)
    ensures n <= MaxCount(prev, cur)
  {
    if cur == 0 || prev == cur then 3 else 4
  }

  /** What is sent for `count` equal lengths `cur`. */
  function Emit(prev: int, cur: nat, count: nat): (rs: seq<Run>)
    requires 0 < count <= MaxCount(prev, cur) && cur <= MAX_BITS
    ensures forall r | r in rs :: ValidRun(r)
  {
    if count < MinCount(prev, cur) then seq(count, i => Length(cur))
    else if cur != 0 then
      if cur != prev then [Length(cur), Repeat(count - 1)] else [Repeat(count)]
    else if count <= 10 then [Zeros(count)]
    else [ManyZeros(count)]
  }

  /** Whether the run of `count` lengths that ends at `n` goes on. */
  predicate Continues(lens: seq<nat>, n: nat, prev: int, count: nat)
    requires n < |lens|
  {
    count < MaxCount(prev, lens[n]) && n + 1 < |lens| && lens[n + 1] == lens[n]
  }

  ghost predicate AllShort(lens: seq<nat>)
  {
    forall i | 0 <= i < |lens| :: lens[i] <= MAX_BITS
  }

  /** The runs sent from position `n` on, when `count` lengths equal to `lens[n]`
      wait and `prev` was the last length sent. */
  function Runs(lens: seq<nat>, n: nat, prev: int, count: nat): (rs: seq<Run>)
    requires n <= |lens| && AllShort(lens)
    requires n < |lens| ==> count < MaxCount(prev, lens[n])
    ensures forall r | r in rs :: ValidRun(r)
    decreases |lens| - n
  {
    if n == |lens| then []
    else if Continues(lens, n, prev, count + 1) then Runs(lens, n + 1, prev, count + 1)
    else Emit(prev, lens[n], count + 1) + Runs(lens, n + 1, lens[n], 0)
  }

  lemma {:induction false} ExpandConcat(a: seq<Run>, b: seq<Run>, acc: seq<nat>, mid: seq<nat>)
    requires ExpandAll(a, acc) == Some(mid)
    ensures ExpandAll(a + b, acc) == ExpandAll(b, mid)
  {
    if a == [] {
      assert a + b == b;
    } else {
      assert (a + b)[1..] == a[1..] + b;
      ExpandConcat(a[1..], b, Expand(a[0], acc).value, mid);
    }
  }

  lemma {:induction false} ExpandLiterals(cur: nat, count: nat, acc: seq<nat>)
    ensures ExpandAll(seq(count, i => Length(cur)), acc) == Some(acc + Copies(cur, count))
    decreases count
  {
    var rs := seq(count, i => Length(cur));
    if count == 0 {
      assert acc + Copies(cur, count) == acc;
    } else {
      assert rs[1..] == seq(count - 1, i => Length(cur));
      ExpandLiterals(cur, count - 1, acc + [cur]);
      assert acc + [cur] + Copies(cur, count - 1) == acc + Copies(cur, count);
    }
  }

  lemma {:induction false} ExpandOne(r: Run, acc: seq<nat>)
    ensures ExpandAll([r], acc) == Expand(r, acc)
  {
    assert [r][1..] == [];
  }

  lemma {:induction false} ExpandEmit(prev: int, cur: nat, count: nat, acc: seq<nat>)
    requires 0 < count <= MaxCount(prev, cur) && cur <= MAX_BITS
    requires prev >= 0 ==> acc != [] && acc[|acc| - 1] == prev
    ensures ExpandAll(Emit(prev, cur, count), acc) == Some(acc + Copies(cur, count))
  {
    var rs := Emit(prev, cur, count);
    if count < MinCount(prev, cur) {
      ExpandLiterals(cur, count, acc);
    } else if cur != 0 && cur != prev {
      assert rs[1..] == [Repeat(count - 1)];
      ExpandOne(Repeat(count - 1), acc + [cur]);
      assert acc + [cur] + Copies(cur, count - 1) == acc + Copies(cur, count);
    } else {
      ExpandOne(rs[0], acc);
    }
  }

  /** The decoder recovers the lengths, whatever it decoded before: in particular
      from nothing, so no repeat refers to what precedes these lengths. */
  lemma {:induction false} ExpandRuns(lens: seq<nat>, n: nat, prev: int, count: nat, acc: seq<nat>)
    requires AllShort(lens)
    requires count <= n <= |lens|
    requires n < |lens| ==> count < MaxCount(prev, lens[n]) && forall k | n - count <= k < n :: lens[k] == lens[n]
    requires n == |lens| ==> count == 0
    requires prev >= 0 ==> acc != [] && acc[|acc| - 1] == prev
    ensures ExpandAll(Runs(lens, n, prev, count), acc) == Some(acc + lens[n - count..])
    decreases |lens| - n
  {
    hide ExpandAll, Emit, MinCount;
    if n == |lens| {
      assert acc + lens[n - count..] == acc;
    } else if Continues(lens, n, prev, count + 1) {
      ExpandRuns(lens, n + 1, prev, count + 1, acc);
    } else {
      var cur, acc' := lens[n], acc + Copies(lens[n], count + 1);
      ExpandEmit(prev, cur, count + 1, acc);
      ExpandRuns(lens, n + 1, cur, 0, acc');
      ExpandConcat(Emit(prev, cur, count + 1), Runs(lens, n + 1, cur, 0), acc, acc');
      assert lens[n - count..] == Copies(cur, count + 1) + lens[n + 1..];
      assert acc + lens[n - count..] == acc' + lens[n + 1..];
    }
  }

  /** How many of the runs use the symbol `s`. */
  function Occurs(rs: seq<Run>, s: nat): (n: nat)
    requires forall r | r in rs :: ValidRun(r)
  {
    if rs == [] then 0
    else Occurs(rs[..|rs| - 1], s) + if Symbol(rs[|rs| - 1]) == s then 1 else 0
  }

  lemma {:induction false} OccursConcat(a: seq<Run>, b: seq<Run>, s: nat)
    requires (forall r | r in a :: ValidRun(r)) && (forall r | r in b :: ValidRun(r))
    ensures Occurs(a + b, s) == Occurs(a, s) + Occurs(b, s)
  {
    if b == [] {
      assert a + b == a;
    } else {
      assert (a + b)[..|a + b| - 1] == a + b[..|b| - 1];
      OccursConcat(a, b[..|b| - 1], s);
    }
  }

  /** What Emit adds to each frequency. */
  lemma {:induction false} OccursEmit(prev: int, cur: nat, count: nat, s: nat)
    requires 0 < count <= MaxCount(prev, cur) && cur <= MAX_BITS
    ensures Occurs(Emit(prev, cur, count), s)
         == if count < MinCount(prev, cur) then (if s == cur then count else 0)
            else if cur != 0 then (if s == cur && cur != prev then 1 else 0) + (if s == REP_3_6 then 1 else 0)
            else if count <= 10 then (if s == REPZ_3_10 then 1 else 0)
            else (if s == REPZ_11_138 then 1 else 0)
  {
    var rs := Emit(prev, cur, count);
    if count < MinCount(prev, cur) {
      OccursLiterals(cur, count, s);
    } else if cur != 0 && cur != prev {
      assert rs == [Length(cur)] + [Repeat(count - 1)];
      OccursConcat([Length(cur)], [Repeat(count - 1)], s);
      assert [Length(cur)][..0] == [] && [Repeat(count - 1)][..0] == [];
    } else {
      assert rs[..0] == [];
    }
  }

  lemma {:induction false} OccursLiterals(cur: nat, count: nat, s: nat)
    requires cur <= MAX_BITS
    ensures Occurs(seq(count, i => Length(cur)), s) == if s == cur then count else 0
    decreases count
  {
    if count > 0 {
      var rs := seq(count, i => Length(cur));
      assert rs[..count - 1] == seq(count - 1, i => Length(cur));
      OccursLiterals(cur, count - 1, s);
    }
  }

  /** Every symbol that the runs use has a word in the code `bl`. */
  ghost predicate CoversRuns(bl: seq<nat>, rs: seq<Run>)
  {
    && |bl| == BL_CODES
    && forall r | r in rs :: ValidRun(r) && bl[Symbol(r)] > 0
  }

  /** A run as sent: its symbol's word in the code `bl`, then its extra bits. */
  function RunBits(bl: seq<nat>, r: Run): (b: BitString)
    requires |bl| == BL_CODES && ValidRun(r)
  {
    Word(bl, Symbol(r)) + ToBits(ExtraValue(r), ExtraBits(Symbol(r)))
  }

  function RunsBits(bl: seq<nat>, rs: seq<Run>): (b: BitString)
    requires |bl| == BL_CODES && forall r | r in rs :: ValidRun(r)
    ensures rs == [] ==> b == []
  {
    if rs == [] then [] else RunsBits(bl, rs[..|rs| - 1]) + RunBits(bl, rs[|rs| - 1])
  }

  lemma {:induction false} RunsBitsConcat(bl: seq<nat>, a: seq<Run>, b: seq<Run>)
    requires |bl| == BL_CODES
    requires (forall r | r in a :: ValidRun(r)) && (forall r | r in b :: ValidRun(r))
    ensures RunsBits(bl, a + b) == RunsBits(bl, a) + RunsBits(bl, b)
  {
    hide RunBits;
    if b == [] {
      assert a + b == a;
    } else {
      assert (a + b)[..|a + b| - 1] == a + b[..|b| - 1];
      RunsBitsConcat(bl, a, b[..|b| - 1]);
    }
  }

  lemma {:induction false} RunsBitsSnoc(bl: seq<nat>, a: seq<Run>, r: Run)
    requires |bl| == BL_CODES && ValidRun(r) && forall q | q in a :: ValidRun(q)
    ensures RunsBits(bl, a + [r]) == RunsBits(bl, a) + RunBits(bl, r)
  {
    assert (a + [r])[..|a|] == a;
  }
}
