/** What the pass of lzo1x_optimize makes of whole blocks, byte for byte: the three rewrites where they apply. */
module LzoBlocks {
  import opened Bits
  import opened Options
  import opened BackCopy
  import opened Lzo1x
  import opened LzoRewrites
  import opened LzoCode
  import opened LzoPass

  const END: seq<byte> := [17, 0, 0]

  /** A run of 4 to 18 literals. */
  function RunBytes(lits: seq<byte>): (s: seq<byte>)
    requires 4 <= |lits| <= 18
    ensures |s| == 1 + |lits|
  {
    [|lits| - 3] + lits
  }

  lemma StandsIn(b: seq<byte>, pre: seq<byte>, w: seq<byte>, rest: seq<byte>)
    requires b == pre + w + rest
    ensures Stands(b, |pre|, w)
  {
  }

  lemma {:induction false} StepRun(p: Pass, pre: seq<byte>, lits: seq<byte>, rest: seq<byte>)
    requires 4 <= |lits| <= 18 && p.b == pre + RunBytes(lits) + rest && p.ip == |pre| && p.st == Run
    ensures PassRun(p) == PassRun(Pass(p.b, Lits, |pre| + 1 + |lits|, p.out + lits, |pre|, |lits|))
  {
    hide PassMatch, ParseMatch;
    assert p.b[p.ip] == |lits| - 3;
    assert p.b[p.ip + 1..p.ip + 1 + |lits|] == lits;
  }

  /** The bytes of a match. */
  lemma {:induction false} StepMatch(p: Pass, pre: seq<byte>, len: nat, dist: nat, nl: nat, rest: seq<byte>)
    requires Codable(p.st, len, dist) && nl < 4 && dist <= |p.out| && rest != []
    requires p.b == pre + MatchBytes(p.st, len, dist, nl) + rest && p.ip == |pre|
    ensures var end := |pre| + |MatchBytes(p.st, len, dist, nl)|;
      && end < |p.b| && p.b[end - 2] % 4 == nl && p.b[end..] == rest
      && PassStep(p) == PassMatch(p, len, dist, end)
  {
    hide PassMatch, ParseMatch, MatchBytes;
    var w := MatchBytes(p.st, len, dist, nl);
    StandsIn(p.b, pre, w, rest);
    CodeReads(p.b, p.st, p.ip, len, dist, nl);
    CodeShape(p.st, len, dist, nl);
    assert p.b[p.ip] == w[0] && p.b[p.ip + |w| - 2] == w[|w| - 2];
  }

  /** The end code. */
  lemma {:induction false} StepEnd(p: Pass, pre: seq<byte>)
    requires p.b == pre + END && p.ip == |pre|
    ensures PassRun(p) == p
  {
    hide PassMatch, TakenRun;
    assert p.b[p.ip] == 17 && p.b[p.ip + 1] == 0 && p.b[p.ip + 2] == 0;
  }

  lemma RunStep(p: Pass, next: Pass)
    requires PassStep(p) == Some(next)
    ensures PassRun(p) == PassRun(next)
  {
  }

  /** The run at the very beginning. */
  lemma {:induction false} FirstRun(b: seq<byte>, lits: seq<byte>, rest: seq<byte>)
    requires 4 <= |lits| <= 18 && b == RunBytes(lits) + rest
    ensures PassRun(PassBegin(b)) == PassRun(Pass(b, Lits, 1 + |lits|, lits, 0, |lits|))
  {
    hide PassRun;
    assert b == [] + RunBytes(lits) + rest && b[0] == |lits| - 3 && [] + lits == lits;
    StepRun(Pass(b, Run, 0, [], -1, 0), [], lits, rest);
  }

  lemma Grouped(a: seq<byte>, b: seq<byte>, c: seq<byte>, d: seq<byte>)
    ensures a + b + c + d == a + (b + c + d) == a + b + (c + d)
  {
  }

  /** The guards of the rewrites. */
  lemma Rewritten(p: Pass, len: nat, dist: nat, end: nat)
    requires 1 <= dist <= |p.out| && p.ip + 2 <= end < |p.b| && p.b[end - 2] % 4 == 0 && 0 <= p.litp <= p.ip - 2
    ensures p.b[p.ip] >= 64 && len == 3 && p.lit > 3 && 0 < p.b[end] && p.lit + 3 + p.b[end] < 16 ==>
      PassMatch(p, len, dist, end) == Extended(p, dist, p.b[end])
    ensures p.b[p.ip] < 16 && p.st == Short && p.b[end] >= 16 && p.lit == 1 ==>
      PassMatch(p, len, dist, end) == Absorbed(p, 2, dist)
    ensures 16 <= p.b[p.ip] < 64 && len == 3 && p.b[end] >= 16 && p.lit == 0 ==>
      PassMatch(p, len, dist, end) == Absorbed(p, 3, dist)
    ensures p.b[p.ip] < 16 && p.st == Short && 0 < p.b[end] && p.lit + 2 + p.b[end] < 16 ==>
      PassMatch(p, len, dist, end) == Merged(p, 2, dist, p.b[end])
    ensures 16 <= p.b[p.ip] < 64 && len == 3 && p.lit <= 3 && 0 < p.b[end] && p.lit + 3 + p.b[end] < 16 ==>
      PassMatch(p, len, dist, end) == Merged(p, 3, dist, p.b[end])
    ensures p.b[p.ip] >= 16 && p.b[end] >= 16 && p.lit >= 1 ==>
      PassMatch(p, len, dist, end) == TakenMatch(p, len, dist, end)
  {
    hide Extended, Absorbed, Merged, TakenMatch;
  }

  /** With literals behind it a match stays, and so it does between literals and a match, unless it is short. */
  lemma Stays(p: Pass, len: nat, dist: nat, end: nat)
    requires 1 <= dist <= |p.out| && p.ip + 2 <= end < |p.b|
    requires p.b[end - 2] % 4 != 0 || (p.b[end] >= 16 && p.lit >= 1 && p.st != Short)
    ensures PassMatch(p, len, dist, end) == TakenMatch(p, len, dist, end)
  {
    hide Extended, Absorbed, Merged, TakenMatch;
  }

  lemma {:induction false} StepTaken(p: Pass, pre: seq<byte>, len: nat, dist: nat, lits: seq<byte>, rest: seq<byte>)
    requires Codable(p.st, len, dist) && |lits| <= 3 && dist <= |p.out| && rest != []
    requires p.b == pre + MatchBytes(p.st, len, dist, |lits|) + (lits + rest) && p.ip == |pre|
    requires lits != [] || (rest[0] >= 16 && p.lit >= 1 && p.st != Short)
    ensures var end := |pre| + |MatchBytes(p.st, len, dist, |lits|)|;
      PassRun(p) == PassRun(Pass(p.b, After(|lits|), end + |lits|, Copy(p.out, dist, len) + lits, end - 2, |lits|))
  {
    hide PassRun, PassStep, PassMatch, MatchBytes, Copy;
    StepMatch(p, pre, len, dist, |lits|, lits + rest);
    var end := |pre| + |MatchBytes(p.st, len, dist, |lits|)|;
    assert p.b[end..end + |lits|] == p.b[end..][..|lits|] == lits;
    assert p.b[end] == p.b[end..][0];
    Stays(p, len, dist, end);
    RunStep(p, Pass(p.b, After(|lits|), end + |lits|, Copy(p.out, dist, len) + lits, end - 2, |lits|));
  }

  lemma {:induction false} JoinedBytes(l1: seq<byte>, w: seq<byte>, l2: seq<byte>, m: seq<byte>)
    requires 4 <= |l1| && 4 <= |l2| && |l1| + |l2| < 16 && |w| == 2 && |m| == 3
    ensures var b := RunBytes(l1) + w + RunBytes(l2) + END;
      && |b| == |l1| + |l2| + 7 && b[3 + |l1|] == |l2| - 3 && b[4 + |l1|..4 + |l1| + |l2|] == l2
      && ExtendedBytes(b, 0, 1 + |l1|, m, |l1| + |l2|) == [|l1| + |l2|] + l1 + m + l2 + END
  {
    var b := RunBytes(l1) + w + RunBytes(l2) + END;
    assert b[1..1 + |l1|] == l1 && b[4 + |l1|..] == l2 + END;
  }

  /** Run, match of three bytes, run: one run. */
  lemma {:induction false} RunsJoin(l1: seq<byte>, dist: nat, l2: seq<byte>)
    requires 4 <= |l1| && 4 <= |l2| && |l1| + |l2| < 16 && 1 <= dist <= |l1|
    ensures Optimized(RunBytes(l1) + MatchBytes(Lits, 3, dist, 0) + RunBytes(l2) + END)
         == [|l1| + |l2|] + l1 + Copied(l1, dist, 3) + l2 + END
  {
    hide PassRun, PassStep, PassMatch, Copied, TakenMatch, Absorbed, Merged, RunBytes, ExtendedBytes, PassBegin;
    var w, m := MatchBytes(Lits, 3, dist, 0), Copied(l1, dist, 3);
    var b := RunBytes(l1) + w + RunBytes(l2) + END;
    Grouped(RunBytes(l1), w, RunBytes(l2), END);
    FirstRun(b, l1, w + RunBytes(l2) + END);
    var p := Pass(b, Lits, 1 + |l1|, l1, 0, |l1|);
    StepMatch(p, RunBytes(l1), 3, dist, 0, RunBytes(l2) + END);
    JoinedBytes(l1, w, l2, m);
    assert b[p.ip] == w[0];
    var joined := [|l1| + |l2|] + l1 + m + l2;
    var last := Pass(joined + END, Lits, |joined|, Copy(l1, dist, 3) + l2, 0, |l1| + 3 + |l2|);
    Rewritten(p, 3, dist, p.ip + 2);
    assert Extended(p, dist, |l2| - 3) == Some(last);
    RunStep(p, last);
    StepEnd(last, joined);
  }

  /** A match whose code is as long as what it writes: two bytes behind one to three literals, or three bytes from so
      far back that no shorter code fits. */
  predicate Spare(n: nat, dist: nat, k: nat)
  {
    (n == 2 && 1 <= dist <= 0x400 && 1 <= k <= 3) || (n == 3 && 0x800 < dist <= 0xbfff && k <= 3)
  }

  /** Where the pass stands behind `k` literals. */
  function After(k: nat): State {
    if k == 0 then Run else Short
  }

  lemma {:induction false} SpareBytes(n: nat, dist: nat, k: nat)
    requires Spare(n, dist, k)
    ensures Codable(After(k), n, dist) && |MatchBytes(After(k), n, dist, 0)| == n
    ensures var t := MatchBytes(After(k), n, dist, 0)[0]; if n == 2 then t < 16 else 16 <= t < 64
  {
  }

  /** A run, a match and its literals, before whatever follows. */
  lemma {:induction false} StepBegin(b: seq<byte>, l0: seq<byte>, len: nat, dist: nat, lits: seq<byte>, rest: seq<byte>)
    requires 4 <= |l0| <= 18 && 3 <= len && Codable(Lits, len, dist) && dist <= |l0| && |lits| <= 3
    requires b == RunBytes(l0) + MatchBytes(Lits, len, dist, |lits|) + lits + rest
    requires rest != [] && (lits == [] ==> rest[0] >= 16)
    ensures var end := 1 + |l0| + |MatchBytes(Lits, len, dist, |lits|)|;
      PassRun(PassBegin(b))
        == PassRun(Pass(b, After(|lits|), end + |lits|, Copy(l0, dist, len) + lits, end - 2, |lits|))
  {
    hide PassRun, MatchBytes, RunBytes, PassBegin, Codable;
    var w := MatchBytes(Lits, len, dist, |lits|);
    Grouped(RunBytes(l0), w, lits, rest);
    FirstRun(b, l0, w + lits + rest);
    StepTaken(Pass(b, Lits, 1 + |l0|, l0, 0, |l0|), RunBytes(l0), len, dist, lits, rest);
  }

  /** The number of literals in the code of a match. */
  lemma {:induction false} Recounted(len: nat, dist: nat, k: nat, n: nat)
    requires 3 <= len && Codable(Lits, len, dist) && k < 4 && n < 4
    ensures var w, w' := MatchBytes(Lits, len, dist, k), MatchBytes(Lits, len, dist, n);
      |w| == |w'| && w' == w[..|w| - 2] + [w[|w| - 2] / 4 * 4 + n] + w[|w| - 1..]
  {
    hide MatchBytes, Codable;
    CodeShape(Lits, len, dist, k);
    CodeShape(Lits, len, dist, n);
    CodeShape(Lits, len, dist, 0);
  }

  /** The point behind a match at `pre` with its literals, and the spare match there. */
  ghost predicate BeforeSpare(p: Pass, pre: seq<byte>, len: nat, dist: nat, lits: seq<byte>, n: nat, d: nat,
                              rest: seq<byte>)
  {
    && 3 <= len && Codable(Lits, len, dist) && Spare(n, d, |lits|) && Codable(After(|lits|), n, d)
    && rest != [] && d <= |p.out|
    && p.b == pre + MatchBytes(Lits, len, dist, |lits|) + lits + MatchBytes(After(|lits|), n, d, 0) + rest
    && p.ip == |pre| + |MatchBytes(Lits, len, dist, |lits|)| + |lits| && p.litp == p.ip - |lits| - 2
    && p.lit == |lits| && p.st == After(|lits|)
  }

  lemma {:induction false} SpareFacts(p: Pass, pre: seq<byte>, len: nat, dist: nat, lits: seq<byte>, n: nat, d: nat,
                                      rest: seq<byte>)
    requires BeforeSpare(p, pre, len, dist, lits, n, d, rest)
    ensures 2 <= n <= 3 && |lits| <= 3 && 1 <= d <= |p.out| && 0 <= p.litp <= p.ip - 2 && p.ip + n < |p.b|
    ensures PassStep(p) == PassMatch(p, n, d, p.ip + n) && p.b[p.ip + n - 2] % 4 == 0 && p.b[p.ip + n..] == rest
    ensures p.lit == |lits|
    ensures if n == 2 then p.b[p.ip] < 16 && p.st == Short else 16 <= p.b[p.ip] < 64
  {
    hide PassMatch, PassStep, MatchBytes;
    SpareBytes(n, d, |lits|);
    var x := MatchBytes(After(|lits|), n, d, 0);
    var before := pre + MatchBytes(Lits, len, dist, |lits|) + lits;
    StepMatch(p, before, n, d, 0, rest);
    assert p.b[p.ip] == x[0];
  }

  lemma {:induction false} Absorbs(p: Pass, pre: seq<byte>, len: nat, dist: nat, lits: seq<byte>, n: nat, d: nat,
                                   rest: seq<byte>)
    requires BeforeSpare(p, pre, len, dist, lits, n, d, rest) && rest[0] >= 16 && n + |lits| == 3
    ensures d >= 1 && var b := pre + MatchBytes(Lits, len, dist, 3) + lits + Copied(p.out, d, n);
      PassRun(p) == PassRun(Pass(b + rest, Run, |b|, Copy(p.out, d, n), p.litp, 3))
  {
    hide PassRun, PassStep, PassMatch, MatchBytes, Codable, Copied, AbsorbedBytes, Copy;
    SpareFacts(p, pre, len, dist, lits, n, d, rest);
    SpareBytes(n, d, |lits|);
    assert p.b[p.ip + n] == p.b[p.ip + n..][0];
    Rewritten(p, n, d, p.ip + n);
    Recounted(len, dist, |lits|, 3);
    var w, w', m := MatchBytes(Lits, len, dist, |lits|), MatchBytes(Lits, len, dist, 3), Copied(p.out, d, n);
    AbsorbedAre(pre, w, w', lits, m, MatchBytes(After(|lits|), n, d, 0), rest);
    var b := pre + w' + lits + m;
    RunStep(p, Pass(b + rest, Run, |b|, Copy(p.out, d, n), p.litp, 3));
  }

  lemma {:induction false} Merges(p: Pass, pre: seq<byte>, len: nat, dist: nat, lits: seq<byte>, n: nat, d: nat,
                                  l2: seq<byte>, rest: seq<byte>)
    requires 4 <= |l2| && |lits| + n + |l2| < 19 && Codable(Lits, len, dist) && 1 <= d <= |p.out| && 0 <= p.litp
    requires BeforeSpare(p, pre, len, dist, lits, n, d, [|l2| - 3] + (l2 + rest))
    ensures var v := |lits| + n + |l2| - 3;
      var b := pre + MatchBytes(Lits, len, dist, 0) + [v] + lits + Copied(p.out, d, n) + l2;
      PassRun(p) == PassRun(Pass(b + rest, Lits, |b|, Copy(p.out, d, n) + l2, p.litp + 2, v + 3))
  {
    hide *;
    SpareFacts(p, pre, len, dist, lits, n, d, [|l2| - 3] + (l2 + rest));
    assert p.b[p.ip + n] == p.b[p.ip + n..][0];
    Rewritten(p, n, d, p.ip + n);
    MergedOf(p, pre, len, dist, lits, n, d, l2, rest);
    var b := pre + MatchBytes(Lits, len, dist, 0) + [|lits| + n + |l2| - 3] + lits + Copied(p.out, d, n) + l2;
    MergedIs(p, n, d, l2, rest, b);
    RunStep(p, Pass(b + rest, Lits, |b|, Copy(p.out, d, n) + l2, p.litp + 2, p.lit + n + |l2|));
  }

  lemma {:induction false} MergedOf(p: Pass, pre: seq<byte>, len: nat, dist: nat, lits: seq<byte>, n: nat, d: nat,
                                    l2: seq<byte>, rest: seq<byte>)
    requires 4 <= |l2| && |lits| + n + |l2| < 19 && Codable(Lits, len, dist) && 1 <= d <= |p.out| && 0 <= p.litp
    requires BeforeSpare(p, pre, len, dist, lits, n, d, [|l2| - 3] + (l2 + rest))
    ensures p.litp + 2 <= p.ip && p.ip + n + 1 <= |p.b|
    ensures var m, v := Copied(p.out, d, n), |lits| + n + |l2| - 3;
      var b := pre + MatchBytes(Lits, len, dist, 0) + [v] + lits + m + l2;
      && |b| == p.ip + n + 1 + |l2| && MergedBytes(p.b, p.litp, p.ip, m, v) == b + rest
  {
    hide PassStep, MatchBytes, Copied, MergedBytes, Copy;
    SpareBytes(n, d, |lits|);
    Recounted(len, dist, |lits|, 0);
    var w, w', m := MatchBytes(Lits, len, dist, |lits|), MatchBytes(Lits, len, dist, 0), Copied(p.out, d, n);
    var h, v := |l2| - 3, |lits| + n + |l2| - 3;
    MergedAre(pre, w, w', lits, m, MatchBytes(After(|lits|), n, d, 0), h, v, l2, rest);
  }

  lemma {:induction false} AbsorbedAre(pre: seq<byte>, w: seq<byte>, w': seq<byte>, lits: seq<byte>, m: seq<byte>,
                                       old': seq<byte>, rest: seq<byte>)
    requires |w| >= 2 && w' == w[..|w| - 2] + [w[|w| - 2] / 4 * 4 + 3] + w[|w| - 1..] && |old'| == |m|
    ensures var at := |pre| + |w|;
      AbsorbedBytes(pre + w + lits + old' + rest, at - 2, at + |lits|, m) == pre + w' + lits + m + rest
  {
  }

  lemma {:induction false} MergedAre(pre: seq<byte>, w: seq<byte>, w': seq<byte>, lits: seq<byte>, m: seq<byte>,
                                     old': seq<byte>, h: byte, v: byte, l2: seq<byte>, rest: seq<byte>)
    requires |w| >= 2 && w' == w[..|w| - 2] + [w[|w| - 2] / 4 * 4] + w[|w| - 1..] && |old'| == |m|
    ensures var at := |pre| + |w|;
      MergedBytes(pre + w + lits + old' + ([h] + (l2 + rest)), at - 2, at + |lits|, m, v)
        == pre + w' + [v] + lits + m + l2 + rest
  {
  }

  lemma {:induction false} MergedIs(p: Pass, n: nat, d: nat, l2: seq<byte>, rest: seq<byte>, b: seq<byte>)
    requires 1 <= d <= |p.out| && 0 <= p.litp <= p.ip - 2 && 4 <= |l2| && p.lit + n + |l2| < 19 && p.ip + n < |p.b|
    requires p.b[p.ip + n..] == [|l2| - 3] + (l2 + rest) && |b| == p.ip + n + 1 + |l2|
    requires MergedBytes(p.b, p.litp, p.ip, Copied(p.out, d, n), p.lit + n + |l2| - 3) == b + rest
    ensures Merged(p, n, d, |l2| - 3)
         == Some(Pass(b + rest, Lits, |b|, Copy(p.out, d, n) + l2, p.litp + 2, p.lit + n + |l2|))
  {
    hide Copied, MergedBytes, Copy;
    assert p.b[p.ip + n + 1..p.ip + n + 1 + |l2|] == p.b[p.ip + n..][1..1 + |l2|] == l2;
  }

  /** A spare match between a match and another one becomes literals of the first. */
  lemma {:induction false} SpareAbsorbed(l0: seq<byte>, len: nat, dist: nat, lits: seq<byte>, n: nat, d: nat,
                                         len': nat, dist': nat)
    requires 4 <= |l0| <= 18 && 3 <= len && Codable(Lits, len, dist) && dist <= |l0|
    requires Spare(n, d, |lits|) && n + |lits| == 3 && d <= |l0| + len + |lits|
    requires 3 <= len' && Codable(Run, len', dist') && dist' <= |l0| + len + 3
    ensures var last := MatchBytes(Run, len', dist', 0) + END;
      Codable(After(|lits|), n, d) &&
      Optimized(RunBytes(l0) + MatchBytes(Lits, len, dist, |lits|) + lits + MatchBytes(After(|lits|), n, d, 0) + last)
      == RunBytes(l0) + MatchBytes(Lits, len, dist, 3) + lits + Copied(Copy(l0, dist, len) + lits, d, n) + last
  {
    hide PassRun, MatchBytes, RunBytes, PassBegin, Copied, Copy;
    SpareBytes(n, d, |lits|);
    var w, x := MatchBytes(Lits, len, dist, |lits|), MatchBytes(After(|lits|), n, d, 0);
    var y := MatchBytes(Run, len', dist', 0);
    var b := RunBytes(l0) + w + lits + x + (y + END);
    var out := Copy(l0, dist, len) + lits;
    Grouped(RunBytes(l0) + w, lits, x, y + END);
    StepBegin(b, l0, len, dist, lits, x + (y + END));
    CodeShape(Run, len', dist', 0);
    var p := Pass(b, After(|lits|), 1 + |l0| + |w| + |lits|, out, 1 + |l0| + |w| - 2, |lits|);
    Absorbs(p, RunBytes(l0), len, dist, lits, n, d, y + END);
    var pre := RunBytes(l0) + MatchBytes(Lits, len, dist, 3) + lits + Copied(out, d, n);
    MatchThenEnd(Pass(pre + (y + END), Run, |pre|, Copy(out, d, n), p.litp, 3), pre, len', dist');
  }

  /** A match behind literals, and the end. */
  lemma {:induction false} MatchThenEnd(p: Pass, pre: seq<byte>, len: nat, dist: nat)
    requires Codable(p.st, len, dist) && dist <= |p.out| && p.lit >= 1 && p.st != Short
    requires p.b == pre + (MatchBytes(p.st, len, dist, 0) + END) && p.ip == |pre|
    ensures PassRun(p).b == p.b
  {
    hide PassRun, MatchBytes, Copy;
    var y := MatchBytes(p.st, len, dist, 0);
    assert p.b == pre + y + ([] + END) == (pre + y) + END;
    StepTaken(p, pre, len, dist, [], END);
    StepEnd(Pass(p.b, Run, |pre + y|, Copy(p.out, dist, len) + [], |pre + y| - 2, 0), pre + y);
  }

  /** A spare match between a match and a short run joins the run, together with the literals before it. */
  lemma {:induction false} SpareMerged(l0: seq<byte>, len: nat, dist: nat, lits: seq<byte>, n: nat, d: nat,
                                       l2: seq<byte>)
    requires 4 <= |l0| <= 18 && 3 <= len && Codable(Lits, len, dist) && dist <= |l0|
    requires Spare(n, d, |lits|) && d <= |l0| + len + |lits| && 4 <= |l2| && |lits| + n + |l2| < 19
    ensures Codable(After(|lits|), n, d) &&
      Optimized(RunBytes(l0) + MatchBytes(Lits, len, dist, |lits|) + lits + MatchBytes(After(|lits|), n, d, 0)
                + (RunBytes(l2) + END))
      == RunBytes(l0) + MatchBytes(Lits, len, dist, 0)
         + RunBytes(lits + Copied(Copy(l0, dist, len) + lits, d, n) + l2) + END
  {
    hide PassRun, MatchBytes, PassBegin, Copied, Copy;
    SpareBytes(n, d, |lits|);
    var w, x, v := MatchBytes(Lits, len, dist, |lits|), MatchBytes(After(|lits|), n, d, 0), |lits| + n + |l2| - 3;
    var rest := RunBytes(l2) + END;
    assert rest == [|l2| - 3] + (l2 + END);
    var b := RunBytes(l0) + w + lits + x + rest;
    var out := Copy(l0, dist, len) + lits;
    var m := Copied(out, d, n);
    Grouped(RunBytes(l0) + w, lits, x, rest);
    StepBegin(b, l0, len, dist, lits, x + rest);
    var p := Pass(b, After(|lits|), 1 + |l0| + |w| + |lits|, out, 1 + |l0| + |w| - 2, |lits|);
    Merges(p, RunBytes(l0), len, dist, lits, n, d, l2, END);
    var pre := RunBytes(l0) + MatchBytes(Lits, len, dist, 0) + [v] + lits + m + l2;
    StepEnd(Pass(pre + END, Lits, |pre|, Copy(out, d, n) + l2, p.litp + 2, v + 3), pre);
    assert pre == RunBytes(l0) + MatchBytes(Lits, len, dist, 0) + RunBytes(lits + m + l2);
  }
}
