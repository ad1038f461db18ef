/** What the rewrites of lzo1x_optimize are good for: every one leaves fewer instructions to decode. */
module LzoCount {
  import opened Bits
  import opened Options
  import opened BackCopy
  import opened Lzo1x
  import opened LzoRewrites

  /** The instructions from a point on, up to the end code or the end of the input. */
  function Instructions(b: seq<byte>, c: Point): (n: nat)
    decreases |b| - c.ip
  {
    match Step(b, c)
    case Next(next) => 1 + Instructions(b, next)
    case _ => 0
  }

  /** The instructions of a block, the literals of the first byte aside. */
  function AllInstructions(b: seq<byte>): (n: nat)
  {
    match Begin(b)
    case Next(c) => Instructions(b, c)
    case _ => 0
  }

  lemma OneMore(b: seq<byte>, c: Point, next: Point)
    requires Step(b, c) == Next(next)
    ensures Instructions(b, c) == 1 + Instructions(b, next)
  {
    hide Step;
  }

  lemma {:induction false} CountSuffix(b: seq<byte>, b': seq<byte>, c: Point)
    requires AgreeFrom(b, b', c.ip)
    ensures Instructions(b', c) == Instructions(b, c)
    decreases |b| - c.ip
  {
    hide Step;
    StepSuffix(b, b', c);
    if Step(b, c).Next? {
      StepAdvances(b, c);
      CountSuffix(b, b', Step(b, c).c);
    }
  }

  /** A point that is reached in `n` steps has that many instructions before it. */
  lemma {:induction false} CountReached(b: seq<byte>, c: Point, n: nat)
    requires ReachedIn(b, c, n)
    ensures AllInstructions(b) == n + Instructions(b, c)
    decreases n
  {
    hide Step;
    if n > 0 {
      var k: Point :| ReachedIn(b, k, n - 1) && Step(b, k) == Next(c);
      CountReached(b, k, n - 1);
      OneMore(b, k, c);
    }
  }

  /** Rewriting behind a point changes the count as it changes the count from there on. */
  lemma {:induction false} CountBehind(b: seq<byte>, b': seq<byte>, k: Point, litp: nat)
    requires Reached(b, k) && AgreeBelow(b, b', litp) && k.ip <= litp && (k.ip == 0 ==> |b'| > 0 && b'[0] <= 17)
    ensures AllInstructions(b') - Instructions(b', k) == AllInstructions(b) - Instructions(b, k)
  {
    hide Step;
    var n: nat :| ReachedIn(b, k, n);
    ReachedInLocal(b, b', k, n);
    CountReached(b, k, n);
    CountReached(b', k, n);
  }

  /** The match that was absorbed is gone. */
  lemma {:induction false} AbsorbCounts(b: seq<byte>, b': seq<byte>, k: Point, litp: nat, lit: nat, c: Point, n: nat,
                                        dist: nat, c': Point)
    requires Reached(b, k) && ShortTail(b, k, litp, lit, c) && ShortMatch(b, c, n, dist, n)
      && b[c.ip + n] >= 16 && c.ip + n + 1 < |b|
    requires SameCode(b, b', litp + 2) && AgreeFrom(b, b', c.ip + n) && ShortTail(b', k, litp, 3, c')
    requires c' == Point(Short, c.ip + n, Copy(c.out, dist, n))
    ensures AllInstructions(b') == AllInstructions(b) - 1
  {
    hide ParseMatch, Copy, Reached, Instructions, AllInstructions;
    ShortTailIs(b, k, litp, lit, c);
    SameKind(b, b', k, litp);
    CountBehind(b, b', k, litp);
    TailStep(b, k, litp, lit, c);
    TailStep(b', k, litp, 3, c');
    var next := Point(Run, c.ip + n, Copy(c.out, dist, n));
    ShortMatchGoes(b, c, n, dist, n);
    OneMore(b, k, c);
    OneMore(b, c, next);
    OneMore(b', k, c');
    CountSuffix(b, b', c');
    CountStateFree(b, c.ip + n, c'.out, Short, Run);
  }

  lemma TailStep(b: seq<byte>, k: Point, litp: nat, lit: nat, c: Point)
    requires ShortTail(b, k, litp, lit, c)
    ensures Step(b, k) == Next(c)
  {
  }

  lemma {:induction false} ShortMatchGoes(b: seq<byte>, c: Point, n: nat, dist: nat, size: nat)
    requires ShortMatch(b, c, n, dist, size)
    ensures Step(b, c) == Next(Point(Run, c.ip + size, Copy(c.out, dist, n)))
  {
    hide ParseMatch, Copy;
    assert b[c.ip + size..c.ip + size] == [];
    assert Copy(c.out, dist, n) + [] == Copy(c.out, dist, n);
  }

  lemma {:induction false} CountStateFree(b: seq<byte>, ip: nat, out: seq<byte>, s: State, s': State)
    requires ip + 1 < |b| && b[ip] >= 16
    ensures Instructions(b, Point(s, ip, out)) == Instructions(b, Point(s', ip, out))
  {
    hide Lzo1x.Length, Copy, Distance;
    assert ParseMatch(b, s, ip) == ParseMatch(b, s', ip);
    assert Step(b, Point(s, ip, out)) == Step(b, Point(s', ip, out));
  }

  /** The match that joined two runs is gone; what was the short literals of a match is part of the run. */
  lemma {:induction false} MergeCounts(b: seq<byte>, b': seq<byte>, k: Point, litp: nat, lit: nat, c: Point, n: nat,
                                       dist: nat, h: nat, k': Point, c': Point)
    requires Reached(b, k) && ShortTail(b, k, litp, lit, c) && ShortMatch(b, c, n, dist, n)
    requires b[c.ip + n] == h && 1 <= h <= 15 && c.ip + n + 1 + h + 3 <= |b|
    requires SameCode(b, b', litp + 2) && AgreeFrom(b, b', c.ip + n + 1) && Step(b', k) == Next(k')
    requires LongTail(b', k', litp + 2, lit + n + h + 3, c')
    requires var e := c.ip + n + 1 + h + 3; c' == Point(Lits, e, Copy(c.out, dist, n) + b[c.ip + n + 1..e])
    ensures AllInstructions(b') == AllInstructions(b) - 1
  {
    hide ParseMatch, Copy, Reached, Instructions, AllInstructions, Step;
    ShortTailIs(b, k, litp, lit, c);
    SameKind(b, b', k, litp);
    CountBehind(b, b', k, litp);
    TailStep(b, k, litp, lit, c);
    var next := Point(Run, c.ip + n, Copy(c.out, dist, n));
    ShortMatchGoes(b, c, n, dist, n);
    RunStep(b, next, h);
    OneMore(b, k, c);
    OneMore(b, c, next);
    OneMore(b, next, c');
    OneMore(b', k, k');
    OneMore(b', k', c');
    CountSuffix(b, b', c');
  }

  /** The match and one of the two runs are gone. */
  lemma {:induction false} ExtendCounts(b: seq<byte>, b': seq<byte>, k: Point, litp: nat, lit: nat, c: Point, dist: nat,
                                        h: nat, c': Point)
    requires Reached(b, k) && LongTail(b, k, litp, lit, c) && ShortMatch(b, c, 3, dist, 2)
    requires b[c.ip + 2] == h && 1 <= h <= 15 && c.ip + 3 + h + 3 <= |b|
    requires AgreeBelow(b, b', litp) && AgreeFrom(b, b', c.ip + 3) && LongTail(b', k, litp, lit + 3 + h + 3, c')
    requires var e := c.ip + 3 + h + 3; c' == Point(Lits, e, Copy(c.out, dist, 3) + b[c.ip + 3..e])
    ensures AllInstructions(b') == AllInstructions(b) - 2
  {
    hide ParseMatch, Copy, Reached, Instructions, AllInstructions, Step;
    LongTailIs(b, k, litp, lit, c);
    CountBehind(b, b', k, litp);
    var next := Point(Run, c.ip + 2, Copy(c.out, dist, 3));
    ShortMatchGoes(b, c, 3, dist, 2);
    RunStep(b, next, h);
    OneMore(b, k, c);
    OneMore(b, c, next);
    OneMore(b, next, c');
    OneMore(b', k, c');
    CountSuffix(b, b', c');
  }
}
