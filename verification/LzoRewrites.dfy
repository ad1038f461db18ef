/** Why the rewrites of lzo1x_optimize keep the meaning of the stream. */
module LzoRewrites {
  import opened Bits
  import opened Options
  import opened BackCopy
  import opened Lzo1x

  // ----- what decoding looks at -----

  ghost predicate AgreeBelow(b: seq<byte>, b': seq<byte>, n: nat)
  {
    |b| == |b'| && forall i | 0 <= i < n && i < |b| :: b[i] == b'[i]
  }

  ghost predicate AgreeFrom(b: seq<byte>, b': seq<byte>, n: nat)
  {
    |b| == |b'| && forall i | n <= i < |b| :: b[i] == b'[i]
  }

  lemma {:induction false} ExtLocal(b: seq<byte>, b': seq<byte>, p: nat, acc: nat)
    requires Ext(b, p, acc).Some? && AgreeBelow(b, b', Ext(b, p, acc).value.1)
    ensures Ext(b', p, acc) == Ext(b, p, acc)
    decreases |b| - p
  {
    if b[p] == 0 {
      ExtLocal(b, b', p + 1, acc + 255);
    }
  }

  lemma {:induction false} LengthLocal(b: seq<byte>, b': seq<byte>, p: nat, t: nat, base: nat)
    requires Length(b, p, t, base).Some? && AgreeBelow(b, b', Length(b, p, t, base).value.1)
    ensures Length(b', p, t, base) == Length(b, p, t, base)
  {
    if t == 0 {
      ExtLocal(b, b', p, base);
    }
  }

  /** The same code up to the two bits that count the literals after the match. */
  ghost predicate SameCode(b: seq<byte>, b': seq<byte>, end: nat)
    requires 2 <= end <= |b|
  {
    |b| == |b'| && AgreeBelow(b, b', end - 2) && b[end - 1] == b'[end - 1] && b[end - 2] / 4 == b'[end - 2] / 4
  }

  lemma {:induction false} ParseMatchLocal(b: seq<byte>, b': seq<byte>, st: State, ip: nat)
    requires ip < |b| && ParseMatch(b, st, ip).Some? && SameCode(b, b', ParseMatch(b, st, ip).value.end)
    ensures ParseMatch(b', st, ip) == ParseMatch(b, st, ip)
  {
    hide Length, Distance;
    var t: nat, end := b[ip], ParseMatch(b, st, ip).value.end;
    if 16 <= t < 64 {
      assert b'[ip] == t;
      if t >= 32 {
        LengthLocal(b, b', ip + 1, t % 32, 31);
      } else {
        LengthLocal(b, b', ip + 1, t % 8, 7);
      }
    } else {
      QuarterCode(t, b'[ip]);
    }
  }

  /** A code of two bytes has the count in its first byte. */
  lemma QuarterCode(t: nat, u: nat)
    requires t / 4 == u / 4
    ensures (t >= 64 <==> u >= 64) && (t < 16 <==> u < 16) && t / 32 == u / 32
  {
    assert t / 4 / 8 == t / 32 && u / 4 / 8 == u / 32;
  }

  lemma {:induction false} StepLocal(b: seq<byte>, b': seq<byte>, c: Point)
    requires Step(b, c).Next? && AgreeBelow(b, b', Step(b, c).c.ip)
    ensures Step(b', c) == Step(b, c)
  {
    hide ParseMatch, Length, Copy;
    var n := Step(b, c).c;
    if c.st == Run && b[c.ip] < 16 {
      LengthLocal(b, b', c.ip + 1, b[c.ip], 15);
      var p := Length(b, c.ip + 1, b[c.ip], 15).value.1;
      assert b[p..n.ip] == b'[p..n.ip];
    } else {
      var end := ParseMatch(b, c.st, c.ip).value.end;
      assert b[end - 2] == b'[end - 2];
      ParseMatchLocal(b, b', c.st, c.ip);
      assert b[end..n.ip] == b'[end..n.ip];
    }
  }

  lemma {:induction false} ExtSuffix(b: seq<byte>, b': seq<byte>, p: nat, acc: nat)
    requires AgreeFrom(b, b', p)
    ensures Ext(b', p, acc) == Ext(b, p, acc)
    decreases |b| - p
  {
    if p < |b| && b[p] == 0 {
      ExtSuffix(b, b', p + 1, acc + 255);
    }
  }

  lemma {:induction false} LengthSuffix(b: seq<byte>, b': seq<byte>, p: nat, t: nat, base: nat)
    requires AgreeFrom(b, b', p)
    ensures Length(b', p, t, base) == Length(b, p, t, base)
  {
    if t == 0 {
      ExtSuffix(b, b', p, base);
    }
  }

  lemma {:induction false} ParseSuffix(b: seq<byte>, b': seq<byte>, st: State, ip: nat)
    requires ip < |b| && AgreeFrom(b, b', ip)
    ensures ParseMatch(b', st, ip) == ParseMatch(b, st, ip)
  {
    hide Length, Distance;
    var t: nat := b[ip];
    LengthSuffix(b, b', ip + 1, t % 32, 31);
    LengthSuffix(b, b', ip + 1, t % 8, 7);
  }

  lemma {:induction false} StepSuffix(b: seq<byte>, b': seq<byte>, c: Point)
    requires AgreeFrom(b, b', c.ip)
    ensures Step(b', c) == Step(b, c)
  {
    hide ParseMatch, Length, Copy;
    if c.ip < |b| {
      if c.st == Run && b[c.ip] < 16 {
        LengthSuffix(b, b', c.ip + 1, b[c.ip], 15);
        LiteralsSuffix(b, b', c.ip);
      } else {
        ParseSuffix(b, b', c.st, c.ip);
        LiteralsSuffix(b, b', c.ip);
      }
    }
  }

  lemma LiteralsSuffix(b: seq<byte>, b': seq<byte>, ip: nat)
    requires AgreeFrom(b, b', ip)
    ensures forall p: nat, n: nat, out, st | p >= ip :: Literals(b', p, n, out, st) == Literals(b, p, n, out, st)
  {
    forall p: nat, n: nat, out, st | p >= ip ensures Literals(b', p, n, out, st) == Literals(b, p, n, out, st) {
      if p + n <= |b| {
        assert b[p..p + n] == b'[p..p + n];
      }
    }
  }

  /** Decoding depends only on what is still to come. */
  lemma {:induction false} DecodeSuffix(b: seq<byte>, b': seq<byte>, c: Point)
    requires AgreeFrom(b, b', c.ip)
    ensures Decode(b', c) == Decode(b, c)
    decreases |b| - c.ip
  {
    hide Step;
    StepSuffix(b, b', c);
    if Step(b, c).Next? {
      DecodeSuffix(b, b', Step(b, c).c);
    }
  }

  /** A code from 16 on means the same in every state. */
  lemma {:induction false} StateFree(b: seq<byte>, ip: nat, out: seq<byte>, s: State, s': State)
    requires ip + 1 < |b| && b[ip] >= 16
    ensures Decode(b, Point(s, ip, out)) == Decode(b, Point(s', ip, out))
  {
    hide Length, Copy, Distance;
    assert ParseMatch(b, s, ip) == ParseMatch(b, s', ip);
    assert Step(b, Point(s, ip, out)) == Step(b, Point(s', ip, out));
  }

  // ----- points that decoding passes -----

  ghost predicate ReachedIn(b: seq<byte>, c: Point, n: nat)
    decreases n
  {
    if n == 0 then Begin(b) == Next(c)
    else exists k: Point :: ReachedIn(b, k, n - 1) && Step(b, k) == Next(c)
  }

  ghost predicate Reached(b: seq<byte>, c: Point)
  {
    exists n: nat :: ReachedIn(b, c, n)
  }

  lemma ReachedNext(b: seq<byte>, k: Point, c: Point)
    requires Reached(b, k) && Step(b, k) == Next(c)
    ensures Reached(b, c)
  {
    hide Step;
    var n: nat :| ReachedIn(b, k, n);
    assert ReachedIn(b, c, n + 1);
  }

  lemma {:induction false} ReachedDecodes(b: seq<byte>, c: Point)
    requires Reached(b, c)
    ensures DecodeAll(b) == Decode(b, c)
  {
    var n: nat :| ReachedIn(b, c, n);
    ReachedInDecodes(b, c, n);
  }

  lemma {:induction false} ReachedInDecodes(b: seq<byte>, c: Point, n: nat)
    requires ReachedIn(b, c, n)
    ensures DecodeAll(b) == Decode(b, c)
    decreases n
  {
    hide Step;
    if n > 0 {
      var k: Point :| ReachedIn(b, k, n - 1) && Step(b, k) == Next(c);
      ReachedInDecodes(b, k, n - 1);
    }
  }

  /** A point stays reached when only what follows it is rewritten. */
  lemma {:induction false} ReachedLocal(b: seq<byte>, b': seq<byte>, c: Point)
    requires Reached(b, c) && AgreeBelow(b, b', c.ip) && (c.ip == 0 ==> |b'| > 0 && b'[0] <= 17)
    ensures Reached(b', c)
  {
    var n: nat :| ReachedIn(b, c, n);
    ReachedInLocal(b, b', c, n);
  }

  lemma {:induction false} ReachedInLocal(b: seq<byte>, b': seq<byte>, c: Point, n: nat)
    requires ReachedIn(b, c, n) && AgreeBelow(b, b', c.ip) && (c.ip == 0 ==> |b'| > 0 && b'[0] <= 17)
    ensures ReachedIn(b', c, n)
    decreases n
  {
    hide Step;
    if n == 0 {
      if c.ip > 0 {
        assert b[1..c.ip] == b'[1..c.ip];
      }
    } else {
      var k: Point :| ReachedIn(b, k, n - 1) && Step(b, k) == Next(c);
      StepLocal(b, b', k);
      StepAdvances(b, k);
      if k.ip == 0 && n - 1 == 0 {
        assert b[0] == b'[0];
      }
      ReachedInLocal(b, b', k, n - 1);
    }
  }

  lemma StepAdvances(b: seq<byte>, c: Point)
    requires Step(b, c).Next?
    ensures c.ip < Step(b, c).c.ip <= |b| && |c.out| < |Step(b, c).c.out|
  {
  }

  // ----- the last instruction before the current point -----

  /** The instruction at `k` is a match that ends with the byte after `litp`, has
      `lit` literals after it, and leads to `c`. */
  ghost predicate ShortTail(b: seq<byte>, k: Point, litp: nat, lit: nat, c: Point)
  {
    && k.ip < |b| && !(k.st == Run && b[k.ip] < 16) && ParseMatch(b, k.st, k.ip).Some?
    && ParseMatch(b, k.st, k.ip).value.MatchCode? && ParseMatch(b, k.st, k.ip).value.end == litp + 2
    && litp < |b| && b[litp] % 4 == lit && Step(b, k) == Next(c)
  }

  /** The instruction at `k` is a run of `lit` literals with the one-byte header at
      `litp`, and leads to `c`. */
  ghost predicate LongTail(b: seq<byte>, k: Point, litp: nat, lit: nat, c: Point)
  {
    && k.st == Run && k.ip == litp < |b| && 4 <= lit <= 18 && b[litp] == lit - 3
    && Step(b, k) == Next(c)
  }

  /** The output after the match of a short tail, without the literals. */
  function MatchOut(b: seq<byte>, k: Point): (out: seq<byte>)
    requires k.ip < |b| && ParseMatch(b, k.st, k.ip).Some? && ParseMatch(b, k.st, k.ip).value.MatchCode?
    requires ParseMatch(b, k.st, k.ip).value.dist <= |k.out|
  {
    Copy(k.out, ParseMatch(b, k.st, k.ip).value.dist, ParseMatch(b, k.st, k.ip).value.len)
  }

  lemma {:induction false} ShortTailIs(b: seq<byte>, k: Point, litp: nat, lit: nat, c: Point)
    requires ShortTail(b, k, litp, lit, c)
    ensures ParseMatch(b, k.st, k.ip).value.dist <= |k.out| && k.ip <= litp && litp + 2 + lit <= |b| && lit <= 3
    ensures c == Point(if lit == 0 then Run else Short, litp + 2 + lit, MatchOut(b, k) + b[litp + 2..litp + 2 + lit])
  {
    hide ParseMatch, Copy;
  }

  /** The match of `k` with another number of literals after it. */
  lemma {:induction false} Retail(b: seq<byte>, b': seq<byte>, k: Point, litp: nat, lit: nat, c: Point, lit': nat)
    requires ShortTail(b, k, litp, lit, c) && lit' <= 3 && litp + 2 + lit' <= |b| && litp + 2 < |b|
    requires SameCode(b, b', litp + 2) && b'[litp] % 4 == lit'
    requires Reached(b, k)
    ensures Reached(b', k) && k.ip < |b'| && ParseMatch(b', k.st, k.ip) == ParseMatch(b, k.st, k.ip)
    ensures var c' := Point(if lit' == 0 then Run
      else Short, litp + 2 + lit', MatchOut(b, k) + b'[litp + 2..litp + 2 + lit']);
            ShortTail(b', k, litp, lit', c') && MatchOut(b', k) == MatchOut(b, k)
  {
    hide ParseMatch, Copy, Reached;
    ShortTailIs(b, k, litp, lit, c);
    ParseMatchLocal(b, b', k.st, k.ip);
    SameKind(b, b', k, litp);
    ReachedLocal(b, b', k);
  }

  lemma {:induction false} SameKind(b: seq<byte>, b': seq<byte>, k: Point, litp: nat)
    requires k.ip <= litp && litp + 2 <= |b| && SameCode(b, b', litp + 2) && !(k.st == Run && b[k.ip] < 16)
    requires ParseMatch(b, k.st, k.ip).Some? && ParseMatch(b, k.st, k.ip).value.end == litp + 2
    requires ParseMatch(b, k.st, k.ip).value.MatchCode? && ParseMatch(b, k.st, k.ip).value.dist <= |k.out|
      && Reached(b, k)
    ensures !(k.st == Run && b'[k.ip] < 16) && k.ip > 0
  {
    hide ParseMatch, Step;
    if k.ip == litp {
      QuarterCode(b[k.ip], b'[k.ip]);
    }
    if k.ip == 0 {
      NothingAtStart(b, k);
    }
  }

  /** At the first byte there is nothing to copy from. */
  lemma {:induction false} NothingAtStart(b: seq<byte>, k: Point)
    requires Reached(b, k) && k.ip == 0
    ensures k.out == []
  {
    hide Step;
    var n: nat :| ReachedIn(b, k, n);
  }

  // ----- the rewrites -----

  /** At `c` stands a match of `n` bytes from `dist` back whose code takes `size`
      bytes and is followed by no literals. */
  ghost predicate ShortMatch(b: seq<byte>, c: Point, n: nat, dist: nat, size: nat)
  {
    && 2 <= size && c.ip + size < |b| && !(c.st == Run && b[c.ip] < 16)
    && ParseMatch(b, c.st, c.ip) == Some(MatchCode(n, dist, c.ip + size))
    && 1 <= dist <= |c.out| && b[c.ip + size - 2] % 4 == 0
  }

  lemma {:induction false} ShortMatchStep(b: seq<byte>, c: Point, n: nat, dist: nat, size: nat)
    requires ShortMatch(b, c, n, dist, size)
    ensures Decode(b, c) == Decode(b, Point(Run, c.ip + size, Copy(c.out, dist, n)))
  {
    hide ParseMatch, Copy;
    assert b[c.ip + size..c.ip + size] == [];
    assert Copy(c.out, dist, n) + [] == Copy(c.out, dist, n);
  }

  /** The bytes that a match writes. */
  function Copied(out: seq<byte>, dist: nat, n: nat): (s: seq<byte>)
    requires 1 <= dist <= |out|
    ensures |s| == n && Copy(out, dist, n) == out + s
  {
    Copy(out, dist, n)[|out|..]
  }

  /** First rewrite: a match whose code is as long as what it writes, between a
      match and another one, becomes literals of the match before it. */
  lemma {:induction false} Absorb(b: seq<byte>, b': seq<byte>, k: Point, litp: nat, lit: nat, c: Point, n: nat,
                                  dist: nat)
    requires Reached(b, k) && ShortTail(b, k, litp, lit, c) && lit + n == 3 && ShortMatch(b, c, n, dist, n)
      && b[c.ip + n] >= 16 && c.ip + n + 1 < |b|
    requires SameCode(b, b', litp + 2) && b'[litp] % 4 == 3 && AgreeFrom(b, b', c.ip + n)
    requires b'[litp + 2..c.ip + n] == b[litp + 2..c.ip] + Copied(c.out, dist, n)
    ensures var c' := Point(Short, c.ip + n, Copy(c.out, dist, n));
            Reached(b', k) && ShortTail(b', k, litp, 3, c') && Decode(b', c') == Decode(b, c)
  {
    hide ParseMatch, Copy, Reached, Decode, Step, MatchOut, Copied;
    ShortTailIs(b, k, litp, lit, c);
    Retail(b, b', k, litp, lit, c, 3);
    var out := Copy(c.out, dist, n);
    assert MatchOut(b, k) + (b[litp + 2..c.ip] + Copied(c.out, dist, n)) == out;
    ShortMatchStep(b, c, n, dist, n);
    StateFree(b, c.ip + n, out, Run, Short);
    DecodeSuffix(b, b', Point(Short, c.ip + n, out));
  }

  /** A run of literals with a one-byte header. */
  lemma {:induction false} RunStep(b: seq<byte>, c: Point, v: nat)
    requires c.st == Run && 1 <= v <= 15 && c.ip + 1 + v + 3 <= |b| && b[c.ip] == v
    ensures Step(b, c) == Next(Point(Lits, c.ip + 1 + v + 3, c.out + b[c.ip + 1..c.ip + 1 + v + 3]))
  {
  }

  /** A match without literals after it and then a run, as one point to the next. */
  lemma {:induction false} MatchThenRun(b: seq<byte>, c: Point, n: nat, dist: nat, size: nat, h: nat)
    requires ShortMatch(b, c, n, dist, size) && b[c.ip + size] == h && 1 <= h <= 15 && c.ip + size + 1 + h + 3 <= |b|
    ensures var e := c.ip + size + 1 + h + 3;
            Decode(b, c) == Decode(b, Point(Lits, e, Copy(c.out, dist, n) + b[c.ip + size + 1..e]))
  {
    hide Copy, Step, ParseMatch;
    ShortMatchStep(b, c, n, dist, size);
    RunStep(b, Point(Run, c.ip + size, Copy(c.out, dist, n)), h);
  }

  lemma LongTailIs(b: seq<byte>, k: Point, litp: nat, lit: nat, c: Point)
    requires LongTail(b, k, litp, lit, c)
    ensures litp + 1 + lit <= |b| && c == Point(Lits, litp + 1 + lit, k.out + b[litp + 1..litp + 1 + lit])
  {
  }

  /** Second rewrite: such a match between short literals and a run of literals
      joins the two, the header of the run moving before the short literals. */
  lemma {:induction false} Merge(b: seq<byte>, b': seq<byte>, k: Point, litp: nat, lit: nat, c: Point, n: nat,
                                 dist: nat, h: nat)
    requires Reached(b, k) && ShortTail(b, k, litp, lit, c) && ShortMatch(b, c, n, dist, n)
    requires b[c.ip + n] == h && 1 <= h && lit + n + h < 16 && c.ip + n + 1 + h + 3 <= |b|
    requires SameCode(b, b', litp + 2) && b'[litp] % 4 == 0 && b'[litp + 2] == lit + n + h
      && AgreeFrom(b, b', c.ip + n + 1)
    requires b'[litp + 3..c.ip + n + 1] == b[litp + 2..c.ip] + Copied(c.out, dist, n)
    ensures ParseMatch(b, k.st, k.ip).value.dist <= |k.out|
    ensures var e := c.ip + n + 1 + h + 3; var k' := Point(Run, litp + 2, MatchOut(b, k));
            var c' := Point(Lits, e, Copy(c.out, dist, n) + b[c.ip + n + 1..e]);
            Reached(b', k') && LongTail(b', k', litp + 2, lit + n + h + 3, c') && Decode(b', c') == Decode(b, c)
            && Step(b', k) == Next(k')
  {
    hide ParseMatch, Copy, Reached, Decode, Step, MatchOut, Copied;
    ShortTailIs(b, k, litp, lit, c);
    Retail(b, b', k, litp, lit, c, 0);
    var e, base, mid := c.ip + n + 1 + h + 3, MatchOut(b, k), c.ip + n + 1;
    var k' := Point(Run, litp + 2, base);
    assert base + b'[litp + 2..litp + 2] == base;
    ReachedNext(b', k, k');
    RunStep(b', k', lit + n + h);
    assert b'[litp + 3..e] == b'[litp + 3..mid] + b'[mid..e];
    assert b'[mid..e] == b[mid..e];
    assert base + (b[litp + 2..c.ip] + Copied(c.out, dist, n) + b[mid..e]) == Copy(c.out, dist, n) + b[mid..e];
    MatchThenRun(b, c, n, dist, n, h);
    DecodeSuffix(b, b', Point(Lits, e, Copy(c.out, dist, n) + b[mid..e]));
  }

  /** Third rewrite: a match of three bytes with a code of two between two runs of
      literals joins them. */
  lemma {:induction false} Extend(b: seq<byte>, b': seq<byte>, k: Point, litp: nat, lit: nat, c: Point, dist: nat,
                                  h: nat)
    requires Reached(b, k) && LongTail(b, k, litp, lit, c) && ShortMatch(b, c, 3, dist, 2)
    requires b[c.ip + 2] == h && 1 <= h && lit + 3 + h < 16 && c.ip + 3 + h + 3 <= |b|
    requires AgreeBelow(b, b', litp) && b'[litp] == lit + 3 + h && AgreeFrom(b, b', c.ip + 3)
    requires b'[litp + 1..c.ip + 3] == b[litp + 1..c.ip] + Copied(c.out, dist, 3)
    ensures var e := c.ip + 3 + h + 3; var c' := Point(Lits, e, Copy(c.out, dist, 3) + b[c.ip + 3..e]);
            Reached(b', k) && LongTail(b', k, litp, lit + 3 + h + 3, c') && Decode(b', c') == Decode(b, c)
  {
    hide ParseMatch, Copy, Reached, Decode, Step, Copied;
    LongTailIs(b, k, litp, lit, c);
    ReachedLocal(b, b', k);
    var e, mid := c.ip + 3 + h + 3, c.ip + 3;
    RunStep(b', k, lit + 3 + h);
    assert b'[litp + 1..e] == b'[litp + 1..mid] + b'[mid..e];
    assert b'[mid..e] == b[mid..e];
    assert k.out + (b[litp + 1..c.ip] + Copied(c.out, dist, 3) + b[mid..e]) == Copy(c.out, dist, 3) + b[mid..e];
    MatchThenRun(b, c, 3, dist, 2, h);
    DecodeSuffix(b, b', Point(Lits, e, Copy(c.out, dist, 3) + b[mid..e]));
  }
}
