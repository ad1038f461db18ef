/** lzo1x_optimize: decodes a block and rewrites it in place. */
module LzoOptimize {
  import opened Bits
  import opened Options
  import opened BackCopy
  import opened Lzo1x
  import opened LzoRewrites
  import opened LzoPass
  import opened LzoCount

  /** A length that goes on over zero bytes, from `p`. */
  method ReadLength(b: array<byte>, p: nat, t: nat, base: nat) returns (len: nat, q: nat)
    requires Length(b[..], p, t, base).Some?
    ensures Length(b[..], p, t, base) == Some((len, q))
  {
    len, q := t, p;
    if len == 0 {
      len := base;
      while b[q] == 0
        invariant Ext(b[..], q, len) == Ext(b[..], p, base)
        decreases b.Length - q
      {
        len, q := len + 255, q + 1;
      }
      len, q := len + b[q], q + 1;
    }
  }

  /** Reads the match code at `ip`. */
  method ReadMatch(b: array<byte>, st: State, ip: nat) returns (m: MatchCode)
    requires ip < b.Length && ParseMatch(b[..], st, ip).Some?
    ensures ParseMatch(b[..], st, ip) == Some(m)
  {
    hide Length;
    var t: nat := b[ip];
    if t >= 64 {
      m := MatchCode(t / 32 - 1 + 2, Distance(1, t / 4 % 8, 8, b[ip + 1]), ip + 2);
    } else if t >= 32 {
      var len, p := ReadLength(b, ip + 1, t % 32, 31);
      m := MatchCode(len + 2, Distance(1, b[p] / 4, 64, b[p + 1]), p + 2);
    } else if t >= 16 {
      var len, p := ReadLength(b, ip + 1, t % 8, 7);
      var off := Distance(if t / 8 % 2 == 1 then 0x4000 else 0, b[p] / 4, 64, b[p + 1]);
      m := if off == 0 then EndCode(p + 2) else MatchCode(len + 2, off + 0x4000, p + 2);
    } else if st == Lits {
      m := MatchCode(3, Distance(1 + 0x800, t / 4, 4, b[ip + 1]), ip + 2);
    } else {
      m := MatchCode(2, Distance(1, t / 4, 4, b[ip + 1]), ip + 2);
    }
  }

  /** Copies `n` literals to the output. */
  method CopyLiterals(b: array<byte>, ip: nat, out: array<byte>, op: nat, n: nat)
    requires ip + n <= b.Length && op + n <= out.Length && b != out
    modifies out
    ensures out[..op + n] == old(out[..op]) + b[ip..ip + n]
  {
    for i := 0 to n
      invariant out[..op + i] == old(out[..op]) + b[ip..ip + i]
    {
      assert b[ip..ip + (i + 1)] == b[ip..ip + i] + [b[ip + i]];
      out[op + i] := b[ip + i];
      assert out[..op + (i + 1)] == out[..op + i] + [b[ip + i]];
    }
  }

  /** Copies a match within the output. */
  method CopyBack(out: array<byte>, op: nat, dist: nat, n: nat)
    requires 1 <= dist <= op && op + n <= out.Length
    modifies out
    ensures out[..op + n] == Copy(old(out[..op]), dist, n)
  {
    hide Copy;
    ghost var whole := Copy(out[..op], dist, n);
    for i := 0 to n
      invariant Copy(out[..op + i], dist, n - i) == whole
    {
      ghost var was := out[..op + i];
      out[op + i] := out[op + i - dist];
      assert out[..op + (i + 1)] == was + [was[|was| - dist]];
      CopyStep(was, dist, n - i);
    }
    CopyStep(out[..op + n], dist, 0);
  }

  lemma CopyStep(out: seq<byte>, dist: nat, n: nat)
    requires 1 <= dist <= |out|
    ensures n == 0 ==> Copy(out, dist, n) == out
    ensures n > 0 ==> Copy(out, dist, n) == Copy(out + [out[|out| - dist]], dist, n - 1)
  {
  }

  /** Copies a match and the `nl` literals after it. */
  method CopyMatch(b: array<byte>, end: nat, out: array<byte>, op: nat, dist: nat, len: nat, nl: nat)
    requires 1 <= dist <= op && op + len + nl <= out.Length && end + nl <= b.Length && b != out
    modifies out
    ensures out[..op + len + nl] == Copy(old(out[..op]), dist, len) + b[..][end..end + nl]
  {
    hide Copy;
    CopyBack(out, op, dist, len);
    CopyLiterals(b, end, out, op + len, nl);
    assert b[end..end + nl] == b[..][end..end + nl];
  }

  /** copy2: the two bytes that a match from `dist` before `op` writes, put at `at`. */
  method Copy2(b: array<byte>, at: nat, out: array<byte>, op: nat, dist: nat)
    requires 1 <= dist <= op <= out.Length && at + 2 <= b.Length && b != out
    modifies b
    ensures b[at..at + 2] == Copied(out[..op], dist, 2)
    ensures forall i | 0 <= i < b.Length && !(at <= i < at + 2) :: b[i] == old(b[i])
  {
    TwoCopied(out[..op], dist);
    b[at] := out[op - dist];
    if dist == 1 {
      b[at + 1] := out[op - dist];
    } else {
      b[at + 1] := out[op - dist + 1];
    }
  }

  lemma {:induction false} TwoCopied(s: seq<byte>, dist: nat)
    requires 1 <= dist <= |s|
    ensures Copied(s, dist, 2) == [s[|s| - dist], if dist == 1 then s[|s| - dist] else s[|s| - dist + 1]]
  {
    var s1 := s + [s[|s| - dist]];
    assert Copy(s, dist, 2) == Copy(s1, dist, 1) == Copy(s1 + [s1[|s1| - dist]], dist, 0);
  }

  /** copy3 */
  method Copy3(b: array<byte>, at: nat, out: array<byte>, op: nat, dist: nat)
    requires 1 <= dist <= op <= out.Length && at + 3 <= b.Length && b != out
    modifies b
    ensures b[at..at + 3] == Copied(out[..op], dist, 3)
    ensures forall i | 0 <= i < b.Length && !(at <= i < at + 3) :: b[i] == old(b[i])
  {
    ThreeCopied(out[..op], dist);
    b[at] := out[op - dist];
    if dist == 1 {
      b[at + 1] := out[op - dist];
      b[at + 2] := out[op - dist];
    } else if dist == 2 {
      b[at + 1] := out[op - dist + 1];
      b[at + 2] := out[op - dist];
    } else {
      b[at + 1] := out[op - dist + 1];
      b[at + 2] := out[op - dist + 2];
    }
  }

  lemma {:induction false} ThreeCopied(s: seq<byte>, dist: nat)
    requires 1 <= dist <= |s|
    ensures Copied(s, dist, 3) == [s[|s| - dist], if dist == 1 then s[|s| - dist] else s[|s| - dist + 1],
                                   if dist == 1 || dist == 2 then s[|s| - dist] else s[|s| - dist + 2]]
  {
    var s1 := s + [s[|s| - dist]];
    var s2 := s1 + [s1[|s1| - dist]];
    assert Copy(s, dist, 3) == Copy(s1, dist, 2);
    assert Copy(s1, dist, 2) == Copy(s2, dist, 1) == Copy(s2 + [s2[|s2| - dist]], dist, 0);
  }

  // ----- the rewrites in place -----

  /** Where the bytes of a rewritten match begin: at its code. */
  method PutCopied(b: array<byte>, at: nat, out: array<byte>, op: nat, dist: nat, n: nat)
    requires 1 <= dist <= op <= out.Length && 2 <= n <= 3 && at + n <= b.Length && b != out
    modifies b
    ensures b[at..at + n] == Copied(out[..op], dist, n)
    ensures forall i | 0 <= i < b.Length && !(at <= i < at + n) :: b[i] == old(b[i])
  {
    if n == 2 {
      Copy2(b, at, out, op, dist);
    } else {
      Copy3(b, at, out, op, dist);
    }
  }

  /** The match at `ip` turns into literals of the match before it, which then has three. */
  method AbsorbMatch(b: array<byte>, litp: nat, lit: nat, ip: nat, n: nat, out: array<byte>, op: nat, dist: nat,
                     ghost k: Point, ghost c: Point)
    requires b != out && 2 <= n <= 3 && lit + n == 3 && ip == c.ip && op == |c.out| <= out.Length && out[..op] == c.out
    requires Reached(b[..], k) && ShortTail(b[..], k, litp, lit, c) && ShortMatch(b[..], c, n, dist, n)
    requires ip + n + 1 < b.Length && b[ip + n] >= 16
    modifies b
    ensures var c' := Point(Short, ip + n, Copy(c.out, dist, n));
            Reached(b[..], k) && ShortTail(b[..], k, litp, 3, c') && Decode(b[..], c') == Decode(old(b[..]), c)
    ensures b[ip + n] >= 16
    ensures litp + 2 <= ip && b[..] == AbsorbedBytes(old(b[..]), litp, ip, Copied(c.out, dist, n))
    ensures AllInstructions(b[..]) == old(AllInstructions(b[..])) - 1
  {
    hide Reached, ParseMatch, Decode, Step, Copied, Copy, MatchOut, AbsorbedBytes, AllInstructions;
    ghost var was := b[..];
    ShortTailIs(was, k, litp, lit, c);
    LowBits3(b[litp], 3);
    b[litp] := b[litp] / 4 * 4 + 3;
    PutCopied(b, ip, out, op, dist, n);
    assert b[litp + 2..ip + n] == was[litp + 2..ip] + Copied(c.out, dist, n) by {
      assert b[litp + 2..ip] == was[litp + 2..ip];
      assert b[litp + 2..ip + n] == b[litp + 2..ip] + b[ip..ip + n];
    }
    assert b[..][litp + 2..ip + n] == b[litp + 2..ip + n];
    Absorb(was, b[..], k, litp, lit, c, n, dist);
    AbsorbCounts(was, b[..], k, litp, lit, c, n, dist, Point(Short, ip + n, Copy(c.out, dist, n)));
    AbsorbedAre(was, b[..], litp, ip, Copied(c.out, dist, n));
  }

  lemma AbsorbedAre(b: seq<byte>, b': seq<byte>, litp: nat, ip: nat, m: seq<byte>)
    requires litp < ip && ip + |m| <= |b| == |b'|
    requires forall i | 0 <= i < |b| && i != litp && !(ip <= i < ip + |m|) :: b'[i] == b[i]
    requires b'[litp] == b[litp] / 4 * 4 + 3 && b'[ip..ip + |m|] == m
    ensures b' == AbsorbedBytes(b, litp, ip, m)
  {
    var e := ip + |m|;
    assert b' == b'[..litp] + [b'[litp]] + b'[litp + 1..ip] + b'[ip..e] + b'[e..];
    assert b'[..litp] == b[..litp] && b'[litp + 1..ip] == b[litp + 1..ip] && b'[e..] == b[e..];
  }

  lemma LowBits3(x: nat, low: nat)
    requires low < 4
    ensures (x / 4 * 4 + low) / 4 == x / 4 && (x / 4 * 4 + low) % 4 == low && (x < 256 ==> x / 4 * 4 + low < 256)
  {
  }

  /** The short literals, the match at `ip` and the run after it turn into one run. */
  method MergeRuns(b: array<byte>, litp: nat, lit: nat, ip: nat, n: nat, out: array<byte>, op: nat, dist: nat, h: nat,
                   ghost k: Point, ghost c: Point)
    returns (ghost k': Point)
    requires b != out && 2 <= n <= 3 && ip == c.ip && op == |c.out| <= out.Length && out[..op] == c.out
    requires Reached(b[..], k) && ShortTail(b[..], k, litp, lit, c) && ShortMatch(b[..], c, n, dist, n)
    requires b[ip + n] == h && 1 <= h && lit + n + h < 16 && ip + n + 1 + h + 3 <= b.Length
    modifies b
    ensures var e := ip + n + 1 + h + 3;
            var c' := Point(Lits, e, Copy(c.out, dist, n) + b[ip + n + 1..e]);
            && Reached(b[..], k') && LongTail(b[..], k', litp + 2, lit + n + h + 3, c')
            && Decode(b[..], c') == Decode(old(b[..]), c)
    ensures litp + 2 <= ip && b[..] == MergedBytes(old(b[..]), litp, ip, Copied(c.out, dist, n), lit + n + h)
    ensures b[ip + n + 1..] == old(b[ip + n + 1..]) && AllInstructions(b[..]) == old(AllInstructions(b[..])) - 1
  {
    hide Reached, ParseMatch, Decode, Step, Copied, Copy, MatchOut, SameCode, AgreeFrom, LongTail, MergedBytes,
         AllInstructions;
    ghost var was := b[..];
    ShortTailIs(was, k, litp, lit, c);
    JoinBytes(b, litp, lit, ip, n, out, op, dist, lit + n + h);
    Merge(was, b[..], k, litp, lit, c, n, dist, h);
    k' := Point(Run, litp + 2, MatchOut(was, k));
    TailsAgree(was, b[..], ip + n + 1, ip + n + 1 + h + 3);
    TailsAgree(was, b[..], ip + n + 1, b.Length);
    MergeCounts(was, b[..], k, litp, lit, c, n, dist, h, k',
                Point(Lits, ip + n + 1 + h + 3, Copy(c.out, dist, n) + was[ip + n + 1..ip + n + 1 + h + 3]));
    assert b[ip + n + 1..] == b[..][ip + n + 1..b.Length] && was[ip + n + 1..b.Length] == old(b[ip + n + 1..]);
    assert b[ip + n + 1..ip + n + 1 + h + 3] == b[..][ip + n + 1..ip + n + 1 + h + 3];
  }

  lemma TailsAgree(b: seq<byte>, b': seq<byte>, from: nat, to: nat)
    requires AgreeFrom(b, b', from) && from <= to <= |b|
    ensures b[from..to] == b'[from..to]
  {
  }

  /** The bytes of two runs joined: the header `v` before the literals of the first run and those the match stands
      for. */
  method JoinBytes(b: array<byte>, litp: nat, lit: nat, ip: nat, n: nat, out: array<byte>, op: nat, dist: nat, v: byte)
    requires b != out && 2 <= n <= 3 && 1 <= dist <= op <= out.Length && litp + 2 + lit == ip && ip + n + 1 <= b.Length
    modifies b
    ensures SameCode(old(b[..]), b[..], litp + 2) && b[litp] % 4 == 0 && b[litp + 2] == v
    ensures AgreeFrom(old(b[..]), b[..], ip + n + 1)
    ensures b[..][litp + 3..ip + n + 1] == old(b[..])[litp + 2..ip] + Copied(old(out[..op]), dist, n)
    ensures b[..] == MergedBytes(old(b[..]), litp, ip, Copied(old(out[..op]), dist, n), v)
  {
    hide Copied;
    ghost var was := b[..];
    LowBits3(b[litp], 0);
    b[litp] := b[litp] / 4 * 4;
    PutCopied(b, ip + 1, out, op, dist, n);
    MoveUp(b, litp + 2, lit);
    b[litp + 2] := v;
    MovedUp(was, b[..], litp, ip, n, Copied(out[..op], dist, n));
    JoinedAre(was, b[..], litp, ip, Copied(out[..op], dist, n), v);
  }

  lemma JoinedAre(b: seq<byte>, b': seq<byte>, litp: nat, ip: nat, m: seq<byte>, v: byte)
    requires litp + 2 <= ip && ip + |m| + 1 <= |b| == |b'|
    requires forall i | 0 <= i < litp || i == litp + 1 || ip + |m| + 1 <= i < |b| :: b'[i] == b[i]
    requires b'[litp] == b[litp] / 4 * 4 && b'[litp + 2] == v && b'[litp + 3..ip + |m| + 1] == b[litp + 2..ip] + m
    ensures b' == MergedBytes(b, litp, ip, m, v)
  {
    var e := ip + |m| + 1;
    assert b' == b'[..litp] + [b'[litp], b'[litp + 1], b'[litp + 2]] + b'[litp + 3..e] + b'[e..];
    assert b'[..litp] == b[..litp] && b'[e..] == b[e..];
  }

  /** memmove(p + 1, p, n) */
  method MoveUp(b: array<byte>, p: nat, n: nat)
    requires p + n + 1 <= b.Length
    modifies b
    ensures forall i | 0 <= i < b.Length :: b[i] == if p < i <= p + n then old(b[i - 1]) else old(b[i])
  {
    forall i | p < i <= p + n {
      b[i] := b[i - 1];
    }
  }

  lemma MovedUp(b: seq<byte>, b': seq<byte>, litp: nat, ip: nat, n: nat, m: seq<byte>)
    requires |b| == |b'| && litp + 2 <= ip && ip + n < |b| && |m| == n
    requires forall i | litp + 2 <= i < ip :: b'[i + 1] == b[i]
    requires forall i | 0 <= i < n :: b'[ip + 1 + i] == m[i]
    ensures b'[litp + 3..ip + n + 1] == b[litp + 2..ip] + m
  {
    var l, r := b'[litp + 3..ip + n + 1], b[litp + 2..ip] + m;
    forall i | 0 <= i < |r| ensures l[i] == r[i] {
      if i < ip - litp - 2 {
        assert b'[(litp + 2 + i) + 1] == b[litp + 2 + i];
      } else {
        assert b'[ip + 1 + (i - (ip - litp - 2))] == m[i - (ip - litp - 2)];
      }
    }
  }

  /** The run before the match at `ip` takes over the match and the run after it. */
  method ExtendRun(b: array<byte>, litp: nat, lit: nat, ip: nat, out: array<byte>, op: nat, dist: nat, h: nat,
                   ghost k: Point, ghost c: Point)
    requires b != out && ip == c.ip && op == |c.out| <= out.Length && out[..op] == c.out
    requires Reached(b[..], k) && LongTail(b[..], k, litp, lit, c) && ShortMatch(b[..], c, 3, dist, 2)
    requires b[ip + 2] == h && 1 <= h && lit + 3 + h < 16 && ip + 3 + h + 3 <= b.Length
    modifies b
    ensures var e := ip + 3 + h + 3; var c' := Point(Lits, e, Copy(c.out, dist, 3) + b[ip + 3..e]);
            && Reached(b[..], k) && LongTail(b[..], k, litp, lit + 3 + h + 3, c')
            && Decode(b[..], c') == Decode(old(b[..]), c)
    ensures litp + 2 <= ip && b[..] == ExtendedBytes(old(b[..]), litp, ip, Copied(c.out, dist, 3), lit + 3 + h)
    ensures b[ip + 3..] == old(b[ip + 3..]) && AllInstructions(b[..]) == old(AllInstructions(b[..])) - 2
  {
    hide Reached, ParseMatch, Decode, Step, Copied, Copy, AllInstructions;
    ghost var was := b[..];
    LongTailIs(was, k, litp, lit, c);
    Copy3(b, ip, out, op, dist);
    b[litp] := lit + 3 + h;
    assert b[litp + 1..ip + 3] == was[litp + 1..ip] + Copied(c.out, dist, 3) by {
      assert b[litp + 1..ip] == was[litp + 1..ip];
      assert b[litp + 1..ip + 3] == b[litp + 1..ip] + b[ip..ip + 3];
    }
    assert b[..][litp + 1..ip + 3] == b[litp + 1..ip + 3];
    Extend(was, b[..], k, litp, lit, c, dist, h);
    ExtendCounts(was, b[..], k, litp, lit, c, dist, h,
                 Point(Lits, ip + 3 + h + 3, Copy(c.out, dist, 3) + was[ip + 3..ip + 3 + h + 3]));
    assert b[ip + 3..ip + 3 + h + 3] == was[ip + 3..ip + 3 + h + 3];
    assert b[..] == ExtendedBytes(was, litp, ip, b[ip..ip + 3], lit + 3 + h);
  }

  // ----- the loop -----

  datatype Status = Ok | InputNotConsumed | EofNotFound

  /** The pointers of lzo1x_optimize. `litp` is -1 for NULL. The decoding stands at
      the point `c`; the last instruction before it began at `k`. */
  class Optimizer {
    const inp: array<byte>
    const out: array<byte>
    var ip: nat
    var op: nat
    var st: State
    var litp: int
    var lit: nat
    ghost var c: Point
    ghost var k: Point

    constructor (inp: array<byte>, out: array<byte>)
      ensures this.inp == inp && this.out == out && ip == 0 && op == 0 && litp == -1 && lit == 0
    {
      this.inp, this.out := inp, out;
      ip, op, st, litp, lit := 0, 0, Run, -1, 0;
    }

    /** The state as the pass over values has it. */
    ghost function Now(): (p: Pass)
      requires op <= out.Length
      reads this, inp, out
    {
      Pass(inp[..], st, ip, out[..op], litp, lit)
    }

    /** `lit` literals stand before the current point, counted by the byte at `litp`. */
    ghost predicate Tail()
      reads this, inp
    {
      litp >= 0 ==>
        && Reached(inp[..], k)
        && (lit <= 3 ==> ShortTail(inp[..], k, litp, lit, c))
        && (4 <= lit <= 18 ==> LongTail(inp[..], k, litp, lit, c))
        && (lit > 3 ==> c.st == Lits)
    }

    /** The point is reached, and what was decoded so far is in `out`. */
    ghost predicate AtPoint()
      reads this, inp, out
    {
      && inp != out && ip == c.ip && op == |c.out| <= out.Length && out[..op] == c.out
      && Reached(inp[..], c)
      && ip <= inp.Length && (st == c.st || (ip + 1 < inp.Length && inp[ip] >= 16))
    }

    /** The stream stands for `r`. */
    ghost predicate Valid(r: Decoded)
      reads this, inp, out
    {
      && AtPoint() && Tail()
      && Decode(inp[..], c) == Some(r) && |r.out| <= out.Length
    }

    /** The first byte. */
    method Start(ghost r: Decoded)
      requires inp != out && DecodeAll(inp[..]) == Some(r) && |r.out| <= out.Length && ip == 0 && op == 0 && litp == -1
        && lit == 0
      modifies this, out
      ensures Valid(r) && inp[..] == old(inp[..]) && Now() == PassBegin(inp[..])
    {
      hide Reached, Decode, Step, Copy, ParseMatch, LongTail, ShortTail;
      ghost var b := inp[..];
      c := Begin(b).c;
      BeginReached(b, c);
      DecodeGoesOn(b, c, r);
      st := Run;
      if inp[0] > 17 {
        var t: nat := inp[0] - 17;
        CopyLiterals(inp, 1, out, 0, t);
        ip, op, st := 1 + t, t, if t < 4 then Short else Lits;
      }
    }

    /** A run of literals at the head of the outer loop. */
    method TakeRun(ghost r: Decoded)
      requires Valid(r) && More(inp[..], c) && st == Run && inp[ip] < 16
      modifies this, out
      ensures Valid(r) && ip > old(ip) && Some(Now()) == old(TakenRun(Now()))
    {
      hide Reached, Decode, Step, Copy, ParseMatch, LongTail, ShortTail, Length, TakenRun;
      ghost var b, was := inp[..], Now();
      DecodeGoesOn(b, c, r);
      RunTaken(b, c);
      var len, p := ReadLength(inp, ip + 1, inp[ip], 15);
      ghost var n := Step(b, c).c;
      DecodeGoesOn(b, n, r);
      ReachedNext(b, c, n);
      RunTail(b, c, len, p);
      CopyLiterals(inp, p, out, op, len + 3);
      TakenRunIs(was, len, p);
      litp, lit := ip, len + 3;
      op, ip, st := op + lit, p + lit, Lits;
      k, c := c, n;
      assert out[..op] == c.out;
    }

    /** A match that stays as it is, with the literals after it. */
    method TakeMatch(len: nat, dist: nat, end: nat, ghost r: Decoded)
      requires Valid(r) && More(inp[..], c) && !(c.st == Run && inp[ip] < 16)
        && ParseMatch(inp[..], c.st, ip) == Some(MatchCode(len, dist, end))
      modifies this, out
      ensures Valid(r) && ip > old(ip) && 1 <= dist <= |old(Now()).out|
      ensures Some(Now()) == TakenMatch(old(Now()), len, dist, end)
    {
      hide Reached, Decode, Step, Copy, ParseMatch, LongTail, ShortTail, TakenMatch;
      ghost var b, was := inp[..], Now();
      DecodeGoesOn(b, c, r);
      MatchTaken(b, c, len, dist, end);
      ghost var n := Step(b, c).c;
      DecodeGoesOn(b, n, r);
      ReachedNext(b, c, n);
      var nl: nat := inp[end - 2] % 4;
      CopyMatch(inp, end, out, op, dist, len, nl);
      TakenMatchIs(was, len, dist, end);
      litp, lit := end - 2, nl;
      op, ip, st := op + len + nl, end + nl, if nl == 0 then Run else Short;
      k, c := c, n;
    }

    /** The match at `ip` becomes literals of the match before it; the code that
        follows is another match. */
    method TakeAbsorbed(n: nat, dist: nat, ghost r: Decoded)
      requires Valid(r) && litp >= 0 && 2 <= n <= 3 && lit + n == 3 && ShortMatch(inp[..], c, n, dist, n)
        && inp[ip + n] >= 16
      modifies this, inp, out
      ensures Valid(r) && ip > old(ip) && 1 <= dist <= |old(Now()).out| && old(litp + 2 <= ip)
      ensures Some(Now()) == Absorbed(old(Now()), n, dist)
      ensures AllInstructions(inp[..]) < old(AllInstructions(inp[..]))
    {
      hide Reached, Decode, Step, Copy, ParseMatch, LongTail, ShortTail, AllInstructions;
      ghost var c' := Point(Short, ip + n, Copy(c.out, dist, n));
      MatchFollows(inp[..], c, n, dist, n, r);
      AbsorbMatch(inp, litp, lit, ip, n, out, op, dist, k, c);
      DecodeGoesOn(inp[..], c', r);
      TailLeads(inp[..], k, litp, 3, c');
      ReachedNext(inp[..], k, c');
      CopyBack(out, op, dist, n);
      op, ip, st, lit := op + n, ip + n, Run, 3;
      c := c';
    }

    /** The match at `ip` and the run after it join the short literals before it. */
    method TakeMerged(n: nat, dist: nat, ghost r: Decoded)
      requires Valid(r) && litp >= 0 && lit <= 3 && 2 <= n <= 3 && ShortMatch(inp[..], c, n, dist, n)
      requires 1 <= inp[ip + n] && lit + n + inp[ip + n] < 16
      modifies this, inp, out
      ensures Valid(r) && ip > old(ip) && 1 <= dist <= |old(Now()).out| && old(litp + 2 <= ip)
      ensures Some(Now()) == Merged(old(Now()), n, dist, old(inp[ip + n]))
      ensures AllInstructions(inp[..]) < old(AllInstructions(inp[..]))
    {
      hide *;
      PointFacts(r);
      ShortMatchFacts(inp[..], c, n, dist, n);
      ghost var was, b, at := Now(), inp[..], ip + n + 1;
      ghost var e := at + inp[ip + n] + 3;
      RunFollows(b, c, n, dist, n, r);
      var h: nat := inp[ip + n];
      ghost var k' := MergeRuns(inp, litp, lit, ip, n, out, op, dist, h, k, c);
      SameRest(inp, b, at, e);
      ghost var c' := Point(Lits, e, Copy(c.out, dist, n) + inp[at..e]);
      MergedIs(was, n, dist, h, inp[..]);
      TakeLiterals(n, dist, ip + n + 1, h + 3, litp + 2, lit + n + h + 3, k', c', r);
    }

    /** Copies a match and the literals of a long run after it. */
    method TakeLiterals(n: nat, dist: nat, at: nat, len: nat, litp': nat, lit': nat, ghost k': Point, ghost c': Point,
                        ghost r: Decoded)
      requires inp != out && 1 <= dist <= op == |c.out| <= out.Length && out[..op] == c.out
      requires at + len <= inp.Length && op + n + len <= out.Length
      requires c' == Point(Lits, at + len, Copy(c.out, dist, n) + inp[at..at + len])
      requires Reached(inp[..], k') && LongTail(inp[..], k', litp', lit', c')
      requires Decode(inp[..], c') == Some(r) && |r.out| <= out.Length
      modifies this, out
      ensures Valid(r) && ip == at + len && inp[..] == old(inp[..])
      ensures Now() == Pass(inp[..], Lits, at + len, Copy(old(c.out), dist, n) + inp[at..at + len], litp', lit')
    {
      hide Reached, Decode, Step, Copy;
      DecodeGoesOn(inp[..], c', r);
      LongTailLeads(inp[..], k', litp', lit', c');
      ReachedNext(inp[..], k', c');
      CopyBack(out, op, dist, n);
      CopyLiterals(inp, at, out, op + n, len);
      litp, lit := litp', lit';
      op, ip, st := op + n + len, at + len, Lits;
      k, c := k', c';
    }

    /** The match at `ip` joins the runs before and after it. */
    method TakeExtended(dist: nat, ghost r: Decoded)
      requires Valid(r) && litp >= 0 && lit > 3 && ShortMatch(inp[..], c, 3, dist, 2)
      requires 1 <= inp[ip + 2] && lit + 3 + inp[ip + 2] < 16
      modifies this, inp, out
      ensures Valid(r) && ip > old(ip) && 1 <= dist <= |old(Now()).out| && old(litp + 2 <= ip)
      ensures Some(Now()) == Extended(old(Now()), dist, old(inp[ip + 2]))
      ensures AllInstructions(inp[..]) < old(AllInstructions(inp[..]))
    {
      hide *;
      PointFacts(r);
      ShortMatchFacts(inp[..], c, 3, dist, 2);
      ghost var was, b, at := Now(), inp[..], ip + 3;
      ghost var e := at + inp[ip + 2] + 3;
      RunFollows(b, c, 3, dist, 2, r);
      var h: nat := inp[ip + 2];
      ExtendRun(inp, litp, lit, ip, out, op, dist, h, k, c);
      SameRest(inp, b, at, e);
      ghost var c' := Point(Lits, e, Copy(c.out, dist, 3) + inp[at..e]);
      ExtendedIs(was, dist, h, inp[..]);
      TakeLiterals(3, dist, ip + 3, h + 3, litp, lit + 3 + h + 3, k, c', r);
    }

    lemma PointFacts(r: Decoded)
      requires Valid(r)
      ensures inp != out && ip == c.ip && op == |c.out| <= out.Length && out[..op] == c.out
      ensures Decode(inp[..], c) == Some(r) && |r.out| <= out.Length
      ensures Now() == Pass(inp[..], st, ip, c.out, litp, lit)
      ensures litp >= 0 && lit <= 3 ==> Reached(inp[..], k) && ShortTail(inp[..], k, litp, lit, c)
      ensures litp >= 0 && 3 < lit < 16 ==> Reached(inp[..], k) && LongTail(inp[..], k, litp, lit, c)
    {
      hide Reached, Decode, ShortTail, LongTail;
    }

    /** A match: rewritten where that is possible without changing any length,
        else taken as it is. */
    method DoMatch(ghost r: Decoded) returns (end: nat, found: bool)
      requires Valid(r) && More(inp[..], c) && !(st == Run && inp[ip] < 16)
      modifies this, inp, out
      ensures found ==> r == Decoded(true, end, c.out) && Valid(r)
      ensures !found ==> Valid(r) && ip > old(ip)
      ensures PassStep(old(Now())) == if found then None else Some(Now())
      ensures found ==> Now() == old(Now())
      ensures inp[..] == old(inp[..]) || AllInstructions(inp[..]) < old(AllInstructions(inp[..]))
    {
      hide Reached, Decode, Step, Copy, ParseMatch, LongTail, ShortTail, ShortMatch, PassMatch, AllInstructions;
      ghost var b := inp[..];
      MatchHere(b, c, st, r);
      var m := ReadMatch(inp, st, ip);
      end := m.end;
      found := m.EndCode?;
      if !found {
        MoveMatch(m.len, m.dist, end, r);
      }
    }

    /** What becomes of a match of `len` bytes whose code goes up to `end`. */
    method MoveMatch(len: nat, dist: nat, end: nat, ghost r: Decoded)
      requires Valid(r) && More(inp[..], c) && !(st == Run && inp[ip] < 16) && !(c.st == Run && inp[ip] < 16)
      requires ParseMatch(inp[..], st, ip) == ParseMatch(inp[..], c.st, ip) == Some(MatchCode(len, dist, end))
      modifies this, inp, out
      ensures Valid(r) && ip > old(ip) && 1 <= dist <= |old(Now()).out|
      ensures Some(Now()) == PassMatch(old(Now()), len, dist, end)
      ensures inp[..] == old(inp[..]) || AllInstructions(inp[..]) < old(AllInstructions(inp[..]))
    {
      hide Reached, Decode, Step, Copy, ParseMatch, LongTail, ShortTail, ShortMatch, Absorbed, Merged, Extended,
           TakenMatch, AllInstructions;
      ghost var b := inp[..];
      var t: nat := inp[ip];
      var nl := inp[end - 2] % 4;
      LitpBehind();
      if litp >= 0 && nl == 0 {
        if t < 16 && st == Short {
          CodeSize(b, st, ip);
          NoLiterals(b, c, len, dist, end, r);
          var next: nat := inp[end];
          ShortLits();
          if lit == 1 && next >= 16 {
            TakeAbsorbed(2, dist, r);
            return;
          }
          if next < 16 && next != 0 && lit + 2 + next < 16 {
            TakeMerged(2, dist, r);
            return;
          }
        } else if t >= 64 && len == 3 {
          CodeSize(b, st, ip);
          NoLiterals(b, c, len, dist, end, r);
          var next: nat := inp[end];
          if lit > 3 && next < 16 && next != 0 && lit + 3 + next < 16 {
            TakeExtended(dist, r);
            return;
          }
        } else if t >= 16 && len == 3 {
          CodeSize(b, st, ip);
          NoLiterals(b, c, len, dist, end, r);
          var next: nat := inp[end];
          if lit == 0 && next >= 16 {
            TakeAbsorbed(3, dist, r);
            return;
          }
          if lit <= 3 && next < 16 && next != 0 && lit + 3 + next < 16 {
            TakeMerged(3, dist, r);
            return;
          }
        }
      }
      TakeMatch(len, dist, end, r);
    }

    /** The byte that counts the literals stands before them. */
    lemma LitpBehind()
      requires AtPoint() && Tail()
      ensures litp >= 0 && lit <= 18 ==> litp + 2 <= ip
    {
      hide Reached, ParseMatch, Copy;
      if litp >= 0 && lit <= 3 {
        ShortTailIs(inp[..], k, litp, lit, c);
      } else if litp >= 0 && lit <= 18 {
        LongTailIs(inp[..], k, litp, lit, c);
      }
    }

    /** Where no test of the loop fails there is a code to be read. */
    lemma MoreInput(r: Decoded)
      requires Valid(r) && !(st == Run && ip == inp.Length) && !(st == Short && ip + 1 == inp.Length)
      ensures More(inp[..], c)
    {
      hide ParseMatch, Length, Copy, Reached, ShortTail, LongTail;
    }

    /** In the inner loop the literals before a code below 16 are short. */
    lemma ShortLits()
      requires Tail() && AtPoint() && ip < inp.Length && litp >= 0 && st == Short && inp[ip] < 16
      ensures lit <= 3
    {
    }
  }

  lemma ShortMatchFacts(b: seq<byte>, c: Point, n: nat, dist: nat, size: nat)
    requires ShortMatch(b, c, n, dist, size)
    ensures c.ip + size < |b| && 1 <= dist <= |c.out|
  {
    hide ParseMatch;
  }

  lemma SameRest(b: array<byte>, was: seq<byte>, at: nat, e: nat)
    requires at <= e <= b.Length == |was| && b[at..] == was[at..]
    ensures b[at..e] == was[at..e]
  {
    assert b[at..e] == b[at..][..e - at] && was[at..e] == was[at..][..e - at];
  }

  lemma TakenRunIs(p: Pass, len: nat, at: nat)
    requires p.ip < |p.b| && Length(p.b, p.ip + 1, p.b[p.ip], 15) == Some((len, at)) && at + len + 3 <= |p.b|
    ensures TakenRun(p) == Some(Pass(p.b, Lits, at + len + 3, p.out + p.b[at..at + len + 3], p.ip, len + 3))
  {
    hide Length;
  }

  lemma TakenMatchIs(p: Pass, len: nat, dist: nat, end: nat)
    requires 1 <= dist <= |p.out| && p.ip + 2 <= end <= |p.b| && end + p.b[end - 2] % 4 <= |p.b|
    ensures var nl := p.b[end - 2] % 4;
      TakenMatch(p, len, dist, end) == Some(Pass(p.b, if nl == 0 then Run else Short, end + nl,
                                                 Copy(p.out, dist, len) + p.b[end..end + nl], end - 2, nl))
  {
    hide Copy;
  }

  lemma MergedIs(p: Pass, n: nat, dist: nat, h: nat, b: seq<byte>)
    requires 1 <= dist <= |p.out| && 0 <= p.litp && p.litp + 2 <= p.ip && p.lit + n + h < 16
    requires p.ip + n + 1 + h + 3 <= |p.b| && b == MergedBytes(p.b, p.litp, p.ip, Copied(p.out, dist, n), p.lit + n + h)
    ensures var at := p.ip + n + 1;
      Merged(p, n, dist, h) == Some(Pass(b, Lits, at + h + 3, Copy(p.out, dist, n) + p.b[at..at + h + 3], p.litp + 2,
                                         p.lit + n + h + 3))
  {
    hide MergedBytes, Copy, Copied;
  }

  lemma ExtendedIs(p: Pass, dist: nat, h: nat, b: seq<byte>)
    requires 1 <= dist <= |p.out| && 0 <= p.litp < p.ip && p.lit + 3 + h < 16
    requires p.ip + 3 + h + 3 <= |p.b| && b == ExtendedBytes(p.b, p.litp, p.ip, Copied(p.out, dist, 3), p.lit + 3 + h)
    ensures var at := p.ip + 3;
      Extended(p, dist, h) == Some(Pass(b, Lits, at + h + 3, Copy(p.out, dist, 3) + p.b[at..at + h + 3], p.litp,
                                        p.lit + 3 + h + 3))
  {
    hide ExtendedBytes, Copy, Copied;
  }

  lemma {:induction false} MatchHere(b: seq<byte>, c: Point, st: State, r: Decoded)
    requires More(b, c) && (st == c.st || b[c.ip] >= 16) && !(st == Run && b[c.ip] < 16) && Decode(b, c) == Some(r)
    ensures !(c.st == Run && b[c.ip] < 16) && ParseMatch(b, c.st, c.ip).Some?
    ensures ParseMatch(b, st, c.ip) == ParseMatch(b, c.st, c.ip)
    ensures ParseMatch(b, st, c.ip).value.EndCode? ==> r == Decoded(true, ParseMatch(b, st, c.ip).value.end, c.out)
  {
    hide Length, Distance, Copy;
    DecodeGoesOn(b, c, r);
  }

  lemma {:induction false} NoLiterals(b: seq<byte>, c: Point, len: nat, dist: nat, end: nat, r: Decoded)
    requires More(b, c) && !(c.st == Run && b[c.ip] < 16) && Looks(b, c, len)
      && ParseMatch(b, c.st, c.ip) == Some(MatchCode(len, dist, end))
    requires Decode(b, c) == Some(r) && b[end - 2] % 4 == 0
    ensures end < |b| && c.ip + 2 <= end && ShortMatch(b, c, len, dist, end - c.ip)
  {
    hide Copy, Decode, ParseMatch;
    DecodeGoesOn(b, c, r);
    MatchTaken(b, c, len, dist, end);
  }

  /** A match after a match lies within the input. */
  lemma {:induction false} MatchFollows(b: seq<byte>, c: Point, n: nat, dist: nat, size: nat, r: Decoded)
    requires ShortMatch(b, c, n, dist, size) && Decode(b, c) == Some(r) && b[c.ip + size] >= 16
    ensures c.ip + size + 1 < |b|
  {
    hide ParseMatch, Copy, Decode;
    ShortMatchStep(b, c, n, dist, size);
    DecodeGoesOn(b, Point(Run, c.ip + size, Copy(c.out, dist, n)), r);
  }

  /** How long the codes are that may be rewritten, and what they write. */
  lemma {:induction false} CodeSize(b: seq<byte>, st: State, ip: nat)
    requires ip < |b| && ParseMatch(b, st, ip).Some? && ParseMatch(b, st, ip).value.MatchCode?
    ensures b[ip] < 16 && st == Short ==>
      ParseMatch(b, st, ip).value.len == 2 && ParseMatch(b, st, ip).value.end == ip + 2
    ensures b[ip] >= 64 ==> ParseMatch(b, st, ip).value.end == ip + 2
    ensures 16 <= b[ip] < 64 && ParseMatch(b, st, ip).value.len == 3 ==> ParseMatch(b, st, ip).value.end == ip + 3
  {
  }

  /** The run after a match lies within the input. */
  lemma {:induction false} RunFollows(b: seq<byte>, c: Point, n: nat, dist: nat, size: nat, r: Decoded)
    requires ShortMatch(b, c, n, dist, size) && Decode(b, c) == Some(r) && 1 <= b[c.ip + size] < 16
    ensures c.ip + size + 1 + b[c.ip + size] + 3 <= |b| && |c.out| + n + b[c.ip + size] + 3 <= |r.out|
  {
    hide ParseMatch;
    ShortMatchStep(b, c, n, dist, size);
    var m := Point(Run, c.ip + size, Copy(c.out, dist, n));
    DecodeGoesOn(b, m, r);
    RunTaken(b, m);
    DecodeGoesOn(b, Step(b, m).c, r);
  }

  lemma LongTailLeads(b: seq<byte>, k: Point, litp: nat, lit: nat, c: Point)
    requires LongTail(b, k, litp, lit, c)
    ensures Step(b, k) == Next(c) && c.st == Lits
  {
  }

  lemma TailLeads(b: seq<byte>, k: Point, litp: nat, lit: nat, c: Point)
    requires ShortTail(b, k, litp, lit, c)
    ensures Step(b, k) == Next(c)
  {
  }

  lemma BeginReached(b: seq<byte>, c: Point)
    requires Begin(b) == Next(c)
    ensures Reached(b, c)
  {
    assert ReachedIn(b, c, 0);
  }

  lemma {:induction false} RunTaken(b: seq<byte>, c: Point)
    requires c.ip < |b| && c.st == Run && b[c.ip] < 16 && !Step(b, c).Bad?
    ensures Length(b, c.ip + 1, b[c.ip], 15).Some? && Step(b, c).Next?
  {
    hide Length;
  }

  lemma {:induction false} RunTail(b: seq<byte>, c: Point, len: nat, p: nat)
    requires c.ip < |b| && c.st == Run && b[c.ip] < 16 && Length(b, c.ip + 1, b[c.ip], 15) == Some((len, p))
      && Step(b, c).Next?
    ensures p + len + 3 <= |b| && Step(b, c).c == Point(Lits, p + len + 3, c.out + b[p..p + len + 3]) && len >= 1
    ensures len + 3 <= 18 ==> LongTail(b, c, c.ip, len + 3, Step(b, c).c)
  {
    if b[c.ip] == 0 {
      assert len > 15;
    }
  }

  lemma {:induction false} MatchTaken(b: seq<byte>, c: Point, len: nat, dist: nat, end: nat)
    requires More(b, c) && !(c.st == Run && b[c.ip] < 16)
      && ParseMatch(b, c.st, c.ip) == Some(MatchCode(len, dist, end))
    requires !Step(b, c).Bad?
    ensures 2 <= end <= |b| && 1 <= dist <= |c.out| && end + b[end - 2] % 4 <= |b|
    ensures Step(b, c).Next?
    ensures var lit := b[end - 2] % 4;
            && Step(b, c).c == Point(if lit == 0 then Run
                                     else Short, end + lit, Copy(c.out, dist, len) + b[end..end + lit])
            && ShortTail(b, c, end - 2, lit, Step(b, c).c)
  {
    hide ParseMatch, Copy;
  }

  /** There is a code to be read. */
  predicate More(b: seq<byte>, c: Point)
  {
    c.ip < |b| && !(c.st == Short && c.ip + 1 == |b|)
  }

  lemma InputOver(b: seq<byte>, c: Point, r: Decoded)
    requires Decode(b, c) == Some(r) && ((c.st == Run && c.ip == |b|) || (c.st == Short && c.ip + 1 == |b|))
    ensures r == Decoded(false, |b|, c.out)
  {
  }

  /** Decoding that ends goes on from every point, and the output only grows. */
  lemma {:induction false} DecodeGoesOn(b: seq<byte>, c: Point, r: Decoded)
    requires Decode(b, c) == Some(r)
    ensures c.ip <= |b| && |c.out| <= |r.out| && !Step(b, c).Bad? && (More(b, c) ==> !Step(b, c).Over?)
    ensures Step(b, c).Next? ==> Decode(b, Step(b, c).c) == Some(r)
    decreases |b| - c.ip
  {
    hide ParseMatch, Length, Copy;
    if Step(b, c).Next? {
      StepAdvances(b, c);
      DecodeGoesOn(b, Step(b, c).c, r);
    }
  }

  /** lzo1x_optimize: for a stream that decodes to its end code or to the end of the input, `inp` afterwards
      has the same length and decodes to the same output, which is left in `out`. */
  method Optimize(inp: array<byte>, out: array<byte>) returns (status: Status, outLen: nat)
    requires inp != out && DecodeAll(inp[..]).Some? && |DecodeAll(inp[..]).value.out| <= out.Length
    modifies inp, out
    ensures inp[..] == old(inp[..]) || AllInstructions(inp[..]) < old(AllInstructions(inp[..]))
    ensures inp[..] == Optimized(old(inp[..])) && DecodeAll(inp[..]) == old(DecodeAll(inp[..]))
    ensures outLen <= out.Length && out[..outLen] == DecodeAll(inp[..]).value.out
    ensures status == if !DecodeAll(inp[..]).value.ended then EofNotFound
                      else if DecodeAll(inp[..]).value.ip == inp.Length then Ok else InputNotConsumed
  {
    hide Reached, Decode, Step, Copy, ParseMatch, LongTail, ShortTail, PassRun, PassMatch, TakenRun,
         AllInstructions;
    ghost var r, b := DecodeAll(inp[..]).value, inp[..];
    var o := new Optimizer(inp, out);
    o.Start(r);
    while true
      invariant o.inp == inp && o.out == out && o.Valid(r) && PassRun(o.Now()) == PassRun(PassBegin(b))
      invariant inp[..] == b || AllInstructions(inp[..]) < AllInstructions(b)
      decreases inp.Length - o.ip
    {
      RunSteps(o.Now());
      if (o.st == Run && o.ip == inp.Length) || (o.st == Short && o.ip + 1 == inp.Length) {
        InputOver(inp[..], o.c, r);
        ReachedDecodes(inp[..], o.c);
        return EofNotFound, o.op;
      }
      o.MoreInput(r);
      if o.st == Run && inp[o.ip] < 16 {
        o.TakeRun(r);
      } else {
        var end, found := o.DoMatch(r);
        if found {
          ReachedDecodes(inp[..], o.c);
          return if end == inp.Length then Ok else InputNotConsumed, o.op;
        }
      }
    }
  }

  lemma RunSteps(p: Pass)
    ensures PassRun(p) == if PassStep(p).None? then p else PassRun(PassStep(p).value)
  {
    hide PassStep;
  }
}
