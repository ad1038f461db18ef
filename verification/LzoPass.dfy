/** The pass of lzo1x_optimize over a block as a function on values: which instruction is rewritten, and into what. */
module LzoPass {
  import opened Bits
  import opened Options
  import opened BackCopy
  import opened Lzo1x
  import opened LzoRewrites

  /** The block, where the pass stands, what was decoded, and the literals before it: their number, and the byte that
      counts them, or -1. */
  datatype Pass = Pass(b: seq<byte>, st: State, ip: nat, out: seq<byte>, litp: int, lit: nat)

  /** A match that becomes literals of the match before it, which then has three. */
  function AbsorbedBytes(b: seq<byte>, litp: nat, ip: nat, m: seq<byte>): (r: seq<byte>)
    requires litp < ip && ip + |m| <= |b|
    ensures |r| == |b|
  {
    b[..litp] + [b[litp] / 4 * 4 + 3] + b[litp + 1..ip] + m + b[ip + |m|..]
  }

  /** Short literals, a match and a run that become one run with the header `v`. */
  function MergedBytes(b: seq<byte>, litp: nat, ip: nat, m: seq<byte>, v: byte): (r: seq<byte>)
    requires litp + 2 <= ip && ip + |m| + 1 <= |b|
    ensures |r| == |b|
  {
    b[..litp] + [b[litp] / 4 * 4, b[litp + 1], v] + b[litp + 2..ip] + m + b[ip + |m| + 1..]
  }

  /** A run, a match and a run that become one run with the header `v`. */
  function ExtendedBytes(b: seq<byte>, litp: nat, ip: nat, m: seq<byte>, v: byte): (r: seq<byte>)
    requires litp < ip && ip + |m| <= |b|
    ensures |r| == |b|
  {
    b[..litp] + [v] + b[litp + 1..ip] + m + b[ip + |m|..]
  }

  /** A run of literals at the current point. */
  function TakenRun(p: Pass): (r: Option<Pass>)
    requires p.ip < |p.b|
    ensures r.Some? ==> |r.value.b| == |p.b| && p.ip < r.value.ip <= |p.b|
  {
    var l := Length(p.b, p.ip + 1, p.b[p.ip], 15);
    if l.None? || l.value.1 + l.value.0 + 3 > |p.b| then None
    else
      var at, n := l.value.1, l.value.0 + 3;
      Some(p.(st := Lits, ip := at + n, out := p.out + p.b[at..at + n], litp := p.ip, lit := n))
  }

  /** A match that stays, with the literals after it. */
  function TakenMatch(p: Pass, len: nat, dist: nat, end: nat): (r: Option<Pass>)
    requires 1 <= dist <= |p.out| && p.ip + 2 <= end <= |p.b|
    ensures r.Some? ==> |r.value.b| == |p.b| && p.ip < r.value.ip <= |p.b|
  {
    var nl := p.b[end - 2] % 4;
    if end + nl > |p.b| then None
    else
      Some(p.(st := if nl == 0 then Run else Short, ip := end + nl,
              out := Copy(p.out, dist, len) + p.b[end..end + nl], litp := end - 2, lit := nl))
  }

  function Absorbed(p: Pass, n: nat, dist: nat): (r: Option<Pass>)
    requires 1 <= dist <= |p.out| && 0 <= p.litp < p.ip && 1 <= n
    ensures r.Some? ==> |r.value.b| == |p.b| && p.ip < r.value.ip <= |p.b|
  {
    if p.ip + n > |p.b| then None
    else Some(Pass(AbsorbedBytes(p.b, p.litp, p.ip, Copied(p.out, dist, n)), Run, p.ip + n, Copy(p.out, dist, n),
                   p.litp, 3))
  }

  /** The run after the match begins with the byte `h`. */
  function Merged(p: Pass, n: nat, dist: nat, h: nat): (r: Option<Pass>)
    requires 1 <= dist <= |p.out| && 0 <= p.litp && p.litp + 2 <= p.ip && p.lit + n + h < 16
    ensures r.Some? ==> |r.value.b| == |p.b| && p.ip < r.value.ip <= |p.b|
  {
    var at := p.ip + n + 1;
    if at + h + 3 > |p.b| then None
    else Some(Pass(MergedBytes(p.b, p.litp, p.ip, Copied(p.out, dist, n), p.lit + n + h), Lits, at + h + 3,
                   Copy(p.out, dist, n) + p.b[at..at + h + 3], p.litp + 2, p.lit + n + h + 3))
  }

  function Extended(p: Pass, dist: nat, h: nat): (r: Option<Pass>)
    requires 1 <= dist <= |p.out| && 0 <= p.litp < p.ip && p.lit + 3 + h < 16
    ensures r.Some? ==> |r.value.b| == |p.b| && p.ip < r.value.ip <= |p.b|
  {
    var at := p.ip + 3;
    if at + h + 3 > |p.b| then None
    else Some(Pass(ExtendedBytes(p.b, p.litp, p.ip, Copied(p.out, dist, 3), p.lit + 3 + h), Lits, at + h + 3,
                   Copy(p.out, dist, 3) + p.b[at..at + h + 3], p.litp, p.lit + 3 + h + 3))
  }

  /** The match at the current point, which is no end code. The rewrites: a match of two bytes behind one literal, or
      one of three bytes behind none, before another match; the same behind up to three literals before a short run;
      and a match of three bytes with a code of two between two short runs. */
  function PassMatch(p: Pass, len: nat, dist: nat, end: nat): (r: Option<Pass>)
    requires 1 <= dist <= |p.out| && p.ip + 2 <= end <= |p.b|
    ensures r.Some? ==> |r.value.b| == |p.b| && p.ip < r.value.ip <= |p.b|
  {
    var t, next := p.b[p.ip], if end < |p.b| then p.b[end] else 0;
    if p.litp < 0 || p.b[end - 2] % 4 != 0 || p.litp + 2 > p.ip then TakenMatch(p, len, dist, end)
    else if t < 16 && p.st == Short && p.lit == 1 && next >= 16 then Absorbed(p, 2, dist)
    else if t < 16 && p.st == Short && 0 < next < 16 && p.lit + 2 + next < 16 then Merged(p, 2, dist, next)
    else if t >= 64 && len == 3 && p.lit > 3 && 0 < next < 16 && p.lit + 3 + next < 16 then Extended(p, dist, next)
    else if 16 <= t < 64 && len == 3 && p.lit == 0 && next >= 16 then Absorbed(p, 3, dist)
    else if 16 <= t < 64 && len == 3 && p.lit <= 3 && 0 < next < 16 && p.lit + 3 + next < 16 then
      Merged(p, 3, dist, next)
    else TakenMatch(p, len, dist, end)
  }

  /** One instruction; None at the end of the block. */
  function PassStep(p: Pass): (r: Option<Pass>)
    ensures r.Some? ==> |r.value.b| == |p.b| && p.ip < r.value.ip <= |p.b|
  {
    if p.ip >= |p.b| || (p.st == Short && p.ip + 1 == |p.b|) then None
    else if p.st == Run && p.b[p.ip] < 16 then TakenRun(p)
    else match ParseMatch(p.b, p.st, p.ip)
      case None => None
      case Some(EndCode(_)) => None
      case Some(MatchCode(len, dist, end)) => if dist <= |p.out| then PassMatch(p, len, dist, end) else None
  }

  function PassRun(p: Pass): (r: Pass)
    ensures |r.b| == |p.b|
    decreases |p.b| - p.ip
  {
    match PassStep(p)
    case None => p
    case Some(n) => PassRun(n)
  }

  /** The first byte. */
  function PassBegin(b: seq<byte>): (p: Pass)
    ensures p.b == b
  {
    if b == [] || b[0] <= 17 || 1 + b[0] - 17 > |b| then Pass(b, Run, 0, [], -1, 0)
    else
      var t := b[0] - 17;
      Pass(b, if t < 4 then Short else Lits, 1 + t, b[1..1 + t], -1, 0)
  }

  /** What the pass leaves of a block. */
  function Optimized(b: seq<byte>): (r: seq<byte>)
    ensures |r| == |b|
  {
    PassRun(PassBegin(b)).b
  }
}
