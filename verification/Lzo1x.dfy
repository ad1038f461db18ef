/** The LZO1X format: the decoding loop of lzo1x_optimize without its rewrites. */
module Lzo1x {
  import opened Bits
  import opened Options
  import opened BackCopy

  /** What came last: a match, a long run of literals, or one to three literals
      after a match. It decides what a code below 16 means. */
  datatype State = Run | Lits | Short

  /** A point of the decoding. */
  datatype Point = Point(st: State, ip: nat, out: seq<byte>)

  datatype MatchCode = MatchCode(len: nat, dist: nat, end: nat) | EndCode(end: nat)

  /** A length that goes on over zero bytes. */
  function Ext(b: seq<byte>, p: nat, acc: nat): (r: Option<(nat, nat)>)
    ensures r.Some? ==> acc < r.value.0 && p < r.value.1 <= |b|
    decreases |b| - p
  {
    if p >= |b| then None
    else if b[p] == 0 then Ext(b, p + 1, acc + 255)
    else Some((acc + b[p], p + 1))
  }

  function Length(b: seq<byte>, p: nat, t: nat, base: nat): (r: Option<(nat, nat)>)
    ensures r.Some? ==> 0 < r.value.0 && p <= r.value.1
  {
    if t == 0 then Ext(b, p, base) else Some((t, p))
  }

  /** The match code at `ip`. Its last two bytes end with the two bits that say
      how many literals follow. */
  function ParseMatch(b: seq<byte>, st: State, ip: nat): (r: Option<MatchCode>)
    requires ip < |b|
    ensures r.Some? ==> ip + 2 <= r.value.end <= |b|
    ensures r.Some? && r.value.MatchCode? ==> r.value.len >= 2 && r.value.dist >= 1
  {
    var t: nat := b[ip];
    if t >= 64 then
      if ip + 2 <= |b| then Some(MatchCode(t / 32 + 1, Distance(1, t / 4 % 8, 8, b[ip + 1]), ip + 2)) else None
    else if t >= 32 then
      var l := Length(b, ip + 1, t % 32, 31);
      if l.None? || l.value.1 + 2 > |b| then None
      else var p := l.value.1; Some(MatchCode(l.value.0 + 2, Distance(1, b[p] / 4, 64, b[p + 1]), p + 2))
    else if t >= 16 then
      var l := Length(b, ip + 1, t % 8, 7);
      if l.None? || l.value.1 + 2 > |b| then None
      else
        var p := l.value.1;
        var off := Distance(if t / 8 % 2 == 1 then 0x4000 else 0, b[p] / 4, 64, b[p + 1]);
        if off == 0 then Some(EndCode(p + 2)) else Some(MatchCode(l.value.0 + 2, off + 0x4000, p + 2))
    else if ip + 2 <= |b| then
      Some(if st == Lits then MatchCode(3, Distance(0x801, t / 4, 4, b[ip + 1]), ip + 2)
           else MatchCode(2, Distance(1, t / 4, 4, b[ip + 1]), ip + 2))
    else None
  }

  function Distance(base: nat, low: nat, unit: nat, high: nat): (d: nat)
    ensures d >= base
  {
    base + low + unit * high
  }

  /** `Over`: the input is used up where the loop tests for it. */
  datatype Outcome = Bad | Next(c: Point) | End(ip: nat) | Over

  /** `n` literals from `p`. */
  function Literals(b: seq<byte>, p: nat, n: nat, out: seq<byte>, st: State): (r: Outcome)
  {
    if p + n <= |b| then Next(Point(st, p + n, out + b[p..p + n])) else Bad
  }

  function AfterMatch(b: seq<byte>, end: nat, out: seq<byte>): (r: Outcome)
    requires 2 <= end <= |b|
  {
    var nl := b[end - 2] % 4;
    Literals(b, end, nl, out, if nl == 0 then Run else Short)
  }

  /** Whether the optimiser looks at the byte after a match without literals: it does after one of two or three
      bytes, unless its code stands after a long run and is below 16. */
  predicate Looks(b: seq<byte>, c: Point, len: nat)
    requires c.ip < |b|
  {
    len <= 3 && !(c.st == Lits && b[c.ip] < 16)
  }

  /** One instruction: a long run of literals, or a match with the literals after it. Reading on at the end is an
      error, but at two places the loop tests for the end: before a run or a match, and after the first byte of a
      match behind short literals. */
  function Step(b: seq<byte>, c: Point): (r: Outcome)
    ensures r.Next? ==> c.ip < r.c.ip <= |b| && |c.out| < |r.c.out|
    ensures r.End? ==> c.ip < r.ip <= |b|
  {
    if c.ip >= |b| then (if c.ip == |b| && c.st == Run then Over else Bad)
    else if c.st == Short && c.ip + 1 == |b| then Over
    else if c.st == Run && b[c.ip] < 16 then
      var l := Length(b, c.ip + 1, b[c.ip], 15);
      if l.None? then Bad else Literals(b, l.value.1, l.value.0 + 3, c.out, Lits)
    else
      var m := ParseMatch(b, c.st, c.ip);
      if m.None? then Bad
      else match m.value
        case EndCode(end) => End(end)
        case MatchCode(len, dist, end) =>
          if dist > |c.out| || (end == |b| && b[end - 2] % 4 == 0 && Looks(b, c, len)) then Bad
          else AfterMatch(b, end, Copy(c.out, dist, len))
  }

  /** All the output, whether there was an end code, and where it ended. */
  datatype Decoded = Decoded(ended: bool, ip: nat, out: seq<byte>)

  /** Decodes up to the end code, or as far as there is input. */
  function Decode(b: seq<byte>, c: Point): (r: Option<Decoded>)
    decreases |b| - c.ip
  {
    match Step(b, c)
    case Bad => None
    case End(ip) => Some(Decoded(true, ip, c.out))
    case Over => Some(Decoded(false, |b|, c.out))
    case Next(n) => Decode(b, n)
  }

  /** The first byte may announce literals. */
  function Begin(b: seq<byte>): (r: Outcome)
  {
    if |b| == 0 then Bad
    else if b[0] > 17 then Literals(b, 1, b[0] - 17, [], if b[0] - 17 < 4 then Short else Lits)
    else Next(Point(Run, 0, []))
  }

  function DecodeAll(b: seq<byte>): (r: Option<Decoded>)
  {
    match Begin(b)
    case Next(c) => Decode(b, c)
    case _ => None
  }
}
