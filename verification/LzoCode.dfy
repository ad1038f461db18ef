/** The coder of LZO1X: code_match, STORE_RUN and the order in which the compressor calls them. What it writes
    decodes to what it was given. */
module LzoCode {
  import opened Bits
  import opened Options
  import opened BackCopy
  import opened Lzo1x

  // ----- what the codes stand for -----

  predicate Stands(b: seq<byte>, ip: nat, w: seq<byte>)
  {
    ip + |w| <= |b| && b[ip..ip + |w|] == w
  }

  /** A match of two bytes, of which one to three literals must have come before. */
  lemma {:induction false} ShortestCode(b: seq<byte>, st: State, ip: nat, dist: nat, nl: nat)
    requires 1 <= dist <= 0x400 && nl < 4 && st != Lits
    requires ip + 2 <= |b| && b[ip] == 4 * ((dist - 1) % 4) + nl && b[ip + 1] == (dist - 1) / 4
    ensures ParseMatch(b, st, ip) == Some(MatchCode(2, dist, ip + 2))
  {
    Fields(dist - 1, 4, nl);
  }

  /** A match of three bytes from further back, after at least four literals. */
  lemma {:induction false} FarCode(b: seq<byte>, ip: nat, dist: nat, nl: nat)
    requires 0x801 <= dist <= 0xc00 && nl < 4
    requires ip + 2 <= |b| && b[ip] == 4 * ((dist - 0x801) % 4) + nl && b[ip + 1] == (dist - 0x801) / 4
    ensures ParseMatch(b, Lits, ip) == Some(MatchCode(3, dist, ip + 2))
  {
    Fields(dist - 0x801, 4, nl);
  }

  /** A match of three to eight bytes from nearby. */
  lemma {:induction false} NearCode(b: seq<byte>, st: State, ip: nat, len: nat, dist: nat, nl: nat)
    requires 3 <= len <= 8 && 1 <= dist <= 0x800 && nl < 4
    requires ip + 2 <= |b| && b[ip] == 32 * (len - 1) + 4 * ((dist - 1) % 8) + nl && b[ip + 1] == (dist - 1) / 8
    ensures ParseMatch(b, st, ip) == Some(MatchCode(len, dist, ip + 2))
  {
    var d, t: nat := dist - 1, b[ip];
    Fields(d, 8, nl);
    NearFields(len, d % 8, nl);
  }

  lemma NearFields(len: nat, low: nat, nl: nat)
    requires 3 <= len <= 8 && low < 8 && nl < 4
    ensures var t := 32 * (len - 1) + 4 * low + nl; t / 32 + 1 == len && t / 4 % 8 == low
  {
    var t := 32 * (len - 1) + 4 * low + nl;
    assert t / 4 == 8 * (len - 1) + low;
  }

  /** Any match from up to 16 KB back; long lengths go on over zero bytes. */
  lemma {:induction false} MiddleCode(b: seq<byte>, st: State, ip: nat, len: nat, dist: nat, nl: nat)
    requires 3 <= len && 1 <= dist <= 0x4000 && nl < 4
    requires Stands(b, ip, Longer(32, len, 33) + Offset(dist - 1, nl))
    ensures ip < |b| && ParseMatch(b, st, ip) == Some(MatchCode(len, dist, ip + |Longer(32, len, 33)| + 2))
  {
    hide Ext, ExtBytes, Longer, Stands;
    var p := ip + |Longer(32, len, 33)|;
    LongerReads(b, ip, 32, len, 33, dist - 1, nl);
    OffsetReads(dist - 1, nl);
    assert Lzo1x.Length(b, ip + 1, b[ip] % 32, 31) == Some((len - 2, p));
  }

  /** Any match from further back, up to 48 KB. */
  lemma {:induction false} DistantCode(b: seq<byte>, st: State, ip: nat, len: nat, dist: nat, nl: nat)
    requires 3 <= len && 0x4000 < dist <= 0xbfff && nl < 4
    requires var k := if dist >= 0x8000 then 8 else 0;
      Stands(b, ip, Longer(16 + k, len, 9) + Offset((dist - 0x4000) % 0x4000, nl))
    ensures var k := if dist >= 0x8000 then 8 else 0;
      ip < |b| && ParseMatch(b, st, ip) == Some(MatchCode(len, dist, ip + |Longer(16 + k, len, 9)| + 2))
  {
    hide Ext, ExtBytes, Longer, Stands;
    var k, off := if dist >= 0x8000 then 8 else 0, (dist - 0x4000) % 0x4000;
    var p := ip + |Longer(16 + k, len, 9)|;
    LongerReads(b, ip, 16 + k, len, 9, off, nl);
    OffsetReads(off, nl);
    assert Lzo1x.Length(b, ip + 1, b[ip] % 8, 7) == Some((len - 2, p));
    assert b[ip] / 8 % 2 == k / 8;
    DistantDist(dist);
  }

  lemma DistantDist(dist: nat)
    requires 0x4000 < dist <= 0xbfff
    ensures var off := (dist - 0x4000) % 0x4000;
      if dist >= 0x8000 then dist == 0x8000 + off else dist == 0x4000 + off && off > 0
  {
  }

  lemma Fields(d: nat, unit: nat, nl: nat)
    requires nl < 4 && unit > 0
    ensures (4 * (d % unit) + nl) / 4 == d % unit && d % unit + unit * (d / unit) == d
  {
  }

  /** The bytes after a zero length that add up to `n`. */
  function ExtBytes(n: nat): (s: seq<byte>)
    requires n > 0
    ensures s != []
  {
    if n > 255 then [0] + ExtBytes(n - 255) else [n]
  }

  /** A length behind a marker; `max` is the largest one that fits the marker's byte. */
  function Longer(marker: nat, len: nat, max: nat): (s: seq<byte>)
    requires 3 <= len && 3 <= max && marker + max - 2 < 256
    ensures s != []
  {
    if len <= max then [marker + (len - 2)] else [marker] + ExtBytes(len - max)
  }

  /** A distance in two bytes, with the number of literals that follow in the lowest bits. */
  function Offset(off: nat, nl: nat): (s: seq<byte>)
    requires off < 0x4000 && nl < 4
    ensures |s| == 2
  {
    [4 * (off % 64) + nl, off / 64]
  }

  lemma {:induction false} ExtReads(b: seq<byte>, p: nat, n: nat, acc: nat)
    requires n > 0 && Stands(b, p, ExtBytes(n))
    ensures Ext(b, p, acc) == Some((acc + n, p + |ExtBytes(n)|))
    decreases n
  {
    var w := ExtBytes(n);
    assert b[p] == b[p..p + |w|][0];
    if n > 255 {
      assert b[p + 1..p + 1 + (|w| - 1)] == b[p..p + |w|][1..];
      ExtReads(b, p + 1, n - 255, acc + 255);
    }
  }

  /** The first byte and the length it begins, and the distance behind it. */
  lemma {:induction false} LongerReads(b: seq<byte>, ip: nat, marker: nat, len: nat, max: nat, off: nat, nl: nat)
    requires 3 <= len && 3 <= max && marker + max - 2 < 256 && off < 0x4000 && nl < 4
    requires Stands(b, ip, Longer(marker, len, max) + Offset(off, nl))
    ensures var p := ip + |Longer(marker, len, max)|;
      && ip < p && p + 2 <= |b| && b[ip] == (if len <= max then marker + (len - 2) else marker)
      && b[p] == 4 * (off % 64) + nl && b[p + 1] == off / 64
      && (if len <= max then p == ip + 1 else Ext(b, ip + 1, max - 2) == Some((len - 2, p)))
  {
    hide Ext, ExtBytes;
    var l := Longer(marker, len, max);
    var w := l + Offset(off, nl);
    var here := b[ip..ip + |w|];
    assert b[ip] == here[0] && b[ip + |l|] == here[|l|] && b[ip + |l| + 1] == here[|l| + 1];
    if len > max {
      var ext := ExtBytes(len - max);
      assert l == [marker] + ext;
      assert here[1..1 + |ext|] == ext;
      assert b[ip + 1..ip + 1 + |ext|] == here[1..1 + |ext|];
      ExtReads(b, ip + 1, len - max, max - 2);
    }
  }

  lemma OffsetReads(off: nat, nl: nat)
    requires off < 0x4000 && nl < 4
    ensures (4 * (off % 64) + nl) / 4 + 64 * (off / 64) == off && (4 * (off % 64) + nl) % 4 == nl
  {
    assert (4 * (off % 64) + nl) / 4 == off % 64;
  }

  // ----- how far a block decodes -----

  /** Whatever follows `b`, the decoding comes to `c` at its end. */
  ghost predicate Leads(b: seq<byte>, c: Point)
  {
    c.ip == |b| && forall rest: seq<byte> | rest != [] :: DecodeAll(b + rest) == Decode(b + rest, c)
  }

  /** The matches that can be coded in state `st`. */
  predicate Codable(st: State, len: nat, dist: nat)
  {
    2 <= len && 1 <= dist <= 0xbfff && (len == 2 ==> dist <= 0x400 && st == Short)
  }

  /** The code of a match, with the number of literals after it. */
  function MatchBytes(st: State, len: nat, dist: nat, nl: nat): (s: seq<byte>)
    requires Codable(st, len, dist) && nl < 4
    ensures |s| >= 2
  {
    if len == 2 then [4 * ((dist - 1) % 4) + nl, (dist - 1) / 4]
    else if len <= 8 && dist <= 0x800 then [32 * (len - 1) + 4 * ((dist - 1) % 8) + nl, (dist - 1) / 8]
    else if len == 3 && dist <= 0xc00 && st == Lits then [4 * ((dist - 0x801) % 4) + nl, (dist - 0x801) / 4]
    else if dist <= 0x4000 then Longer(32, len, 33) + Offset(dist - 1, nl)
    else Longer(if dist >= 0x8000 then 24 else 16, len, 9) + Offset((dist - 0x4000) % 0x4000, nl)
  }

  /** A code is read as its match. */
  lemma {:induction false} CodeReads(b: seq<byte>, st: State, ip: nat, len: nat, dist: nat, nl: nat)
    requires Codable(st, len, dist) && nl < 4 && Stands(b, ip, MatchBytes(st, len, dist, nl))
    ensures ip < |b| && ParseMatch(b, st, ip) == Some(MatchCode(len, dist, ip + |MatchBytes(st, len, dist, nl)|))
  {
    hide ParseMatch, Longer, Offset;
    var w := MatchBytes(st, len, dist, nl);
    assert b[ip] == b[ip..ip + |w|][0] && b[ip + 1] == b[ip..ip + |w|][1];
    if len == 2 {
      ShortestCode(b, st, ip, dist, nl);
    } else if len <= 8 && dist <= 0x800 {
      NearCode(b, st, ip, len, dist, nl);
    } else if len == 3 && dist <= 0xc00 && st == Lits {
      FarCode(b, ip, dist, nl);
    } else if dist <= 0x4000 {
      MiddleCode(b, st, ip, len, dist, nl);
    } else {
      DistantCode(b, st, ip, len, dist, nl);
    }
  }

  /** The number of literals only changes the byte before the last one. */
  lemma {:induction false} CodeShape(st: State, len: nat, dist: nat, nl: nat)
    requires Codable(st, len, dist) && nl < 4
    ensures var w, w0 := MatchBytes(st, len, dist, nl), MatchBytes(st, len, dist, 0);
      && |w| == |w0| && w0[|w| - 2] + nl < 256 && w == w0[|w| - 2 := w0[|w| - 2] + nl]
      && w[|w| - 2] % 4 == nl && (w[0] >= 16 || st != Run)
  {
    hide ExtBytes;
    var w := MatchBytes(st, len, dist, nl);
    if !(len == 2 || (len <= 8 && dist <= 0x800) || (len == 3 && dist <= 0xc00 && st == Lits)) {
      var off := if dist <= 0x4000 then dist - 1 else (dist - 0x4000) % 0x4000;
      assert w[|w| - 2] == 4 * (off % 64) + nl;
      Fours(off % 64, nl);
    } else if len == 2 {
      Fours((dist - 1) % 4, nl);
    } else if len <= 8 && dist <= 0x800 {
      Fours(8 * (len - 1) + (dist - 1) % 8, nl);
    } else {
      Fours((dist - 0x801) % 4, nl);
    }
  }

  lemma Fours(n: nat, nl: nat)
    requires nl < 4
    ensures (4 * n + nl) % 4 == nl
  {
  }

  /** A match and up to three literals. */
  lemma {:induction false} MatchLeads(op: seq<byte>, st: State, data: seq<byte>, len: nat, dist: nat, lits: seq<byte>)
    requires Leads(op, Point(st, |op|, data)) && Codable(st, len, dist) && dist <= |data| && |lits| <= 3
    ensures var b := op + MatchBytes(st, len, dist, |lits|) + lits;
      Leads(b, Point(if lits == [] then Run else Short, |b|, Copy(data, dist, len) + lits))
  {
    hide ParseMatch, Copy, Decode, DecodeAll, Step, MatchBytes;
    var w, k := MatchBytes(st, len, dist, |lits|), Point(st, |op|, data);
    var b := op + w + lits;
    var c := Point(if lits == [] then Run else Short, |b|, Copy(data, dist, len) + lits);
    forall rest: seq<byte> | rest != [] ensures DecodeAll(b + rest) == Decode(b + rest, c) {
      assert b + rest == op + (w + lits + rest);
      MatchStep(op, st, data, len, dist, lits, rest);
      DecodeNext(b + rest, k, c);
    }
  }

  lemma {:induction false} MatchStep(op: seq<byte>, st: State, data: seq<byte>, len: nat, dist: nat, lits: seq<byte>,
                                     rest: seq<byte>)
    requires Codable(st, len, dist) && dist <= |data| && |lits| <= 3 && rest != []
    ensures var b := op + MatchBytes(st, len, dist, |lits|) + lits;
      Step(b + rest, Point(st, |op|, data))
        == Next(Point(if lits == [] then Run else Short, |b|, Copy(data, dist, len) + lits))
  {
    hide ParseMatch, Copy, MatchBytes;
    var w := MatchBytes(st, len, dist, |lits|);
    var all := op + w + lits + rest;
    var end := |op| + |w|;
    assert all[|op|..end] == w && all[end..end + |lits|] == lits;
    assert all[end - 2] == w[|w| - 2] && all[|op|] == w[0];
    CodeShape(st, len, dist, |lits|);
    CodeReads(all, st, |op|, len, dist, |lits|);
  }

  lemma DecodeNext(b: seq<byte>, k: Point, c: Point)
    requires Step(b, k) == Next(c)
    ensures Decode(b, k) == Decode(b, c)
  {
  }

  /** A long run of literals, where one can stand. */
  lemma {:induction false} RunLeads(op: seq<byte>, data: seq<byte>, header: seq<byte>, lits: seq<byte>)
    requires (op == [] && data == []) || Leads(op, Point(Run, |op|, data))
    requires 4 <= |lits| && header == if |lits| <= 18 then [|lits| - 3] else [0] + ExtBytes(|lits| - 18)
    ensures var b := op + header + lits; Leads(b, Point(Lits, |b|, data + lits))
  {
    hide ParseMatch, Copy, Decode, Ext, ExtBytes;
    var k, b := Point(Run, |op|, data), op + header + lits;
    var c := Point(Lits, |b|, data + lits);
    forall rest: seq<byte> | rest != [] ensures DecodeAll(b + rest) == Decode(b + rest, c) {
      var all := b + rest;
      var p := |op| + |header|;
      assert all == op + (header + lits + rest);
      assert all[|op|] == header[0];
      assert all[p..p + |lits|] == lits;
      if |lits| > 18 {
        assert Stands(all, |op| + 1, ExtBytes(|lits| - 18));
        ExtReads(all, |op| + 1, |lits| - 18, 15);
      }
      assert Step(all, k) == Next(c);
      DecodeNext(all, k, c);
    }
  }

  /** The literals that the first byte announces. */
  lemma {:induction false} FirstLeads(lits: seq<byte>)
    requires 1 <= |lits| <= 238
    ensures var b := [17 + |lits|] + lits; Leads(b, Point(if |lits| < 4 then Short else Lits, |b|, lits))
  {
    hide Decode;
    var b := [17 + |lits|] + lits;
    forall rest: seq<byte> | rest != []
      ensures DecodeAll(b + rest) == Decode(b + rest, Point(if |lits| < 4 then Short else Lits, |b|, lits))
    {
      assert (b + rest)[1..1 + |lits|] == lits;
      assert [] + lits == lits;
    }
  }

  /** The end code ends the block there. */
  lemma {:induction false} EndLeads(op: seq<byte>, st: State, data: seq<byte>)
    requires (op == [] && data == [] && st == Run) || Leads(op, Point(st, |op|, data))
    ensures DecodeAll(op + [17, 0, 0]) == Some(Decoded(true, |op| + 3, data))
  {
    hide Decode, Step, ParseMatch;
    EndStep(op, st, data);
    DecodeEnd(op + [17, 0, 0], Point(st, |op|, data), |op| + 3);
  }

  lemma {:induction false} EndStep(op: seq<byte>, st: State, data: seq<byte>)
    ensures Step(op + [17, 0, 0], Point(st, |op|, data)) == End(|op| + 3)
  {
    hide Copy, Ext;
    var all := op + [17, 0, 0];
    assert all[|op|] == 17 && all[|op| + 1] == 0 && all[|op| + 2] == 0;
    assert ParseMatch(all, st, |op|) == Some(EndCode(|op| + 3));
  }

  lemma DecodeEnd(b: seq<byte>, k: Point, ip: nat)
    requires Step(b, k) == End(ip)
    ensures Decode(b, k) == Some(Decoded(true, ip, k.out))
  {
    hide Step;
  }

  // ----- the coder -----

  /** A match that was coded last: the block and the data before it, and what it says. */
  datatype Coded = Coded(before: seq<byte>, st: State, data: seq<byte>, len: nat, dist: nat)

  ghost predicate EndsWith(op: seq<byte>, k: Coded, data: seq<byte>)
  {
    && Leads(k.before, Point(k.st, |k.before|, k.data))
    && Codable(k.st, k.len, k.dist) && op == k.before + MatchBytes(k.st, k.len, k.dist, 0)
    && k.dist <= |k.data| && data == Copy(k.data, k.dist, k.len)
  }

  /** The part of the compressor that writes. */
  class Writer {
    var op: seq<byte>
    var r1Lit: nat
    /** What has been coded so far, and the last match if no literals came after it. */
    ghost var data: seq<byte>
    ghost var last: Option<Coded>

    ghost predicate Valid()
      reads this
    {
      match last
      case Some(k) => EndsWith(op, k, data)
      case None =>
        if op == [] then data == []
        else 1 <= r1Lit && Leads(op, Point(if r1Lit < 4 then Short else Lits, |op|, data))
    }

    constructor ()
      ensures Valid() && op == [] && data == [] && last == None
    {
      op, r1Lit, data, last := [], 0, [], None;
    }

    /** The bytes that go on with a length. */
    method PutLonger(n: nat)
      requires n > 0
      modifies `op
      ensures op == old(op) + ExtBytes(n)
    {
      var left: nat := n;
      while left > 255
        invariant left > 0 && op + ExtBytes(left) == old(op) + ExtBytes(n)
      {
        assert op + ([0] + ExtBytes(left - 255)) == op + [0] + ExtBytes(left - 255);
        left := left - 255;
        op := op + [0];
      }
      op := op + [left];
    }

    /** STORE_RUN: literals after a match, or at the beginning. */
    method StoreRun(lits: seq<byte>)
      requires Valid() && lits != [] && (op == [] || last.Some?)
      modifies `op, `data, `last
      ensures data == old(data) + lits && last == None && op != []
      ensures Leads(op, Point(if |lits| < 4 then Short else Lits, |op|, data))
    {
      hide Leads, MatchBytes, Copy;
      var t := |lits|;
      if op == [] && t <= 238 {
        NothingYet();
        FirstLeads(lits);
        op := op + [17 + t] + lits;
        assert op == [17 + t] + lits && data + lits == lits;
      } else if t <= 3 {
        ghost var k := last.value;
        MatchLeads(k.before, k.st, k.data, k.len, k.dist, lits);
        CodeShape(k.st, k.len, k.dist, t);
        op := op[|op| - 2 := op[|op| - 2] + t] + lits;
        assert op == k.before + MatchBytes(k.st, k.len, k.dist, t) + lits;
      } else {
        StartsRun();
        StoreLong(lits);
      }
      data, last := data + lits, None;
    }

    /** At least four literals. */
    method StoreLong(lits: seq<byte>)
      requires ((op == [] && data == []) || Leads(op, Point(Run, |op|, data))) && 4 <= |lits|
      modifies `op
      ensures op != [] && Leads(op, Point(Lits, |op|, data + lits))
    {
      hide Leads, ExtBytes;
      ghost var before := op;
      var t := |lits|;
      if t <= 18 {
        op := op + [t - 3];
      } else {
        op := op + [0];
        PutLonger(t - 18);
        assert op == before + ([0] + ExtBytes(t - 18));
      }
      ghost var header := op[|before|..];
      RunLeads(before, data, header, lits);
      op := op + lits;
      assert op == before + header + lits;
    }

    lemma NothingYet()
      requires Valid() && op == []
      ensures data == [] && last == None
    {
    }

    /** Behind a match, and at the beginning, a run can stand. */
    lemma StartsRun()
      requires Valid() && (op == [] || last.Some?)
      ensures (op == [] && data == []) || Leads(op, Point(Run, |op|, data))
    {
      hide Leads, MatchBytes, Copy;
      if last.Some? {
        var k := last.value;
        MatchLeads(k.before, k.st, k.data, k.len, k.dist, []);
        assert op + [] == op;
        assert data + [] == data;
      }
    }

    /** code_run */
    method CodeRun(lits: seq<byte>)
      requires Valid() && (op == [] || last.Some?)
      modifies this
      ensures Valid() && data == old(data) + lits && r1Lit == |lits|
      ensures lits == [] ==> op == old(op) && last == old(last)
      ensures lits != [] ==> last == None && op != []
    {
      hide Leads, Copy, EndsWith;
      if lits != [] {
        StoreRun(lits);
      }
      r1Lit := |lits|;
    }

    /** The state in which a match is read. */
    ghost function State(): (st: State)
      reads this
    {
      if last.Some? then Run else if r1Lit < 4 then Short else Lits
    }

    /** code_match */
    method CodeMatch(len: nat, dist: nat)
      requires Valid() && op != [] && (last.Some? ==> r1Lit == 0) && 1 <= dist <= |data| && dist <= 0xbfff
      requires 2 <= len && (len == 2 ==> dist <= 0x400 && 1 <= r1Lit < 4)
      modifies `op, `data, `last
      ensures Valid() && data == Copy(old(data), dist, len) && op != [] && last.Some?
    {
      hide Leads, Longer, Copy;
      ghost var before, st := op, State();
      Standing();
      if len == 2 {
        op := op + [4 * ((dist - 1) % 4), (dist - 1) / 4];
      } else if len <= 8 && dist <= 0x800 {
        op := op + [32 * (len - 1) + 4 * ((dist - 1) % 8), (dist - 1) / 8];
      } else if len == 3 && dist <= 0xc00 && r1Lit >= 4 {
        op := op + [4 * ((dist - 0x801) % 4), (dist - 0x801) / 4];
      } else if dist <= 0x4000 {
        PutLength(32, len, 33);
        op := op + [4 * ((dist - 1) % 64), (dist - 1) / 64];
        assert op == before + (Longer(32, len, 33) + Offset(dist - 1, 0));
      } else {
        var k := if dist >= 0x8000 then 8 else 0;
        var off := (dist - 0x4000) % 0x4000;
        PutLength(16 + k, len, 9);
        op := op + [4 * (off % 64), off / 64];
        assert op == before + (Longer(16 + k, len, 9) + Offset(off, 0));
      }
      last := Some(Coded(before, st, data, len, dist));
      data := Copy(data, dist, len);
    }

    method PutLength(marker: nat, len: nat, max: nat)
      requires 3 <= len && 3 <= max && marker + max - 2 < 256
      modifies `op
      ensures op == old(op) + Longer(marker, len, max)
    {
      hide ExtBytes;
      if len <= max {
        op := op + [marker + (len - 2)];
      } else {
        op := op + [marker];
        PutLonger(len - max);
        assert op == old(op) + ([marker] + ExtBytes(len - max));
      }
    }

    lemma Standing()
      requires Valid() && op != [] && (last.Some? ==> r1Lit == 0)
      ensures Leads(op, Point(State(), |op|, data)) && (State() == Short <==> 1 <= r1Lit < 4)
        && (State() == Lits <==> r1Lit >= 4)
    {
      hide Leads, MatchBytes, Copy;
      StartsHere();
    }

    lemma StartsHere()
      requires Valid() && op != []
      ensures last.Some? ==> Leads(op, Point(Run, |op|, data))
    {
      hide Leads, MatchBytes, Copy;
      if last.Some? {
        StartsRun();
      }
    }
  }

  // ----- a whole block -----

  /** Literals, and the match that follows them. */
  datatype Part = Part(lits: seq<byte>, len: nat, dist: nat)

  /** What some parts stand for, if the coder can write them: the first part begins with literals, a match of two
      bytes follows one to three literals, and every match lies in what came before. */
  function Plain(ps: seq<Part>): (data: Option<seq<byte>>)
  {
    if ps == [] then Some([])
    else
      var p, before := ps[|ps| - 1], Plain(ps[..|ps| - 1]);
      if before.None? || p.len < 2 || (|ps| == 1 && p.lits == []) then None
      else if p.len == 2 && !(1 <= |p.lits| < 4 && p.dist <= 0x400) then None
      else
        var data := before.value + p.lits;
        if 1 <= p.dist <= |data| && p.dist <= 0xbfff then Some(Copy(data, p.dist, p.len)) else None
  }

  /** The compressor, once its search has found the parts: the block decodes to what they stand for. */
  method Pack(ps: seq<Part>, final: seq<byte>) returns (block: seq<byte>)
    requires Plain(ps).Some?
    ensures DecodeAll(block) == Some(Decoded(true, |block|, Plain(ps).value + final))
  {
    hide Writer.Valid, Leads, Copy, DecodeAll, Plain;
    var w := new Writer();
    PlainNone();
    assert ps[..0] == [];
    for n := 0 to |ps|
      invariant w.Valid() && Plain(ps[..n]) == Some(w.data)
      invariant if n == 0 then w.op == [] else w.op != [] && w.last.Some?
    {
      PlainStep(ps, n);
      w.CodeRun(ps[n].lits);
      w.CodeMatch(ps[n].len, ps[n].dist);
    }
    assert ps[..|ps|] == ps;
    w.StartsRun();
    ghost var st := Run;
    if final != [] {
      w.StoreRun(final);
      st := if |final| < 4 then Short else Lits;
    }
    EndLeads(w.op, st, w.data);
    block := w.op + [17, 0, 0];
    assert final == [] ==> w.data + final == w.data;
  }

  lemma PlainNone()
    ensures Plain([]) == Some([])
  {
  }

  lemma {:induction false} PlainStep(ps: seq<Part>, n: nat)
    requires Plain(ps).Some? && n < |ps|
    ensures Plain(ps[..n]).Some?
    ensures var p, data := ps[n], Plain(ps[..n]).value + ps[n].lits;
      && 2 <= p.len && (n == 0 ==> p.lits != []) && (p.len == 2 ==> 1 <= |p.lits| < 4 && p.dist <= 0x400)
      && 1 <= p.dist <= |data| && p.dist <= 0xbfff && Plain(ps[..n + 1]) == Some(Copy(data, p.dist, p.len))
  {
    hide Copy;
    PlainPrefix(ps, n + 1);
    assert ps[..n + 1][..n] == ps[..n];
  }

  lemma {:induction false} PlainPrefix(ps: seq<Part>, n: nat)
    requires Plain(ps).Some? && n <= |ps|
    ensures Plain(ps[..n]).Some?
    decreases |ps|
  {
    if n < |ps| {
      PlainPrefix(ps[..|ps| - 1], n);
      assert ps[..|ps| - 1][..n] == ps[..n];
    } else {
      assert ps[..n] == ps;
    }
  }
}
