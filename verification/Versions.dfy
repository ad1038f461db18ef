/** The order of Debian versions (section 5.6.12 of the Debian Policy Manual). */
module Versions {
  import opened Decimals

  predicate IsAlpha(c: char)
  {
    'a' <= c <= 'z' || 'A' <= c <= 'Z'
  }

  /** order() of a character. */
  function Order(c: char): (n: int)
  {
    if c == '~' then -1
    else if c == '\0' || IsDigit(c) then 0
    else if IsAlpha(c) then c as int
    else c as int + 256
  }

  /** order() of the first character, the end of a string being a NUL. */
  function OrderAt(s: string, i: nat): (n: int)
  {
    if i < |s| then Order(s[i]) else 0
  }

  /** C strings have no NUL inside. */
  predicate IsText(s: string)
  {
    forall c | c in s :: c != '\0'
  }

  // ----- the order in the abstract -----

  /** Lists of numbers, each followed by zeros without end. */
  function Head(x: seq<int>): (h: int)
  {
    if x == [] then 0 else x[0]
  }

  function Tail(x: seq<int>): (t: seq<int>)
    ensures |t| <= |x| && (x != [] ==> |t| < |x|)
  {
    if x == [] then [] else x[1..]
  }

  /** Lexicographic comparison: -1, 0 or 1. */
  function Lex(x: seq<int>, y: seq<int>): (r: int)
    ensures -1 <= r <= 1
    decreases |x| + |y|
  {
    if x == [] && y == [] then 0
    else if Head(x) < Head(y) then -1
    else if Head(x) > Head(y) then 1
    else Lex(Tail(x), Tail(y))
  }

  lemma {:induction false} LexReflexive(x: seq<int>)
    ensures Lex(x, x) == 0
  {
    if x != [] {
      LexReflexive(Tail(x));
    }
  }

  lemma {:induction false} LexAntisymmetric(x: seq<int>, y: seq<int>)
    ensures Lex(x, y) == -Lex(y, x)
    decreases |x| + |y|
  {
    if x != [] || y != [] {
      LexAntisymmetric(Tail(x), Tail(y));
    }
  }

  lemma {:induction false} LexTransitive(x: seq<int>, y: seq<int>, z: seq<int>)
    requires Lex(x, y) <= 0 && Lex(y, z) <= 0
    ensures Lex(x, z) <= 0
    ensures Lex(x, y) < 0 || Lex(y, z) < 0 ==> Lex(x, z) < 0
    decreases |x| + |y| + |z|
  {
    if x != [] || y != [] || z != [] {
      LexSame(x, y);
      LexSame(y, z);
      LexSame(x, z);
      if Head(x) == Head(y) == Head(z) {
        LexTransitive(Tail(x), Tail(y), Tail(z));
      }
    }
  }

  /** One step of the comparison, also for empty lists. */
  lemma {:induction false} LexSame(x: seq<int>, y: seq<int>)
    ensures Lex(x, y) == if Head(x) < Head(y) then -1 else if Head(x) > Head(y) then 1 else Lex(Tail(x), Tail(y))
  {
  }

  /** What a part of a version is compared by: the orders of the characters that
      are not digits, and 0 and the number for each run of digits. */
  function Key(s: string): (k: seq<int>)
    decreases |s|
  {
    if s == "" then []
    else if IsDigit(s[0]) then
      var n := LeadingDigits(s);
      [0, Number(s[..n])] + Key(s[n..])
    else [Order(s[0])] + Key(s[1..])
  }

  lemma KeyHead(s: string)
    requires IsText(s)
    ensures Head(Key(s)) == OrderAt(s, 0)
    ensures OrderAt(s, 0) == 0 <==> s == "" || IsDigit(s[0])
  {
    assert s != "" ==> s[0] in s;
  }

  /** '~' sorts before the end, the end before letters, letters before the rest. */
  lemma OrderClasses(c: char, d: char)
    requires IsAlpha(c) && !IsAlpha(d) && !IsDigit(d) && d != '~' && d != '\0'
    ensures Order('~') < Order('\0') < Order(c) < Order(d)
  {
  }

  // ----- comparing numbers digit by digit -----

  function Pow10(n: nat): (p: nat)
    ensures p >= 1
  {
    if n == 0 then 1 else 10 * Pow10(n - 1)
  }

  lemma {:induction false} NumberSnoc(s: string, c: char)
    requires AllDigits(s) && IsDigit(c)
    ensures AllDigits(s + [c]) && Number(s + [c]) == 10 * Number(s) + DigitValue(c)
  {
    assert (s + [c])[..|s|] == s;
  }

  lemma {:induction false} NumberBound(s: string)
    requires AllDigits(s)
    ensures Number(s) < Pow10(|s|)
    ensures s != "" && s[0] != '0' ==> Number(s) >= Pow10(|s| - 1)
    decreases |s|
  {
    if s != "" {
      var init, last := s[..|s| - 1], s[|s| - 1];
      assert last in s && forall c | c in init :: c in s;
      NumberBound(init);
    }
  }

  lemma {:induction false} Pow10Mono(m: nat, n: nat)
    requires m <= n
    ensures Pow10(m) <= Pow10(n)
  {
    if m < n {
      Pow10Mono(m, n - 1);
    }
  }

  /** Without leading zeros the longer number is the larger one. */
  lemma {:induction false} LongerIsLarger(x: string, y: string)
    requires AllDigits(x) && AllDigits(y) && |x| > |y| && x[0] != '0'
    ensures Number(x) > Number(y)
  {
    NumberBound(x);
    NumberBound(y);
    Pow10Mono(|y|, |x| - 1);
  }

  /** Leading zeros do not count. */
  lemma {:induction false} SkipZero(s: string)
    requires AllDigits(s) && s != "" && s[0] == '0'
    ensures AllDigits(s[1..]) && Number(s) == Number(s[1..])
    decreases |s|
  {
    assert forall c | c in s[1..] :: c in s;
    if |s| > 1 {
      var init := s[..|s| - 1];
      assert (forall c | c in init :: c in s) && init[0] == s[0];
      SkipZero(init);
      assert init[1..] == s[1..][..|s| - 2];
    } else {
      assert s[..0] == "" && s[1..] == "";
    }
  }

  /** The first different digit decides between numbers of equal length. */
  ghost predicate DiffDecides(x: string, y: string, diff: int)
    requires AllDigits(x) && AllDigits(y)
  {
    |x| == |y| && Sign(diff) == Sign(Number(x) - Number(y))
  }

  lemma {:induction false} DiffNext(x: string, y: string, diff: int, c: char, d: char)
    requires AllDigits(x) && AllDigits(y) && DiffDecides(x, y, diff) && IsDigit(c) && IsDigit(d)
    ensures AllDigits(x + [c]) && AllDigits(y + [d])
    ensures DiffDecides(x + [c], y + [d], if diff == 0 then c as int - d as int else diff)
  {
    NumberSnoc(x, c);
    NumberSnoc(y, d);
  }

  // ----- one round of version_compare_part -----

  /** Two strings that begin with a digit or are at their end: the numbers are compared first. */
  lemma {:induction false} NumberStep(a: string, b: string)
    requires (a == "" || IsDigit(a[0])) && (b == "" || IsDigit(b[0]))
    ensures Lex(Key(a), Key(b)) == var m, n := Number(a[..LeadingDigits(a)]), Number(b[..LeadingDigits(b)]);
                                   if m < n then -1 else if m > n then 1 else Lex(Key(a[LeadingDigits(a)..]),
                                                                                  Key(b[LeadingDigits(b)..]))
  {
    hide Number, LeadingDigits;
    NumberKey(a);
    NumberKey(b);
    LexSame(Key(a), Key(b));
    LexSame(Tail(Key(a)), Tail(Key(b)));
  }

  lemma {:induction false} NumberKey(a: string)
    requires a == "" || IsDigit(a[0])
    ensures Head(Key(a)) == 0 && Head(Tail(Key(a))) == Number(a[..LeadingDigits(a)])
      && Tail(Tail(Key(a))) == Key(a[LeadingDigits(a)..])
  {
    if a == "" {
      assert a[..0] == "" && a[0..] == "";
    } else {
      var k := Key(a);
      assert k[1..][1..] == Key(a[LeadingDigits(a)..]);
    }
  }

  /** The same character on both sides. */
  lemma {:induction false} CharStep(a: string, b: string)
    requires IsText(a) && IsText(b) && a != "" && b != "" && !IsDigit(a[0]) && !IsDigit(b[0])
      && Order(a[0]) == Order(b[0])
    ensures Lex(Key(a), Key(b)) == Lex(Key(a[1..]), Key(b[1..])) && IsText(a[1..]) && IsText(b[1..])
  {
    assert (forall c | c in a[1..] :: c in a) && forall c | c in b[1..] :: c in b;
    assert Key(a)[1..] == Key(a[1..]) && Key(b)[1..] == Key(b[1..]);
  }

  lemma {:induction false} CharDiffers(a: string, b: string)
    requires IsText(a) && IsText(b) && OrderAt(a, 0) != OrderAt(b, 0)
    ensures Lex(Key(a), Key(b)) == Sign(OrderAt(a, 0) - OrderAt(b, 0))
  {
    KeyHead(a);
    KeyHead(b);
    LexSame(Key(a), Key(b));
  }

  /** Where the digits that begin at `i` end. */
  function DigitsEnd(s: string, i: nat): (e: nat)
    requires i <= |s|
    ensures i <= e <= |s|
  {
    i + LeadingDigits(s[i..])
  }

  lemma {:induction false} DigitRun(s: string, i: nat)
    requires i <= |s|
    ensures var e := DigitsEnd(s, i);
            && AllDigits(s[i..e]) && (forall k | i <= k < e :: IsDigit(s[k])) && (e < |s| ==> !IsDigit(s[e]))
            && s[i..][..LeadingDigits(s[i..])] == s[i..e] && s[i..][LeadingDigits(s[i..])..] == s[e..]
  {
    hide LeadingDigits;
    var e := DigitsEnd(s, i);
    assert s[i..][..LeadingDigits(s[i..])] == s[i..e];
    forall k | i <= k < e ensures IsDigit(s[k]) {
      assert s[k] == s[i..e][k - i];
    }
  }

  /** Skips the zeros from `i0` on. */
  method SkipZeros(s: string, i0: nat, ghost e: nat) returns (i: nat)
    requires i0 <= |s| && e == DigitsEnd(s, i0) && AllDigits(s[i0..e])
    ensures i0 <= i <= e && AllDigits(s[i..e]) && Number(s[i..e]) == Number(s[i0..e]) && (i < e ==> s[i] != '0')
  {
    hide Number, LeadingDigits;
    DigitRun(s, i0);
    i := i0;
    while i < |s| && s[i] == '0'
      invariant i0 <= i <= e && AllDigits(s[i..e]) && Number(s[i..e]) == Number(s[i0..e])
    {
      SkipZero(s[i..e]);
      assert s[i..e][1..] == s[i + 1..e];
      i := i + 1;
    }
  }

  /** The digits that both strings still have, one by one. */
  method CompareDigits(val: string, i1: nat, ref: string, j1: nat, ghost e: nat, ghost f: nat)
    returns (diff: int, i: nat, j: nat)
    requires i1 <= e <= |val| && AllDigits(val[i1..e]) && (e < |val| ==> !IsDigit(val[e]))
    requires j1 <= f <= |ref| && AllDigits(ref[j1..f]) && (f < |ref| ==> !IsDigit(ref[f]))
    ensures i1 <= i <= e && j1 <= j <= f && i - i1 == j - j1 && (i == e || j == f)
    ensures AllDigits(val[i1..i]) && AllDigits(ref[j1..j]) && DiffDecides(val[i1..i], ref[j1..j], diff)
  {
    hide Number, DiffDecides;
    diff, i, j := 0, i1, j1;
    NoDigits(val[i1..i1], ref[j1..j1]);
    while i < |val| && IsDigit(val[i]) && j < |ref| && IsDigit(ref[j])
      invariant i1 <= i <= e && j1 <= j <= f && i - i1 == j - j1
      invariant AllDigits(val[i1..i]) && AllDigits(ref[j1..j]) && DiffDecides(val[i1..i], ref[j1..j], diff)
    {
      DiffNext(val[i1..i], ref[j1..j], diff, val[i], ref[j]);
      assert val[i1..i + 1] == val[i1..i] + [val[i]] && ref[j1..j + 1] == ref[j1..j] + [ref[j]];
      if diff == 0 {
        diff := val[i] as int - ref[j] as int;
      }
      i, j := i + 1, j + 1;
    }
    assert i < e ==> val[i] == val[i1..e][i - i1];
    assert j < f ==> ref[j] == ref[j1..f][j - j1];
  }

  lemma NoDigits(x: string, y: string)
    requires x == "" && y == ""
    ensures AllDigits(x) && AllDigits(y) && DiffDecides(x, y, 0)
  {
  }

  /** The numbers at `i0` and `j0`: which is larger, or where they end. */
  method CompareNumbers(val: string, i0: nat, ref: string, j0: nat) returns (r: int, i: nat, j: nat)
    requires i0 <= |val| && j0 <= |ref|
    ensures AllDigits(val[i0..DigitsEnd(val, i0)]) && AllDigits(ref[j0..DigitsEnd(ref, j0)])
    ensures Sign(r) == Sign(Number(val[i0..DigitsEnd(val, i0)]) - Number(ref[j0..DigitsEnd(ref, j0)]))
    ensures r == 0 ==> i == DigitsEnd(val, i0) && j == DigitsEnd(ref, j0)
  {
    hide Number, LeadingDigits, DigitsEnd;
    ghost var e, f := DigitsEnd(val, i0), DigitsEnd(ref, j0);
    DigitRun(val, i0);
    DigitRun(ref, j0);
    var i1 := SkipZeros(val, i0, e);
    var j1 := SkipZeros(ref, j0, f);
    var diff;
    diff, i, j := CompareDigits(val, i1, ref, j1, e, f);
    ghost var x, y := val[i1..e], ref[j1..f];
    if i < |val| && IsDigit(val[i]) {
      LongerIsLarger(x, y);
      return 1, i, j;
    }
    if j < |ref| && IsDigit(ref[j]) {
      LongerIsLarger(y, x);
      return -1, i, j;
    }
    return diff, i, j;
  }

  /** Passes over what is not digits while it is the same on both sides. */
  method SkipEqual(val: string, i0: nat, ref: string, j0: nat) returns (r: int, i: nat, j: nat)
    requires i0 <= |val| && j0 <= |ref| && IsText(val[i0..]) && IsText(ref[j0..])
    ensures i0 <= i <= |val| && j0 <= j <= |ref|
    ensures r != 0 ==> Sign(r) == Lex(Key(val[i0..]), Key(ref[j0..]))
    ensures r == 0 ==>
      Lex(Key(val[i..]), Key(ref[j..])) == Lex(Key(val[i0..]), Key(ref[j0..])) && IsText(val[i..]) && IsText(ref[j..])
    ensures r == 0 ==> (i < |val| ==> IsDigit(val[i])) && (j < |ref| ==> IsDigit(ref[j]))
  {
    hide Key, Lex, Order;
    i, j := i0, j0;
    while (i < |val| && !IsDigit(val[i])) || (j < |ref| && !IsDigit(ref[j]))
      invariant i0 <= i <= |val| && j0 <= j <= |ref| && IsText(val[i..]) && IsText(ref[j..])
      invariant Lex(Key(val[i..]), Key(ref[j..])) == Lex(Key(val[i0..]), Key(ref[j0..]))
      decreases |val| - i
    {
      var a, b := val[i..], ref[j..];
      var vc, rc := OrderAt(val, i), OrderAt(ref, j);
      assert vc == OrderAt(a, 0) && rc == OrderAt(b, 0);
      if vc != rc {
        CharDiffers(a, b);
        return vc - rc, i, j;
      }
      KeyHead(a);
      KeyHead(b);
      CharStep(a, b);
      assert a[1..] == val[i + 1..] && b[1..] == ref[j + 1..];
      i, j := i + 1, j + 1;
    }
    r := 0;
  }

  lemma NoKeys()
    ensures Lex(Key(""), Key("")) == 0
  {
  }

  lemma DigitsMove(s: string, i: nat)
    requires i <= |s|
    ensures i < |s| && IsDigit(s[i]) ==> DigitsEnd(s, i) > i
  {
  }

  lemma RestIsText(s: string, i: nat, j: nat)
    requires i <= j <= |s| && IsText(s[i..])
    ensures IsText(s[j..])
  {
    assert s[j..] == s[i..][j - i..];
    assert forall c | c in s[j..] :: c in s[i..];
  }

  /** version_compare_part: the sign of the result is that of the order of the keys. */
  method ComparePart(val: string, ref: string) returns (r: int)
    requires IsText(val) && IsText(ref)
    ensures Sign(r) == Lex(Key(val), Key(ref))
  {
    hide Key, Lex, Number, LeadingDigits, Order, DigitsEnd;
    var i: nat, j: nat := 0, 0;
    assert val[0..] == val && ref[0..] == ref;
    NoKeys();
    while i < |val| || j < |ref|
      invariant i <= |val| && j <= |ref| && IsText(val[i..]) && IsText(ref[j..])
      invariant Lex(Key(val[i..]), Key(ref[j..])) == Lex(Key(val), Key(ref))
      decreases |val| - i + |ref| - j
    {
      ghost var i', j' := i, j;
      var differ;
      differ, i, j := SkipEqual(val, i, ref, j);
      if differ != 0 {
        return differ;
      }
      ghost var i2, j2 := i, j;
      NumberStep(val[i..], ref[j..]);
      DigitRun(val, i);
      DigitRun(ref, j);
      var diff;
      diff, i, j := CompareNumbers(val, i, ref, j);
      if diff != 0 {
        return diff;
      }
      DigitsMove(val, i2);
      DigitsMove(ref, j2);
      RestIsText(val, i2, i);
      RestIsText(ref, j2, j);
    }
    assert val[i..] == "" && ref[j..] == "";
    return 0;
  }

  // ----- whole versions -----

  datatype Version = Version(epoch: nat, upstream: string, revision: string)

  /** The place of the first `c`, or the length. */
  function FirstOf(s: string, c: char): (n: nat)
    ensures n <= |s| && (n < |s| ==> s[n] == c) && forall i | 0 <= i < n :: s[i] != c
  {
    if s == "" || s[0] == c then 0 else 1 + FirstOf(s[1..], c)
  }

  /** The place of the last `c`, or the length. */
  function LastOf(s: string, c: char): (n: nat)
    ensures n <= |s| && (n < |s| ==> s[n] == c) && forall i | n < i < |s| :: s[i] != c
    ensures n == |s| ==> c !in s
  {
    if s == "" then 0
    else
      var n := LastOf(s[1..], c);
      if n < |s| - 1 then n + 1 else if s[0] == c then 0 else |s|
  }

  const UNSIGNED := 0x1_0000_0000

  /** atoi(), stored in an unsigned: the long that strtol reads, cut to 32 bits. */
  function Atoi(s: string): (n: nat)
    ensures n < UNSIGNED
  {
    var d := Unsigned(s);
    var n: int := Number(d[..LeadingDigits(d)]);
    Clamp(if Negative(s) then -n else n) % UNSIGNED
  }

  /** A version without its epoch. */
  function AfterEpoch(s: string): (rest: string)
  {
    var colon := FirstOf(s, ':');
    if colon < |s| then s[colon + 1..] else s
  }

  /** A version string with the given epoch, cut at the last hyphen after it. */
  function WithEpoch(epoch: nat, s: string): (v: Version)
  {
    var rest := AfterEpoch(s);
    var dash := LastOf(rest, '-');
    Version(epoch, rest[..dash], if dash < |rest| then rest[dash + 1..] else "")
  }

  /** Epoch, upstream version and revision of a version string, as the code takes them. */
  function Split(s: string): (v: Version)
  {
    WithEpoch(if FirstOf(s, ':') < |s| then Atoi(s) else 0, s)
  }

  lemma {:induction false} SplitIsText(s: string)
    requires IsText(s)
    ensures IsText(Split(s).upstream) && IsText(Split(s).revision)
  {
    hide Atoi, LastOf, FirstOf;
    var rest := AfterEpoch(s);
    var dash := LastOf(rest, '-');
    assert forall c | c in rest :: c in s;
    assert forall c | c in rest[..dash] :: c in rest;
    var rev := if dash < |rest| then rest[dash + 1..] else "";
    assert forall c | c in rev :: c in rest;
    assert Split(s).revision == rev;
  }

  /** The order of versions: epoch first, then upstream version, then revision. */
  function VersionOrder(v: Version, w: Version): (r: int)
    ensures -1 <= r <= 1
  {
    if v.epoch < w.epoch then -1
    else if v.epoch > w.epoch then 1
    else if Lex(Key(v.upstream), Key(w.upstream)) != 0 then Lex(Key(v.upstream), Key(w.upstream))
    else Lex(Key(v.revision), Key(w.revision))
  }

  /** The order of version strings is total, antisymmetric in its sign and transitive. */
  lemma {:induction false} VersionPreorder(u: Version, v: Version, w: Version)
    ensures VersionOrder(v, v) == 0 && VersionOrder(v, w) == -VersionOrder(w, v)
    ensures VersionOrder(u, v) <= 0 && VersionOrder(v, w) <= 0 ==> VersionOrder(u, w) <= 0
    ensures VersionOrder(u, v) < 0 && VersionOrder(v, w) <= 0 ==> VersionOrder(u, w) < 0
    ensures VersionOrder(u, v) <= 0 && VersionOrder(v, w) < 0 ==> VersionOrder(u, w) < 0
    ensures VersionOrder(u, v) == 0 && VersionOrder(v, w) == 0 ==> VersionOrder(u, w) == 0
  {
    hide Lex, Key;
    LexReflexive(Key(v.upstream));
    LexReflexive(Key(v.revision));
    LexAntisymmetric(Key(v.upstream), Key(w.upstream));
    LexAntisymmetric(Key(v.revision), Key(w.revision));
    LexLaws(Key(u.upstream), Key(v.upstream), Key(w.upstream));
    LexLaws(Key(u.revision), Key(v.revision), Key(w.revision));
  }

  lemma {:induction false} LexLaws(x: seq<int>, y: seq<int>, z: seq<int>)
    ensures Lex(x, y) <= 0 && Lex(y, z) <= 0 ==> Lex(x, z) <= 0
    ensures Lex(x, y) <= 0 && Lex(y, z) <= 0 && (Lex(x, y) < 0 || Lex(y, z) < 0) ==> Lex(x, z) < 0
    ensures Lex(x, y) == 0 && Lex(y, z) == 0 ==> Lex(x, z) == 0
  {
    hide Lex;
    if Lex(x, y) <= 0 && Lex(y, z) <= 0 {
      LexTransitive(x, y, z);
    }
    LexAntisymmetric(x, y);
    LexAntisymmetric(y, z);
    LexAntisymmetric(x, z);
    if Lex(z, y) <= 0 && Lex(y, x) <= 0 {
      LexTransitive(z, y, x);
    }
  }

  /** version_compare */
  method CompareVersions(ver1: string, ver2: string) returns (result: int)
    requires IsText(ver1) && IsText(ver2)
    ensures Sign(result) == CodeOrder(ver1, ver2)
  {
    hide *;
    SplitIsText(ver1);
    SplitIsText(ver2);
    OrderIs(ver1, ver2);
    var epoch1, upstream1, revision1 := CutVersion(ver1);
    var epoch2, upstream2, revision2 := CutVersion(ver2);
    if epoch1 < epoch2 {
      return -1;
    }
    if epoch1 > epoch2 {
      return 1;
    }
    result := ComparePart(upstream1, upstream2);
    if result == 0 {
      result := ComparePart(revision1, revision2);
    }
  }

  /** How version_compare takes a version apart. */
  method CutVersion(ver: string) returns (epoch: nat, upstream: string, revision: string)
    ensures Split(ver) == Version(epoch, upstream, revision)
  {
    hide Atoi, FirstOf, LastOf;
    epoch := 0;
    var chVer := ver;
    var colon := FirstOf(ver, ':');
    if colon < |ver| {
      epoch := Atoi(ver);
      chVer := ver[colon + 1..];
    }
    var dash := LastOf(chVer, '-');
    upstream, revision := chVer[..dash], "";
    if dash < |chVer| {
      revision := chVer[dash + 1..];
    }
  }

  lemma OrderIs(s: string, t: string)
    ensures var v, w := Split(s), Split(t); var u, r :=
      Lex(Key(v.upstream), Key(w.upstream)), Lex(Key(v.revision), Key(w.revision));
            && CodeOrder(s, t) == (if v.epoch < w.epoch then -1 else if v.epoch > w.epoch then 1
                                   else if u != 0 then u else r)
    ensures Sign(-1) == -1 && Sign(1) == 1 && forall x :: Sign(x) == 0 <==> x == 0
  {
    hide Split, Key, Lex;
  }

  // ----- the order of the Policy Manual -----

  /** The text before the colon. */
  function EpochText(s: string): (e: string)
  {
    s[..FirstOf(s, ':')]
  }

  /** A version whose epoch, if it has one, is a number. */
  predicate PolicyVersion(s: string)
  {
    FirstOf(s, ':') < |s| ==> EpochText(s) != "" && AllDigits(EpochText(s))
  }

  /** The epoch as the Policy Manual reads it: a number of any size, 0 if it is missing. */
  function PolicyEpoch(s: string): (n: nat)
    requires PolicyVersion(s)
  {
    if FirstOf(s, ':') < |s| then Number(EpochText(s)) else 0
  }

  function PolicyOrder(s: string, t: string): (r: int)
    requires PolicyVersion(s) && PolicyVersion(t)
    ensures -1 <= r <= 1
  {
    VersionOrder(WithEpoch(PolicyEpoch(s), s), WithEpoch(PolicyEpoch(t), t))
  }

  /** How the code orders two version strings. */
  function CodeOrder(s: string, t: string): (r: int)
    ensures -1 <= r <= 1
  {
    VersionOrder(Split(s), Split(t))
  }

  lemma {:induction false} DigitsCount(s: string, n: nat)
    requires n <= |s| && AllDigits(s[..n]) && (n < |s| ==> !IsDigit(s[n]))
    ensures LeadingDigits(s) == n
  {
    if n > 0 {
      assert s[0] == s[..n][0];
      assert forall c | c in s[1..][..n - 1] :: c in s[..n] by {
        assert s[1..][..n - 1] == s[..n][1..];
      }
      DigitsCount(s[1..], n - 1);
    }
  }

  /** atoi() of a number that a colon follows. */
  lemma AtoiReads(s: string)
    requires PolicyVersion(s) && FirstOf(s, ':') < |s|
    ensures Atoi(s) == Clamp(Number(EpochText(s))) % UNSIGNED
  {
    hide FirstOf, Number, LeadingDigits, Unsigned, Negative, Clamp;
    var n := FirstOf(s, ':');
    assert s[0] == s[..n][0] && s[0] in s[..n];
    NoSign(s);
    DigitsCount(s, n);
  }

  lemma NoSign(s: string)
    requires s != "" && IsDigit(s[0])
    ensures Unsigned(s) == s && !Negative(s)
  {
  }

  /** The code's epoch is the Policy's exactly when that fits an unsigned. */
  lemma EpochFits(s: string)
    requires PolicyVersion(s)
    ensures Split(s).epoch == PolicyEpoch(s) <==> PolicyEpoch(s) < UNSIGNED
  {
    hide FirstOf, LastOf, Number, Atoi;
    if FirstOf(s, ':') < |s| {
      AtoiReads(s);
    }
  }

  /** Whether the code compares the string with every version of small epoch as the Policy does. */
  ghost predicate FollowsPolicy(s: string)
    requires PolicyVersion(s)
  {
    forall t: string | PolicyVersion(t) && PolicyEpoch(t) < UNSIGNED :: CodeOrder(s, t) == PolicyOrder(s, t)
  }

  /** That is so exactly when its own epoch fits an unsigned. */
  lemma PolicyExactly(s: string)
    requires PolicyVersion(s)
    ensures FollowsPolicy(s) <==> PolicyEpoch(s) < UNSIGNED
  {
    hide FirstOf, LastOf, Number, Atoi, Lex, Key;
    EpochFits(s);
    if PolicyEpoch(s) < UNSIGNED {
      forall t: string | PolicyVersion(t) && PolicyEpoch(t) < UNSIGNED
        ensures CodeOrder(s, t) == PolicyOrder(s, t)
      {
        EpochFits(t);
      }
    } else {
      var t := LargestEpoch(AfterEpoch(s));
      EpochFits(t);
      LexReflexive(Key(WithEpoch(0, s).upstream));
      LexReflexive(Key(WithEpoch(0, s).revision));
      assert CodeOrder(s, t) <= 0 < PolicyOrder(s, t);
    }
  }

  /** A version with the largest epoch that an unsigned holds. */
  lemma LargestEpoch(rest: string) returns (t: string)
    ensures PolicyVersion(t) && PolicyEpoch(t) == UNSIGNED - 1 && AfterEpoch(t) == rest
  {
    var e := Decimals.Digits(UNSIGNED - 1);
    DigitsRead(UNSIGNED - 1);
    t := e + ":" + rest;
    ColonAfter(e, rest);
    assert t[..|e|] == e && t[|e| + 1..] == rest;
  }

  lemma {:induction false} ColonAfter(e: string, rest: string)
    requires AllDigits(e)
    ensures FirstOf(e + ":" + rest, ':') == |e|
  {
    var t := e + ":" + rest;
    if e != "" {
      assert e[0] in e && t[0] == e[0];
      assert t[1..] == e[1..] + ":" + rest;
      assert forall c | c in e[1..] :: c in e;
      ColonAfter(e[1..], rest);
    }
  }

  lemma SmallEpoch(n: nat)
    ensures var s := Decimals.Digits(n) + ":1"; PolicyVersion(s) && PolicyEpoch(s) == n
  {
    hide FirstOf, Number, Decimals.Digits;
    var e := Decimals.Digits(n);
    DigitsRead(n);
    ColonAfter(e, "1");
    assert (e + ":1")[..|e|] == e && e + ":" + "1" == e + ":1";
  }

  /** Inputs where the code does not follow the Policy: an epoch of 2^32 counts as 0. */
  lemma {:induction false} EpochWraps()
    ensures var s, t := Decimals.Digits(UNSIGNED) + ":1", Decimals.Digits(1) + ":1";
            PolicyVersion(s) && PolicyVersion(t) && CodeOrder(s, t) < 0 < PolicyOrder(s, t)
  {
    hide FirstOf, LastOf, Number, Atoi, Lex, Key, Decimals.Digits;
    SmallEpoch(UNSIGNED);
    SmallEpoch(1);
    var s, t := Decimals.Digits(UNSIGNED) + ":1", Decimals.Digits(1) + ":1";
    EpochFits(t);
    assert FirstOf(s, ':') < |s|;
    AtoiReads(s);
    assert Split(s).epoch == 0;
  }

  /** What is no number at all is compared all the same: an epoch of -1 counts as 2^32 - 1. */
  lemma {:induction false} NegativeEpoch()
    ensures !PolicyVersion("-1:1") && CodeOrder("-1:1", "0:1") > 0
  {
    hide LastOf, Lex, Key;
    var s, t := "-1:1", "0:1";
    assert s[1..] == "1:1" && s[1..][1..] == ":1" && t[1..] == ":1";
    assert FirstOf(":1", ':') == 0 && FirstOf("1:1", ':') == 1 && FirstOf(s, ':') == 2 && FirstOf(t, ':') == 1;
    assert s[..2] == "-1" && '-' in "-1";
    assert Unsigned(s) == "1:1" && Negative(s);
    assert Unsigned(t) == t && !Negative(t);
    DigitsCount("1:1", 1);
    DigitsCount(t, 1);
    assert "1:1"[..1] == "1" && t[..1] == "0";
    assert Number("1") == 1 && Number("0") == 0 by {
      assert "1"[..0] == "" && "0"[..0] == "";
    }
  }

  datatype Operator = NoOp | Equal | Less | LessEqual | More | MoreEqual | Any

  /** Whether a version stands in a relation to another one. */
  predicate Related(order: int, op: Operator)
  {
    match op
    case Any => true
    case Equal => order == 0
    case Less => order < 0
    case LessEqual => order <= 0
    case More => order > 0
    case MoreEqual => order >= 0
    case NoOp => false
  }

  predicate VersionTest(ver1: string, ver2: string, op: Operator)
  {
    Related(CodeOrder(ver1, ver2), op)
  }

  /** test_version */
  method TestVersion(ver1: string, ver2: string, op: Operator) returns (b: bool)
    requires IsText(ver1) && IsText(ver2)
    ensures b == VersionTest(ver1, ver2, op)
  {
    hide VersionOrder, Split;
    var result := CompareVersions(ver1, ver2);
    match op
    case Any => b := true;
    case Equal => b := result == 0;
    case Less => b := result < 0;
    case LessEqual => b := result <= 0;
    case More => b := result > 0;
    case MoreEqual => b := result >= 0;
    case NoOp => b := false;
  }

  /** Versions that compare equal are in the same relations to every other one. */
  lemma {:induction false} EqualVersions(a: string, b: string, c: string, op: Operator)
    requires VersionTest(a, b, Equal)
    ensures VersionTest(a, c, op) == VersionTest(b, c, op)
  {
    hide VersionOrder, Split;
    VersionPreorder(Split(a), Split(b), Split(c));
    VersionPreorder(Split(b), Split(a), Split(c));
    VersionPreorder(Split(c), Split(a), Split(b));
    VersionPreorder(Split(c), Split(b), Split(a));
  }
}
