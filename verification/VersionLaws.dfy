/** The order of versions as the Debian Policy Manual tells it (section 5.6.12), proved of the order that the code
    follows. */
module VersionLaws {
  import opened Decimals
  import opened Versions

  /** How two parts of versions compare. */
  function PartOrder(s: string, t: string): (r: int)
    ensures -1 <= r <= 1
  {
    Lex(Key(s), Key(t))
  }

  predicate EndsInDigit(s: string)
  {
    s != "" && IsDigit(s[|s| - 1])
  }

  predicate StartsWithDigit(s: string)
  {
    s != "" && IsDigit(s[0])
  }

  // ----- keys -----

  lemma {:induction false} DigitsBeyond(s: string, t: string)
    requires !(EndsInDigit(s) && StartsWithDigit(t))
    ensures LeadingDigits(s + t) == if s == "" then LeadingDigits(t) else LeadingDigits(s)
    decreases |s|
  {
    if s == "" {
      assert s + t == t;
    } else if |s| == 1 {
      assert (s + t)[1..] == t;
    } else {
      assert (s + t)[1..] == s[1..] + t;
      DigitsBeyond(s[1..], t);
    }
  }

  /** A key can be taken in two pieces, unless a number is cut. */
  lemma {:induction false} KeyJoins(s: string, t: string)
    requires !(EndsInDigit(s) && StartsWithDigit(t))
    ensures Key(s + t) == Key(s) + Key(t)
    decreases |s|
  {
    hide Number;
    if s == "" {
      assert s + t == t;
    } else if IsDigit(s[0]) {
      var n := LeadingDigits(s);
      KeyJoins(s[n..], t);
      NumberJoins(s, t, n);
    } else {
      assert (s + t)[1..] == s[1..] + t;
      KeyJoins(s[1..], t);
      assert Key(s + t) == [Order(s[0])] + (Key(s[1..]) + Key(t));
    }
  }

  lemma {:induction false} NumberJoins(s: string, t: string, n: nat)
    requires s != "" && IsDigit(s[0]) && !(EndsInDigit(s) && StartsWithDigit(t))
    requires n == LeadingDigits(s) && Key(s[n..] + t) == Key(s[n..]) + Key(t)
    ensures Key(s + t) == Key(s) + Key(t)
  {
    hide Number, LeadingDigits;
    DigitsBeyond(s, t);
    assert (s + t)[..n] == s[..n] && (s + t)[n..] == s[n..] + t;
    assert Key(s + t) == [0, Number(s[..n])] + (Key(s[n..]) + Key(t));
    assert Key(s) == [0, Number(s[..n])] + Key(s[n..]);
  }

  lemma {:induction false} LexJoins(k: seq<int>, x: seq<int>, y: seq<int>)
    ensures Lex(k + x, k + y) == Lex(x, y)
  {
    if k == [] {
      assert k + x == x && k + y == y;
    } else {
      assert (k + x)[1..] == k[1..] + x && (k + y)[1..] == k[1..] + y;
      LexJoins(k[1..], x, y);
    }
  }

  /** What two parts have in common at their beginning does not matter, if it cuts no number. */
  lemma {:induction false} CommonStart(p: string, s: string, t: string)
    requires EndsInDigit(p) ==> !StartsWithDigit(s) && !StartsWithDigit(t)
    ensures PartOrder(p + s, p + t) == PartOrder(s, t)
  {
    hide Key, Lex;
    KeyJoins(p, s);
    KeyJoins(p, t);
    LexJoins(Key(p), Key(s), Key(t));
  }

  // ----- the rules -----

  /** Where two parts first differ in characters that are no digits, a tilde comes first, then the letters in
      alphabetical order, and then all other characters in the order of their codes. */
  lemma {:induction false} FirstDifference(p: string, c: char, s: string, d: char, t: string)
    requires !IsDigit(c) && !IsDigit(d) && c != '\0' && d != '\0'
    ensures c == '~' && d != '~' ==> PartOrder(p + [c] + s, p + [d] + t) == -1
    ensures Letter(c) && Letter(d) && c < d ==> PartOrder(p + [c] + s, p + [d] + t) == -1
    ensures Letter(c) && !Letter(d) && d != '~' ==> PartOrder(p + [c] + s, p + [d] + t) == -1
    ensures !Letter(c) && !Letter(d) && c != '~' && d != '~' && c < d ==> PartOrder(p + [c] + s, p + [d] + t) == -1
  {
    hide Key, Lex;
    assert p + [c] + s == p + ([c] + s) && p + [d] + t == p + ([d] + t);
    CommonStart(p, [c] + s, [d] + t);
    OneMore(c, s);
    OneMore(d, t);
    LexSame(Key([c] + s), Key([d] + t));
  }

  predicate Letter(c: char)
  {
    'a' <= c <= 'z' || 'A' <= c <= 'Z'
  }

  lemma {:induction false} OneMore(c: char, s: string)
    requires !IsDigit(c)
    ensures Key([c] + s) == [Order(c)] + Key(s)
  {
    assert ([c] + s)[1..] == s;
  }

  /** Nothing more comes after a tilde and before every other character that is no digit. */
  lemma {:induction false} EndsFirst(p: string, c: char, s: string)
    requires !IsDigit(c) && c != '\0'
    ensures PartOrder(p, p + [c] + s) == if c == '~' then 1 else -1
  {
    hide Key, Lex;
    assert p + [c] + s == p + ([c] + s) && p + "" == p;
    CommonStart(p, "", [c] + s);
    OneMore(c, s);
    EmptyKey();
    LexSame([], Key([c] + s));
  }

  lemma EmptyKey()
    ensures Key("") == []
  {
  }

  /** Runs of digits are compared as numbers, whatever their lengths, and equal numbers leave it to the rest. */
  lemma {:induction false} NumbersCompare(p: string, d: string, s: string, e: string, t: string)
    requires !EndsInDigit(p) && !StartsWithDigit(s) && !StartsWithDigit(t)
    requires AllDigits(d) && AllDigits(e) && d != "" && e != ""
    ensures Number(d) < Number(e) ==> PartOrder(p + d + s, p + e + t) == -1
    ensures Number(d) > Number(e) ==> PartOrder(p + d + s, p + e + t) == 1
    ensures Number(d) == Number(e) ==> PartOrder(p + d + s, p + e + t) == PartOrder(s, t)
  {
    hide Key, Lex, Number;
    assert p + d + s == p + (d + s) && p + e + t == p + (e + t);
    CommonStart(p, d + s, e + t);
    NumberFirst(d, s);
    NumberFirst(e, t);
    var x, y := Key(d + s), Key(e + t);
    LexSame(x, y);
    assert Tail(x) == [Number(d)] + Key(s) && Tail(y) == [Number(e)] + Key(t);
    LexSame(Tail(x), Tail(y));
    assert Tail(Tail(x)) == Key(s) && Tail(Tail(y)) == Key(t);
  }

  lemma {:induction false} NumberFirst(d: string, s: string)
    requires AllDigits(d) && d != "" && !StartsWithDigit(s)
    ensures Key(d + s) == [0, Number(d)] + Key(s)
  {
    hide Number;
    DigitsBeyond(d, s);
    AllLead(d);
    assert d[0] in d && (d + s)[..|d|] == d && (d + s)[|d|..] == s;
  }

  lemma {:induction false} AllLead(d: string)
    requires AllDigits(d)
    ensures LeadingDigits(d) == |d|
  {
    if d != "" {
      assert d[0] in d && forall c | c in d[1..] :: c in d;
      AllLead(d[1..]);
    }
  }

  /** A number comes before every other character but a tilde. */
  lemma {:induction false} NumbersFirst(p: string, d: string, s: string, c: char, t: string)
    requires !EndsInDigit(p) && AllDigits(d) && d != "" && !StartsWithDigit(s) && !IsDigit(c) && c != '\0'
    ensures PartOrder(p + d + s, p + [c] + t) == if c == '~' then 1 else -1
  {
    hide Key, Lex, Number;
    assert p + d + s == p + (d + s) && p + [c] + t == p + ([c] + t);
    CommonStart(p, d + s, [c] + t);
    NumberFirst(d, s);
    OneMore(c, t);
    LexSame(Key(d + s), Key([c] + t));
  }

  /** A missing number counts as 0. */
  lemma {:induction false} MissingNumber(p: string, d: string, s: string)
    requires !EndsInDigit(p) && AllDigits(d) && d != "" && !StartsWithDigit(s)
    ensures PartOrder(p, p + d + s) == if Number(d) > 0 then -1 else PartOrder("", s)
  {
    hide Key, Lex, Number;
    assert p + d + s == p + (d + s) && p + "" == p;
    CommonStart(p, "", d + s);
    NumberFirst(d, s);
    EmptyKey();
    var y := Key(d + s);
    LexSame([], y);
    assert Tail(y) == [Number(d)] + Key(s);
    LexSame([], Tail(y));
    assert Tail(Tail(y)) == Key(s);
  }

  // ----- epoch, upstream version and revision -----

  lemma NoneOf(s: string, c: char)
    requires c !in s
    ensures FirstOf(s, c) == |s| && LastOf(s, c) == |s|
  {
    hide FirstOf, LastOf;
  }

  lemma LastIs(a: string, c: char, b: string)
    requires c !in b
    ensures LastOf(a + [c] + b, c) == |a|
  {
    hide LastOf;
    var t := a + [c] + b;
    assert t[|a|] == c;
  }

  lemma RevisionCut(n: nat, s: string, upstream: string, revision: string)
    requires AfterEpoch(s) == upstream + "-" + revision && '-' !in revision
    ensures WithEpoch(n, s) == Version(n, upstream, revision)
  {
    hide AfterEpoch, LastOf;
    var rest := upstream + "-" + revision;
    LastIs(upstream, '-', revision);
    assert rest[..|upstream|] == upstream && rest[|upstream| + 1..] == revision;
  }

  lemma NoRevision(n: nat, s: string)
    requires '-' !in AfterEpoch(s)
    ensures WithEpoch(n, s) == Version(n, AfterEpoch(s), "")
  {
    hide AfterEpoch, LastOf;
    NoneOf(AfterEpoch(s), '-');
  }

  lemma NoEpoch(s: string)
    requires ':' !in s
    ensures AfterEpoch(s) == s && Split(s) == WithEpoch(0, s)
  {
    hide FirstOf, WithEpoch;
    NoneOf(s, ':');
  }

  /** A version is cut at its first colon and at its last hyphen behind it. */
  lemma {:induction false} Cut(epoch: string, upstream: string, revision: string)
    requires epoch != "" && AllDigits(epoch) && Number(epoch) < 0x1_0000_0000 && '-' !in revision
    ensures Split(epoch + ":" + upstream + "-" + revision) == Version(Number(epoch), upstream, revision)
    ensures '-' !in upstream ==> Split(epoch + ":" + upstream) == Version(Number(epoch), upstream, "")
  {
    hide Number, Atoi, FirstOf, WithEpoch, AfterEpoch;
    var both := upstream + "-" + revision;
    var s := epoch + ":" + both;
    assert s == epoch + ":" + upstream + "-" + revision;
    EpochCut(epoch, both);
    RevisionCut(Number(epoch), s, upstream, revision);
    if '-' !in upstream {
      EpochCut(epoch, upstream);
      NoRevision(Number(epoch), epoch + ":" + upstream);
    }
  }

  /** Without a colon the epoch is 0. */
  lemma {:induction false} CutPlain(upstream: string, revision: string)
    requires '-' !in revision && ':' !in upstream && ':' !in revision
    ensures Split(upstream + "-" + revision) == Version(0, upstream, revision)
    ensures '-' !in upstream ==> Split(upstream) == Version(0, upstream, "")
  {
    hide FirstOf, WithEpoch, AfterEpoch, Split;
    var both := upstream + "-" + revision;
    assert ':' !in both;
    NoEpoch(both);
    RevisionCut(0, both, upstream, revision);
    NoEpoch(upstream);
    if '-' !in upstream {
      NoRevision(0, upstream);
    }
  }

  lemma {:induction false} EpochCut(epoch: string, rest: string)
    requires epoch != "" && AllDigits(epoch) && Number(epoch) < 0x1_0000_0000
    ensures var s := epoch + ":" + rest; FirstOf(s, ':') < |s| && Atoi(s) == Number(epoch) && AfterEpoch(s) == rest
  {
    hide Number, Atoi;
    var s := epoch + ":" + rest;
    ColonAfter(epoch, rest);
    assert s[..|epoch|] == epoch && s[|epoch| + 1..] == rest;
    EpochFits(s);
  }

  /** Versions compare by their epochs, then by their upstream versions, and then by their revisions. */
  lemma {:induction false} PartsInOrder(e: string, u: string, r: string, e': string, u': string, r': string)
    requires e != "" && AllDigits(e) && Number(e) < 0x1_0000_0000 && '-' !in r
    requires e' != "" && AllDigits(e') && Number(e') < 0x1_0000_0000 && '-' !in r'
    ensures var order := CodeOrder(e + ":" + u + "-" + r, e' + ":" + u' + "-" + r');
      && (Number(e) < Number(e') ==> order == -1) && (Number(e) > Number(e') ==> order == 1)
      && (Number(e) == Number(e') ==>
            order == if PartOrder(u, u') != 0 then PartOrder(u, u') else PartOrder(r, r'))
  {
    hide Number, Split, Key, Lex;
    Cut(e, u, r);
    Cut(e', u', r');
  }

  /** The operators: each says what its name says of the order, and swapping the versions swaps before and after. */
  lemma {:induction false} Operators(a: string, b: string)
    ensures VersionTest(a, b, Less) <==> CodeOrder(a, b) == -1
    ensures VersionTest(a, b, Less) <==> VersionTest(b, a, More)
    ensures VersionTest(a, b, LessEqual) <==> !VersionTest(a, b, More)
    ensures VersionTest(a, b, MoreEqual) <==> !VersionTest(a, b, Less)
    ensures VersionTest(a, b, Equal) <==> VersionTest(a, b, LessEqual) && VersionTest(a, b, MoreEqual)
    ensures VersionTest(a, b, Any) && !VersionTest(a, b, NoOp)
  {
    hide VersionOrder, Split;
    VersionPreorder(Split(a), Split(a), Split(b));
  }
}
