/** What lazy matching comes to, without the rounds of its loop: which searches every token rests on, and that a search
    finds the longest match there is. */
module LazyLaws {
  import opened Bits
  import opened Tokens
  import opened HashKeys
  import opened Window
  import opened Lz77
  import opened LazyMatching

  /** The number of bytes that the tokens stand for. */
  function Width(ts: seq<Token>): (n: nat)
  {
    if ts == [] then 0
    else Width(ts[..|ts| - 1]) + match ts[|ts| - 1] case Literal(_) => 1 case Match(len, _) => len
  }

  /** Why the token at position `p` is there. A match was found at `p`, and nothing longer at the next position. For a
      literal nothing was found at `p`, or something longer at the next position. */
  ghost predicate Explained(input: seq<byte>, t: Tuning, finds: seq<Find>, p: nat, k: Token)
  {
    match k
    case Match(len, dist) =>
      && 3 <= len && TrueMatch(input, p, p - dist, len)
      && exists a | 0 <= a < |finds| - 1 ::
           && finds[a].len == len && finds[a].from == p - dist && SearchedFor(input, t, p, finds[a])
           && finds[a + 1].len <= len && Justified(input, t, p + 1, len, finds[a + 1])
    case Literal(c) =>
      && p < |input| && c == input[p]
      && exists a | 0 <= a < |finds| ::
           && SearchedFor(input, t, p, finds[a])
           && (|| finds[a].len < 3
               || (a + 1 < |finds| && finds[a + 1].len > finds[a].len
                   && Justified(input, t, p + 1, finds[a].len, finds[a + 1])))
  }

  /** A search at `p` while no match waited, or a shorter one. */
  ghost predicate SearchedFor(input: seq<byte>, t: Tuning, p: nat, f: Find)
  {
    exists w: nat | w < 3 || w < f.len :: Justified(input, t, p, w, f)
  }

  lemma WidthSnoc(ts: seq<Token>, k: Token)
    ensures Width(ts + [k]) == Width(ts) + match k case Literal(_) => 1 case Match(len, _) => len
  {
    assert (ts + [k])[..|ts|] == ts;
  }

  lemma {:induction false} ExplainedGrows(input: seq<byte>, t: Tuning, finds: seq<Find>, f: Find, p: nat, k: Token)
    requires Explained(input, t, finds, p, k)
    ensures Explained(input, t, finds + [f], p, k)
  {
    hide Justified, TrueMatch, SearchedFor;
    var more := finds + [f];
    match k
    case Match(len, dist) =>
      var a :| 0 <= a < |finds| - 1 && finds[a].len == len && finds[a].from == p - dist
        && SearchedFor(input, t, p, finds[a]) && finds[a + 1].len <= len
        && Justified(input, t, p + 1, len, finds[a + 1]);
      assert more[a] == finds[a] && more[a + 1] == finds[a + 1];
    case Literal(c) =>
      var a :| 0 <= a < |finds| && SearchedFor(input, t, p, finds[a])
        && (finds[a].len < 3 || (a + 1 < |finds| && finds[a + 1].len > finds[a].len
                                 && Justified(input, t, p + 1, finds[a].len, finds[a + 1])));
      assert more[a] == finds[a] && (a + 1 < |finds| ==> more[a + 1] == finds[a + 1]);
  }

  ghost predicate AllExplained(input: seq<byte>, t: Tuning, finds: seq<Find>, ts: seq<Token>)
  {
    forall i | 0 <= i < |ts| :: Explained(input, t, finds, Width(ts[..i]), ts[i])
  }

  lemma {:induction false} OneMoreToken(input: seq<byte>, t: Tuning, finds: seq<Find>, ts: seq<Token>, k: Token)
    requires AllExplained(input, t, finds, ts) && Explained(input, t, finds, Width(ts), k)
    ensures AllExplained(input, t, finds, ts + [k])
  {
    hide Explained;
    forall i | 0 <= i < |ts + [k]| ensures Explained(input, t, finds, Width((ts + [k])[..i]), (ts + [k])[i]) {
      assert (ts + [k])[..i] == ts[..i];
    }
  }

  lemma {:induction false} OneMoreFind(input: seq<byte>, t: Tuning, finds: seq<Find>, f: Find, ts: seq<Token>)
    requires AllExplained(input, t, finds, ts)
    ensures AllExplained(input, t, finds + [f], ts)
  {
    hide Explained;
    forall i | 0 <= i < |ts| ensures Explained(input, t, finds + [f], Width(ts[..i]), ts[i]) {
      ExplainedGrows(input, t, finds, f, Width(ts[..i]), ts[i]);
    }
  }

  /** Where the rounds stand: the waiting byte and the waiting match are those of the last search. */
  ghost predicate Waits(input: seq<byte>, t: Tuning, finds: seq<Find>, s: Lazy)
  {
    && Width(s.tokens) + (if s.avail then 1 else 0) == s.at && (s.len >= 3 ==> s.avail)
    && (s.avail ==> finds != [] && s.len == finds[|finds| - 1].len && s.from == finds[|finds| - 1].from
                    && SearchedFor(input, t, s.at - 1, finds[|finds| - 1]))
  }

  lemma {:induction false} RoundsExplained(input: seq<byte>, t: Tuning, finds: seq<Find>)
    requires Lawful(input, t, finds) && LazyRun(input, finds).at <= |input|
    ensures var s := LazyRun(input, finds);
      Waits(input, t, finds, s) && AllExplained(input, t, finds, s.tokens)
    decreases |finds|
  {
    hide Justified, Explained;
    if finds != [] {
      var before, f := finds[..|finds| - 1], finds[|finds| - 1];
      assert finds == before + [f];
      assert LazyRun(input, finds) == LazyStep(input, LazyRun(input, before), f);
      Forward(input, LazyRun(input, before), f);
      RoundsExplained(input, t, before);
      RoundExplained(input, t, before, f, LazyRun(input, before));
    }
  }

  lemma Forward(input: seq<byte>, s: Lazy, f: Find)
    ensures LazyStep(input, s, f).at > s.at
  {
  }

  lemma {:induction false} RoundExplained(input: seq<byte>, t: Tuning, before: seq<Find>, f: Find, s: Lazy)
    requires Waits(input, t, before, s) && AllExplained(input, t, before, s.tokens)
    requires Justified(input, t, s.at, s.len, f) && s.at < |input|
    ensures var n := LazyStep(input, s, f);
      Waits(input, t, before + [f], n) && AllExplained(input, t, before + [f], n.tokens)
  {
    hide Justified, Explained, AllExplained, SearchedFor;
    var finds, n := before + [f], LazyStep(input, s, f);
    OneMoreFind(input, t, before, f, s.tokens);
    if s.len >= 3 && f.len <= s.len {
      MatchExplained(input, t, before, f, s);
      OneMoreToken(input, t, finds, s.tokens, Match(s.len, Dist(s)));
      WidthSnoc(s.tokens, Match(s.len, Dist(s)));
    } else {
      WaitedFor(input, t, s.at, s.len, f);
      if s.avail {
        LiteralExplained(input, t, before, f, s);
        OneMoreToken(input, t, finds, s.tokens, Literal(input[s.at - 1]));
        WidthSnoc(s.tokens, Literal(input[s.at - 1]));
      } else {
        assert s.tokens + Waiting(input, s) == s.tokens;
      }
    }
  }

  lemma WaitedFor(input: seq<byte>, t: Tuning, p: nat, w: nat, f: Find)
    requires Justified(input, t, p, w, f) && (w < 3 || w < f.len)
    ensures SearchedFor(input, t, p, f)
  {
    hide Justified;
  }

  lemma {:induction false} MatchExplained(input: seq<byte>, t: Tuning, before: seq<Find>, f: Find, s: Lazy)
    requires Waits(input, t, before, s) && s.len >= 3 && f.len <= s.len && Justified(input, t, s.at, s.len, f)
    ensures Explained(input, t, before + [f], Width(s.tokens), Match(s.len, Dist(s)))
  {
    hide Justified, SearchedFor, TrueMatch;
    var p, finds, a := s.at - 1, before + [f], |before| - 1;
    assert finds[a] == before[a] && finds[a + 1] == f;
    FoundIsTrue(input, t, p, before[a]);
    assert s.from == p - Dist(s) by {
      TrueMatchBack(input, p, s.from, s.len);
    }
  }

  lemma TrueMatchBack(input: seq<byte>, p: int, m: int, len: nat)
    requires TrueMatch(input, p, m, len)
    ensures 0 <= m < p
  {
  }

  lemma {:induction false} FoundIsTrue(input: seq<byte>, t: Tuning, p: nat, f: Find)
    requires SearchedFor(input, t, p, f) && f.len >= 3
    ensures TrueMatch(input, p, f.from, f.len)
  {
    var w: nat :| (w < 3 || w < f.len) && Justified(input, t, p, w, f);
  }

  lemma {:induction false} LiteralExplained(input: seq<byte>, t: Tuning, before: seq<Find>, f: Find, s: Lazy)
    requires Waits(input, t, before, s) && s.avail && 1 <= s.at <= |input|
    requires s.len < 3 || (f.len > s.len && Justified(input, t, s.at, s.len, f))
    ensures Explained(input, t, before + [f], Width(s.tokens), Literal(input[s.at - 1]))
  {
    hide Justified, SearchedFor, TrueMatch;
    var finds, a := before + [f], |before| - 1;
    assert finds[a] == before[a] && finds[a + 1] == f;
  }

  /** Every token of a whole input. */
  lemma {:induction false} TokensExplained(input: seq<byte>, t: Tuning, finds: seq<Find>, ts: seq<Token>, i: nat)
    requires LazyParse(input, t, finds, ts) && i < |ts|
    ensures Explained(input, t, finds, Width(ts[..i]), ts[i])
  {
    hide Justified, Explained;
    var s := LazyRun(input, finds);
    RoundsExplained(input, t, finds);
    if s.avail {
      LastLiteral(input, t, finds, s);
      OneMoreToken(input, t, finds, s.tokens, Literal(input[s.at - 1]));
    } else {
      assert ts == s.tokens;
    }
  }

  lemma {:induction false} LastLiteral(input: seq<byte>, t: Tuning, finds: seq<Find>, s: Lazy)
    requires Waits(input, t, finds, s) && s.avail && s.at == |input| && s.at >= 1
    ensures Explained(input, t, finds, Width(s.tokens), Literal(input[s.at - 1]))
  {
    var f := finds[|finds| - 1];
    var w: nat :| (w < 3 || w < f.len) && Justified(input, t, s.at - 1, w, f);
    assert f.len <= 2;
  }

  // ----- the searches -----

  lemma {:induction false} FewRivals(input: seq<byte>, bits: nat, at: nat, down: nat)
    ensures |Rivals(input, bits, at, down)| <= at
  {
    Few(Rivals(input, bits, at, down), at);
  }

  lemma {:induction false} Few(s: set<nat>, n: nat)
    requires forall q | q in s :: q < n
    ensures |s| <= n
  {
    if n == 0 {
      assert s == {};
    } else {
      Few(s - {n - 1}, n - 1);
    }
  }

  /** With a chain length that is no limit, a search that ends below a nice match finds the longest match there is,
      except for three bytes from too far away. */
  lemma {:induction false} LongestFound(input: seq<byte>, t: Tuning, at: nat, pending: nat, f: Find, q: nat, n: nat)
    requires Justified(input, t, at, pending, f) && pending < t.maxLazyMatch && at < t.maxChainLength / 4
    requires f.len < t.niceMatch && 3 < t.niceMatch && 1 <= q && at < q + 32506
    requires 3 <= n <= 258 && TrueMatch(input, at, q, n)
    ensures n <= f.len || (n == 3 && f.len == 2 && at - f.from > 4096)
  {
    hide Hash3, Rivals;
    assert Same(input, q, at, 0) && Same(input, q, at, 1) && Same(input, q, at, 2);
    assert Rival(input, t.hashBits, at, q);
    FewRivals(input, t.hashBits, at, f.down);
    if n > f.best {
      assert TrueMatch(input, at, q, f.best + 1);
    }
    RivalIn(input, t.hashBits, at, f.down, q);
  }

  lemma RivalIn(input: seq<byte>, bits: nat, at: nat, down: nat, q: nat)
    requires Rival(input, bits, at, q)
    ensures down <= q ==> q in Rivals(input, bits, at, down)
  {
  }
}
