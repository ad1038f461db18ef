/** Lazy matching as a rule about the input alone: what the search at a position may come to, and which tokens follow
    from what the searches found. */
module LazyMatching {
  import opened Bits
  import opened Tokens
  import opened HashKeys
  import opened HashChains
  import opened Window
  import opened Lz77

  /** The parameters of the search. */
  datatype Tuning = Tuning(maxChainLength: nat, maxLazyMatch: nat, goodMatch: nat, niceMatch: nat, hashBits: nat)

  /** The search at some position: a match of `best` bytes, or the pending one's length, of which `len` bytes are
      kept. It starts at `from`, and the search went down to the string at `down`. */
  datatype Find = Find(len: nat, from: int, best: nat, down: nat)

  /** An earlier string in reach with the key of the string at `at`. The first string of the input is never looked
      at. */
  ghost predicate Rival(input: seq<byte>, bits: nat, at: nat, q: nat)
  {
    && 1 <= q < at < q + MAX_DIST && at + 2 < |input|
    && Hash3(input[q], input[q + 1], input[q + 2], bits) == Hash3(input[at], input[at + 1], input[at + 2], bits)
  }

  ghost function Rivals(input: seq<byte>, bits: nat, at: nat, down: nat): (s: set<nat>)
  {
    set q | down <= q < at && Rival(input, bits, at, q)
  }

  /** No string that was looked at agrees longer; and all in reach were, or as many as the chain length allows, or the
      match is nice. */
  ghost predicate Searched(input: seq<byte>, t: Tuning, at: nat, pending: nat, f: Find)
  {
    && pending <= f.best <= 258 && at <= |input|
    && (f.best > pending ==> TrueMatch(input, at, f.from, if at + f.best <= |input| then f.best else |input| - at))
    && (f.best < 258 ==> forall q | q in Rivals(input, t.hashBits, at, f.down) :: !TrueMatch(input, at, q, f.best + 1))
    && (|| (forall q: nat | Rival(input, t.hashBits, at, q) :: f.down <= q)
        || Tried(if pending >= t.goodMatch then t.maxChainLength / 4 else t.maxChainLength,
                 |Rivals(input, t.hashBits, at, f.down)|)
        || (f.best > pending && f.best >= t.niceMatch))
  }

  /** What is kept of a match: no more than the input has, and not three bytes from too far away. */
  function Kept(best: nat, ahead: nat, dist: int): (len: nat)
  {
    var n := if best > ahead then ahead else best;
    if n == 3 && dist > 4096 then 2 else n
  }

  /** What the search at `at` may come to while a match of `pending` bytes waits. */
  ghost predicate Justified(input: seq<byte>, t: Tuning, at: nat, pending: nat, f: Find)
  {
    if |input| < at + 3 then f.len <= 2
    else if pending >= t.maxLazyMatch then f.len == 2
    else
      || (f.len == 2 && forall q: nat :: !Rival(input, t.hashBits, at, q))
      || (Searched(input, t, at, pending, f) && f.len == Kept(f.best, |input| - at, at - f.from))
  }

  // ----- the tokens -----

  /** Where the loop stands, whether a byte waits to be coded, the match that waits, and the tokens so far. */
  datatype Lazy = Lazy(at: nat, avail: bool, len: nat, from: int, tokens: seq<Token>)

  /** One round: a waiting match that the new one does not beat is coded, and else the waiting byte. */
  function LazyStep(input: seq<byte>, s: Lazy, f: Find): (r: Lazy)
  {
    if s.len >= 3 && f.len <= s.len then
      Lazy(s.at + s.len - 1, false, 2, f.from, s.tokens + [Match(s.len, Dist(s))])
    else Lazy(s.at + 1, true, f.len, f.from, s.tokens + Waiting(input, s))
  }

  function Dist(s: Lazy): (d: nat)
  {
    if s.at - 1 >= s.from then s.at - 1 - s.from else 0
  }

  function Waiting(input: seq<byte>, s: Lazy): (ts: seq<Token>)
  {
    if s.avail && 1 <= s.at <= |input| then [Literal(input[s.at - 1])] else []
  }

  function LazyRun(input: seq<byte>, finds: seq<Find>): (s: Lazy)
  {
    if finds == [] then Lazy(0, false, 2, 0, [])
    else LazyStep(input, LazyRun(input, finds[..|finds| - 1]), finds[|finds| - 1])
  }

  /** Every search was a proper one. */
  ghost predicate Lawful(input: seq<byte>, t: Tuning, finds: seq<Find>)
  {
    finds == [] ||
    var before := finds[..|finds| - 1];
    var s := LazyRun(input, before);
    Lawful(input, t, before) && Justified(input, t, s.at, s.len, finds[|finds| - 1])
  }

  /** All the tokens of an input that the rounds have gone through. */
  ghost predicate LazyParse(input: seq<byte>, t: Tuning, finds: seq<Find>, ts: seq<Token>)
  {
    var s := LazyRun(input, finds);
    Lawful(input, t, finds) && s.at == |input| && ts == s.tokens + Waiting(input, s)
  }

  // ----- searching in the window -----

  /** What the tables and the window say at string `s`, of which `h` is the link. */
  ghost predicate Standing(w: seq<byte>, end: nat, input: seq<byte>, base: nat, keys: seq<nat>, prev: seq<nat>,
                           bits: nat, s: nat, h: nat)
  {
    && Holds(w, end, input, base) && Keyed(keys, input, bits) && Links(prev, keys, base) && 8 <= bits
    && |keys| == base + s + 1 && h == Link(prev, s) && s + 3 <= end && (base == 0 || s >= MAX_DIST)
  }

  lemma {:induction false} RivalInWindow(w: seq<byte>, end: nat, input: seq<byte>, base: nat, keys: seq<nat>,
                                         prev: seq<nat>, bits: nat, s: nat, h: nat, q: nat)
    requires Standing(w, end, input, base, keys, prev, bits, s, h) && Rival(input, bits, base + s, q)
    ensures base < q < base + s && keys[q] == keys[base + s] && q <= base + h && s < q - base + MAX_DIST
  {
    hide Hash3, Holds, Link;
    assert LinkLatest(prev, keys, base, s);
  }

  /** Without a string to start from, or with one out of reach, there is none at all. */
  lemma {:induction false} NoRival(w: seq<byte>, end: nat, input: seq<byte>, base: nat, keys: seq<nat>,
                                   prev: seq<nat>, bits: nat, s: nat, h: nat, q: nat)
    requires Standing(w, end, input, base, keys, prev, bits, s, h) && (h == 0 || s - h > MAX_DIST)
    ensures !Rival(input, bits, base + s, q)
  {
    hide Standing, Rival;
    if Rival(input, bits, base + s, q) {
      RivalInWindow(w, end, input, base, keys, prev, bits, s, h, q);
    }
  }

  /** The candidates, with the facts about them. */
  ghost predicate Listed(keys: seq<nat>, base: nat, s: nat, limit: nat, c: seq<nat>)
  {
    && (forall i | 0 <= i < |c| :: SameKey(keys, base, c[i], s) && (i > 0 ==> limit < c[i]))
    && forall i, j | 0 <= i < j < |c| :: c[j] < c[i]
  }

  /** Every rival above the last string visited was visited. */
  lemma {:induction false} RivalVisited(w: seq<byte>, end: nat, input: seq<byte>, base: nat, keys: seq<nat>,
                                        prev: seq<nat>, bits: nat, s: nat, h: nat, limit: nat, visited: nat, q: nat)
    requires Standing(w, end, input, base, keys, prev, bits, s, h) && SameKey(keys, base, h, s) && s - h <= MAX_DIST
    requires limit == (if s > MAX_DIST then s - MAX_DIST else 0) && Rival(input, bits, base + s, q)
    requires Listed(keys, base, s, limit, Candidates(prev, h, limit))
    requires 0 < visited <= |Candidates(prev, h, limit)|
    requires visited == |Candidates(prev, h, limit)| || base + Candidates(prev, h, limit)[visited - 1] <= q
    ensures base < q && q - base in Candidates(prev, h, limit)[..visited]
  {
    hide Rival, Holds, Keyed, LinkLatest, Link, Candidates, SameKey;
    RivalInWindow(w, end, input, base, keys, prev, bits, s, h, q);
    CandidatesComplete(prev, keys, base, s, h, limit, q - base);
    var c := Candidates(prev, h, limit);
    var i :| 0 <= i < |c| && c[i] == q - base;
    assert c[..visited][i] == q - base;
  }

  /** A candidate that is visited before another one is a rival. */
  lemma {:induction false} VisitedIsRival(w: seq<byte>, end: nat, input: seq<byte>, base: nat, keys: seq<nat>,
                                          prev: seq<nat>, bits: nat, s: nat, h: nat, limit: nat, c: seq<nat>, i: nat)
    requires Standing(w, end, input, base, keys, prev, bits, s, h)
    requires limit == (if s > MAX_DIST then s - MAX_DIST else 0) && Listed(keys, base, s, limit, c) && i + 1 < |c|
    ensures Rival(input, bits, base + s, base + c[i])
  {
    hide Links, Link, Hash3;
    assert SameKey(keys, base, c[i], s);
    assert limit < c[i + 1] < c[i];
  }

  lemma {:induction false} NotTrue(w: seq<byte>, end: nat, input: seq<byte>, base: nat, s: nat, m: nat, best: nat)
    requires Holds(w, end, input, base) && m < s && NotLonger(w, m, s, best) && best < MAX_MATCH
    ensures !TrueMatch(input, base + s, base + m, best + 1)
  {
    var k :| 0 <= k <= best && !Same(w, m, s, k);
    assert base + s + k < |input| ==> !Same(input, base + m, base + s, k);
  }

  /** As many positions as the list is long. */
  lemma {:induction false} Distinct(c: seq<nat>, base: nat) returns (p: set<nat>)
    requires forall i, j | 0 <= i < j < |c| :: c[j] < c[i]
    ensures |p| == |c| && forall q: nat :: q in p <==> base <= q && q - base in c
  {
    if c == [] {
      p := {};
    } else {
      var init, last := c[..|c| - 1], c[|c| - 1];
      var before := Distinct(init, base);
      assert last !in init;
      assert base + last !in before;
      assert c == init + [last];
      p := before + {base + last};
    }
  }

  /** What longest_match found in the window is what a search of the input may come to. */
  lemma {:induction false} FoundIsSearched(w: seq<byte>, end: nat, input: seq<byte>, base: nat, keys: seq<nat>,
                                           prev: seq<nat>, t: Tuning, s: nat, h: nat, limit: nat, pending: nat,
                                           visited: nat, f: Find)
    requires Standing(w, end, input, base, keys, prev, t.hashBits, s, h) && SameKey(keys, base, h, s)
    requires limit == (if s > MAX_DIST then s - MAX_DIST else 0) && s - h <= MAX_DIST
    requires pending <= f.best <= MAX_MATCH && 0 < visited <= |Candidates(prev, h, limit)|
    requires f.best > pending ==>
      TrueMatch(input, base + s, f.from, if base + s + f.best <= |input| then f.best else |input| - (base + s))
    requires NoneLonger(w, Candidates(prev, h, limit)[..visited], s, f.best)
    requires || visited == |Candidates(prev, h, limit)| || (f.best > pending && f.best >= t.niceMatch)
      || Tried(if pending >= t.goodMatch then t.maxChainLength / 4 else t.maxChainLength, visited)
    requires f.down == if visited == |Candidates(prev, h, limit)| then 0
      else base + Candidates(prev, h, limit)[visited - 1]
    ensures Searched(input, t, base + s, pending, f)
  {
    hide Rival, Holds, Keyed, Link, Candidates, SameKey, LinkLatest, TrueMatch, NotLonger, Tried;
    CandidatesSound(prev, keys, base, s, h, limit);
    var c, at := Candidates(prev, h, limit), base + s;
    assert Listed(keys, base, s, limit, c);
    if f.best < 258 {
      forall q | q in Rivals(input, t.hashBits, at, f.down) ensures !TrueMatch(input, at, q, f.best + 1) {
        RivalVisited(w, end, input, base, keys, prev, t.hashBits, s, h, limit, visited, q);
        BelowCurrent(keys, base, s, limit, c, visited, q - base);
        NotTrue(w, end, input, base, s, q - base, f.best);
      }
    }
    HoldsEnd(w, end, input, base);
    if visited < |c| {
      CountVisited(w, end, input, base, keys, prev, t.hashBits, s, h, limit, visited, f.down);
    }
  }

  lemma BelowCurrent(keys: seq<nat>, base: nat, s: nat, limit: nat, c: seq<nat>, visited: nat, m: nat)
    requires Listed(keys, base, s, limit, c) && visited <= |c| && m in c[..visited]
    ensures m < s
  {
  }

  lemma {:induction false} CountVisited(w: seq<byte>, end: nat, input: seq<byte>, base: nat, keys: seq<nat>,
                                        prev: seq<nat>, bits: nat, s: nat, h: nat, limit: nat, visited: nat, down: nat)
    requires Standing(w, end, input, base, keys, prev, bits, s, h) && SameKey(keys, base, h, s) && s - h <= MAX_DIST
    requires limit == (if s > MAX_DIST then s - MAX_DIST else 0)
    requires Listed(keys, base, s, limit, Candidates(prev, h, limit))
    requires 0 < visited < |Candidates(prev, h, limit)| && down == base + Candidates(prev, h, limit)[visited - 1]
    ensures |Rivals(input, bits, base + s, down)| == visited
  {
    hide Rival, Holds, Keyed, Link, Candidates, SameKey, LinkLatest, Standing;
    StandingSize(w, end, input, base, keys, prev, bits, s, h);
    var c := Candidates(prev, h, limit);
    var p := Distinct(c[..visited], base);
    forall q: nat ensures q in Rivals(input, bits, base + s, down) <==> q in p {
      if q in Rivals(input, bits, base + s, down) {
        RivalVisited(w, end, input, base, keys, prev, bits, s, h, limit, visited, q);
      }
      if q in p {
        var i :| 0 <= i < visited && c[i] == q - base;
        VisitedIsRival(w, end, input, base, keys, prev, bits, s, h, limit, c, i);
        BelowCurrent(keys, base, s, limit, c, visited, q - base);
      }
    }
    assert Rivals(input, bits, base + s, down) == p;
  }

  lemma StandingSize(w: seq<byte>, end: nat, input: seq<byte>, base: nat, keys: seq<nat>, prev: seq<nat>, bits: nat,
                     s: nat, h: nat)
    requires Standing(w, end, input, base, keys, prev, bits, s, h)
    ensures |prev| == WSIZE
  {
  }

  // ----- more input -----

  /** A search keeps its meaning when the input grows behind the bytes it can look at. */
  lemma {:induction false} JustifiedGrows(input: seq<byte>, longer: seq<byte>, t: Tuning, at: nat, pending: nat,
                                          f: Find)
    requires Justified(input, t, at, pending, f) && input <= longer && at + MIN_LOOKAHEAD <= |input|
    ensures Justified(longer, t, at, pending, f)
  {
    hide TrueMatch, Hash3;
    forall q: nat ensures Rival(input, t.hashBits, at, q) <==> Rival(longer, t.hashBits, at, q) {
    }
    assert forall d: nat :: Rivals(input, t.hashBits, at, d) == Rivals(longer, t.hashBits, at, d);
    forall m: int, n: nat | n <= 258 ensures TrueMatch(input, at, m, n) <==> TrueMatch(longer, at, m, n) {
      TrueMatchSame(input, longer, at, m, n);
    }
  }

  lemma TrueMatchSame(input: seq<byte>, longer: seq<byte>, at: nat, m: int, n: nat)
    requires input <= longer && at + n <= |input|
    ensures TrueMatch(input, at, m, n) <==> TrueMatch(longer, at, m, n)
  {
    if 0 <= m < at {
      assert forall k | 0 <= k < n :: Same(input, m, at, k) <==> Same(longer, m, at, k);
    }
  }
}
