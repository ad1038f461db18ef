/** What head[] and prev[] say about the strings inserted so far. Positions are
    window indices; `base` is the place of the window in the input. */
module HashChains {
  import opened Bits
  import opened HashKeys

  const WSIZE := 0x8000

  /** prev[s & WMASK] */
  function Link(prev: seq<nat>, s: nat): (m: nat)
    requires |prev| == WSIZE
  {
    prev[s % WSIZE]
  }

  /** Every head names the latest string with that key, unless there is none behind `base`. The key of the string at
      input position `p` is `keys[p]`. */
  ghost predicate Heads(head: seq<nat>, keys: seq<nat>, base: nat)
  {
    && (forall k | 0 <= k < |head| && head[k] != 0 :: base + head[k] < |keys| && keys[base + head[k]] == k)
    && forall p | base < p < |keys| :: keys[p] < |head| && p <= base + head[keys[p]]
  }

  /** The links of the last WSIZE strings lead to the latest earlier ones with the same key. */
  ghost predicate Links(prev: seq<nat>, keys: seq<nat>, base: nat)
  {
    && |prev| == WSIZE && base <= |keys|
    && forall s: nat | base + s < |keys| <= base + s + WSIZE :: LinkLatest(prev, keys, base, s)
  }

  ghost predicate LinkLatest(prev: seq<nat>, keys: seq<nat>, base: nat, s: nat)
    requires |prev| == WSIZE && base + s < |keys|
  {
    && (Link(prev, s) != 0 ==> SameKey(keys, base, Link(prev, s), s))
    && forall p | base < p < base + s && keys[p] == keys[base + s] :: p <= base + Link(prev, s)
  }

  ghost predicate SameKey(keys: seq<nat>, base: nat, m: nat, s: nat)
  {
    m < s && base + s < |keys| && keys[base + m] == keys[base + s]
  }

  /** The keys are those of the three bytes at each position, where there are three. */
  ghost predicate Keyed(keys: seq<nat>, input: seq<byte>, bits: nat)
  {
    forall p | 0 <= p < |keys| && p + 2 < |input| :: keys[p] == Hash3(input[p], input[p + 1], input[p + 2], bits)
  }

  /** The running key `h` is ready for the string at position `p`. */
  ghost predicate Rolling(h: nat, input: seq<byte>, p: nat, bits: nat)
  {
    p + 1 < |input| ==> forall c: byte :: UpdateHash(h, c, bits) == Hash3(input[p], input[p + 1], c, bits)
  }

  /** INSERT_STRING at the next position keeps the tables in order. */
  lemma {:induction false} InsertKeeps(head: seq<nat>, prev: seq<nat>, keys: seq<nat>, base: nat, s: nat, k: nat)
    requires Heads(head, keys, base) && Links(prev, keys, base) && |keys| == base + s && k < |head|
    ensures Heads(head[k := s], keys + [k], base)
    ensures Links(prev[s % WSIZE := head[k]], keys + [k], base)
    ensures head[k] != 0 ==> SameKey(keys + [k], base, head[k], s)
  {
    var prev', keys' := prev[s % WSIZE := head[k]], keys + [k];
    forall t: nat | base + t < |keys'| <= base + t + WSIZE ensures LinkLatest(prev', keys', base, t) {
      if t != s {
        OtherSlot(s, t);
        assert LinkLatest(prev, keys, base, t);
      }
    }
  }

  /** Of the last WSIZE positions no two share a slot. */
  lemma OtherSlot(s: nat, t: nat)
    requires t < s < t + WSIZE
    ensures s % WSIZE != t % WSIZE
  {
  }

  function Slid(m: nat): (r: nat)
  {
    if m >= WSIZE then m - WSIZE else 0
  }

  function SlidAll(a: seq<nat>): (r: seq<nat>)
    ensures |r| == |a| && forall i | 0 <= i < |a| :: r[i] == Slid(a[i])
  {
    seq(|a|, i requires 0 <= i < |a| => Slid(a[i]))
  }

  /** So does moving the window by WSIZE. */
  lemma {:induction false} SlideKeeps(head: seq<nat>, prev: seq<nat>, keys: seq<nat>, base: nat)
    requires Heads(head, keys, base) && Links(prev, keys, base) && base + WSIZE <= |keys|
    ensures Heads(SlidAll(head), keys, base + WSIZE) && Links(SlidAll(prev), keys, base + WSIZE)
  {
    var prev', base' := SlidAll(prev), base + WSIZE;
    forall s: nat | base' + s < |keys| <= base' + s + WSIZE ensures LinkLatest(prev', keys, base', s) {
      assert Link(prev, s + WSIZE) == prev[s % WSIZE];
      assert LinkLatest(prev, keys, base, s + WSIZE);
    }
  }

  /** Reading more input keeps the keys when every inserted string was complete. */
  lemma KeyedGrows(keys: seq<nat>, input: seq<byte>, more: seq<byte>, bits: nat)
    requires Keyed(keys, input, bits) && (keys == [] || |keys| + 2 <= |input|)
    ensures Keyed(keys, input + more, bits)
  {
  }

  lemma RollingGrows(h: nat, input: seq<byte>, more: seq<byte>, p: nat, bits: nat)
    requires Rolling(h, input, p, bits) && p + 2 <= |input|
    ensures Rolling(h, input + more, p, bits)
  {
  }

  /** INSERT_STRING computes the key of the next string, whatever bytes follow the input. */
  lemma {:induction false} RollingStep(h: nat, input: seq<byte>, p: nat, bits: nat, c: byte)
    requires 10 <= bits <= 15 && Rolling(h, input, p, bits) && (p + 2 < |input| ==> c == input[p + 2])
    ensures p + 2 < |input| ==> UpdateHash(h, c, bits) == Hash3(input[p], input[p + 1], input[p + 2], bits)
    ensures Rolling(UpdateHash(h, c, bits), input, p + 1, bits)
  {
    hide UpdateHash;
    if p + 2 < |input| {
      var a, b := input[p], input[p + 1];
      forall d: byte ensures UpdateHash(UpdateHash(h, c, bits), d, bits) == Hash3(b, c, d, bits) {
        Forgets(UpdateHash(0, a, bits), b, c, d, bits);
      }
    }
  }

  lemma KeyedStep(keys: seq<nat>, input: seq<byte>, bits: nat, k: nat)
    requires Keyed(keys, input, bits)
    requires var p := |keys|; p + 2 < |input| ==> k == Hash3(input[p], input[p + 1], input[p + 2], bits)
    ensures Keyed(keys + [k], input, bits)
  {
    hide Hash3;
  }

  /** Two strings with equal keys whose first two bytes agree also agree on the third. */
  lemma {:induction false} ThirdByteAgrees(keys: seq<nat>, input: seq<byte>, bits: nat, p: nat, q: nat)
    requires 8 <= bits && Keyed(keys, input, bits) && p < |keys| && q < |keys| && keys[p] == keys[q]
    requires p + 2 < |input| && q + 2 < |input| && input[p] == input[q] && input[p + 1] == input[q + 1]
    ensures input[p + 2] == input[q + 2]
  {
    hide Hash3;
    ThirdByte(input[p], input[p + 1], input[p + 2], input[q + 2], bits);
  }

  /** The positions that longest_match visits from `m` on. */
  function Chain(prev: seq<nat>, m: nat, limit: nat): (c: seq<nat>)
    requires |prev| == WSIZE
    decreases m
  {
    if m <= limit then []
    else if Link(prev, m) < m then [m] + Chain(prev, Link(prev, m), limit)
    else [m]
  }

  /** The positions go strictly down from `m`, stay above the limit and have its key. */
  ghost predicate Descends(c: seq<nat>, keys: seq<nat>, base: nat, m: nat, limit: nat)
    requires base + m < |keys|
  {
    && (forall i | 0 <= i < |c| :: limit < c[i] <= m && keys[base + c[i]] == keys[base + m])
    && (forall i, j | 0 <= i < j < |c| :: c[j] < c[i])
  }

  lemma DescendsFurther(c: seq<nat>, keys: seq<nat>, base: nat, m: nat, n: nat, limit: nat)
    requires limit < m && SameKey(keys, base, n, m) && Descends(c, keys, base, n, limit)
    ensures Descends([m] + c, keys, base, m, limit)
  {
  }

  /** Every chain above the distance limit goes strictly down and holds only
      strings with the key of the first one. */
  lemma {:induction false} ChainSound(prev: seq<nat>, keys: seq<nat>, base: nat, m: nat, limit: nat)
    requires Links(prev, keys, base) && base + m < |keys| <= base + limit + WSIZE
    ensures Descends(Chain(prev, m, limit), keys, base, m, limit)
    decreases m
  {
    hide Link;
    var n := Link(prev, m);
    if m > limit && n != 0 {
      assert LinkLatest(prev, keys, base, m);
      ChainSound(prev, keys, base, n, limit);
      DescendsFurther(Chain(prev, n, limit), keys, base, m, n, limit);
    }
  }

  /** And it holds all of them: every string above the limit with the key of the first one, up to it. */
  lemma {:induction false} ChainComplete(prev: seq<nat>, keys: seq<nat>, base: nat, m: nat, limit: nat, q: nat)
    requires Links(prev, keys, base) && base + m < |keys| <= base + limit + WSIZE
    requires limit < q <= m && keys[base + q] == keys[base + m]
    ensures q in Chain(prev, m, limit)
    decreases m
  {
    hide Link;
    if q < m {
      assert LinkLatest(prev, keys, base, m);
      ChainComplete(prev, keys, base, Link(prev, m), limit, q);
    }
  }

  /** The strings that longest_match may look at, latest first: the first one and the chain from it on. */
  function Candidates(prev: seq<nat>, h: nat, limit: nat): (c: seq<nat>)
    requires |prev| == WSIZE
    ensures c != [] && c[0] == h
  {
    [h] + Chain(prev, Link(prev, h), limit)
  }

  /** They go strictly down, and all have the key of the current string. */
  lemma {:induction false} CandidatesSound(prev: seq<nat>, keys: seq<nat>, base: nat, s: nat, h: nat, limit: nat)
    requires Links(prev, keys, base) && |keys| == base + s + 1 && SameKey(keys, base, h, s) && s < limit + WSIZE
    requires s < h + WSIZE
    ensures var c := Candidates(prev, h, limit);
      && (forall i | 0 <= i < |c| :: SameKey(keys, base, c[i], s) && (i > 0 ==> limit < c[i]))
      && forall i, j | 0 <= i < j < |c| :: c[j] < c[i]
  {
    hide Link;
    var n := Link(prev, h);
    assert LinkLatest(prev, keys, base, h);
    if n > limit {
      ChainSound(prev, keys, base, n, limit);
    }
  }

  /** And none is missing that is above the limit. */
  lemma {:induction false} CandidatesComplete(prev: seq<nat>, keys: seq<nat>, base: nat, s: nat, h: nat, limit: nat,
                                              q: nat)
    requires Links(prev, keys, base) && |keys| == base + s + 1 && SameKey(keys, base, h, s) && s < limit + WSIZE
    requires h == Link(prev, s) && s < h + WSIZE && limit < q < s && keys[base + q] == keys[base + s]
    ensures q in Candidates(prev, h, limit)
  {
    hide Link;
    assert LinkLatest(prev, keys, base, s);
    if q < h {
      assert LinkLatest(prev, keys, base, h);
      ChainComplete(prev, keys, base, Link(prev, h), limit, q);
    }
  }
}
