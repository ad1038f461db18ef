/** Sums of weights over finite collections of node numbers. */
module Sums {

  ghost predicate Within(ms: multiset<nat>, w: seq<nat>)
  {
    forall x | x in ms :: x < |w|
  }

  /** No number occurs twice. */
  ghost predicate Distinct(ms: multiset<nat>)
  {
    forall x: nat :: ms[x] <= 1
  }

  ghost function MSum(ms: multiset<nat>, w: seq<nat>): (s: nat)
    requires Within(ms, w)
    ensures |ms| == 0 ==> s == 0
    decreases |ms|
  {
    if |ms| == 0 then 0 else w[Pick(ms)] + MSum(ms - multiset{Pick(ms)}, w)
  }

  ghost function Pick(ms: multiset<nat>): (x: nat)
    requires |ms| != 0
    ensures x in ms
  {
    var x :| x in ms;
    x
  }

  lemma {:induction false} MSumRemove(ms: multiset<nat>, w: seq<nat>, y: nat)
    requires Within(ms, w) && y in ms
    ensures MSum(ms, w) == w[y] + MSum(ms - multiset{y}, w)
    decreases |ms|
  {
    hide Pick;
    var x := Pick(ms);
    if x != y {
      var rest := ms - multiset{x};
      MSumRemove(rest, w, y);
      assert rest - multiset{y} == ms - multiset{y} - multiset{x};
      MSumRemove(ms - multiset{y}, w, x);
    }
  }

  lemma {:induction false} MSumInsert(ms: multiset<nat>, w: seq<nat>, y: nat)
    requires Within(ms, w) && y < |w|
    ensures Within(ms + multiset{y}, w)
    ensures MSum(ms + multiset{y}, w) == w[y] + MSum(ms, w)
  {
    MSumRemove(ms + multiset{y}, w, y);
    assert ms + multiset{y} - multiset{y} == ms;
  }

  lemma {:induction false} MSumCongruent(ms: multiset<nat>, v: seq<nat>, w: seq<nat>)
    requires Within(ms, v) && Within(ms, w)
    requires forall x | x in ms :: v[x] == w[x]
    ensures MSum(ms, v) == MSum(ms, w)
    decreases |ms|
  {
    if |ms| != 0 {
      var x :| x in ms;
      MSumRemove(ms, v, x);
      MSumRemove(ms, w, x);
      MSumCongruent(ms - multiset{x}, v, w);
    }
  }

  lemma {:induction false} MSumUnion(a: multiset<nat>, b: multiset<nat>, w: seq<nat>)
    requires Within(a, w) && Within(b, w)
    ensures Within(a + b, w) && MSum(a + b, w) == MSum(a, w) + MSum(b, w)
    decreases |b|
  {
    if |b| == 0 {
      assert a + b == a;
    } else {
      var x :| x in b;
      MSumRemove(b, w, x);
      MSumUnion(a, b - multiset{x}, w);
      MSumInsert(a + (b - multiset{x}), w, x);
      assert a + (b - multiset{x}) + multiset{x} == a + b;
    }
  }

  /** Two nodes replaced by one, or one by two. */
  lemma {:induction false} MSumMerge(ms: multiset<nat>, n: nat, m: nat, p: nat, w: seq<nat>)
    requires Within(ms, w) && p < |w|
    requires n in ms && m in ms - multiset{n}
    ensures var merged := ms - multiset{n} - multiset{m} + multiset{p};
            Within(merged, w) && MSum(merged, w) + w[n] + w[m] == MSum(ms, w) + w[p]
  {
    MSumRemove(ms, w, n);
    MSumRemove(ms - multiset{n}, w, m);
    MSumInsert(ms - multiset{n} - multiset{m}, w, p);
  }

  lemma {:induction false} MSumUpdate(ms: multiset<nat>, w: seq<nat>, x: nat, v: nat)
    requires Within(ms, w) && Distinct(ms) && x in ms
    ensures MSum(ms, w[x := v]) + w[x] == MSum(ms, w) + v
  {
    var w' := w[x := v];
    MSumRemove(ms, w, x);
    MSumRemove(ms, w', x);
    MSumCongruent(ms - multiset{x}, w, w');
  }

  /** The numbers below `n` with a positive weight. */
  ghost function Used(f: seq<nat>, n: nat): (ms: multiset<nat>)
    requires n <= |f|
    ensures forall x: nat :: x in ms <==> x < n && f[x] > 0
    ensures Distinct(ms)
  {
    if n == 0 then multiset{}
    else if f[n - 1] > 0 then Used(f, n - 1) + multiset{n - 1}
    else Used(f, n - 1)
  }

  /** The sum of the first `n` weights. */
  ghost function RangeSum(w: seq<nat>, n: nat): (s: nat)
    requires n <= |w|
  {
    if n == 0 then 0 else RangeSum(w, n - 1) + w[n - 1]
  }

  lemma {:induction false} UsedSum(f: seq<nat>, n: nat, w: seq<nat>)
    requires n <= |f| && n <= |w|
    requires forall x | 0 <= x < n && f[x] == 0 :: w[x] == 0
    ensures MSum(Used(f, n), w) == RangeSum(w, n)
  {
    hide MSum, Distinct;
    if n > 0 {
      UsedSum(f, n - 1, w);
      if f[n - 1] > 0 {
        MSumInsert(Used(f, n - 1), w, n - 1);
      }
    }
  }

  lemma {:induction false} UsedUpdate(f: seq<nat>, n: nat, i: nat, v: nat)
    requires i < n <= |f| && f[i] == 0 && v > 0
    ensures Used(f[i := v], n) == Used(f, n) + multiset{i}
  {
    if i == n - 1 {
      UsedFrame(f, f[i := v], n - 1);
    } else {
      UsedUpdate(f, n - 1, i, v);
    }
  }

  lemma {:induction false} UsedFrame(f: seq<nat>, g: seq<nat>, n: nat)
    requires n <= |f| && n <= |g| && forall x | 0 <= x < n :: f[x] == g[x]
    ensures Used(f, n) == Used(g, n)
  {
    if n > 0 {
      UsedFrame(f, g, n - 1);
    }
  }

  lemma {:induction false} RangeSumUpdate(w: seq<nat>, n: nat, i: nat, v: nat)
    requires i < n <= |w|
    ensures RangeSum(w[i := v], n) + w[i] == RangeSum(w, n) + v
  {
    if i == n - 1 {
      RangeSumFrame(w, w[i := v], n - 1);
    } else {
      RangeSumUpdate(w, n - 1, i, v);
    }
  }

  lemma {:induction false} RangeSumFrame(v: seq<nat>, w: seq<nat>, n: nat)
    requires n <= |v| && n <= |w| && forall x | 0 <= x < n :: v[x] == w[x]
    ensures RangeSum(v, n) == RangeSum(w, n)
  {
    if n > 0 {
      RangeSumFrame(v, w, n - 1);
    }
  }
}
