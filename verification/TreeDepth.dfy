/** How deep the tree of build_tree gets: frequencies below 2^16 keep depths below 23. */
module TreeDepth {
  import opened Sums
  import opened Huffman
  import opened LengthFacts

  function Higher(a: nat, b: nat): (m: nat)
    ensures m >= a && m >= b && (m == a || m == b)
  {
    if a >= b then a else b
  }

  /** Leaves have depth 0, and each merged node is one above the deeper of its sons. */
  ghost predicate Depths(d: seq<nat>, leaves: multiset<nat>, elems: nat, log: Log)
  {
    && elems + |log| <= |d|
    && (forall x | x in leaves :: x < elems && d[x] == 0)
    && forall i | 0 <= i < |log| :: DepthAt(d, elems, log, i)
  }

  ghost predicate DepthAt(d: seq<nat>, elems: nat, log: Log, i: nat)
    requires i < |log| && elems + |log| <= |d|
  {
    && log[i].0 < elems + i && log[i].1 < elems + i
    && d[elems + i] == 1 + Higher(d[log[i].0], d[log[i].1])
  }

  /** Every symbol in the tree occurs, and together they are few enough for 16 bits. */
  ghost predicate Light(leaves: multiset<nat>, fc: seq<nat>, elems: nat, log: Log)
  {
    && (forall x | x in leaves :: x < |fc| && fc[x] >= 1)
    && Within(Forest(leaves, elems, log), fc) && MSum(Forest(leaves, elems, log), fc) <= 0xffff
  }

  /** No node of `f` weighs less than `n`, and of those that weigh as much none is lower. */
  ghost predicate Least(f: multiset<nat>, fc: seq<nat>, d: seq<nat>, n: nat)
  {
    && n in f && n < |fc| && n < |d|
    && forall x | x in f :: x < |fc| && x < |d| && fc[n] <= fc[x] && (fc[n] == fc[x] ==> d[n] <= d[x])
  }

  /** `n` and `m` are the two least nodes. */
  ghost predicate LeastTwo(f: multiset<nat>, fc: seq<nat>, d: seq<nat>, n: nat, m: nat)
  {
    Least(f, fc, d, n) && Least(f - multiset{n}, fc, d, m)
  }

  ghost predicate LeastAt(leaves: multiset<nat>, fc: seq<nat>, d: seq<nat>, elems: nat, log: Log, i: nat)
    requires i < |log|
  {
    LeastTwo(Forest(leaves, elems, log[..i]), fc, d, log[i].0, log[i].1)
  }

  /** Every merge joined two least nodes, the depth deciding between equal weights. */
  ghost predicate Lowest(leaves: multiset<nat>, fc: seq<nat>, d: seq<nat>, elems: nat, log: Log)
  {
    forall i | 0 <= i < |log| :: LeastAt(leaves, fc, d, elems, log, i)
  }

  /** A node of the tree: a symbol or the father of one of the merges. */
  ghost predicate IsNode(leaves: multiset<nat>, elems: nat, log: Log, x: nat)
  {
    x in leaves || elems <= x < elems + |log|
  }

  lemma {:induction false} RootIsNode(leaves: multiset<nat>, elems: nat, log: Log, x: nat)
    requires x in Forest(leaves, elems, log)
    ensures IsNode(leaves, elems, log, x)
    decreases |log|
  {
    if log != [] {
      var k := |log| - 1;
      if x != elems + k {
        RootIsNode(leaves, elems, log[..k], x);
      }
    }
  }

  function Fibonacci(k: nat): (n: nat)
    ensures n >= 1
  {
    if k == 0 then 1 else if k == 1 then 2 else Fibonacci(k - 1) + Fibonacci(k - 2)
  }

  lemma {:induction false} FibonacciGrows(j: nat, k: nat)
    requires j <= k
    ensures Fibonacci(j) <= Fibonacci(k)
    decreases k
  {
    if j < k {
      FibonacciGrows(j, k - 1);
    }
  }

  lemma FibonacciLarge()
    ensures Fibonacci(23) == 75025
  {
    assert Fibonacci(6) == 21 && Fibonacci(7) == 34;
    assert Fibonacci(11) == 233 && Fibonacci(12) == 377;
    assert Fibonacci(16) == 2584 && Fibonacci(17) == 4181;
    assert Fibonacci(20) == 17711 && Fibonacci(21) == 28657;
  }

  /** The weight of a node is at least the Fibonacci number of its depth. */
  lemma {:induction false} NodeHeavy(leaves: multiset<nat>, fc: seq<nat>, elems: nat, log: Log, d: seq<nat>, x: nat)
    requires Merges(leaves, fc, elems, log) && Depths(d, leaves, elems, log) && IsNode(leaves, elems, log, x)
    requires forall y | y in leaves :: y < |fc| && fc[y] >= 1
    ensures x < |fc| && Fibonacci(d[x]) <= fc[x]
    decreases x
  {
    hide Merges, Forest, Operand, Distinct, Depths;
    DepthFacts(d, leaves, elems, log, x);
    if x >= elems && x !in leaves {
      var i := x - elems;
      SonsAre(leaves, fc, elems, log, d, i);
      NodeHeavy(leaves, fc, elems, log, d, log[i].0);
      NodeHeavy(leaves, fc, elems, log, d, log[i].1);
      if d[x] >= 2 {
        var c := GrandSon(leaves, fc, elems, log, d, i);
        NodeHeavy(leaves, fc, elems, log, d, c);
      }
    }
  }

  lemma DepthFacts(d: seq<nat>, leaves: multiset<nat>, elems: nat, log: Log, x: nat)
    requires Depths(d, leaves, elems, log) && IsNode(leaves, elems, log, x)
    ensures x < |d| && elems + |log| <= |d|
    ensures x in leaves ==> d[x] == 0 && x < elems
    ensures x !in leaves ==> DepthAt(d, elems, log, x - elems)
  {
  }

  /** The sons of a merge are nodes, and their father weighs as much as both. */
  lemma {:induction false} SonsAre(leaves: multiset<nat>, fc: seq<nat>, elems: nat, log: Log, d: seq<nat>, i: nat)
    requires Merges(leaves, fc, elems, log) && Depths(d, leaves, elems, log) && i < |log|
    ensures var a, b := log[i].0, log[i].1;
            && a < elems + i && b < elems + i && elems + i < |fc| && fc[elems + i] == fc[a] + fc[b]
            && IsNode(leaves, elems, log, a) && IsNode(leaves, elems, log, b)
  {
    hide Merges, Forest, Distinct;
    MergesPrefix(leaves, fc, elems, log, i);
    var f := Forest(leaves, elems, log[..i]);
    MergeableNodes(f, fc, log[i].0, log[i].1, elems + i);
    RootIsNode(leaves, elems, log[..i], log[i].0);
    RootIsNode(leaves, elems, log[..i], log[i].1);
  }

  /** A node two levels below a merge, which was merged before and weighs no more than either son. */
  lemma {:induction false} GrandSon(leaves: multiset<nat>, fc: seq<nat>, elems: nat, log: Log, d: seq<nat>, i: nat)
    returns (c: nat)
    requires Merges(leaves, fc, elems, log) && Depths(d, leaves, elems, log) && i < |log| && d[elems + i] >= 2
    ensures c < elems + i && IsNode(leaves, elems, log, c) && c < |d| && d[c] == d[elems + i] - 2
    ensures c < |fc| && log[i].0 < |fc| && log[i].1 < |fc| && fc[c] <= fc[log[i].0] && fc[c] <= fc[log[i].1]
  {
    hide Merges, Forest, Distinct;
    assert DepthAt(d, elems, log, i);
    SonsAre(leaves, fc, elems, log, d, i);
    var s := if d[log[i].0] == d[elems + i] - 1 then log[i].0 else log[i].1;
    assert s !in leaves;
    var j := s - elems;
    assert DepthAt(d, elems, log, j);
    SonsAre(leaves, fc, elems, log, d, j);
    var o := if d[log[j].0] == d[s] - 1 then 2 * j else 2 * j + 1;
    c := Operand(log, o);
    OperandsSorted(leaves, fc, elems, log, o, 2 * i);
    OperandsSorted(leaves, fc, elems, log, o, 2 * i + 1);
  }

  /** No depth outgrows 8 bits. */
  lemma {:induction false} DepthFits(leaves: multiset<nat>, fc: seq<nat>, elems: nat, log: Log, d: seq<nat>, x: nat)
    requires Merges(leaves, fc, elems, log) && Depths(d, leaves, elems, log) && Light(leaves, fc, elems, log)
    requires x in Forest(leaves, elems, log)
    ensures x < |d| && d[x] < 23
  {
    hide Merges, MSum, Distinct;
    RootIsNode(leaves, elems, log, x);
    NodeHeavy(leaves, fc, elems, log, d, x);
    DepthFacts(d, leaves, elems, log, x);
    MSumRemove(Forest(leaves, elems, log), fc, x);
    if d[x] >= 23 {
      FibonacciGrows(23, d[x]);
      FibonacciLarge();
    }
  }

  /** The frequency of a new father fits 16 bits, and the tree stays light. */
  lemma {:induction false} FatherFits(leaves: multiset<nat>, fc: seq<nat>, elems: nat, log: Log, n: nat, m: nat)
    requires Light(leaves, fc, elems, log) && elems + |log| < |fc|
    requires n in Forest(leaves, elems, log) && m in Forest(leaves, elems, log) - multiset{n}
    ensures n < |fc| && m < |fc| && fc[n] + fc[m] <= 0xffff
  {
    hide MSum, Forest;
    var f := Forest(leaves, elems, log);
    MSumRemove(f, fc, n);
    MSumRemove(f - multiset{n}, fc, m);
  }

  lemma {:induction false} LightStays(leaves: multiset<nat>, fc: seq<nat>, fc': seq<nat>, elems: nat, log: Log,
                                      n: nat, m: nat)
    requires Light(leaves, fc, elems, log) && elems + |log| < |fc| && elems + |log| !in Forest(leaves, elems, log)
    requires n in Forest(leaves, elems, log) && m in Forest(leaves, elems, log) - multiset{n} && n < |fc| && m < |fc|
    requires fc' == fc[elems + |log| := fc[n] + fc[m]] && forall x | x in leaves :: x < elems
    requires Forest(leaves, elems, log + [(n, m)]) == Merged(Forest(leaves, elems, log), n, m, elems + |log|)
    ensures Light(leaves, fc', elems, log + [(n, m)])
  {
    hide MSum, Forest;
    var f, p := Forest(leaves, elems, log), elems + |log|;
    MSumCongruent(f, fc, fc');
    MSumMerge(f, n, m, p, fc');
    assert m in f;
  }

  lemma LeavesBelow(d: seq<nat>, leaves: multiset<nat>, elems: nat, log: Log)
    requires Depths(d, leaves, elems, log)
    ensures forall x | x in leaves :: x < elems
  {
  }

  lemma DepthsStay(d: seq<nat>, d': seq<nat>, leaves: multiset<nat>, elems: nat, log: Log, n: nat, m: nat)
    requires Depths(d, leaves, elems, log) && elems + |log| < |d| && n < elems + |log| && m < elems + |log|
    requires d' == d[elems + |log| := 1 + Higher(d[n], d[m])]
    ensures Depths(d', leaves, elems, log + [(n, m)])
  {
    var log' := log + [(n, m)];
    forall i | 0 <= i < |log'|
      ensures DepthAt(d', elems, log', i)
    {
      if i < |log| {
        assert DepthAt(d, elems, log, i) && log'[i] == log[i];
      }
    }
  }

  lemma {:induction false} LowestStays(leaves: multiset<nat>, fc: seq<nat>, fc': seq<nat>, d: seq<nat>, d': seq<nat>,
                                       elems: nat, log: Log, n: nat, m: nat)
    requires Merges(leaves, fc, elems, log) && Lowest(leaves, fc, d, elems, log)
    requires LeastTwo(Forest(leaves, elems, log), fc, d, n, m) && elems + |log| < |fc| && elems + |log| < |d|
    requires |fc'| == |fc| && fc' == fc[elems + |log| := fc'[elems + |log|]]
    requires |d'| == |d| && d' == d[elems + |log| := d'[elems + |log|]]
    ensures Lowest(leaves, fc', d', elems, log + [(n, m)])
  {
    hide Merges, Forest, Least, Distinct;
    var log' := log + [(n, m)];
    forall i | 0 <= i < |log'| ensures LeastAt(leaves, fc', d', elems, log', i) {
      assert log'[..i] == log[..i];
      MergesPrefix(leaves, fc, elems, log, i);
      ForestShape(leaves, fc, elems, log[..i]);
      if i < |log| {
        assert LeastAt(leaves, fc, d, elems, log, i) && log'[i] == log[i];
      } else {
        assert log[..i] == log;
      }
      var f := Forest(leaves, elems, log[..i]);
      LeastFrame(f, fc, fc', d, d', log'[i].0, elems + |log|);
      LeastFrame(f - multiset{log'[i].0}, fc, fc', d, d', log'[i].1, elems + |log|);
    }
  }

  lemma LeastFrame(f: multiset<nat>, fc: seq<nat>, fc': seq<nat>, d: seq<nat>, d': seq<nat>, n: nat, p: nat)
    requires Least(f, fc, d, n) && p < |fc| && p < |d| && (forall x | x in f :: x < p)
    requires |fc'| == |fc| && fc' == fc[p := fc'[p]] && |d'| == |d| && d' == d[p := d'[p]]
    ensures Least(f, fc', d', n)
  {
  }
}
