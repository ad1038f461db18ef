/** The heap from which build_tree takes the node of least frequency. */
module PriorityHeap {
  import opened Bits

  /** SMALLER: by frequency, then by the depth of the subtree. */
  predicate Smaller(fc: seq<nat>, depth: seq<nat>, n: nat, m: nat)
    requires n < |fc| && m < |fc| && n < |depth| && m < |depth|
  {
    fc[n] < fc[m] || (fc[n] == fc[m] && depth[n] <= depth[m])
  }

  /** The first `len` places of the heap (from 1) hold nodes of the tree. */
  ghost predicate Nodes(h: seq<nat>, len: nat, fc: seq<nat>, depth: seq<nat>)
  {
    && len < |h|
    && forall i | 1 <= i <= len :: h[i] < |fc| && h[i] < |depth|
  }

  /** Place `i` is not larger than its two sons. */
  ghost predicate Father(h: seq<nat>, len: nat, fc: seq<nat>, depth: seq<nat>, i: nat)
    requires Nodes(h, len, fc, depth) && 1 <= i
  {
    && (2 * i <= len ==> Smaller(fc, depth, h[i], h[2 * i]))
    && (2 * i + 1 <= len ==> Smaller(fc, depth, h[i], h[2 * i + 1]))
  }

  /** Every place from `lo` on is a heap. */
  ghost predicate HeapFrom(h: seq<nat>, len: nat, fc: seq<nat>, depth: seq<nat>, lo: nat)
    requires 1 <= lo
  {
    && Nodes(h, len, fc, depth)
    && forall i | lo <= i <= len :: Father(h, len, fc, depth, i)
  }

  /** The nodes in the heap. */
  ghost function Contents(h: seq<nat>, len: nat): (ms: multiset<nat>)
    requires len < |h|
  {
    multiset(h[1..len + 1])
  }

  lemma {:induction false} RootIsLeast(h: seq<nat>, len: nat, fc: seq<nat>, depth: seq<nat>, j: nat)
    requires HeapFrom(h, len, fc, depth, 1) && 1 <= j <= len
    ensures Smaller(fc, depth, h[1], h[j])
  {
    if j > 1 {
      RootIsLeast(h, len, fc, depth, j / 2);
      assert Father(h, len, fc, depth, j / 2);
    }
  }

  lemma {:induction false} RootLeastOf(h: seq<nat>, len: nat, fc: seq<nat>, depth: seq<nat>)
    requires HeapFrom(h, len, fc, depth, 1)
    ensures forall x | x in Contents(h, len) :: x < |fc| && x < |depth| && Smaller(fc, depth, h[1], x)
  {
    forall x | x in Contents(h, len) ensures x < |fc| && x < |depth| && Smaller(fc, depth, h[1], x) {
      assert x in h[1..len + 1];
      var j :| 0 <= j < len && h[1..len + 1][j] == x;
      RootIsLeast(h, len, fc, depth, j + 1);
    }
  }

  lemma MultisetUpdate(s: seq<nat>, i: nat, v: nat)
    requires i < |s|
    ensures multiset(s[i := v]) == multiset(s) - multiset{s[i]} + multiset{v}
  {
  }

  /** Replacing the node at place `i`. */
  lemma {:induction false} ContentsUpdate(h: seq<nat>, len: nat, i: nat, v: nat)
    requires 1 <= i <= len < |h|
    ensures Contents(h[i := v], len) == Contents(h, len) - multiset{h[i]} + multiset{v}
  {
    assert h[i := v][1..len + 1] == h[1..len + 1][i - 1 := v];
    MultisetUpdate(h[1..len + 1], i - 1, v);
  }

  /** The node that comes up and the hole that goes down: nothing is lost. */
  lemma {:induction false} ContentsMove(h: seq<nat>, len: nat, k: nat, j: nat, v: nat)
    requires 1 <= k <= len < |h| && 1 <= j <= len && j != k
    ensures Contents(h[k := h[j]][j := v], len) == Contents(h[k := v], len)
  {
    ContentsUpdate(h, len, k, h[j]);
    ContentsUpdate(h[k := h[j]], len, j, v);
    ContentsUpdate(h, len, k, v);
    assert h[k := h[j]][j] == h[j];
    assert h[j] in Contents(h, len) - multiset{h[k]} + multiset{h[j]};
  }

  lemma {:induction false} ContentsRemoveLast(h: seq<nat>, len: nat)
    requires 1 <= len < |h|
    ensures Contents(h, len) == Contents(h, len - 1) + multiset{h[len]}
  {
    assert h[1..len + 1] == h[1..len] + [h[len]];
  }

  /** The state of pqdownheap with `v` in hand: were `v` put at place `k`, only
      that place could be larger than its sons. */
  ghost predicate Sifting(h: seq<nat>, len: nat, fc: seq<nat>, depth: seq<nat>, lo: nat, k: nat, v: nat)
    requires 1 <= lo
  {
    && lo <= k <= len < |h|
    && var full := h[k := v];
    && Nodes(full, len, fc, depth)
    && (forall i | lo <= i <= len && i != k :: Father(full, len, fc, depth, i))
    && (lo <= k / 2 && 2 * k <= len ==> Smaller(fc, depth, full[k / 2], full[2 * k]))
    && (lo <= k / 2 && 2 * k + 1 <= len ==> Smaller(fc, depth, full[k / 2], full[2 * k + 1]))
  }

  /** `j` is the smaller son of `k`. */
  ghost predicate SmallerSon(h: seq<nat>, len: nat, fc: seq<nat>, depth: seq<nat>, k: nat, j: nat)
    requires 1 <= k <= len < |h| && forall i | 1 <= i <= len && i != k :: h[i] < |fc| && h[i] < |depth|
  {
    && (j == 2 * k || j == 2 * k + 1) && j <= len
    && Smaller(fc, depth, h[j], h[2 * k])
    && (2 * k + 1 <= len ==> Smaller(fc, depth, h[j], h[2 * k + 1]))
  }

  lemma SiftingNodes(h: seq<nat>, len: nat, fc: seq<nat>, depth: seq<nat>, lo: nat, k: nat, v: nat)
    requires 1 <= lo && Sifting(h, len, fc, depth, lo, k, v)
    ensures forall i | 1 <= i <= len && i != k :: h[i] < |fc| && h[i] < |depth|
    ensures v < |fc| && v < |depth|
  {
    var full := h[k := v];
    assert forall i | 1 <= i <= len && i != k :: full[i] == h[i];
    assert full[k] == v;
  }

  lemma {:induction false} SiftStep(h: seq<nat>, len: nat, fc: seq<nat>, depth: seq<nat>, lo: nat, k: nat, v: nat,
                                    j: nat)
    requires 1 <= lo && Sifting(h, len, fc, depth, lo, k, v)
    requires forall i | 1 <= i <= len && i != k :: h[i] < |fc| && h[i] < |depth|
    requires v < |fc| && v < |depth|
    requires SmallerSon(h, len, fc, depth, k, j) && !Smaller(fc, depth, v, h[j])
    ensures Sifting(h[k := h[j]], len, fc, depth, lo, j, v)
  {
    var full, moved := h[k := v], h[k := h[j]][j := v];
    forall i | lo <= i <= len && i != j ensures Father(moved, len, fc, depth, i) {
      if i != k {
        assert Father(full, len, fc, depth, i);
        assert 2 * i != j && 2 * i + 1 != j;
      }
    }
    assert Father(full, len, fc, depth, j);
  }

  lemma {:induction false} SiftDone(h: seq<nat>, len: nat, fc: seq<nat>, depth: seq<nat>, lo: nat, k: nat, v: nat)
    requires 1 <= lo && Sifting(h, len, fc, depth, lo, k, v)
    requires Father(h[k := v], len, fc, depth, k)
    ensures HeapFrom(h[k := v], len, fc, depth, lo)
  {
  }

  /** pqdownheap: restores the heap by moving the node at place `k0` down. */
  method PqDownHeap(heap: array<nat>, len: nat, fc: array<ush>, depth: array<byte>, k0: nat)
    requires heap as object != fc && heap as object != depth
    requires 1 <= k0 <= len < heap.Length
    requires HeapFrom(heap[..], len, fc[..], depth[..], k0 + 1)
    modifies heap
    ensures HeapFrom(heap[..], len, fc[..], depth[..], k0)
    ensures Contents(heap[..], len) == old(Contents(heap[..], len))
    ensures forall i | 0 <= i < heap.Length && !(k0 <= i <= len) :: heap[i] == old(heap[i])
  {
    hide HeapFrom, Sifting, Contents, Father;
    var k, v := k0, heap[k0];
    var j := 2 * k;
    ghost var f, d := fc[..], depth[..];
    SiftStart(heap[..], len, f, d, k0);
    while j <= len
      invariant k0 <= k <= len && j == 2 * k
      invariant Sifting(heap[..], len, f, d, k0, k, v)
      invariant Contents(heap[..][k := v], len) == old(Contents(heap[..], len))
      invariant forall i | 0 <= i < heap.Length && !(k0 <= i <= len) :: heap[i] == old(heap[i])
    {
      SiftingNodes(heap[..], len, f, d, k0, k, v);
      if j < len && Smaller(fc[..], depth[..], heap[j + 1], heap[j]) {
        j := j + 1;
      }
      if Smaller(fc[..], depth[..], v, heap[j]) {
        SiftStop(heap[..], len, f, d, k0, k, v, j);
        break;
      }
      SiftStep(heap[..], len, f, d, k0, k, v, j);
      ContentsMove(heap[..], len, k, j, v);
      ghost var before := heap[..];
      heap[k] := heap[j];
      assert heap[..] == before[k := before[j]];
      k := j;
      j := 2 * j;
    }
    if j > len {
      SiftBottom(heap[..], len, f, d, k0, k, v);
    }
    ghost var before := heap[..];
    heap[k] := v;
    assert heap[..] == before[k := v];
  }

  lemma SiftStart(h: seq<nat>, len: nat, fc: seq<nat>, depth: seq<nat>, k: nat)
    requires 1 <= k <= len < |h| && HeapFrom(h, len, fc, depth, k + 1)
    ensures Sifting(h, len, fc, depth, k, k, h[k])
    ensures h[k := h[k]] == h
  {
    assert h[k := h[k]] == h;
  }

  /** Neither son of `k` is smaller than `v`. */
  lemma {:induction false} SiftStop(h: seq<nat>, len: nat, fc: seq<nat>, depth: seq<nat>, lo: nat, k: nat, v: nat,
                                    j: nat)
    requires 1 <= lo && Sifting(h, len, fc, depth, lo, k, v)
    requires forall i | 1 <= i <= len && i != k :: h[i] < |fc| && h[i] < |depth|
    requires v < |fc| && v < |depth|
    requires SmallerSon(h, len, fc, depth, k, j) && Smaller(fc, depth, v, h[j])
    ensures HeapFrom(h[k := v], len, fc, depth, lo)
  {
    assert Father(h[k := v], len, fc, depth, k);
    SiftDone(h, len, fc, depth, lo, k, v);
  }

  lemma {:induction false} SiftBottom(h: seq<nat>, len: nat, fc: seq<nat>, depth: seq<nat>, lo: nat, k: nat, v: nat)
    requires 1 <= lo && Sifting(h, len, fc, depth, lo, k, v) && 2 * k > len
    ensures HeapFrom(h[k := v], len, fc, depth, lo)
  {
    assert Father(h[k := v], len, fc, depth, k);
    SiftDone(h, len, fc, depth, lo, k, v);
  }
}
