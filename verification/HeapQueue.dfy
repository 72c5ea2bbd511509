/** The heap in which the compressor keeps the roots still to be combined
    (pqdownheap and the pqremove macro). */
module HeapQueue {

  /** ct_data. Each field is a union in the source: fc is the frequency and
      later the code; dl is the father node and later the code length. */
  datatype CtData = CtData(fc: nat, dl: nat)

  /** The `smaller` macro. */
  predicate Smaller(tree: seq<CtData>, depth: seq<nat>, n: nat, m: nat)
    requires n < |tree| && m < |tree| && n < |depth| && m < |depth|
  {
    tree[n].fc < tree[m].fc || (tree[n].fc == tree[m].fc && depth[n] <= depth[m])
  }

  predicate SmallerNow(tree: array<CtData>, depth: array<nat>, n: nat, m: nat)
    requires n < tree.Length && m < tree.Length && n < depth.Length && m < depth.Length
    reads tree, depth
    ensures SmallerNow(tree, depth, n, m) == Smaller(tree[..], depth[..], n, m)
  {
    tree[n].fc < tree[m].fc || (tree[n].fc == tree[m].fc && depth[n] <= depth[m])
  }

  /** The numbers in heap[1..len] name nodes. */
  ghost predicate Nodes(heap: seq<nat>, len: nat, bound: nat) {
    len < |heap| && forall i :: 1 <= i <= len ==> heap[i] < bound
  }

  /** Every father from position k on is no larger than its sons. */
  ghost predicate Ordered(heap: seq<nat>, len: nat, k: nat, tree: seq<CtData>, depth: seq<nat>)
    requires Nodes(heap, len, |tree|) && Nodes(heap, len, |depth|)
  {
    forall c {:trigger heap[c]} :: 2 <= c <= len && k <= c / 2 ==> Smaller(tree, depth, heap[c / 2], heap[c])
  }

  lemma {:induction false} RootIsSmallest(heap: seq<nat>, len: nat, i: nat, tree: seq<CtData>, depth: seq<nat>)
    requires Nodes(heap, len, |tree|) && Nodes(heap, len, |depth|)
    requires Ordered(heap, len, 1, tree, depth) && 1 <= i <= len
    ensures Smaller(tree, depth, heap[1], heap[i])
  {
    if i > 1 {
      RootIsSmallest(heap, len, i / 2, tree, depth);
    }
  }

  ghost predicate SameElements(a: seq<nat>, b: seq<nat>, len: nat) {
    len < |a| && len < |b| && multiset(a[1..len + 1]) == multiset(b[1..len + 1])
  }

  lemma SwapKeepsElements(a: seq<nat>, len: nat, i: nat, j: nat)
    requires 1 <= i <= len < |a| && 1 <= j <= len
    ensures SameElements(a, a[i := a[j]][j := a[i]], len)
  {
    var s := a[1..len + 1];
    var t := s[i - 1 := s[j - 1]][j - 1 := s[i - 1]];
    assert a[i := a[j]][j := a[i]][1..len + 1] == t;
    assert multiset(t) == multiset(s);
  }

  /** What the loop of pqdownheap keeps: with v put in the hole at k, only the
      sons of k may be out of order. */
  ghost predicate AlmostOrdered(h: seq<nat>, len: nat, k0: nat, k: nat, tree: seq<CtData>, depth: seq<nat>)
    requires Nodes(h, len, |tree|) && Nodes(h, len, |depth|)
  {
    && 1 <= k0 <= k <= len
    && (forall c {:trigger h[c]} :: 2 <= c <= len && k0 <= c / 2 != k ==> Smaller(tree, depth, h[c / 2], h[c]))
    && (k > k0 ==> k / 2 >= k0 && forall c {:trigger h[c]} ::
          2 <= c <= len && c / 2 == k ==> Smaller(tree, depth, h[k / 2], h[c]))
  }

  /** One exchange moves the hole from k to its smaller son j. */
  lemma ExchangeDown(h: seq<nat>, len: nat, k0: nat, k: nat, j: nat, tree: seq<CtData>, depth: seq<nat>)
    requires Nodes(h, len, |tree|) && Nodes(h, len, |depth|)
    requires AlmostOrdered(h, len, k0, k, tree, depth)
    requires j <= len && j / 2 == k
    requires forall c {:trigger h[c]} :: 2 <= c <= len && c / 2 == k ==> Smaller(tree, depth, h[j], h[c])
    requires !Smaller(tree, depth, h[k], h[j])
    ensures AlmostOrdered(h[k := h[j]][j := h[k]], len, k0, j, tree, depth)
  {
    var g := h[k := h[j]][j := h[k]];
    forall c {:trigger g[c]} | 2 <= c <= len && k0 <= c / 2 != j
      ensures Smaller(tree, depth, g[c / 2], g[c])
    {
      if c != j && c / 2 != k && c != k {
        assert g[c] == h[c] && g[c / 2] == h[c / 2];
      } else if c == k {
        assert g[c] == h[j] && g[c / 2] == h[k / 2];
      }
    }
    forall c {:trigger g[c]} | 2 <= c <= len && c / 2 == j
      ensures Smaller(tree, depth, g[j / 2], g[c])
    {
      assert g[c] == h[c];
    }
  }

  lemma HoleCloses(h: seq<nat>, len: nat, k0: nat, k: nat, tree: seq<CtData>, depth: seq<nat>)
    requires Nodes(h, len, |tree|) && Nodes(h, len, |depth|)
    requires AlmostOrdered(h, len, k0, k, tree, depth)
    requires forall c {:trigger h[c]} :: 2 <= c <= len && c / 2 == k ==> Smaller(tree, depth, h[k], h[c])
    ensures Ordered(h, len, k0, tree, depth)
  {
  }

  /** The son the loop picks is the smaller of the two. */
  lemma SmallerSon(h: seq<nat>, len: nat, k: nat, j: nat, tree: seq<CtData>, depth: seq<nat>)
    requires Nodes(h, len, |tree|) && Nodes(h, len, |depth|)
    requires 1 <= k && 2 * k <= len
    requires j == if 2 * k < len && Smaller(tree, depth, h[2 * k + 1], h[2 * k]) then 2 * k + 1 else 2 * k
    ensures j / 2 == k && j <= len
    ensures forall c {:trigger h[c]} :: 2 <= c <= len && c / 2 == k ==> Smaller(tree, depth, h[j], h[c])
  {
    forall c {:trigger h[c]} | 2 <= c <= len && c / 2 == k
      ensures Smaller(tree, depth, h[j], h[c])
    {
      assert c == 2 * k || c == 2 * k + 1;
    }
  }

  /** The loop invariant of pqdownheap, about h, the heap with v put in the hole. */
  ghost predicate Sifting(before: seq<nat>, h: seq<nat>, len: nat, k0: nat, k: nat, tree: seq<CtData>, depth: seq<nat>)
  {
    && |h| == |before|
    && Nodes(h, len, |tree|) && Nodes(h, len, |depth|)
    && AlmostOrdered(h, len, k0, k, tree, depth)
    && SameElements(before, h, len)
    && SameOutside(before, h, len, k0)
  }

  ghost predicate SameOutside(before: seq<nat>, h: seq<nat>, len: nat, k0: nat) {
    && |h| == |before|
    && forall i {:trigger h[i]} :: 0 <= i < |h| && (i < k0 || i > len) ==> h[i] == before[i]
  }

  lemma SiftStart(h: seq<nat>, len: nat, k0: nat, tree: seq<CtData>, depth: seq<nat>)
    requires Nodes(h, len, |tree|) && Nodes(h, len, |depth|)
    requires 1 <= k0 <= len && Ordered(h, len, k0 + 1, tree, depth)
    ensures Sifting(h, h, len, k0, k0, tree, depth)
  {
  }

  lemma SiftStep(before: seq<nat>, h: seq<nat>, len: nat, k0: nat, k: nat, j: nat, tree: seq<CtData>, depth: seq<nat>)
    requires Nodes(h, len, |tree|) && Nodes(h, len, |depth|)
    requires Sifting(before, h, len, k0, k, tree, depth)
    requires 2 * k <= len
    requires j == if 2 * k < len && Smaller(tree, depth, h[2 * k + 1], h[2 * k]) then 2 * k + 1 else 2 * k
    requires !Smaller(tree, depth, h[k], h[j])
    ensures Sifting(before, h[k := h[j]][j := h[k]], len, k0, j, tree, depth)
    ensures j / 2 == k && j <= len
    ensures Nodes(h[k := h[j]][j := h[k]], len, |tree|) && Nodes(h[k := h[j]][j := h[k]], len, |depth|)
  {
    SmallerSon(h, len, k, j, tree, depth);
    ExchangeDown(h, len, k0, k, j, tree, depth);
    SwapKeepsElements(h, len, k, j);
  }

  lemma SiftDone(before: seq<nat>, h: seq<nat>, len: nat, k0: nat, k: nat, tree: seq<CtData>, depth: seq<nat>)
    requires Nodes(h, len, |tree|) && Nodes(h, len, |depth|)
    requires Sifting(before, h, len, k0, k, tree, depth)
    requires 2 * k > len
          || (var j := if 2 * k < len && Smaller(tree, depth, h[2 * k + 1], h[2 * k]) then 2 * k + 1 else 2 * k;
              Smaller(tree, depth, h[k], h[j]))
    ensures Ordered(h, len, k0, tree, depth)
    ensures SameElements(before, h, len) && SameOutside(before, h, len, k0)
  {
    if 2 * k <= len {
      var j := if 2 * k < len && Smaller(tree, depth, h[2 * k + 1], h[2 * k]) then 2 * k + 1 else 2 * k;
      SmallerSon(h, len, k, j, tree, depth);
    }
    HoleCloses(h, len, k0, k, tree, depth);
  }

  /** pqdownheap */
  method DownHeap(heap: array<nat>, len: nat, k: nat, tree: array<CtData>, depth: array<nat>)
    requires heap != depth
    requires Nodes(heap[..], len, tree.Length) && Nodes(heap[..], len, depth.Length)
    requires 1 <= k <= len && Ordered(heap[..], len, k + 1, tree[..], depth[..])
    modifies heap
    ensures Nodes(heap[..], len, tree.Length) && Nodes(heap[..], len, depth.Length)
    ensures Ordered(heap[..], len, k, tree[..], depth[..])
    ensures SameElements(old(heap[..]), heap[..], len)
    ensures SameOutside(old(heap[..]), heap[..], len, k)
  {
    hide Sifting, Ordered, SameElements, SameOutside, Smaller, SmallerNow, AlmostOrdered;
    ghost var before, ts, ds := heap[..], tree[..], depth[..];
    var v := heap[k];
    var hole := k;
    var j := 2 * k;
    ghost var h := before;
    SiftStart(before, len, k, ts, ds);
    while j <= len
      invariant 1 <= hole <= len && j == 2 * hole
      invariant Nodes(h, len, |ts|) && Nodes(h, len, |ds|)
      invariant Sifting(before, h, len, k, hole, ts, ds)
      invariant |h| == heap.Length && h[hole] == v < tree.Length && v < depth.Length
      invariant forall i {:trigger h[i]} :: 0 <= i < |h| && i != hole ==> heap[i] == h[i]
      decreases len - hole
    {
      assert heap[j] == h[j] && (j < len ==> heap[j + 1] == h[j + 1]);
      if j < len && SmallerNow(tree, depth, heap[j + 1], heap[j]) {
        j := j + 1;
      }
      var son := heap[j];
      if SmallerNow(tree, depth, v, son) {
        SiftDone(before, h, len, k, hole, ts, ds);
        break;
      }
      SiftStep(before, h, len, k, hole, j, ts, ds);
      h := h[hole := h[j]][j := h[hole]];
      heap[hole] := son;
      hole := j;
      j := 2 * j;
    }
    if 2 * hole > len {
      SiftDone(before, h, len, k, hole, ts, ds);
    }
    heap[hole] := v;
    assert heap[..] == h;
    assert tree[..] == ts && depth[..] == ds;
  }
}
