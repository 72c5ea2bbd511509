/** The loop of build_tree that combines the two least frequent roots until one is left. */
module JoinLoop {
  import opened BitStrings
  import opened HeapQueue
  import opened Sums
  import opened CodeLengths
  import opened GenBitlen
  import opened Optimality
  import opened Forest
  import opened BuildTree

  /** What holds after t joins. */
  ghost predicate Joining(heap: seq<nat>, tree: seq<CtData>, depth: seq<nat>, e: nat, leaves: nat, leafs: set<nat>,
                          t: nat, act: set<nat>) {
    && |heap| == HEAP_SIZE && |depth| == HEAP_SIZE && t < leaves <= e <= 286
    && HeapHas(heap, leaves - t, act)
    && Nodes(heap, leaves - t, |tree|) && Nodes(heap, leaves - t, |depth|)
    && Ordered(heap, leaves - t, 1, tree, depth)
    && e + leaves - 1 <= |tree|
    && IsForest(heap[HEAP_SIZE - 2 * t..], act, tree, e, leaves, t, leafs)
    && IsSorted(heap[HEAP_SIZE - 2 * t..], act, FreqOf(tree), e, t)
    && Total(FreqOf(tree), act) <= MAX_TOTAL
  }

  ghost predicate Lightest(n: nat, act: set<nat>, tree: seq<CtData>) {
    n in act && n < |tree| && forall x {:trigger x in act} :: x in act ==> x < |tree| && tree[n].fc <= tree[x].fc
  }

  lemma SameRoots(a: seq<nat>, b: seq<nat>, len: nat, act: set<nat>)
    requires HeapHas(a, len, act) && SameElements(a, b, len)
    ensures HeapHas(b, len, act)
  {
  }

  /** With the new father on top, only the top may be out of order. */
  lemma AfterJoin(heap: seq<nat>, len: nat, tree: seq<CtData>, depth: seq<nat>, act: set<nat>, n: nat, node: nat,
                  d: nat, h: seq<nat>)
    requires HeapHas(heap, len, act) && len >= 1 && Nodes(heap, len, |tree|) && Nodes(heap, len, |depth|)
    requires Ordered(heap, len, 1, tree, depth)
    requires n < |tree| && node < |tree| && node < |depth| && n !in act && node !in act && node != n
    requires |h| == |heap| && h[1] == node && forall i {:trigger h[i]} :: 2 <= i <= len ==> h[i] == heap[i]
    ensures heap[1] in act && heap[1] < |tree|
    ensures HeapHas(h, len, act - {heap[1]} + {node})
    ensures var tree1, depth1 := Join(tree, n, heap[1], node), depth[node := d];
            Nodes(h, len, |tree1|) && Nodes(h, len, |depth1|) && Ordered(h, len, 2, tree1, depth1)
  {
    HeapMembers(heap, len, act);
    ReplaceTop(heap, len, act, node);
    assert h[1..len + 1] == heap[1 := node][1..len + 1];
    hide HeapHas;
    forall i {:trigger h[i]} | 2 <= i <= len
      ensures h[i] == heap[i] != node
    {
      assert heap[i] in act;
    }
    StillOrdered(heap, len, tree, depth, n, node, d, h);
  }

  lemma StillOrdered(heap: seq<nat>, len: nat, tree: seq<CtData>, depth: seq<nat>, n: nat, node: nat, d: nat,
                     h: seq<nat>)
    requires len >= 1 && Nodes(heap, len, |tree|) && Nodes(heap, len, |depth|)
    requires Ordered(heap, len, 1, tree, depth)
    requires n < |tree| && node < |tree| && node < |depth| && heap[1] < |tree|
    requires |h| == |heap| && h[1] == node && forall i {:trigger h[i]} :: 2 <= i <= len ==> h[i] == heap[i] != node
    ensures var tree1, depth1 := Join(tree, n, heap[1], node), depth[node := d];
            Nodes(h, len, |tree1|) && Nodes(h, len, |depth1|) && Ordered(h, len, 2, tree1, depth1)
  {
    var tree1, depth1 := Join(tree, n, heap[1], node), depth[node := d];
    forall i {:trigger h[i]} | 1 <= i <= len
      ensures h[i] < |tree1| && h[i] < |depth1|
    {
      assert i >= 2 ==> h[i] == heap[i];
    }
    forall c {:trigger h[c]} | 2 <= c <= len && 2 <= c / 2
      ensures Smaller(tree1, depth1, h[c / 2], h[c])
    {
      assert h[c / 2] == heap[c / 2] && h[c] == heap[c];
      assert Smaller(tree, depth, heap[c / 2], heap[c]);
    }
  }

  /** One whole round of the loop, on values. */
  lemma JoinedOnce(heap: seq<nat>, tree: seq<CtData>, depth: seq<nat>, e: nat, leaves: nat, leafs: set<nat>, t: nat,
                   act: set<nat>, n: nat, m: nat, h: seq<nat>, tree1: seq<CtData>, depth1: seq<nat>)
    requires Joining(heap, tree, depth, e, leaves, leafs, t, act) && t + 1 < leaves
    requires Lightest(n, act, tree) && Lightest(m, act - {n}, tree)
    requires tree1 == Join(tree, n, m, e + t) && |h| == |heap| && |depth1| == |depth|
    requires HeapHas(h, leaves - t - 1, act - {n, m} + {e + t})
    requires Nodes(h, leaves - t - 1, |tree1|) && Nodes(h, leaves - t - 1, |depth1|)
    requires Ordered(h, leaves - t - 1, 1, tree1, depth1)
    requires h[HEAP_SIZE - 2 * t - 2..] == [m, n] + heap[HEAP_SIZE - 2 * t..]
    ensures e + t !in act && e + t < |tree| && tree[n].fc + tree[m].fc <= MAX_TOTAL
    ensures FreqOf(tree1) == FreqOf(tree)[e + t := tree[n].fc + tree[m].fc]
    ensures Joining(h, tree1, depth1, e, leaves, leafs, t + 1, act - {n, m} + {e + t})
  {
    hide Join, Ordered, Smaller, HeapHas, Dot, IsForest, IsSorted, Total;
    var done, fc := heap[HEAP_SIZE - 2 * t..], FreqOf(tree);
    ForestStep(done, act, tree, e, leaves, t, leafs, n, m);
    TwoRoots(done, act, tree, e, leaves, t, leafs, n, m);
    TotalStep(fc, act, n, m, e + t);
    JoinSize(tree, n, m, e + t);
    forall x | x in act && x != n
      ensures fc[m] <= fc[x]
    {
      assert x in act - {n};
    }
    SortedStep(done, act, fc, e, t, n, m);
  }

  // ----- the cost of what has been joined -----

  ghost function FreqsOf(done: seq<nat>, fc: seq<nat>): (v: seq<nat>)
    requires forall o {:trigger done[o]} :: 0 <= o < |done| ==> done[o] < |fc|
    ensures |v| == |done|
  {
    seq(|done|, o requires 0 <= o < |done| => fc[done[o]])
  }

  lemma {:induction false} SumConcat(a: seq<nat>, b: seq<nat>)
    ensures Sum(a + b) == Sum(a) + Sum(b)
  {
    if b == [] {
      assert a + b == a;
    } else {
      var k := |b| - 1;
      SumConcat(a, b[..k]);
      assert (a + b)[..|a| + k] == a + b[..k];
    }
  }

  /** No assignment of lengths to the leaves saves more than the joins made so far cost. */
  ghost predicate CheapestSoFar(done: seq<nat>, fc: seq<nat>, leafs: set<nat>, act: set<nat>) {
    && (forall o {:trigger done[o]} :: 0 <= o < |done| ==> done[o] < |fc|)
    && (if |act| >= 2 then Reduces(fc, leafs, act, Sum(FreqsOf(done, fc)))
        else CostsAtLeast(fc, leafs, Sum(FreqsOf(done, fc))))
  }

  lemma ReducesFrame(fc: seq<nat>, act0: set<nat>, act: set<nat>, s: nat, node: nat, x: nat)
    requires Reduces(fc, act0, act, s) && node < |fc| && node !in act0 && node !in act
    ensures Reduces(fc[node := x], act0, act, s)
  {
    var fc' := fc[node := x];
    forall l: Canonical.Lengths, k: nat {:trigger Feasible(l, k, act0)} | |l| == |fc'| && Feasible(l, k, act0)
      ensures exists r: Canonical.Lengths :: |r| == |fc'| && Feasible(r, k, act) && Dot(fc', r) + s <= Dot(fc', l)
    {
      DotSetLeft(fc, l, node, x);
      var r: Canonical.Lengths :| |r| == |fc| && Feasible(r, k, act) && Dot(fc, r) + s <= Dot(fc, l);
      DotSetLeft(fc, r, node, x);
      assert l[node] == 0 && r[node] == 0;
    }
  }

  lemma OneFewer(act: set<nat>, n: nat, m: nat, node: nat)
    requires n in act && m in act && n != m && node !in act
    ensures |act - {n, m} + {node}| == |act| - 1
    ensures act - {n, m} == {} ==> act == {n, m} && |act - {n, m} + {node}| == 1
    ensures act - {n, m} != {} ==> |act - {n, m} + {node}| >= 2
  {
    var rest := act - {n, m};
    assert act == rest + {n, m} && |{n, m}| == 2;
    assert |rest + {node}| == |act| - 1;
  }

  lemma SumOfPair(done: seq<nat>, fc: seq<nat>, n: nat, m: nat, node: nat, x: nat)
    requires forall o {:trigger done[o]} :: 0 <= o < |done| ==> done[o] < |fc|
    requires n < |fc| && m < |fc| && node < |fc| && node != n && node != m && node !in done
    ensures Sum(FreqsOf([m, n] + done, fc[node := x])) == Sum(FreqsOf(done, fc)) + fc[n] + fc[m]
  {
    var fc' := fc[node := x];
    forall o {:trigger done[o]} | 0 <= o < |done|
      ensures fc'[done[o]] == fc[done[o]]
    {
      assert done[o] in done;
    }
    assert FreqsOf([m, n] + done, fc') == [fc[m], fc[n]] + FreqsOf(done, fc);
    SumConcat([fc[m], fc[n]], FreqsOf(done, fc));
    SumTwo(fc[m], fc[n]);
  }

  lemma SumTwo(a: nat, b: nat)
    ensures Sum([a, b]) == a + b
  {
    assert [a, b][..1] == [a] && [a][..0] == [];
    assert Sum([a]) == Sum([a][..0]) + a;
  }

  lemma CheapestStep(done: seq<nat>, fc: seq<nat>, leafs: set<nat>, act: set<nat>, n: nat, m: nat, node: nat)
    requires CheapestSoFar(done, fc, leafs, act) && |act| >= 2
    requires forall x {:trigger x in act} :: x in act ==> x < |fc|
    requires n in act && m in act && n != m && fc[n] <= fc[m]
    requires forall i {:trigger i in act} :: i in act && i != n ==> fc[m] <= fc[i]
    requires node < |fc| && node !in act && node !in leafs && node !in done
    ensures CheapestSoFar([m, n] + done, fc[node := fc[n] + fc[m]], leafs, act - {n, m} + {node})
  {
    hide Reduces, CostsAtLeast, Sum, Feasible, FreqsOf;
    var s, fc' := Sum(FreqsOf(done, fc)), fc[node := fc[n] + fc[m]];
    ReducesFrame(fc, leafs, act, s, node, fc[n] + fc[m]);
    SumOfPair(done, fc, n, m, node, fc[n] + fc[m]);
    OneFewer(act, n, m, node);
    var rest := act - {n, m};
    if rest == {} {
      LastTwo(fc', leafs, act, s, n, m);
    } else {
      var third :| third in rest;
      ReducesMore(fc', leafs, act, s, n, m, node, third);
    }
  }

  lemma BoundsOf(heap: seq<nat>, tree: seq<CtData>, depth: seq<nat>, e: nat, leaves: nat, leafs: set<nat>, t: nat,
                 act: set<nat>)
    requires Joining(heap, tree, depth, e, leaves, leafs, t, act)
    ensures t + 1 < leaves ==> e + t < |tree|
    ensures e + t !in act && e + t < HEAP_SIZE
    ensures forall x {:trigger x in act} :: x in act ==> x < e + t
  {
    var done := heap[HEAP_SIZE - 2 * t..];
    InForest(done, act, tree, e, leaves, t, leafs, e + t);
    forall x {:trigger x in act} | x in act
      ensures x < e + t
    {
      InForest(done, act, tree, e, leaves, t, leafs, x);
    }
  }

  // ----- the loops -----

  /** Establishes sub-heaps of increasing lengths. */
  method Heapify(b: TreeBuilder, tree: array<CtData>, ghost act: set<nat>)
    requires b.Valid() && b.heapLen >= 1 && HeapHas(b.heap[..], b.heapLen, act)
    requires Nodes(b.heap[..], b.heapLen, tree.Length) && Nodes(b.heap[..], b.heapLen, b.depth.Length)
    modifies b.heap
    ensures HeapHas(b.heap[..], b.heapLen, act)
    ensures Nodes(b.heap[..], b.heapLen, tree.Length) && Nodes(b.heap[..], b.heapLen, b.depth.Length)
    ensures Ordered(b.heap[..], b.heapLen, 1, tree[..], b.depth[..])
    ensures tree[..] == old(tree[..]) && b.depth[..] == old(b.depth[..])
  {
    hide HeapHas, SameElements, SameOutside, Smaller;
    ghost var ts, ds := tree[..], b.depth[..];
    var n := b.heapLen / 2;
    while n >= 1
      invariant 0 <= n <= b.heapLen / 2 && tree[..] == ts && b.depth[..] == ds
      invariant HeapHas(b.heap[..], b.heapLen, act)
      invariant Nodes(b.heap[..], b.heapLen, |ts|) && Nodes(b.heap[..], b.heapLen, |ds|)
      invariant Ordered(b.heap[..], b.heapLen, n + 1, ts, ds)
    {
      ghost var before := b.heap[..];
      DownHeap(b.heap, b.heapLen, n, tree, b.depth);
      SameRoots(before, b.heap[..], b.heapLen, act);
      n := n - 1;
    }
  }

  /** The pqremove macro. */
  method PqRemove(b: TreeBuilder, tree: array<CtData>, ghost act: set<nat>) returns (top: nat)
    requires b.Valid() && b.heapLen >= 2 && HeapHas(b.heap[..], b.heapLen, act)
    requires Nodes(b.heap[..], b.heapLen, tree.Length) && Nodes(b.heap[..], b.heapLen, b.depth.Length)
    requires Ordered(b.heap[..], b.heapLen, 1, tree[..], b.depth[..])
    modifies b`heapLen, b.heap
    ensures b.heapLen == old(b.heapLen) - 1 && Lightest(top, act, tree[..])
    ensures HeapHas(b.heap[..], b.heapLen, act - {top})
    ensures Nodes(b.heap[..], b.heapLen, tree.Length) && Nodes(b.heap[..], b.heapLen, b.depth.Length)
    ensures Ordered(b.heap[..], b.heapLen, 1, tree[..], b.depth[..])
    ensures b.heap[old(b.heapLen) + 1..] == old(b.heap[b.heapLen + 1..])
    ensures tree[..] == old(tree[..]) && b.depth[..] == old(b.depth[..])
  {
    hide HeapHas, SameElements, Smaller;
    ghost var before, len := b.heap[..], b.heapLen;
    TopIsLightest(before, len, act, tree[..], b.depth[..]);
    PopTop(before, len, act);
    top := b.heap[1];
    b.heap[1] := b.heap[b.heapLen];
    b.heapLen := b.heapLen - 1;
    ghost var h := b.heap[..];
    assert h == before[1 := before[len]];
    DownHeap(b.heap, b.heapLen, 1, tree, b.depth);
    SameRoots(h, b.heap[..], b.heapLen, act - {top});
  }

  /** Keeps first and second sorted at the back of the heap array and puts their father on top. */
  method HangUnder(b: TreeBuilder, tree: array<CtData>, first: nat, second: nat, node: nat) returns (ghost d: nat)
    requires b.Valid() && b.heapLen + 2 < b.heapMax <= HEAP_SIZE && b.heapLen >= 1
    requires first < tree.Length && second < tree.Length && node < tree.Length
    requires first < HEAP_SIZE && second < HEAP_SIZE && node < HEAP_SIZE
    requires first != second && first != node && second != node
    modifies b`heapMax, b.heap, b.depth, tree
    ensures b.heapMax == old(b.heapMax) - 2
    ensures tree[..] == Join(old(tree[..]), first, second, node)
    ensures b.depth[..] == old(b.depth[..])[node := d]
    ensures b.heap[1] == node && forall i {:trigger b.heap[i]} :: 2 <= i <= b.heapLen ==> b.heap[i] == old(b.heap[i])
    ensures b.heap[b.heapMax..] == [second, first] + old(b.heap[b.heapMax..])
  {
    ghost var ts, ds := tree[..], b.depth[..];
    b.heapMax := b.heapMax - 1;
    b.heap[b.heapMax] := first;
    b.heapMax := b.heapMax - 1;
    b.heap[b.heapMax] := second;
    tree[node] := tree[node].(fc := (tree[first].fc + tree[second].fc) % 0x10000);
    var deeper := (if b.depth[first] >= b.depth[second] then b.depth[first] else b.depth[second]) + 1;
    b.depth[node] := deeper % 256;
    tree[second] := tree[second].(dl := node);
    tree[first] := tree[first].(dl := node);
    b.heap[1] := node;
    d := deeper % 256;
    JoinIs(ts, tree[..], first, second, node);
  }

  /** One round of the loop. */
  method JoinOnce(b: TreeBuilder, tree: array<CtData>, node: nat, ghost e: nat, ghost leaves: nat,
                  ghost leafs: set<nat>, ghost t: nat, ghost act: set<nat>)
    returns (ghost n: nat, ghost m: nat)
    requires b.Valid() && b.heapLen == leaves - t && b.heapMax == HEAP_SIZE - 2 * t && node == e + t
    requires t + 1 < leaves
    requires Joining(b.heap[..], tree[..], b.depth[..], e, leaves, leafs, t, act)
    modifies b, b.heap, b.depth, tree
    ensures b.heapLen == leaves - t - 1 && b.heapMax == HEAP_SIZE - 2 * t - 2
    ensures b.optLen == old(b.optLen) && b.staticLen == old(b.staticLen)
    ensures Lightest(n, act, old(tree[..])) && Lightest(m, act - {n}, old(tree[..]))
    ensures b.heap[b.heapMax..] == [m, n] + old(b.heap[b.heapMax..])
    ensures n < tree.Length && m < tree.Length && node < tree.Length && tree[..] == Join(old(tree[..]), n, m, node)
    ensures Joining(b.heap[..], tree[..], b.depth[..], e, leaves, leafs, t + 1, act - {n, m} + {node})
  {
    hide HeapHas, SameElements, Smaller, IsForest, IsSorted, Total, Join, Ordered;
    ghost var before, ts, ds := b.heap[..], tree[..], b.depth[..];
    ghost var done := before[b.heapMax..];
    BoundsOf(before, ts, ds, e, leaves, leafs, t, act);
    var first := PqRemove(b, tree, act);
    n := first;
    ghost var h2, len := b.heap[..], b.heapLen;
    TopIsLightest(h2, len, act - {n}, ts, ds);
    var second := b.heap[1];
    m := second;
    ghost var d := HangUnder(b, tree, first, second, node);
    ghost var h4 := b.heap[..];
    AfterJoin(h2, len, ts, ds, act - {n}, n, node, d, h4);
    assert act - {n} - {m} + {node} == act - {n, m} + {node};
    DownHeap(b.heap, b.heapLen, 1, tree, b.depth);
    SameRoots(h4, b.heap[..], len, act - {n, m} + {node});
    assert b.heap[b.heapMax..] == h4[b.heapMax..];
    JoinedOnce(before, ts, ds, e, leaves, leafs, t, act, n, m, b.heap[..], tree[..], b.depth[..]);
  }

  lemma JoinIs(ts: seq<CtData>, after: seq<CtData>, n: nat, m: nat, node: nat)
    requires n < |ts| && m < |ts| && node < |ts|
    requires var joined := ts[node := ts[node].(fc := (ts[n].fc + ts[m].fc) % 0x10000)];
             after == joined[m := ts[m].(dl := node)][n := ts[n].(dl := node)]
    requires n != m && node != n && node != m
    ensures after == Join(ts, n, m, node)
  {
  }

  /** What the joins leave alone: the frequencies of symbols, and symbols not in the tree. */
  ghost predicate SymbolsKept(before: seq<CtData>, after: seq<CtData>, e: nat, leafs: set<nat>) {
    && |before| == |after|
    && forall x {:trigger after[x]} :: 0 <= x < e && x < |after| ==>
         after[x].fc == before[x].fc && (x !in leafs ==> after[x] == before[x])
  }

  lemma SymbolsKeptStep(before: seq<CtData>, ts: seq<CtData>, e: nat, leafs: set<nat>, n: nat, m: nat, node: nat)
    requires SymbolsKept(before, ts, e, leafs)
    requires n < |ts| && m < |ts| && e <= node < |ts| && (n < e ==> n in leafs) && (m < e ==> m in leafs)
    ensures SymbolsKept(before, Join(ts, n, m, node), e, leafs)
  {
  }

  lemma CheapestRound(done: seq<nat>, tree: seq<CtData>, leafs: set<nat>, act: set<nat>, n: nat, m: nat, node: nat)
    requires CheapestSoFar(done, FreqOf(tree), leafs, act) && |act| >= 2
    requires Lightest(n, act, tree) && Lightest(m, act - {n}, tree)
    requires node < |tree| && node !in act && node !in leafs && node !in done
    requires FreqOf(Join(tree, n, m, node)) == FreqOf(tree)[node := tree[n].fc + tree[m].fc]
    ensures CheapestSoFar([m, n] + done, FreqOf(Join(tree, n, m, node)), leafs, act - {n, m} + {node})
  {
    hide CheapestSoFar, Join;
    var fc := FreqOf(tree);
    forall i {:trigger i in act} | i in act && i != n
      ensures fc[m] <= fc[i]
    {
      assert i in act - {n};
    }
    assert m in act - {n};
    CheapestStep(done, fc, leafs, act, n, m, node);
  }

  lemma CheapestAtFirst(fc: seq<nat>, leafs: set<nat>)
    requires |leafs| >= 2
    ensures CheapestSoFar([], fc, leafs, leafs)
  {
    ReducesAtFirst(fc, leafs);
    assert FreqsOf([], fc) == [];
  }

  /** After the last join the back of the heap array is the tree. */
  lemma ForestDone(done: seq<nat>, tree: seq<CtData>, e: nat, leaves: nat, leafs: set<nat>, act: set<nat>, root: nat)
    requires leaves >= 2 && IsForest(done, act, tree, e, leaves, leaves - 1, leafs) && root in act
    requires IsSorted(done, act, FreqOf(tree), e, leaves - 1)
    ensures TreeOrder([root] + done, e, leaves)
    ensures StillDads([root] + done, tree, e, leaves, 1)
    ensures Weighted([root] + done, FreqOf(tree), e, leaves)
    ensures forall x {:trigger x in [root] + done} :: x < e ==> (x in [root] + done <==> x in leafs)
  {
    SingleRoot(act, root, e + leaves - 2);
    OrderElements(done, act, tree, e, leaves, leafs, root);
    var order := [root] + done;
    forall o {:trigger order[o]} | 1 <= o < |order|
      ensures order[o] < Dad(e, leaves, o) == tree[order[o]].dl
    {
      assert order[o] == done[o - 1];
    }
    DoneWeighted(done, act, FreqOf(tree), e, leaves, root);
  }

  lemma SingleRoot(act: set<nat>, root: nat, x: nat)
    requires |act| == 1 && root in act && x in act
    ensures root == x && act == {root}
  {
    var rest := act - {root};
    assert act == rest + {root};
    assert |rest| == 0;
  }

  lemma OrderElements(done: seq<nat>, act: set<nat>, tree: seq<CtData>, e: nat, leaves: nat, leafs: set<nat>, root: nat)
    requires leaves >= 2 && IsForest(done, act, tree, e, leaves, leaves - 1, leafs) && act == {root}
    ensures Distinct([root] + done)
    ensures forall x {:trigger x in [root] + done} :: x in [root] + done <==> x in leafs + Internals(e, leaves - 1)
  {
    var order := [root] + done;
    var all := leafs + Internals(e, leaves - 1);
    assert multiset(order) == multiset{root} + multiset(done);
    assert multiset(act) == multiset{root};
    assert multiset(order) == multiset(all);
    DistinctFromMultiset(order, multiset(all));
    forall x {:trigger x in order}
      ensures x in order <==> x in all
    {
      assert x in order <==> multiset(order)[x] > 0;
    }
  }

  lemma DoneWeighted(done: seq<nat>, act: set<nat>, fc: seq<nat>, e: nat, leaves: nat, root: nat)
    requires leaves >= 2 && IsSorted(done, act, fc, e, leaves - 1) && root in act
    ensures Weighted([root] + done, fc, e, leaves)
  {
    var order := [root] + done;
    forall p, q {:trigger order[p], order[q]} | 0 <= p < q < |order|
      ensures fc[order[p]] >= fc[order[q]]
    {
      assert order[q] == done[q - 1];
      if p > 0 {
        assert order[p] == done[p - 1];
      }
    }
    forall x {:trigger LastSon(e, leaves, x)} | e <= x < e + leaves - 1 && x < |fc|
      ensures fc[x] == fc[order[LastSon(e, leaves, x) - 1]] + fc[order[LastSon(e, leaves, x)]]
    {
      assert order[LastSon(e, leaves, x) - 1] == done[LastSon(e, leaves, x) - 2];
      assert order[LastSon(e, leaves, x)] == done[LastSon(e, leaves, x) - 1];
    }
  }

  lemma {:induction false} NodeSumIsSum(order: seq<nat>, fc: seq<nat>, k: nat)
    requires 1 <= k <= |order| && forall o {:trigger order[o]} :: 0 <= o < |order| ==> order[o] < |fc|
    ensures NodeSum(order, fc, k) == Sum(FreqsOf(order[1..k], fc))
  {
    if k > 1 {
      NodeSumIsSum(order, fc, k - 1);
      assert FreqsOf(order[1..k], fc)[..k - 2] == FreqsOf(order[1..k - 1], fc);
    }
  }

  /** The tree stands at the back of the heap array, and no code for its leaves is cheaper. */
  ghost predicate Built(order: seq<nat>, tree: seq<CtData>, e: nat, leaves: nat, leafs: set<nat>) {
    && e + leaves - 1 <= |tree|
    && TreeOrder(order, e, leaves) && StillDads(order, tree, e, leaves, 1)
    && Weighted(order, FreqOf(tree), e, leaves)
    && (forall x {:trigger x in order} :: x < e ==> (x in order <==> x in leafs))
    && CostsAtLeast(FreqOf(tree), leafs, NodeSum(order, FreqOf(tree), |order|))
  }

  lemma BuiltNow(heap: seq<nat>, tree: seq<CtData>, depth: seq<nat>, e: nat, leaves: nat, leafs: set<nat>,
                 act: set<nat>, order: seq<nat>)
    requires leaves >= 2 && Joining(heap, tree, depth, e, leaves, leafs, leaves - 1, act)
    requires order == [heap[1]] + heap[HEAP_SIZE - 2 * (leaves - 1)..]
    requires CheapestSoFar(heap[HEAP_SIZE - 2 * (leaves - 1)..], FreqOf(tree), leafs, act)
    ensures Built(order, tree, e, leaves, leafs)
  {
    hide IsForest, IsSorted, Total, Weighted, StillDads, TreeOrder, CostsAtLeast, Reduces, Sum;
    var done := heap[HEAP_SIZE - 2 * (leaves - 1)..];
    HeapMembers(heap, 1, act);
    ForestDone(done, tree, e, leaves, leafs, act, heap[1]);
    WeightedBounds(order, FreqOf(tree), e, leaves);
    NodeSumIsSum(order, FreqOf(tree), |order|);
    assert order[1..|order|] == done;
  }

  lemma WeightedBounds(order: seq<nat>, fc: seq<nat>, e: nat, leaves: nat)
    requires Weighted(order, fc, e, leaves)
    ensures forall o {:trigger order[o]} :: 0 <= o < |order| ==> order[o] < |fc|
  {
  }

  /** The loop that constructs the Huffman tree, and the root put in front of it. */
  method JoinAll(b: TreeBuilder, tree: array<CtData>, elems: nat, ghost leaves: nat, ghost leafs: set<nat>)
    requires b.Valid() && b.heapLen == leaves >= 2 && b.heapMax == HEAP_SIZE && |leafs| == leaves
    requires Joining(b.heap[..], tree[..], b.depth[..], elems, leaves, leafs, 0, leafs)
    modifies b, b.heap, b.depth, tree
    ensures b.optLen == old(b.optLen) && b.staticLen == old(b.staticLen)
    ensures b.heapMax == HEAP_SIZE - (2 * leaves - 1)
    ensures Built(b.heap[b.heapMax..], tree[..], elems, leaves, leafs)
    ensures SymbolsKept(old(tree[..]), tree[..], elems, leafs)
  {
    hide Joining, CheapestSoFar, SymbolsKept, Join, Lightest;
    var node := elems;
    ghost var t: nat := 0;
    ghost var act := leafs;
    ghost var before, o, s := tree[..], b.optLen, b.staticLen;
    CheapestAtFirst(FreqOf(before), leafs);
    assert b.heap[b.heapMax..] == [];
    assert SymbolsKept(before, before, elems, leafs) by { KeptAtFirst(before, elems, leafs); }
    while b.heapLen >= 2
      invariant t < leaves && b.heapLen == leaves - t && b.heapMax == HEAP_SIZE - 2 * t && node == elems + t
      invariant b.optLen == o && b.staticLen == s
      invariant Joining(b.heap[..], tree[..], b.depth[..], elems, leaves, leafs, t, act)
      invariant CheapestSoFar(b.heap[b.heapMax..], FreqOf(tree[..]), leafs, act)
      invariant SymbolsKept(before, tree[..], elems, leafs)
      decreases leaves - t
    {
      ghost var ts, done := tree[..], b.heap[b.heapMax..];
      BeforeRound(b.heap[..], ts, b.depth[..], elems, leaves, leafs, t, act);
      ghost var n, m := JoinOnce(b, tree, node, elems, leaves, leafs, t, act);
      RoundDone(done, ts, elems, leaves, leafs, t, act, n, m);
      CheapestRound(done, ts, leafs, act, n, m, node);
      SymbolsKeptStep(before, ts, elems, leafs, n, m, node);
      act := act - {n, m} + {node};
      t := t + 1;
      node := node + 1;
    }
    ghost var h := b.heap[..];
    ghost var done := b.heap[b.heapMax..];
    b.heapMax := b.heapMax - 1;
    b.heap[b.heapMax] := b.heap[1];
    assert b.heap[b.heapMax..] == [h[1]] + done;
    BuiltNow(h, tree[..], b.depth[..], elems, leaves, leafs, act, b.heap[b.heapMax..]);
  }

  lemma KeptAtFirst(tree: seq<CtData>, e: nat, leafs: set<nat>)
    ensures SymbolsKept(tree, tree, e, leafs)
  {
  }

  /** The facts about the forest that one round of the loop starts from. */
  lemma BeforeRound(heap: seq<nat>, tree: seq<CtData>, depth: seq<nat>, e: nat, leaves: nat, leafs: set<nat>, t: nat,
                    act: set<nat>)
    requires Joining(heap, tree, depth, e, leaves, leafs, t, act)
    ensures IsForest(heap[HEAP_SIZE - 2 * t..], act, tree, e, leaves, t, leafs)
    ensures Total(FreqOf(tree), act) <= MAX_TOTAL
  {
  }

  lemma RoundDone(done: seq<nat>, tree: seq<CtData>, e: nat, leaves: nat, leafs: set<nat>, t: nat, act: set<nat>,
                  n: nat, m: nat)
    requires IsForest(done, act, tree, e, leaves, t, leafs) && Total(FreqOf(tree), act) <= MAX_TOTAL && t + 1 < leaves
    requires Lightest(n, act, tree) && Lightest(m, act - {n}, tree)
    ensures |act| >= 2 && e + t < |tree| && e + t !in act && e + t !in leafs && e + t !in done
    ensures n < |tree| && m < |tree| && (n < e ==> n in leafs) && (m < e ==> m in leafs)
    ensures FreqOf(Join(tree, n, m, e + t)) == FreqOf(tree)[e + t := tree[n].fc + tree[m].fc]
  {
    assert m in act - {n};
    TwoRoots(done, act, tree, e, leaves, t, leafs, n, m);
    InForest(done, act, tree, e, leaves, t, leafs, n);
    InForest(done, act, tree, e, leaves, t, leafs, m);
    TotalStep(FreqOf(tree), act, n, m, e + t);
    JoinSize(tree, n, m, e + t);
  }
}
