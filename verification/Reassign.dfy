/** The last loop of gen_bitlen: once bl_count has been repaired, lengths are dealt
    out again, the longest to the least frequent symbols. */
module Reassign {
  import opened BitStrings
  import opened Canonical
  import opened HeapQueue
  import opened Sums
  import opened CodeLengths
  import opened LengthLimit
  import opened GenBitlen

  ghost function AllOnes(e: nat): (v: seq<nat>)
    ensures |v| == e
  {
    seq(e, _ => 1)
  }

  /** The counts dealt out so far: all of the lengths above bits, and all but n of length bits. */
  ghost function Dealt(c: seq<nat>, bits: nat, n: nat): (d: seq<nat>)
    requires |c| == MAX_BITS + 1 && bits <= MAX_BITS && n <= c[bits]
    ensures |d| == |c|
  {
    seq(|c|, b requires 0 <= b < |c| => if b > bits then c[b] else if b == bits then c[b] - n else 0)
  }

  /** The lengths dealt to the nodes of the order from o on; 0 for other symbols. */
  ghost function TableFrom(order: seq<nat>, tree: seq<CtData>, e: nat, o: nat): (t: Lengths)
    requires e <= |tree| && o <= |order|
    ensures |t| == e
  {
    seq(e, x requires 0 <= x < e => if x in order[o..] then tree[x].dl else 0)
  }

  ghost predicate Untouched(order: seq<nat>, before: seq<CtData>, tree: seq<CtData>, e: nat, o: nat) {
    && KeptFreqs(before, tree) && o <= |order|
    && forall x {:trigger tree[x]} :: 0 <= x < |tree| && (x >= e || x !in order[o..]) ==> tree[x] == before[x]
  }

  /** Leaves further back in the order are at least as long; all are between bits and m. */
  ghost predicate Descending(order: seq<nat>, tree: seq<CtData>, e: nat, o: nat, bits: nat, m: nat) {
    && e <= |tree| && o <= |order|
    && (forall p {:trigger order[p]} :: o <= p < |order| && order[p] < e ==> bits <= tree[order[p]].dl <= m)
    && (forall p, q {:trigger order[p], order[q]} ::
          o <= p < q < |order| && order[p] < e && order[q] < e ==> tree[order[p]].dl <= tree[order[q]].dl)
  }

  ghost predicate Dealing(order: seq<nat>, before: seq<CtData>, c: seq<nat>, e: nat, m: nat, tree: seq<CtData>, o: nat,
                          bits: nat, n: nat)
  {
    && |c| == MAX_BITS + 1 && bits <= m <= MAX_BITS && n <= c[bits] && e <= |before| && o <= |order|
    && Untouched(order, before, tree, e, o)
    && Bounded(TableFrom(order, tree, e, o), m)
    && CountsOf(TableFrom(order, tree, e, o)) == Dealt(c, bits, n)
    && Descending(order, tree, e, o, bits, m)
    && LeafSum(order, AllOnes(e), o) + Dot(Dealt(c, bits, n), Ones()) == Dot(c, Ones())
  }

  lemma {:induction false} DealingStarts(order: seq<nat>, before: seq<CtData>, c: seq<nat>, e: nat, m: nat)
    requires |c| == MAX_BITS + 1 && 1 <= m <= MAX_BITS && e <= |before|
    requires c[0] == 0 && forall b :: m < b <= MAX_BITS ==> c[b] == 0
    requires LeafSum(order, AllOnes(e), |order|) == Dot(c, Ones())
    ensures Dealing(order, before, c, e, m, before, |order|, m, c[m])
  {
    var t := TableFrom(order, before, e, |order|);
    DotZero(Dealt(c, m, c[m]), Ones());
    forall b | 1 <= b <= MAX_BITS
      ensures Count(t, b) == 0
    {
      CountBelow(t, 0, b);
    }
  }

  /** The length is used up: on to the next shorter one. */
  lemma {:induction false} DealingNextLength(order: seq<nat>, before: seq<CtData>, c: seq<nat>, e: nat, m: nat,
                                             tree: seq<CtData>, o: nat, bits: nat)
    requires Dealing(order, before, c, e, m, tree, o, bits, 0) && bits >= 1
    ensures Dealing(order, before, c, e, m, tree, o, bits - 1, c[bits - 1])
  {
    hide Untouched, TableFrom, CountsOf, Bounded, Dot;
    assert Dealt(c, bits, 0) == Dealt(c, bits - 1, c[bits - 1]);
  }

  lemma {:induction false} DotBelow(a: seq<nat>, c: seq<nat>, w: seq<nat>)
    requires |a| == |c| <= |w| && forall i :: 0 <= i < |a| ==> a[i] <= c[i]
    ensures Dot(a, w) <= Dot(c, w)
  {
    if a != [] {
      var k := |a| - 1;
      DotBelow(a[..k], c[..k], w);
      MulDist(a[k], c[k] - a[k], w[k]);
    }
  }

  /** While something is left to deal there is a leaf left to deal it to. */
  lemma {:induction false} LeafRemains(order: seq<nat>, before: seq<CtData>, c: seq<nat>, e: nat, m: nat,
                                       tree: seq<CtData>, o: nat, bits: nat, n: nat)
    requires Dealing(order, before, c, e, m, tree, o, bits, n) && n > 0 && bits >= 1
    ensures o > 0
  {
    hide Untouched, TableFrom, CountsOf, Bounded, Descending, Dot, Dealt;
    DealtLess(c, bits, n);
  }

  lemma DealtLess(c: seq<nat>, bits: nat, n: nat)
    requires |c| == MAX_BITS + 1 && 1 <= bits <= MAX_BITS && n <= c[bits]
    ensures Dot(Dealt(c, bits, n), Ones()) + n <= Dot(c, Ones())
  {
    hide Dot;
    var d := Dealt(c, bits, n);
    DotSetLeft(d, Ones(), bits, c[bits]);
    assert Ones()[bits] == 1;
    DotBelow(d[bits := c[bits]], c, Ones());
  }

  lemma {:induction false} DealingSkips(order: seq<nat>, before: seq<CtData>, c: seq<nat>, e: nat, m: nat,
                                        tree: seq<CtData>, o: nat, bits: nat, n: nat)
    requires Dealing(order, before, c, e, m, tree, o, bits, n) && o > 0 && order[o - 1] >= e
    ensures Dealing(order, before, c, e, m, tree, o - 1, bits, n)
  {
    hide Descending, CountsOf, Dot, TableFrom, Bounded, Dealt;
    SkipTable(order, tree, e, o);
    SkipDescends(order, tree, e, o, bits, m);
    LeafSumSkips(order, e, o);
  }

  lemma SkipTable(order: seq<nat>, tree: seq<CtData>, e: nat, o: nat)
    requires 0 < o <= |order| && order[o - 1] >= e && e <= |tree|
    ensures TableFrom(order, tree, e, o - 1) == TableFrom(order, tree, e, o)
    ensures forall x :: x < e ==> (x in order[o - 1..] <==> x in order[o..])
  {
    assert order[o - 1..] == [order[o - 1]] + order[o..];
  }

  lemma SkipDescends(order: seq<nat>, tree: seq<CtData>, e: nat, o: nat, bits: nat, m: nat)
    requires 0 < o <= |order| && order[o - 1] >= e && Descending(order, tree, e, o, bits, m)
    ensures Descending(order, tree, e, o - 1, bits, m)
  {
  }

  lemma LeafSumSkips(order: seq<nat>, e: nat, o: nat)
    requires 0 < o <= |order| && order[o - 1] >= e
    ensures LeafSum(order, AllOnes(e), o - 1) == LeafSum(order, AllOnes(e), o)
  {
  }

  lemma {:induction false} DealingAssigns(order: seq<nat>, before: seq<CtData>, c: seq<nat>, e: nat, m: nat,
                                          tree: seq<CtData>, o: nat, bits: nat, n: nat)
    requires Dealing(order, before, c, e, m, tree, o, bits, n) && Distinct(order)
    requires o > 0 && order[o - 1] < e && n > 0 && bits >= 1
    ensures order[o - 1] < |tree|
    ensures Dealing(order, before, c, e, m, tree[order[o - 1] := tree[order[o - 1]].(dl := bits)], o - 1, bits, n - 1)
  {
    hide Descending, Distinct, CountsOf, Dot, Dealt, TableFrom, Bounded, Untouched;
    var x := order[o - 1];
    AssignUntouched(order, before, tree, e, o, bits);
    AssignDescends(order, tree, e, o, bits, m);
    AssignTable(order, tree, e, o, bits);
    TableCounts(TableFrom(order, tree, e, o), x, bits);
    AssignBounded(TableFrom(order, tree, e, o), m, x, bits);
    DealtNext(c, bits, n);
    LeafSumAssigns(order, e, o);
  }

  lemma AssignUntouched(order: seq<nat>, before: seq<CtData>, tree: seq<CtData>, e: nat, o: nat, bits: nat)
    requires Untouched(order, before, tree, e, o) && 0 < o && order[o - 1] < e <= |before|
    ensures |tree| == |before|
    ensures Untouched(order, before, tree[order[o - 1] := tree[order[o - 1]].(dl := bits)], e, o - 1)
  {
    assert order[o - 1..] == [order[o - 1]] + order[o..];
  }

  lemma AssignBounded(t: Lengths, m: nat, x: nat, bits: nat)
    requires Bounded(t, m) && x < |t| && bits <= m
    ensures Bounded(t[x := bits], m)
  {
  }

  lemma DealtNext(c: seq<nat>, bits: nat, n: nat)
    requires |c| == MAX_BITS + 1 && 1 <= bits <= MAX_BITS && 0 < n <= c[bits]
    ensures Dealt(c, bits, n - 1) == Dealt(c, bits, n)[bits := Dealt(c, bits, n)[bits] + 1]
    ensures Dot(Dealt(c, bits, n - 1), Ones()) == Dot(Dealt(c, bits, n), Ones()) + 1
  {
    hide Dot;
    var d := Dealt(c, bits, n);
    assert Dealt(c, bits, n - 1) == d[bits := d[bits] + 1];
    assert Ones()[bits] == 1;
    DotSetLeft(d, Ones(), bits, d[bits] + 1);
  }

  lemma LeafSumAssigns(order: seq<nat>, e: nat, o: nat)
    requires 0 < o <= |order| && order[o - 1] < e
    ensures LeafSum(order, AllOnes(e), o) == LeafSum(order, AllOnes(e), o - 1) + 1
  {
  }

  lemma {:induction false} AssignTable(order: seq<nat>, tree: seq<CtData>, e: nat, o: nat, bits: nat)
    requires 0 < o <= |order| && order[o - 1] < e <= |tree| && Distinct(order)
    ensures TableFrom(order, tree, e, o)[order[o - 1]] == 0
    ensures TableFrom(order, tree[order[o - 1] := tree[order[o - 1]].(dl := bits)], e, o - 1)
         == TableFrom(order, tree, e, o)[order[o - 1] := bits]
  {
    var x := order[o - 1];
    assert order[o - 1..] == [x] + order[o..];
    assert x !in order[o..];
  }

  lemma {:induction false} AssignDescends(order: seq<nat>, tree: seq<CtData>, e: nat, o: nat, bits: nat, m: nat)
    requires 0 < o <= |order| && order[o - 1] < e <= |tree| && Distinct(order) && bits <= m
    requires Descending(order, tree, e, o, bits, m)
    ensures Descending(order, tree[order[o - 1] := tree[order[o - 1]].(dl := bits)], e, o - 1, bits, m)
  {
  }

  lemma {:induction false} TableCounts(t: Lengths, x: nat, bits: nat)
    requires x < |t| && t[x] == 0 && 1 <= bits <= MAX_BITS
    ensures CountsOf(t[x := bits]) == CountsOf(t)[bits := CountsOf(t)[bits] + 1]
  {
    forall b | 1 <= b <= MAX_BITS
      ensures Count(t[x := bits], b) == Count(t, b) + (if b == bits then 1 else 0)
    {
      CountUpdate(t, x, bits, b);
    }
  }

  /** When everything is dealt, every leaf has its length. */
  lemma {:induction false} DealingEnds(order: seq<nat>, before: seq<CtData>, c: seq<nat>, e: nat, m: nat,
                                       tree: seq<CtData>, o: nat)
    requires Dealing(order, before, c, e, m, tree, o, 0, 0)
    ensures CountsOf(TableFrom(order, tree, e, 0)) == c && Bounded(TableFrom(order, tree, e, 0), m)
    ensures Descending(order, tree, e, 0, 0, m)
    ensures Untouched(order, before, tree, e, 0)
  {
    assert Dealt(c, 0, 0) == c;
    NoLeaves(order, e, o);
    assert order[0..] == order == order[..o] + order[o..];
    assert TableFrom(order, tree, e, o) == TableFrom(order, tree, e, 0);
  }

  lemma {:induction false} NoLeaves(order: seq<nat>, e: nat, o: nat)
    requires o <= |order| && LeafSum(order, AllOnes(e), o) == 0
    ensures forall p :: 0 <= p < o ==> order[p] >= e
  {
    if o > 0 {
      NoLeaves(order, e, o - 1);
    }
  }

  /** Frequency times (length + extra bits), over the symbols 0..e-1. */
  ghost function TreeCost(tree: seq<CtData>, desc: TreeDesc): nat
    requires desc.elems <= |tree| && desc.elems <= desc.extraBase + |desc.extra|
  {
    Dot(Freqs(tree, desc.elems), FullLengths(tree, desc))
  }

  ghost function FullLengths(tree: seq<CtData>, desc: TreeDesc): (v: seq<nat>)
    requires desc.elems <= |tree| && desc.elems <= desc.extraBase + |desc.extra|
    ensures |v| == desc.elems
  {
    seq(desc.elems, x requires 0 <= x < desc.elems => tree[x].dl + desc.ExtraBits(x))
  }

  lemma {:induction false} CostOfChange(tree: seq<CtData>, desc: TreeDesc, x: nat, bits: nat)
    requires desc.elems <= |tree| && desc.elems <= desc.extraBase + |desc.extra| && x < desc.elems
    ensures TreeCost(tree[x := tree[x].(dl := bits)], desc) == TreeCost(tree, desc) + (bits - tree[x].dl) * tree[x].fc
  {
    hide Dot;
    var after := tree[x := tree[x].(dl := bits)];
    var f, v := Freqs(tree, desc.elems), FullLengths(tree, desc);
    assert Freqs(after, desc.elems) == f;
    assert FullLengths(after, desc) == v[x := bits + desc.ExtraBits(x)];
    DotSetRight(f, v, x, bits + desc.ExtraBits(x));
    Difference(tree[x].fc, tree[x].dl + desc.ExtraBits(x), bits + desc.ExtraBits(x));
  }

  lemma Difference(f: int, a: int, b: int)
    ensures f * b == f * a + (b - a) * f
  {
    MulDist(a, b - a, f);
  }

  /** The loop that recomputes all lengths; opt_len follows every change. */
  method DealLengths(tree: array<CtData>, heap: array<nat>, heapMax: nat, blCount: array<nat>, maxCode: nat,
                     desc: TreeDesc, optIn: int)
    returns (opt: int)
    requires desc.Valid() && heap != blCount && blCount.Length == MAX_BITS + 1
    requires heapMax <= heap.Length && Distinct(heap[heapMax..]) && desc.elems <= tree.Length && maxCode < desc.elems
    requires forall x :: x in heap[heapMax..] && maxCode < x ==> x >= desc.elems
    requires blCount[0] == 0 && forall b :: desc.maxLength < b <= MAX_BITS ==> blCount[b] == 0
    requires LeafSum(heap[heapMax..], AllOnes(desc.elems), |heap[heapMax..]|) == Dot(blCount[..], Ones())
    modifies tree
    ensures heap[..] == old(heap[..]) && blCount[..] == old(blCount[..])
    ensures Untouched(heap[heapMax..], old(tree[..]), tree[..], desc.elems, 0)
    ensures CountsOf(TableFrom(heap[heapMax..], tree[..], desc.elems, 0)) == blCount[..]
    ensures Bounded(TableFrom(heap[heapMax..], tree[..], desc.elems, 0), desc.maxLength)
    ensures Descending(heap[heapMax..], tree[..], desc.elems, 0, 0, desc.maxLength)
    ensures opt - optIn == TreeCost(tree[..], desc) - old(TreeCost(tree[..], desc))
  {
    hide Dealing, Untouched, CountsOf, TableFrom, Descending, LeafSum, Dot, TreeCost, Distinct;
    ghost var order, c, before := heap[heapMax..], blCount[..], tree[..];
    ghost var e, m := desc.elems, desc.maxLength;
    opt := optIn;
    var h := heap.Length;
    var bits := desc.maxLength;
    DealingStarts(order, before, c, e, m);
    ghost var ts := before;
    while bits != 0
      invariant heapMax <= h <= heap.Length && 0 <= bits <= m && ts == tree[..]
      invariant Dealing(order, before, c, e, m, ts, h - heapMax, bits, c[bits])
      invariant opt - optIn == TreeCost(ts, desc) - TreeCost(before, desc)
    {
      var n := blCount[bits];
      while n != 0
        invariant heapMax <= h <= heap.Length && n <= c[bits] && ts == tree[..]
        invariant Dealing(order, before, c, e, m, ts, h - heapMax, bits, n)
        invariant opt - optIn == TreeCost(ts, desc) - TreeCost(before, desc)
        decreases h
      {
        LeafRemains(order, before, c, e, m, ts, h - heapMax, bits, n);
        h := h - 1;
        var x := heap[h];
        assert x == order[h - heapMax] && x in order;
        if x > maxCode {
          DealingSkips(order, before, c, e, m, ts, h + 1 - heapMax, bits, n);
          continue;
        }
        DealingAssigns(order, before, c, e, m, ts, h + 1 - heapMax, bits, n);
        CostOfChange(ts, desc, x, bits);
        ts := ts[x := ts[x].(dl := bits)];
        if tree[x].dl != bits {
          opt := opt + (bits - tree[x].dl) * tree[x].fc;
          tree[x] := tree[x].(dl := bits);
        }
        assert ts == tree[..];
        n := n - 1;
      }
      DealingNextLength(order, before, c, e, m, ts, h - heapMax, bits);
      bits := bits - 1;
    }
    DealingEnds(order, before, c, e, m, ts, h - heapMax);
  }
}
