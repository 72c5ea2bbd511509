/** gen_bitlen and build_tree as a whole: what the compressor may rely on. */
module Huffman {
  import opened BitStrings
  import opened Canonical
  import opened HeapQueue
  import opened Sums
  import opened CodeLengths
  import opened GenBitlen
  import opened LengthLimit
  import opened Reassign
  import opened Optimality
  import opened Forest
  import opened GenCodes
  import opened BuildTree
  import opened JoinLoop
  import opened UncutLengths

  /** Of two symbols in the tree the rarer one never has the shorter code. */
  ghost predicate RarerNotShorter(tree: seq<CtData>, leafs: set<nat>) {
    forall x, y {:trigger x in leafs, y in leafs} ::
      x in leafs && y in leafs && x < |tree| && y < |tree| && tree[x].fc < tree[y].fc ==>
      tree[x].dl >= tree[y].dl
  }

  /** No code lengths that any prefix code for these symbols can have give a smaller total. */
  ghost predicate Cheapest(freqs: seq<nat>, leafs: set<nat>, t: Lengths) {
    && |t| == |freqs|
    && forall l: Lengths, k: nat {:trigger Feasible(l, k, leafs)} ::
         |l| == |freqs| && Feasible(l, k, leafs) ==> Dot(freqs, t) <= Dot(freqs, l)
  }

  /** The lengths of a prefix code for exactly these symbols than which none is cheaper. */
  ghost predicate IsBest(freqs: seq<nat>, leafs: set<nat>, best: Lengths) {
    Cheapest(freqs, leafs, best) && exists k :: Feasible(best, k, leafs)
  }

  /** The lengths in the tree, when all is done. */
  ghost predicate GoodLengths(tree: seq<CtData>, counts: seq<nat>, e: nat, m: nat, leafs: set<nat>)
    requires e <= |tree|
  {
    var t := LensOf(tree, e);
    && Bounded(t, m) && m <= MAX_BITS && Kraft(t, m) == Pow2(m)
    && CountsOf(t) == counts
    && (forall x :: 0 <= x < e ==> (t[x] > 0 <==> x in leafs))
  }

  /** Bits of a block's data under static codes: frequency times (static length + extra bits). */
  ghost function StaticCost(tree: seq<CtData>, slens: seq<nat>, desc: TreeDesc): nat
    requires desc.elems <= |tree| && |slens| == desc.elems && desc.elems <= desc.extraBase + |desc.extra|
  {
    Sum(Costs(Freqs(tree, desc.elems), slens, desc))
  }

  // ----- the first pass -----

  ghost predicate Unused(tree: seq<CtData>, e: nat, leafs: set<nat>) {
    forall x {:trigger tree[x]} :: 0 <= x < e && x < |tree| && x !in leafs ==> tree[x].dl == 0 && tree[x].fc == 0
  }

  lemma MaskedCosts(order: seq<nat>, tree: seq<CtData>, lens: seq<nat>, desc: TreeDesc, leafs: set<nat>)
    requires desc.elems <= |tree| && |lens| == desc.elems && desc.elems <= desc.extraBase + |desc.extra|
    requires Distinct(order) && Unused(tree, desc.elems, leafs)
    requires forall x {:trigger x in order} :: x < desc.elems ==> (x in order <==> x in leafs)
    ensures LeafSum(order, Costs(Freqs(tree, desc.elems), lens, desc), |order|)
         == Sum(Costs(Freqs(tree, desc.elems), lens, desc))
  {
    var costs := Costs(Freqs(tree, desc.elems), lens, desc);
    LeafSumByTable(order, costs, |order|);
    assert order[..|order|] == order;
    forall x | 0 <= x < desc.elems
      ensures Masked(order, costs)[x] == costs[x]
    {
      if x !in order {
        assert tree[x].fc == 0;
      }
    }
    assert Masked(order, costs) == costs;
  }

  lemma SumOfCosts(tree: seq<CtData>, desc: TreeDesc)
    requires desc.elems <= |tree| && desc.elems <= desc.extraBase + |desc.extra|
    ensures Sum(Costs(Freqs(tree, desc.elems), LensOf(tree, desc.elems), desc)) == TreeCost(tree, desc)
  {
    SumTimes(Freqs(tree, desc.elems), FullLengths(tree, desc));
    assert Costs(Freqs(tree, desc.elems), LensOf(tree, desc.elems), desc)
        == Times(Freqs(tree, desc.elems), FullLengths(tree, desc));
  }

  /** The table the first pass leaves in the tree. */
  lemma PassTable(order: seq<nat>, before: seq<CtData>, lens: seq<nat>, slens: seq<nat>, desc: TreeDesc, leaves: nat,
                  p: Progress, leafs: set<nat>)
    requires desc.Valid() && TreeOrder(order, desc.elems, leaves)
    requires |lens| == desc.elems + leaves - 1 <= |before| && |slens| == desc.elems
    requires Passed(order, before, lens, slens, desc, leaves, p, |order|)
    requires Unused(before, desc.elems, leafs)
    requires forall x {:trigger x in order} :: x < desc.elems ==> (x in order <==> x in leafs)
    ensures |p.tree| == |before| && LensOf(p.tree, desc.elems) == Table(order, lens, desc.elems)
    ensures FreqOf(p.tree) == FreqOf(before) && Unused(p.tree, desc.elems, leafs)
  {
    forall x | 0 <= x < desc.elems
      ensures p.tree[x].dl == Table(order, lens, desc.elems)[x]
    {
      if x in order {
        var o :| 0 <= o < |order| && order[o] == x;
        assert p.tree[order[o]].dl == lens[order[o]];
      } else {
        assert p.tree[x] == before[x];
      }
    }
    forall x {:trigger p.tree[x]} | 0 <= x < desc.elems && x !in leafs
      ensures p.tree[x] == before[x]
    {
      assert x !in order;
    }
  }

  lemma PassCounts(order: seq<nat>, lens: seq<nat>, e: nat, leaves: nat, m: nat, counts: seq<nat>)
    requires TreeOrder(order, e, leaves) && |lens| == e + leaves - 1 && 1 <= m <= MAX_BITS
    requires Descends(order, lens, e, leaves, m, |order|)
    requires Tallied(order, lens, e, counts, |order|)
    ensures counts == CountsOf(Table(order, lens, e))
    ensures Bounded(Table(order, lens, e), m)
    ensures forall x :: 0 <= x < e ==> (Table(order, lens, e)[x] > 0 <==> x in order)
  {
    var t := Table(order, lens, e);
    forall x | 0 <= x < e
      ensures t[x] <= m && (t[x] > 0 <==> x in order)
    {
      LeafLength(order, lens, e, leaves, m, x);
    }
    forall b | 0 <= b <= MAX_BITS
      ensures counts[b] == CountsOf(t)[b]
    {
      if b > 0 {
        CountAlongOrder(order, lens, e, b);
      } else {
        LeafSumByTable(order, Indicator(lens, e, 0), |order|);
        assert order[..|order|] == order;
        SumZero(Masked(order, Indicator(lens, e, 0)));
      }
    }
  }

  lemma LeafCountIsUsed(order: seq<nat>, t: Lengths)
    requires Distinct(order)
    requires forall x :: 0 <= x < |t| ==> (t[x] > 0 <==> x in order)
    ensures LeafSum(order, AllOnes(|t|), |order|) == Used(t)
  {
    LeafSumByTable(order, AllOnes(|t|), |order|);
    assert order[..|order|] == order;
    UsedIsSum(order, t);
  }

  lemma {:induction false} UsedIsSum(order: seq<nat>, t: Lengths)
    requires forall x :: 0 <= x < |t| ==> (t[x] > 0 <==> x in order)
    ensures Sum(Masked(order, AllOnes(|t|))) == Used(t)
  {
    if t != [] {
      var k := |t| - 1;
      UsedIsSum(order, t[..k]);
      assert Masked(order, AllOnes(|t|))[..k] == Masked(order, AllOnes(k));
    }
  }

  /** Everything the first pass establishes, in terms of the tree. */
  lemma PassResult(order: seq<nat>, before: seq<CtData>, lens: seq<nat>, slens: seq<nat>, desc: TreeDesc, leaves: nat,
                   p: Progress, leafs: set<nat>)
    requires desc.Valid() && Built(order, before, desc.elems, leaves, leafs)
    requires |lens| == desc.elems + leaves - 1 <= |before| && |slens| == desc.elems
    requires Descends(order, lens, desc.elems, leaves, desc.maxLength, |order|)
    requires Passed(order, before, lens, slens, desc, leaves, p, |order|)
    requires Unused(before, desc.elems, leafs)
    ensures |p.tree| == |before| && FreqOf(p.tree) == FreqOf(before) && Unused(p.tree, desc.elems, leafs)
    ensures var t := LensOf(p.tree, desc.elems);
            && p.counts == CountsOf(t) && Bounded(t, desc.maxLength) && t == Table(order, lens, desc.elems)
            && (forall x :: 0 <= x < desc.elems ==> (t[x] > 0 <==> x in leafs))
            && 2 * Kraft(t, desc.maxLength) == 2 * Pow2(desc.maxLength) + p.overflow
            && 2 * Count(t, desc.maxLength) >= p.overflow
            && LeafSum(order, AllOnes(desc.elems), |order|) == Used(t)
    ensures p.overflow == Overflows(order, lens, desc.elems, leaves, desc.maxLength, |order|)
    ensures p.opt == TreeCost(p.tree, desc)
    ensures p.stat == StaticCost(before, slens, desc)
  {
    hide Kraft, Count, LeafSum, Sum, Dot, Costs, Freqs, Weighted, CostsAtLeast, Used;
    var e := desc.elems;
    PassTable(order, before, lens, slens, desc, leaves, p, leafs);
    PassCounts(order, lens, e, leaves, desc.maxLength, p.counts);
    FirstPassKraft(order, lens, e, leaves, desc.maxLength);
    LeafCountIsUsed(order, Table(order, lens, e));
    PassCosts(order, before, lens, slens, desc, leaves, p, leafs);
  }

  lemma PassCosts(order: seq<nat>, before: seq<CtData>, lens: seq<nat>, slens: seq<nat>, desc: TreeDesc, leaves: nat,
                  p: Progress, leafs: set<nat>)
    requires desc.Valid() && TreeOrder(order, desc.elems, leaves)
    requires |lens| == desc.elems + leaves - 1 <= |before| && |slens| == desc.elems
    requires Passed(order, before, lens, slens, desc, leaves, p, |order|)
    requires Unused(before, desc.elems, leafs)
    requires forall x {:trigger x in order} :: x < desc.elems ==> (x in order <==> x in leafs)
    ensures |p.tree| == |before|
    ensures p.opt == TreeCost(p.tree, desc) && p.stat == StaticCost(before, slens, desc)
  {
    hide LeafSum, Sum;
    var e := desc.elems;
    PassTable(order, before, lens, slens, desc, leaves, p, leafs);
    MaskedCosts(order, before, lens[..e], desc, leafs);
    MaskedCosts(order, before, slens, desc, leafs);
    FreqsSame(before, p.tree, e);
    SumOfCosts(p.tree, desc);
    CostsInUse(order, before, lens, desc, leafs);
  }

  /** Outside the tree frequencies are 0, so lengths there do not matter. */
  lemma CostsInUse(order: seq<nat>, tree: seq<CtData>, lens: seq<nat>, desc: TreeDesc, leafs: set<nat>)
    requires desc.elems <= |tree| && desc.elems <= |lens| && desc.elems <= desc.extraBase + |desc.extra|
    requires Unused(tree, desc.elems, leafs)
    requires forall x {:trigger x in order} :: x < desc.elems ==> (x in order <==> x in leafs)
    ensures Costs(Freqs(tree, desc.elems), lens[..desc.elems], desc)
         == Costs(Freqs(tree, desc.elems), Table(order, lens, desc.elems), desc)
  {
    var a := Costs(Freqs(tree, desc.elems), lens[..desc.elems], desc);
    var b := Costs(Freqs(tree, desc.elems), Table(order, lens, desc.elems), desc);
    forall x | 0 <= x < desc.elems
      ensures a[x] == b[x]
    {
      if x !in order {
        assert tree[x].fc == 0;
      }
    }
  }

  // ----- when no code is too long -----

  lemma {:induction false} KraftPadded(l: Lengths, z: nat, k: nat)
    ensures Kraft(l + seq(z, _ => 0), k) == Kraft(l, k)
  {
    if z == 0 {
      assert l + seq(0, _ => 0) == l;
    } else {
      var a := l + seq(z, _ => 0);
      assert a[..|a| - 1] == l + seq(z - 1, _ => 0);
      KraftPadded(l, z - 1, k);
    }
  }

  lemma {:induction false} DotPadded(fc: seq<nat>, l: Lengths, z: nat)
    requires |fc| == |l| + z
    ensures Dot(fc, l + seq(z, _ => 0)) == Dot(fc[..|l|], l)
  {
    var a := l + seq(z, _ => 0);
    if z == 0 {
      assert a == l && fc[..|l|] == fc;
    } else {
      var b := l + seq(z - 1, _ => 0);
      DotPadded(fc[..|fc| - 1], l, z - 1);
      DotPrefix(fc[..|fc| - 1], a, b);
      assert fc[..|fc| - 1][..|l|] == fc[..|l|];
    }
  }

  /** The bound on the forest is a bound on tables of lengths. */
  lemma CheapestFromForest(fc: seq<nat>, e: nat, leafs: set<nat>, t: Lengths, s: nat)
    requires CostsAtLeast(fc, leafs, s) && e <= |fc| && |t| == e && Dot(fc[..e], t) == s
    requires forall x :: x in leafs ==> x < e
    ensures Cheapest(fc[..e], leafs, t)
  {
    forall l: Lengths, k: nat {:trigger Feasible(l, k, leafs)} | |l| == e && Feasible(l, k, leafs)
      ensures Dot(fc[..e], t) <= Dot(fc[..e], l)
    {
      var z: nat := |fc| - e;
      var a := l + seq(z, _ => 0);
      KraftPadded(l, z, k);
      DotPadded(fc, l, z);
      assert Feasible(a, k, leafs);
    }
  }

  lemma UncutIsCheapest(order: seq<nat>, tree: seq<CtData>, lens: seq<nat>, e: nat, leaves: nat, m: nat,
                        leafs: set<nat>)
    requires Built(order, tree, e, leaves, leafs) && |lens| == e + leaves - 1 && m >= 1
    requires Descends(order, lens, e, leaves, m, |order|) && Overflows(order, lens, e, leaves, m, |order|) == 0
    requires Unused(tree, e, leafs) && forall x :: x in leafs ==> x < e
    ensures Cheapest(FreqOf(tree)[..e], leafs, Table(order, lens, e))
  {
    var fc := FreqOf(tree);
    forall x | 0 <= x < e && x !in order
      ensures fc[x] == 0
    {
      assert tree[x].fc == 0;
    }
    CostOfTree(order, fc, lens, e, leaves, m);
    CheapestFromForest(fc, e, leafs, Table(order, lens, e), NodeSum(order, fc, |order|));
  }

  lemma WeightedAt(order: seq<nat>, fc: seq<nat>, e: nat, leaves: nat, p: nat, q: nat)
    requires Weighted(order, fc, e, leaves) && p < |order| && q < |order|
    ensures order[p] < |fc| && order[q] < |fc|
    ensures p < q ==> fc[order[p]] >= fc[order[q]]
  {
  }

  lemma UncutIsFair(order: seq<nat>, tree: seq<CtData>, lens: seq<nat>, e: nat, leaves: nat, m: nat, leafs: set<nat>,
                    after: seq<CtData>)
    requires Built(order, tree, e, leaves, leafs) && |lens| == e + leaves - 1 && m >= 1
    requires Descends(order, lens, e, leaves, m, |order|)
    requires (forall x :: x in leafs ==> x < e) && |after| == |tree| && FreqOf(after) == FreqOf(tree)
    requires LensOf(after, e) == Table(order, lens, e)
    ensures RarerNotShorter(after, leafs)
  {
    var fc := FreqOf(tree);
    forall x, y {:trigger x in leafs, y in leafs}
      | x in leafs && y in leafs && x < |after| && y < |after| && after[x].fc < after[y].fc
      ensures after[x].dl >= after[y].dl
    {
      assert x in order && y in order;
      var p :| 0 <= p < |order| && order[p] == x;
      var q :| 0 <= q < |order| && order[q] == y;
      assert fc[x] == FreqOf(after)[x] == after[x].fc && fc[y] == FreqOf(after)[y] == after[y].fc;
      WeightedAt(order, fc, e, leaves, p, q);
      RarerIsLonger(order, fc, lens, e, leaves, m, p, q);
      assert after[x].dl == LensOf(after, e)[x] && after[y].dl == LensOf(after, e)[y];
    }
  }

  // ----- when lengths had to be dealt again -----

  lemma DealtLengths(order: seq<nat>, tree: seq<CtData>, after: seq<CtData>, counts: seq<nat>, e: nat, m: nat,
                     leafs: set<nat>)
    requires e <= |tree| && 1 <= m <= MAX_BITS
             && (forall x {:trigger x in order} :: x < e ==> (x in order <==> x in leafs))
    requires Untouched(order, tree, after, e, 0) && Unused(tree, e, leafs)
    requires CountsOf(TableFrom(order, after, e, 0)) == counts && Bounded(TableFrom(order, after, e, 0), m)
    requires Dot(counts, KraftWeights(m)) == Pow2(m)
    requires Dot(counts, Ones()) == LeafSum(order, AllOnes(e), |order|)
    requires Distinct(order)
    ensures GoodLengths(after, counts, e, m, leafs)
  {
    hide Dot, LeafSum, Kraft, Pow2;
    var t := LensOf(after, e);
    assert order[0..] == order;
    forall x | 0 <= x < e
      ensures t[x] == TableFrom(order, after, e, 0)[x]
    {
      if x !in order {
        assert after[x] == tree[x];
      }
    }
    assert t == TableFrom(order, after, e, 0);
    KraftOfCounts(t, m);
    UsedOfCounts(t);
    AllUsed(order, t);
  }

  /** As many used symbols as leaves, and no others used: every leaf is used. */
  lemma AllUsed(order: seq<nat>, t: Lengths)
    requires Distinct(order) && Used(t) == LeafSum(order, AllOnes(|t|), |order|)
    requires forall x :: 0 <= x < |t| && x !in order ==> t[x] == 0
    ensures forall x :: 0 <= x < |t| ==> (t[x] > 0 <==> x in order)
  {
    var full := seq(|t|, x requires 0 <= x < |t| => if x in order then 1 else 0);
    LeafCountIsUsed(order, full);
    UsedBelow(t, full);
  }

  lemma {:induction false} UsedBelow(a: Lengths, b: Lengths)
    requires |a| == |b| && forall x :: 0 <= x < |a| && b[x] == 0 ==> a[x] == 0
    ensures Used(a) <= Used(b)
    ensures Used(a) == Used(b) ==> forall x :: 0 <= x < |a| ==> (a[x] > 0 <==> b[x] > 0)
  {
    if a != [] {
      UsedBelow(a[..|a| - 1], b[..|b| - 1]);
    }
  }

  lemma DealtIsFair(order: seq<nat>, tree: seq<CtData>, after: seq<CtData>, e: nat, leaves: nat, m: nat,
                    leafs: set<nat>)
    requires Built(order, tree, e, leaves, leafs) && |after| == |tree| && FreqOf(after) == FreqOf(tree)
    requires Descending(order, after, e, 0, 0, m) && forall x :: x in leafs ==> x < e
    ensures RarerNotShorter(after, leafs)
  {
    var fc := FreqOf(tree);
    forall x, y {:trigger x in leafs, y in leafs}
      | x in leafs && y in leafs && x < |after| && y < |after| && after[x].fc < after[y].fc
      ensures after[x].dl >= after[y].dl
    {
      assert x in order && y in order;
      var p :| 0 <= p < |order| && order[p] == x;
      var q :| 0 <= q < |order| && order[q] == y;
      assert fc[x] == FreqOf(after)[x] == after[x].fc && fc[y] == FreqOf(after)[y] == after[y].fc;
      WeightedAt(order, fc, e, leaves, p, q);
    }
  }

  lemma RepairReady(t: Lengths, m: nat, overflow: nat)
    requires Bounded(t, m) && 1 <= m <= MAX_BITS && |t| <= Pow2(m)
    requires 2 * Kraft(t, m) == 2 * Pow2(m) + overflow && 2 * Count(t, m) >= overflow
    ensures var c := CountsOf(t);
            && c[0] == 0 && (forall b :: m < b <= MAX_BITS ==> c[b] == 0) && 2 * c[m] >= overflow
            && 2 * Dot(c, KraftWeights(m)) == 2 * Pow2(m) + overflow
            && Dot(c, Ones()) == Used(t) <= Pow2(m)
  {
    hide Dot, Kraft, Pow2;
    KraftOfCounts(t, m);
    UsedOfCounts(t);
    forall b | m < b <= MAX_BITS
      ensures CountsOf(t)[b] == 0
    {
      CountBelow(t, m, b);
    }
  }

  lemma BuiltFacts(order: seq<nat>, tree: seq<CtData>, e: nat, leaves: nat, leafs: set<nat>, maxCode: nat)
    requires Built(order, tree, e, leaves, leafs) && (forall x :: x in leafs ==> x <= maxCode) && maxCode < e
    ensures |order| == 2 * leaves - 1 && leaves >= 2
    ensures TreeOrder(order, e, leaves) && StillDads(order, tree, e, leaves, 1) && Distinct(order)
    ensures forall x :: maxCode < x < e ==> x !in order
    ensures forall x :: x in order && maxCode < x ==> x >= e
    ensures forall x :: x in leafs ==> x < e
    ensures forall x {:trigger x in order} :: x < e ==> (x in order <==> x in leafs)
  {
  }

  /** gen_bitlen */
  method GenerateLengths(b: TreeBuilder, tree: array<CtData>, stree: array?<CtData>, desc: TreeDesc, maxCode: nat,
                         ghost leaves: nat, ghost leafs: set<nat>, ghost slens: seq<nat>)
    returns (ghost best: Lengths)
    requires b.Valid() && desc.Valid() && tree != stree && Static(stree, desc.elems, slens)
    requires maxCode < desc.elems && desc.elems + leaves - 1 <= tree.Length && leaves <= desc.elems
    requires leaves >= 2 && 2 * leaves - 1 <= HEAP_SIZE && b.heapMax == HEAP_SIZE - (2 * leaves - 1)
    requires Built(b.heap[b.heapMax..], tree[..], desc.elems, leaves, leafs)
    requires Unused(tree[..], desc.elems, leafs) && forall x :: x in leafs ==> x <= maxCode && tree[x].fc > 0
    modifies b`optLen, b`staticLen, b.blCount, tree
    ensures GoodLengths(tree[..], b.blCount[..], desc.elems, desc.maxLength, leafs)
    ensures FreqOf(tree[..]) == old(FreqOf(tree[..]))
    ensures RarerNotShorter(tree[..], leafs)
    ensures IsBest(Freqs(tree[..], desc.elems), leafs, best)
    ensures LensOf(tree[..], desc.elems) == best <==> Bounded(best, desc.maxLength)
    ensures Sum(Freqs(tree[..], desc.elems)) < Fib(desc.maxLength + 3) || leaves == 2 ==> Bounded(best, desc.maxLength)
    ensures b.optLen == old(b.optLen) + TreeCost(tree[..], desc)
    ensures b.staticLen == old(b.staticLen) + (if stree != null then old(StaticCost(tree[..], slens, desc)) else 0)
  {
    hide Built, GoodLengths, FreqOf, RarerNotShorter, Cheapest, TreeCost, StaticCost, Unused, Passed, Descends,
         FirstLens, TreeOrder, StillDads, Distinct, LeafSum, Dot, CountsOf, Used, Kraft, Count, Bounded, Pow2,
         Overflows, Table, LensOf, KraftWeights, Ones, Untouched, TableFrom, Descending;
    ghost var before := tree[..];
    ghost var order := b.heap[b.heapMax..];
    ghost var e, m := desc.elems, desc.maxLength;
    BuiltFacts(order, before, e, leaves, leafs, maxCode);
    ghost var lens := FirstLens(order, e, leaves, m, |order|);
    FirstLensDescends(order, e, leaves, m, |order|);
    var overflow, opt, stat, p := FirstPass(tree, b.heap, b.heapMax, b.blCount, maxCode, desc, stree, leaves, slens);
    PassResult(order, before, lens, slens, desc, leaves, p, leafs);
    b.optLen := b.optLen + opt;
    b.staticLen := b.staticLen + stat;
    best := FreeLengths(order, before, lens, desc, leaves, leafs);
    if overflow == 0 {
      UncutResult(order, before, lens, desc, leaves, p, leafs);
      GoodIsBounded(tree[..], b.blCount[..], e, m, leafs);
      SameFreqs(before, tree[..], e);
      return;
    }
    RepairReady(LensOf(p.tree, e), m, overflow);
    Repair(b.blCount, desc.maxLength, overflow);
    ghost var ts := tree[..];
    b.optLen := DealLengths(tree, b.heap, b.heapMax, b.blCount, maxCode, desc, b.optLen);
    DealtLengths(order, ts, tree[..], b.blCount[..], e, m, leafs);
    FreqsKept(order, ts, tree[..], e);
    DealtIsFair(order, before, tree[..], e, leaves, m, leafs);
    GoodIsBounded(tree[..], b.blCount[..], e, m, leafs);
    SameFreqs(before, tree[..], e);
  }

  lemma GoodIsBounded(tree: seq<CtData>, counts: seq<nat>, e: nat, m: nat, leafs: set<nat>)
    requires e <= |tree| && GoodLengths(tree, counts, e, m, leafs)
    ensures Bounded(LensOf(tree, e), m)
  {
  }

  lemma SameFreqs(before: seq<CtData>, after: seq<CtData>, e: nat)
    requires FreqOf(before) == FreqOf(after) && e <= |before| == |after|
    ensures Freqs(before, e) == Freqs(after, e) == FreqOf(before)[..e]
  {
    forall x | 0 <= x < e
      ensures before[x].fc == after[x].fc && FreqOf(before)[x] == before[x].fc
    {
      assert FreqOf(before)[x] == FreqOf(after)[x];
    }
  }

  /** What the tree gives without a limit, and that the first pass met the limit exactly when this exceeds it. */
  lemma FreeLengths(order: seq<nat>, before: seq<CtData>, lens: seq<nat>, desc: TreeDesc, leaves: nat, leafs: set<nat>)
    returns (best: Lengths)
    requires desc.Valid() && Built(order, before, desc.elems, leaves, leafs)
             && |lens| == desc.elems + leaves - 1 <= |before|
    requires Descends(order, lens, desc.elems, leaves, desc.maxLength, |order|)
    requires Unused(before, desc.elems, leafs) && (forall x :: x in leafs ==> x < desc.elems && before[x].fc > 0)
    ensures IsBest(Freqs(before, desc.elems), leafs, best)
    ensures Overflows(order, lens, desc.elems, leaves, desc.maxLength, |order|) == 0 ==>
              best == Table(order, lens, desc.elems)
    ensures Bounded(best, desc.maxLength) <==> Overflows(order, lens, desc.elems, leaves, desc.maxLength, |order|) == 0
    ensures Sum(Freqs(before, desc.elems)) < Fib(desc.maxLength + 3) || leaves == 2 ==> Bounded(best, desc.maxLength)
  {
    hide Descends, Overflows, Unused, Cheapest, Sum, Kraft, Pow2, CostsAtLeast, Weighted, Bounded, StillDads, Distinct;
    var e, m := desc.elems, desc.maxLength;
    SameFreqs(before, before, e);
    var fc := FreqOf(before);
    if Overflows(order, lens, e, leaves, m, |order|) == 0 {
      best := Table(order, lens, e);
      FreeIsBest(order, before, lens, e, leaves, m, leafs);
    } else {
      var far := m + |order|;
      var free := FirstLens(order, e, leaves, far, |order|);
      FirstLensDescends(order, e, leaves, far, |order|);
      best := Table(order, free, e);
      FarLimit(order, free, e, leaves, far, |order|);
      FreeIsBest(order, before, free, e, leaves, far, leafs);
      FreeKeepsLimit(order, lens, free, e, leaves, m, far);
    }
    LeafFacts(order, before, e, leafs);
    LightIsUncut(order, fc, lens, e, leaves, m);
    if leaves == 2 {
      TwoLeavesUncut(order, lens, e, m);
    }
  }

  lemma LeafFacts(order: seq<nat>, before: seq<CtData>, e: nat, leafs: set<nat>)
    requires Unused(before, e, leafs) && e <= |before| && (forall x :: x in leafs ==> x < e && before[x].fc > 0)
    requires forall x {:trigger x in order} :: x < e ==> (x in order <==> x in leafs)
    ensures LeavesOccur(order, FreqOf(before), e)
    ensures forall x :: 0 <= x < e && x !in order ==> FreqOf(before)[x] == 0
  {
    forall x | 0 <= x < e && x !in order
      ensures FreqOf(before)[x] == 0
    {
      assert before[x].fc == 0;
    }
  }

  /** Lengths no limit has touched are a cheapest code. */
  lemma FreeIsBest(order: seq<nat>, before: seq<CtData>, lens: seq<nat>, e: nat, leaves: nat, m: nat, leafs: set<nat>)
    requires Built(order, before, e, leaves, leafs) && |lens| == e + leaves - 1 && m >= 1
    requires Descends(order, lens, e, leaves, m, |order|) && Overflows(order, lens, e, leaves, m, |order|) == 0
    requires Unused(before, e, leafs) && forall x :: x in leafs ==> x < e
    ensures IsBest(FreqOf(before)[..e], leafs, Table(order, lens, e)) && Bounded(Table(order, lens, e), m)
  {
    hide Cheapest, Overflows, Unused, Kraft, Pow2, Distinct, CostsAtLeast, Weighted, StillDads, Descends;
    UncutIsCheapest(order, before, lens, e, leaves, m, leafs);
    FirstPassKraft(order, lens, e, leaves, m);
    var t := Table(order, lens, e);
    forall x | 0 <= x < e
      ensures t[x] <= m && (t[x] > 0 <==> x in leafs)
    {
      LeafLength(order, lens, e, leaves, m, x);
    }
    assert Feasible(t, m, leafs);
  }

  lemma FreqsKept(order: seq<nat>, before: seq<CtData>, after: seq<CtData>, e: nat)
    requires Untouched(order, before, after, e, 0)
    ensures |after| == |before| && FreqOf(after) == FreqOf(before)
  {
  }

  lemma UncutResult(order: seq<nat>, before: seq<CtData>, lens: seq<nat>, desc: TreeDesc, leaves: nat, p: Progress,
                    leafs: set<nat>)
    requires desc.Valid() && Built(order, before, desc.elems, leaves, leafs)
    requires |lens| == desc.elems + leaves - 1 <= |before| && |p.tree| == |before|
    requires Descends(order, lens, desc.elems, leaves, desc.maxLength, |order|)
    requires Overflows(order, lens, desc.elems, leaves, desc.maxLength, |order|) == 0
    requires Unused(before, desc.elems, leafs) && (forall x :: x in leafs ==> x < desc.elems)
    requires FreqOf(p.tree) == FreqOf(before) && LensOf(p.tree, desc.elems) == Table(order, lens, desc.elems)
    requires p.counts == CountsOf(LensOf(p.tree, desc.elems)) && Bounded(LensOf(p.tree, desc.elems), desc.maxLength)
    requires forall x :: 0 <= x < desc.elems ==> (LensOf(p.tree, desc.elems)[x] > 0 <==> x in leafs)
    requires 2 * Kraft(LensOf(p.tree, desc.elems), desc.maxLength) == 2 * Pow2(desc.maxLength)
    ensures GoodLengths(p.tree, p.counts, desc.elems, desc.maxLength, leafs)
    ensures RarerNotShorter(p.tree, leafs)
  {
    hide Built, Unused, Descends, RarerNotShorter, Overflows;
    UncutIsFair(order, before, lens, desc.elems, leaves, desc.maxLength, leafs, p.tree);
  }

  // ----- forced codes -----

  lemma {:induction false} SumAdd(a: seq<nat>, b: seq<nat>, c: seq<nat>)
    requires |a| == |b| == |c| && forall i :: 0 <= i < |a| ==> a[i] == b[i] + c[i]
    ensures Sum(a) == Sum(b) + Sum(c)
  {
    if a != [] {
      var k := |a| - 1;
      SumAdd(a[..k], b[..k], c[..k]);
    }
  }

  lemma {:induction false} DotAdd(a: seq<nat>, b: seq<nat>, c: seq<nat>, w: seq<nat>)
    requires |a| == |b| == |c| <= |w| && forall i :: 0 <= i < |a| ==> a[i] == b[i] + c[i]
    ensures Dot(a, w) == Dot(b, w) + Dot(c, w)
  {
    if a != [] {
      var k := |a| - 1;
      DotAdd(a[..k], b[..k], c[..k], w);
      MulDist(b[k], c[k], w[k]);
    }
  }

  lemma {:induction false} KraftZero(t: Lengths, m: nat)
    requires forall i :: 0 <= i < |t| ==> t[i] == 0
    ensures Kraft(t, m) == 0
  {
    if t != [] {
      KraftZero(t[..|t| - 1], m);
    }
  }

  /** A complete code for two symbols gives each one bit. */
  lemma TwoLeavesOneBit(t: Lengths, m: nat, leafs: set<nat>, x: nat)
    requires Bounded(t, m) && Kraft(t, m) == Pow2(m) && |leafs| == 2 && x in leafs && x < |t|
    requires forall i :: 0 <= i < |t| ==> (t[i] > 0 <==> i in leafs)
    requires forall i :: i in leafs ==> i < |t|
    ensures t[x] == 1
  {
    hide Kraft;
    var rest := leafs - {x};
    assert leafs == rest + {x} && |rest| == 1;
    var y :| y in rest;
    assert rest == {y} by {
      var none := rest - {y};
      assert rest == none + {y};
      assert |none| == 0;
    }
    KraftSet(t, x, 0, m);
    KraftSet(t[x := 0], y, 0, m);
    KraftZero(t[x := 0][y := 0], m);
    HalfOfTwo(t[x], t[y], m);
  }

  lemma HalfOfTwo(a: nat, b: nat, m: nat)
    requires 1 <= a <= m && 1 <= b <= m && Weight(a, m) + Weight(b, m) == Pow2(m)
    ensures a == 1
  {
    Pow2Monotone(m - b, m - 1);
    if a >= 2 {
      Pow2Monotone(m - a, m - 2);
    }
  }

  /** Two tables: the frequencies before and after forcing. */
  ghost function ForcedFreqs(freqs: seq<nat>, forced: set<nat>): (f: seq<nat>)
    ensures |f| == |freqs|
  {
    seq(|freqs|, x requires 0 <= x < |freqs| => if x in forced then 1 else freqs[x])
  }

  lemma ForcedSums(freqs: seq<nat>, forced: set<nat>, w: seq<nat>)
    requires |w| == |freqs| && forall x :: x in forced && x < |freqs| ==> freqs[x] == 0
    ensures Sum(ForcedFreqs(freqs, forced)) == Sum(freqs) + Dot(Presence(forced, |freqs|), AllOnes(|freqs|))
    ensures Dot(ForcedFreqs(freqs, forced), w) == Dot(freqs, w) + Dot(Presence(forced, |freqs|), w)
  {
    var f, p := ForcedFreqs(freqs, forced), Presence(forced, |freqs|);
    SumAdd(f, freqs, p);
    SumTimes(p, AllOnes(|freqs|));
    assert Times(p, AllOnes(|freqs|)) == p;
    DotAdd(f, freqs, p, w);
  }

  /** Of two symbols that occur the rarer one never has the shorter code. */
  ghost predicate Fair(freqs: seq<nat>, t: Lengths) {
    && |t| == |freqs|
    && forall x, y {:trigger freqs[x], freqs[y]} ::
         0 <= x < |freqs| && 0 <= y < |freqs| && 0 < freqs[x] < freqs[y] ==> t[x] >= t[y]
  }

  lemma FairFromTree(tree: seq<CtData>, e: nat, leafs: set<nat>)
    requires e <= |tree| && RarerNotShorter(tree, leafs)
    requires forall x :: 0 <= x < e && Freqs(tree, e)[x] > 0 ==> x in leafs
    ensures Fair(Freqs(tree, e), LensOf(tree, e))
  {
    forall x | 0 <= x < e
      ensures Freqs(tree, e)[x] == tree[x].fc
    {
    }
  }

  /** static length + extra bits of each symbol. */
  ghost function StaticLengths(slens: seq<nat>, desc: TreeDesc): (v: seq<nat>)
    requires |slens| == desc.elems <= desc.extraBase + |desc.extra|
    ensures |v| == desc.elems
  {
    seq(desc.elems, x requires 0 <= x < desc.elems => slens[x] + desc.ExtraBits(x))
  }

  lemma StaticCostIsDot(tree: seq<CtData>, slens: seq<nat>, desc: TreeDesc)
    requires desc.elems <= |tree| && |slens| == desc.elems <= desc.extraBase + |desc.extra|
    ensures StaticCost(tree, slens, desc) == Dot(Freqs(tree, desc.elems), StaticLengths(slens, desc))
  {
    SumTimes(Freqs(tree, desc.elems), StaticLengths(slens, desc));
    assert Costs(Freqs(tree, desc.elems), slens, desc) == Times(Freqs(tree, desc.elems), StaticLengths(slens, desc));
  }

  // ----- build_tree -----

  /** What build_tree leaves in a tree: a complete canonical code of at most m bits
      in which every symbol that occurs has a code. */
  ghost predicate IsCode(tree: seq<CtData>, e: nat, m: nat, maxCode: nat, freqs: seq<nat>)
  {
    && e <= |tree| && |freqs| == e && 1 <= maxCode < e
    && var t := LensOf(tree, e);
    && Coded(tree, t) && Bounded(t, m) && m <= MAX_BITS && Kraft(t, MAX_BITS) == Pow2(MAX_BITS)
    && (forall x :: 0 <= x < e && freqs[x] > 0 ==> t[x] > 0)
    && (forall x :: maxCode < x < e ==> t[x] == 0) && t[maxCode] > 0
  }

  /** The lengths with the extra bits the deflate format sends after each code. */
  ghost function WithExtra(t: Lengths, desc: TreeDesc): (v: seq<nat>)
    requires |t| == desc.elems <= desc.extraBase + |desc.extra|
    ensures |v| == desc.elems
  {
    seq(desc.elems, x requires 0 <= x < desc.elems => t[x] + desc.ExtraBits(x))
  }

  /** When everything is ready to join: the heap holds the symbols that occur. */
  lemma ReadyToJoin(heap: seq<nat>, len: nat, maxCode: int, tree: seq<CtData>, depth: seq<nat>, e: nat)
    requires Collected(heap, len, maxCode, tree, e) && 2 <= len && |heap| == |depth| == HEAP_SIZE && 2 * e - 1 <= |tree|
    requires 3 <= e <= 286 && Sum(Freqs(tree, e)) <= MAX_TOTAL
    ensures var leafs := UsedSymbols(tree, e);
            && |leafs| == len <= e && (forall x :: x in leafs ==> x < e && x <= maxCode) && maxCode in leafs
            && maxCode >= 1
            && HeapHas(heap, len, leafs) && Nodes(heap, len, |tree|) && Nodes(heap, len, |depth|)
            && Total(FreqOf(tree), leafs) <= MAX_TOTAL
  {
    hide Dot, Sum;
    var leafs := UsedSymbols(tree, e);
    HeapMembers(heap, len, leafs);
    UsedAtMost(leafs, e);
    TotalIsSum(tree, e);
    if maxCode <= 0 {
      UsedAtMost(leafs, 1);
    }
  }

  lemma {:induction false} UsedAtMost(s: set<nat>, n: nat)
    ensures (forall x :: x in s ==> x < n) ==> |s| <= n
    decreases n
  {
    if n == 0 {
      if forall x :: x in s ==> x < n {
        assert s == {};
      }
    } else {
      var rest := s - {n - 1};
      UsedAtMost(rest, n - 1);
      assert s <= rest + {n - 1};
      assert |s| <= |rest| + 1 by {
        if n - 1 in s {
          assert s == rest + {n - 1};
        } else {
          assert s == rest;
        }
      }
    }
  }

  lemma TotalIsSum(tree: seq<CtData>, e: nat)
    requires e <= |tree|
    ensures Total(FreqOf(tree), UsedSymbols(tree, e)) == Sum(Freqs(tree, e))
  {
    hide Dot, Sum;
    var fc, leafs := FreqOf(tree), UsedSymbols(tree, e);
    DotSwap(fc, Presence(leafs, |fc|));
    DotTrim(Presence(leafs, |fc|), fc, e);
    assert Presence(leafs, |fc|)[..e] == Presence(leafs, e);
    SumTimes(Presence(leafs, e), fc);
    assert Times(Presence(leafs, e), fc) == Freqs(tree, e);
  }

  lemma {:induction false} DotSwap(a: seq<nat>, b: seq<nat>)
    requires |a| == |b|
    ensures Dot(a, b) == Dot(b, a)
  {
    if a != [] {
      var k := |a| - 1;
      DotSwap(a[..k], b[..k]);
      DotWhole(a, b, k);
      DotWhole(b, a, k);
    }
  }

  lemma {:induction false} DotWhole(a: seq<nat>, b: seq<nat>, k: nat)
    requires k <= |a| && k <= |b|
    ensures Dot(a[..k], b) == Dot(a[..k], b[..k])
  {
    DotPrefix(a[..k], b, b[..k]);
  }

  lemma JoiningStarts(heap: seq<nat>, tree: seq<CtData>, depth: seq<nat>, e: nat, leafs: set<nat>)
    requires |heap| == |depth| == HEAP_SIZE && 2 * e - 1 <= |tree| && 2 <= |leafs| <= e <= 286
    requires (forall x :: x in leafs ==> x < e) && HeapHas(heap, |leafs|, leafs)
    requires Nodes(heap, |leafs|, |tree|) && Nodes(heap, |leafs|, |depth|) && Ordered(heap, |leafs|, 1, tree, depth)
    requires Total(FreqOf(tree), leafs) <= MAX_TOTAL
    ensures Joining(heap, tree, depth, e, |leafs|, leafs, 0, leafs)
  {
    hide Ordered, HeapHas, Total;
    assert heap[HEAP_SIZE..] == [];
    assert leafs + Internals(e, 0) == leafs;
    var none: seq<nat> := [];
    assert multiset(none) + multiset(leafs) == multiset(leafs);
  }

  lemma UnusedNow(before: seq<CtData>, tree: seq<CtData>, e: nat, leafs: set<nat>)
    requires SymbolsKept(before, tree, e, leafs) && Unused(before, e, leafs) && e <= |tree|
    ensures Unused(tree, e, leafs) && Freqs(tree, e) == Freqs(before, e)
  {
    forall x | 0 <= x < e
      ensures tree[x].fc == before[x].fc
    {
    }
  }

  /** What the tree looks like once symbols are collected and forced. */
  lemma ForcedFacts(before: seq<CtData>, e: nat, slens: seq<nat>, forced: set<nat>, tree: seq<CtData>, saved: int,
                    savedStatic: int)
    requires e <= |before| && ForcedSoFar(Cleared(before, e), e, slens, forced, tree, saved, savedStatic)
    ensures |tree| == |before| && Freqs(Cleared(before, e), e) == Freqs(before, e)
    ensures Unused(tree, e, UsedSymbols(tree, e))
    ensures Freqs(tree, e) == ForcedFreqs(Freqs(before, e), forced)
    ensures forced <= UsedSymbols(tree, e)
    ensures forall x :: x in forced ==> x < e && Freqs(before, e)[x] == 0
    ensures forall x :: 0 <= x < e ==> (x in UsedSymbols(tree, e) <==> Freqs(tree, e)[x] > 0)
    ensures Sum(Freqs(tree, e)) == Sum(Freqs(before, e)) + saved
  {
    hide Dot, Sum;
    ForcedSums(Freqs(before, e), forced, AllOnes(e));
  }

  /** The part of build_tree before the joins. */
  method Prepare(b: TreeBuilder, tree: array<CtData>, stree: array?<CtData>, desc: TreeDesc, ghost slens: seq<nat>)
    returns (maxCode: nat, ghost leafs: set<nat>, ghost forced: set<nat>, ghost saved: int)
    requires b.Valid() && desc.Valid() && tree != stree && Static(stree, desc.elems, slens)
    requires 2 * desc.elems - 1 <= tree.Length
    requires Sum(Freqs(tree[..], desc.elems)) <= MAX_TOTAL - 2
    modifies b, b.heap, b.depth, tree
    ensures b.heapMax == HEAP_SIZE && b.heapLen == |leafs| && 2 <= |leafs| <= desc.elems
    ensures 1 <= maxCode < desc.elems && maxCode in leafs && forall x :: x in leafs ==> x < desc.elems && x <= maxCode
    ensures Joining(b.heap[..], tree[..], b.depth[..], desc.elems, |leafs|, leafs, 0, leafs)
    ensures ForcedSoFar(Cleared(old(tree[..]), desc.elems), desc.elems, slens, forced, tree[..],
                        old(b.optLen) - b.optLen, saved)
    ensures if stree != null then saved == old(b.staticLen) - b.staticLen else b.staticLen == old(b.staticLen)
    ensures forced != {} ==> |leafs| == 2
    ensures leafs == UsedSymbols(tree[..], desc.elems)
    ensures forced == Forced(Occurring(old(Freqs(tree[..], desc.elems))))
  {
    hide Collected, Dot, Sum, UsedSymbols, Forced, Occurring, Cleared, Forcing, Unused, Joining, HeapHas, Ordered,
         ForcedSoFar, ForcedFreqs, Total, Freqs;
    ghost var before, e := tree[..], desc.elems;
    var top := b.CollectSymbols(tree, desc.elems);
    OccurringSymbols(before, tree[..], e);
    ghost var o := b.optLen;
    var most;
    most, forced, saved := b.ForceTwo(tree, stree, desc, top, slens);
    ForcedFacts(before, e, slens, forced, tree[..], o - b.optLen, saved);
    ReadyToJoin(b.heap[..], b.heapLen, most, tree[..], b.depth[..], e);
    leafs := UsedSymbols(tree[..], e);
    maxCode := most;
    ghost var ts := tree[..];
    Heapify(b, tree, leafs);
    JoiningStarts(b.heap[..], tree[..], b.depth[..], e, leafs);
  }

  lemma CodesFinish(after: seq<CtData>, counts: seq<nat>, e: nat, m: nat, leafs: set<nat>)
    requires e <= |after| && GoodLengths(after, counts, e, m, leafs)
    ensures var t := LensOf(after, e);
            Bounded(t, MAX_BITS) && Kraft(t, MAX_BITS) == Pow2(MAX_BITS)
            && counts == CountsOf(t) && Bounded(t, m) && m <= MAX_BITS
            && Kraft(t, m) == Pow2(m) && (forall x :: 0 <= x < e ==> (t[x] > 0 <==> x in leafs))
  {
    hide Kraft, CountsOf;
    KraftScale(LensOf(after, e), m, MAX_BITS - m);
    Pow2Add(m, MAX_BITS - m);
    assert m + (MAX_BITS - m) == MAX_BITS;
  }

  /** Forced codes cost nothing: what their frequency adds was taken off beforehand. */
  lemma ForcedCostNothing(before: seq<CtData>, desc: TreeDesc, forced: set<nat>, slens: seq<nat>,
                          forcedTree: seq<CtData>, saved: int, savedStatic: int, leafs: set<nat>, t: Lengths)
    requires desc.Valid() && desc.elems <= |before| && |slens| == desc.elems == |t|
    requires ForcedSoFar(before, desc.elems, slens, forced, forcedTree, saved, savedStatic)
    requires forced <= leafs && (forced != {} ==> |leafs| == 2) && (forall x :: x in leafs ==> x < desc.elems)
    requires Bounded(t, desc.maxLength) && Kraft(t, desc.maxLength) == Pow2(desc.maxLength)
    requires forall x :: 0 <= x < desc.elems ==> (t[x] > 0 <==> x in leafs)
    ensures Dot(ForcedFreqs(Freqs(before, desc.elems), forced), WithExtra(t, desc)) - saved
         == Dot(Freqs(before, desc.elems), WithExtra(t, desc))
    ensures Dot(ForcedFreqs(Freqs(before, desc.elems), forced), StaticLengths(slens, desc)) - savedStatic
         == Dot(Freqs(before, desc.elems), StaticLengths(slens, desc))
  {
    hide Dot, Kraft, Pow2, Bounded, TreeDesc.Valid;
    ExtraFits(desc);
    var e := desc.elems;
    var f := Freqs(before, e);
    ForcedSums(f, forced, WithExtra(t, desc));
    ForcedSums(f, forced, StaticLengths(slens, desc));
    forall x | x in forced
      ensures x < e && t[x] == 1 && desc.ExtraBits(x) == 0
    {
      TwoLeavesOneBit(t, desc.maxLength, leafs, x);
      NoExtra(desc, x);
    }
    DotPrefix(Presence(forced, e), WithExtra(t, desc), AllOnes(e));
    DotPrefix(Presence(forced, e), StaticLengths(slens, desc), slens);
  }

  lemma ExtraFits(desc: TreeDesc)
    requires desc.Valid()
    ensures desc.elems <= desc.extraBase + |desc.extra|
  {
  }

  lemma NoExtra(desc: TreeDesc, x: nat)
    requires desc.Valid() && x <= 2
    ensures x < desc.elems && desc.ExtraBits(x) == 0
  {
  }

  ghost function Occurring(freqs: seq<nat>): set<nat> {
    set x: nat | x < |freqs| && freqs[x] > 0
  }

  lemma OccurringSymbols(before: seq<CtData>, tree: seq<CtData>, e: nat)
    requires e <= |before| && tree == Cleared(before, e)
    ensures UsedSymbols(tree, e) == Occurring(Freqs(before, e))
  {
  }

  lemma LeafsAre(freqs: seq<nat>, forced: set<nat>, leafs: set<nat>)
    requires forall x :: x in leafs ==> x < |freqs|
    requires forall x :: 0 <= x < |freqs| ==> (x in leafs <==> ForcedFreqs(freqs, forced)[x] > 0)
    requires forall x :: x in forced ==> x < |freqs|
    ensures leafs == Occurring(freqs) + forced
  {
  }

  lemma {:induction false} DotMonotone(w: seq<nat>, a: seq<nat>, b: seq<nat>)
    requires |w| <= |a| && |w| <= |b| && forall i :: 0 <= i < |w| ==> a[i] <= b[i]
    ensures Dot(w, a) <= Dot(w, b)
  {
    if w != [] {
      var k := |w| - 1;
      DotMonotone(w[..k], a, b);
      MulMonotone(w[k], a[k], b[k]);
    }
  }

  lemma MulMonotone(w: nat, a: nat, b: nat)
    requires a <= b
    ensures w * a <= w * b
  {
    MulDist(a, b - a, w);
  }

  /** Forcing changes nothing about what is cheapest and fair: there are then two codes of one bit. */
  lemma Unforced(freqs: seq<nat>, forced: set<nat>, leafs: set<nat>, t: Lengths, best: Lengths, m: nat)
    requires |t| == |freqs| && (forced != {} ==> |leafs| == 2) && (forall x :: x in leafs ==> x < |freqs|)
    requires forall x :: x in forced && x < |freqs| ==> freqs[x] == 0
    requires Bounded(t, m) && Kraft(t, m) == Pow2(m) && forall x :: 0 <= x < |t| ==> (t[x] > 0 <==> x in leafs)
    requires IsBest(ForcedFreqs(freqs, forced), leafs, best) && (t == best <==> Bounded(best, m))
    requires Sum(ForcedFreqs(freqs, forced)) < Fib(m + 3) || |leafs| == 2 ==> Bounded(best, m)
    requires Fair(ForcedFreqs(freqs, forced), t)
    ensures IsBest(freqs, leafs, best) && Fair(freqs, t)
    ensures Sum(freqs) < Fib(m + 3) ==> Bounded(best, m)
  {
    hide Dot, Kraft, Pow2, Sum, Bounded;
    var ff := ForcedFreqs(freqs, forced);
    forall x, y {:trigger freqs[x], freqs[y]} | 0 <= x < |freqs| && 0 <= y < |freqs| && 0 < freqs[x] < freqs[y]
      ensures t[x] >= t[y]
    {
      assert ff[x] == freqs[x] && ff[y] == freqs[y];
    }
    if forced == {} {
      assert ff == freqs;
    } else {
      forall l: Lengths, k: nat {:trigger Feasible(l, k, leafs)} | |l| == |freqs| && Feasible(l, k, leafs)
        ensures Dot(freqs, best) <= Dot(freqs, l)
      {
        forall x | 0 <= x < |freqs|
          ensures t[x] <= l[x]
        {
          if x in leafs {
            TwoLeavesOneBit(t, m, leafs, x);
          }
        }
        DotMonotone(freqs, t, l);
      }
    }
  }

  /** build_tree. The ghost results are the symbols that get a code, and the lengths of a cheapest code for them:
      those the tree is given unless one of them exceeds the limit. */
  method Build(b: TreeBuilder, tree: array<CtData>, stree: array?<CtData>, desc: TreeDesc, ghost slens: seq<nat>)
    returns (maxCode: nat, ghost leafs: set<nat>, ghost best: Lengths)
    requires b.Valid() && desc.Valid() && tree != stree && Static(stree, desc.elems, slens)
    requires 2 * desc.elems - 1 <= tree.Length
    requires Sum(Freqs(tree[..], desc.elems)) <= MAX_TOTAL - 2
    modifies b, b.heap, b.depth, b.blCount, tree
    ensures IsCode(tree[..], desc.elems, desc.maxLength, maxCode, old(Freqs(tree[..], desc.elems)))
    ensures b.optLen == old(b.optLen)
              + Dot(old(Freqs(tree[..], desc.elems)), WithExtra(LensOf(tree[..], desc.elems), desc))
    ensures b.staticLen == old(b.staticLen)
              + (if stree != null then Dot(old(Freqs(tree[..], desc.elems)), StaticLengths(slens, desc)) else 0)
    ensures var freqs := old(Freqs(tree[..], desc.elems));
            leafs == Occurring(freqs) + Forced(Occurring(freqs))
    ensures forall x :: 0 <= x < desc.elems ==> (LensOf(tree[..], desc.elems)[x] > 0 <==> x in leafs)
    ensures Fair(old(Freqs(tree[..], desc.elems)), LensOf(tree[..], desc.elems))
    ensures IsBest(old(Freqs(tree[..], desc.elems)), leafs, best)
    ensures LensOf(tree[..], desc.elems) == best <==> Bounded(best, desc.maxLength)
    ensures Sum(old(Freqs(tree[..], desc.elems))) < Fib(desc.maxLength + 3) ==> Bounded(best, desc.maxLength)
    ensures forall x {:trigger tree[x]} :: 0 <= x < desc.elems && tree[x].dl == 0 ==> tree[x].fc == 0
  {
    hide Collected, Dot, Sum, UsedSymbols, Cleared, Forcing, Unused, Joining, HeapHas, Ordered, Built, GoodLengths,
         RarerNotShorter, Cheapest, TreeCost, StaticCost, SymbolsKept, Kraft, Pow2, Bounded, Fair, WithExtra,
         StaticLengths, ForcedFreqs, ForcedSoFar, Coded, Total, IsBest, Occurring, Forced, Fib, IsCode, Freqs, FreqOf,
         LensOf;
    ghost var before, e := tree[..], desc.elems;
    ghost var freqs := Freqs(before, e);
    ghost var o, st := b.optLen, b.staticLen;
    ghost var forced, saved;
    maxCode, leafs, forced, saved := Prepare(b, tree, stree, desc, slens);
    ghost var ready := tree[..];
    ForcedFacts(before, e, slens, forced, ready, o - b.optLen, saved);
    LeafsAre(freqs, forced, leafs);
    JoinAll(b, tree, desc.elems, |leafs|, leafs);
    ghost var joined := tree[..];
    UnusedNow(ready, joined, e, leafs);
    ghost var o1 := b.optLen;
    LeafsWeigh(joined, e, leafs);
    best := GenerateLengths(b, tree, stree, desc, maxCode, |leafs|, leafs, slens);
    ghost var lengthed := tree[..];
    ghost var t := LensOf(lengthed, e);
    CodesFinish(lengthed, b.blCount[..], e, desc.maxLength, leafs);
    TreeFreqs(ready, joined, lengthed, e, leafs);
    ForcedCostNothing(Cleared(before, e), desc, forced, slens, ready, o - o1, saved, leafs, t);
    TreeCostIs(lengthed, desc);
    StaticCostIsDot(joined, slens, desc);
    FairFromTree(lengthed, e, leafs);
    Unforced(freqs, forced, leafs, t, best, desc.maxLength);
    ZeroBeyond(t, leafs, maxCode);
    NoneBeyond(tree[..], e, maxCode);
    GenerateCodes(tree, b.blCount, maxCode, e);
    Finished(lengthed, tree[..], desc, maxCode, freqs, Freqs(lengthed, e), forced, leafs);
  }

  lemma LeafsWeigh(tree: seq<CtData>, e: nat, leafs: set<nat>)
    requires e <= |tree| && (forall x :: x in leafs ==> x < e)
    requires forall x :: 0 <= x < e ==> (x in leafs <==> Freqs(tree, e)[x] > 0)
    ensures forall x :: x in leafs ==> tree[x].fc > 0
  {
    forall x | x in leafs
      ensures tree[x].fc > 0
    {
      assert Freqs(tree, e)[x] == tree[x].fc;
    }
  }

  lemma TreeFreqs(ready: seq<CtData>, joined: seq<CtData>, lengthed: seq<CtData>, e: nat, leafs: set<nat>)
    requires SymbolsKept(ready, joined, e, leafs) && FreqOf(lengthed) == FreqOf(joined) && e <= |ready|
    ensures |lengthed| == |ready| && Freqs(lengthed, e) == Freqs(ready, e) && FreqOf(joined)[..e] == Freqs(ready, e)
    ensures Freqs(joined, e) == Freqs(ready, e)
  {
    forall x | 0 <= x < e
      ensures lengthed[x].fc == ready[x].fc && FreqOf(joined)[x] == ready[x].fc && joined[x].fc == ready[x].fc
    {
      assert FreqOf(lengthed)[x] == FreqOf(joined)[x];
    }
  }

  lemma TreeCostIs(tree: seq<CtData>, desc: TreeDesc)
    requires desc.elems <= |tree| && desc.elems <= desc.extraBase + |desc.extra|
    ensures TreeCost(tree, desc) == Dot(Freqs(tree, desc.elems), WithExtra(LensOf(tree, desc.elems), desc))
  {
    assert FullLengths(tree, desc) == WithExtra(LensOf(tree, desc.elems), desc);
  }

  lemma ZeroBeyond(t: Lengths, leafs: set<nat>, maxCode: nat)
    requires forall x :: 0 <= x < |t| ==> (t[x] > 0 <==> x in leafs)
    requires forall x :: x in leafs ==> x <= maxCode
    ensures forall x :: maxCode < x < |t| ==> t[x] == 0
  {
  }

  lemma NoneBeyond(tree: seq<CtData>, e: nat, maxCode: nat)
    requires e <= |tree| && forall x :: maxCode < x < e ==> LensOf(tree, e)[x] == 0
    ensures forall x {:trigger tree[x]} :: maxCode < x < e ==> tree[x].dl == 0
  {
    forall x {:trigger tree[x]} | maxCode < x < e
      ensures tree[x].dl == 0
    {
      assert LensOf(tree, e)[x] == tree[x].dl;
    }
  }

  lemma Finished(lengthed: seq<CtData>, tree: seq<CtData>, desc: TreeDesc, maxCode: nat, freqs: seq<nat>,
                 forcedFreqs: seq<nat>, forced: set<nat>, leafs: set<nat>)
    requires desc.elems <= |lengthed| == |tree| && |freqs| == desc.elems && 1 <= maxCode < desc.elems
             && maxCode in leafs
    requires LensOf(tree, desc.elems) == LensOf(lengthed, desc.elems) && desc.maxLength <= MAX_BITS
    requires forcedFreqs == ForcedFreqs(freqs, forced) == Freqs(lengthed, desc.elems)
    requires Coded(tree, LensOf(tree, desc.elems))
    requires Bounded(LensOf(tree, desc.elems), desc.maxLength)
             && Kraft(LensOf(tree, desc.elems), MAX_BITS) == Pow2(MAX_BITS)
    requires forall x :: 0 <= x < desc.elems ==> (LensOf(tree, desc.elems)[x] > 0 <==> x in leafs)
    requires forall x :: 0 <= x < desc.elems ==> (x in leafs <==> forcedFreqs[x] > 0)
    requires forall x :: maxCode < x < desc.elems ==> LensOf(tree, desc.elems)[x] == 0
    requires forall x {:trigger tree[x]} ::
               0 <= x < |tree| && (x >= desc.elems || tree[x].dl == 0) ==> tree[x] == lengthed[x]
    ensures IsCode(tree, desc.elems, desc.maxLength, maxCode, freqs)
    ensures forall x {:trigger tree[x]} :: 0 <= x < desc.elems && tree[x].dl == 0 ==> tree[x].fc == 0
  {
    hide Coded, Bounded, Kraft, Pow2;
    var t := LensOf(tree, desc.elems);
    forall x | 0 <= x < desc.elems && freqs[x] > 0
      ensures t[x] > 0
    {
      assert forcedFreqs[x] > 0;
    }
    forall x {:trigger tree[x]} | 0 <= x < desc.elems && tree[x].dl == 0
      ensures tree[x].fc == 0
    {
      assert t[x] == 0;
      assert forcedFreqs[x] == lengthed[x].fc;
    }
  }
}
