/** The lengths a Huffman tree gives when no limit is set, and when the limit of gen_bitlen changes them. */
module UncutLengths {
  import opened BitStrings
  import opened Canonical
  import opened HeapQueue
  import opened Sums
  import opened CodeLengths

  // ----- the lightest tree of a given height -----

  function Fib(n: nat): nat {
    if n < 2 then n else Fib(n - 1) + Fib(n - 2)
  }

  lemma {:induction false} FibMonotone(a: nat, b: nat)
    requires a <= b
    ensures Fib(a) <= Fib(b)
  {
    if a < b {
      FibMonotone(a, b - 1);
    }
  }

  /** Every symbol in the tree occurs. */
  ghost predicate LeavesOccur(order: seq<nat>, fc: seq<nat>, e: nat) {
    forall x {:trigger x in order} :: x in order && x < e && x < |fc| ==> fc[x] >= 1
  }

  lemma NodesWeigh(order: seq<nat>, fc: seq<nat>, e: nat, leaves: nat, o: nat)
    requires TreeOrder(order, e, leaves) && Weighted(order, fc, e, leaves) && LeavesOccur(order, fc, e) && o < |order|
    ensures order[o] < |fc| && fc[order[o]] >= 1
  {
    var last := |order| - 1;
    assert order[last] < Dad(e, leaves, last) == e;
    assert order[last] in order;
  }

  /** From two nodes in line, k steps above a leaf, up to the root: each step adds at least the weight
      two steps below it. */
  lemma {:induction false} Climb(order: seq<nat>, fc: seq<nat>, lens: seq<nat>, e: nat, leaves: nat, m: nat, child: nat,
                                 at: nat, k: nat)
    requires TreeOrder(order, e, leaves) && Weighted(order, fc, e, leaves) && |lens| == e + leaves - 1 && m >= 1
    requires Descends(order, lens, e, leaves, m, |order|)
    requires at < child < |order| && Dad(e, leaves, child) == order[at]
    requires order[child] < |fc| && fc[order[child]] >= Fib(k + 1) && order[at] < |fc| && fc[order[at]] >= Fib(k + 2)
    ensures order[at] < |lens| && order[0] < |fc| && fc[order[0]] >= Fib(k + 2 + lens[order[at]])
    decreases at
  {
    DescendsBounded(order, lens, e, leaves, m, at);
    if at > 0 {
      DadEarlier(order, e, leaves, at);
      var up :| 0 <= up < at && order[up] == Dad(e, leaves, at);
      FatherIsSum(order, fc, e, leaves, at);
      var beside := Sibling(at);
      assert fc[order[beside]] >= fc[order[child]] by {
        assert beside <= child;
      }
      assert Fib(k + 3) == Fib(k + 2) + Fib(k + 1);
      DadBounded(order, lens, e, leaves, m, at);
      Climb(order, fc, lens, e, leaves, m, at, up, k + 1);
      FibMonotone(k + 2 + lens[order[at]], k + 3 + lens[order[up]]);
    }
  }

  /** A node pushed up to the limit means a heavy root. */
  lemma {:induction false} OverflowIsHeavy(order: seq<nat>, fc: seq<nat>, lens: seq<nat>, e: nat, leaves: nat, m: nat,
                                           k: nat)
    requires TreeOrder(order, e, leaves) && Weighted(order, fc, e, leaves) && LeavesOccur(order, fc, e)
    requires |lens| == e + leaves - 1 && m >= 1 && 1 <= k <= |order|
    requires Descends(order, lens, e, leaves, m, |order|)
    ensures order[0] < |fc|
    ensures Overflows(order, lens, e, leaves, m, k) > 0 ==> fc[order[0]] >= Fib(m + 3)
    decreases k
  {
    if k > 1 {
      OverflowIsHeavy(order, fc, lens, e, leaves, m, k - 1);
      var child := k - 1;
      DadEarlier(order, e, leaves, child);
      if lens[Dad(e, leaves, child)] == m {
        var at :| 0 <= at < child && order[at] == Dad(e, leaves, child);
        FatherIsSum(order, fc, e, leaves, child);
        NodesWeigh(order, fc, e, leaves, child);
        NodesWeigh(order, fc, e, leaves, Sibling(child));
        assert Fib(2) == 1 && Fib(3) == 2;
        Climb(order, fc, lens, e, leaves, m, child, at, 1);
      }
    }
  }

  /** What hangs in the tree never changes: the root weighs what all leaves weigh. */
  lemma {:induction false} PendingTotal(order: seq<nat>, fc: seq<nat>, e: nat, leaves: nat, ones: seq<nat>, k: nat)
    requires TreeOrder(order, e, leaves) && Weighted(order, fc, e, leaves) && 1 <= k <= |order|
    requires |ones| == e + leaves - 1 <= |fc| && forall i :: 0 <= i < |ones| ==> ones[i] == 1
    ensures order[0] < |fc| && Dot(Pending(order, fc, e, leaves, k), ones) == fc[order[0]]
  {
    hide Dot, Distinct, Weighted, Pending;
    if k == 1 {
      PendingFirst(order, fc, e, leaves, ones);
    } else {
      PendingTotal(order, fc, e, leaves, ones, k - 1);
      PendingStep(order, fc, e, leaves, k - 1);
      var f, d, n := Pending(order, fc, e, leaves, k - 1), Dad(e, leaves, k - 1), order[k - 1];
      DotMove(f, ones, d, fc[n], n, fc[n], 1);
      assert ones[n := 1] == ones;
    }
  }

  lemma RootWeighs(order: seq<nat>, fc: seq<nat>, e: nat, leaves: nat)
    requires TreeOrder(order, e, leaves) && Weighted(order, fc, e, leaves)
    ensures order[0] < |fc|
  {
  }

  lemma PendingFirst(order: seq<nat>, fc: seq<nat>, e: nat, leaves: nat, ones: seq<nat>)
    requires TreeOrder(order, e, leaves) && Weighted(order, fc, e, leaves)
    requires |ones| == e + leaves - 1 <= |fc| && forall i :: 0 <= i < |ones| ==> ones[i] == 1
    ensures order[0] < |fc| && Dot(Pending(order, fc, e, leaves, 1), ones) == fc[order[0]]
  {
    hide Dot, Distinct, Weighted;
    RootWeighs(order, fc, e, leaves);
    var f := Pending(order, fc, e, leaves, 1);
    assert order[..1] == [order[0]];
    var zero := seq(|f|, _ => 0);
    assert f == zero[order[0] := fc[order[0]]];
    DotZero(zero, ones);
    DotSetLeft(zero, ones, order[0], fc[order[0]]);
  }

  lemma RootIsTotal(order: seq<nat>, fc: seq<nat>, e: nat, leaves: nat)
    requires TreeOrder(order, e, leaves) && Weighted(order, fc, e, leaves) && e + leaves - 1 <= |fc|
    requires forall x :: 0 <= x < e && x !in order ==> fc[x] == 0
    ensures order[0] < |fc| && fc[order[0]] == Sum(fc[..e])
  {
    hide Dot, Sum, Distinct, Pending, Weighted;
    var ones := seq(e + leaves - 1, _ => 1);
    PendingTotal(order, fc, e, leaves, ones, |order|);
    NothingPending(order, fc, e, leaves);
    DotTrim(Pending(order, fc, e, leaves, |order|), ones, e);
    SumTimes(fc[..e], ones);
    assert Times(fc[..e], ones) == fc[..e];
  }

  /** In the end only the leaves are left. */
  lemma NothingPending(order: seq<nat>, fc: seq<nat>, e: nat, leaves: nat)
    requires TreeOrder(order, e, leaves) && Weighted(order, fc, e, leaves) && e + leaves - 1 <= |fc|
    requires forall x :: 0 <= x < e && x !in order ==> fc[x] == 0
    ensures var f := Pending(order, fc, e, leaves, |order|);
            f[..e] == fc[..e] && forall x :: e <= x < |f| ==> f[x] == 0
  {
    hide Distinct, Weighted;
    assert order[..|order|] == order;
  }

  /** Light enough, and no length meets the limit. */
  lemma LightIsUncut(order: seq<nat>, fc: seq<nat>, lens: seq<nat>, e: nat, leaves: nat, m: nat)
    requires TreeOrder(order, e, leaves) && Weighted(order, fc, e, leaves) && LeavesOccur(order, fc, e)
    requires |lens| == e + leaves - 1 <= |fc| && m >= 1
    requires Descends(order, lens, e, leaves, m, |order|)
    requires forall x :: 0 <= x < e && x !in order ==> fc[x] == 0
    ensures Sum(fc[..e]) < Fib(m + 3) ==> Overflows(order, lens, e, leaves, m, |order|) == 0
  {
    hide Sum, Descends, Overflows;
    RootIsTotal(order, fc, e, leaves);
    OverflowIsHeavy(order, fc, lens, e, leaves, m, |order|);
  }

  lemma TwoLeavesUncut(order: seq<nat>, lens: seq<nat>, e: nat, m: nat)
    requires TreeOrder(order, e, 2) && |lens| == e + 1 && m >= 1 && Descends(order, lens, e, 2, m, |order|)
    ensures Overflows(order, lens, e, 2, m, |order|) == 0
  {
    assert Dad(e, 2, 1) == e == Dad(e, 2, 2) == order[0];
    assert Overflows(order, lens, e, 2, m, 2) == 0;
  }

  // ----- without a limit -----

  /** No node is deeper than its place in the order. */
  lemma {:induction false} DepthBelowPlace(order: seq<nat>, lens: seq<nat>, e: nat, leaves: nat, m: nat, o: nat)
    requires TreeOrder(order, e, leaves) && |lens| == e + leaves - 1 && o < |order| && m >= 1
    requires Descends(order, lens, e, leaves, m, |order|)
    ensures order[o] < |lens| && lens[order[o]] <= o
  {
    if o > 0 {
      DadBounded(order, lens, e, leaves, m, o);
      DadEarlier(order, e, leaves, o);
      var q :| 0 <= q < o && order[q] == Dad(e, leaves, o);
      DepthBelowPlace(order, lens, e, leaves, m, q);
    }
  }

  /** A limit beyond the number of nodes is never met. */
  lemma {:induction false} FarLimit(order: seq<nat>, lens: seq<nat>, e: nat, leaves: nat, m: nat, k: nat)
    requires TreeOrder(order, e, leaves) && |lens| == e + leaves - 1 && m >= |order| && 1 <= k <= |order|
    requires Descends(order, lens, e, leaves, m, |order|)
    ensures Overflows(order, lens, e, leaves, m, k) == 0
    decreases k
  {
    if k > 1 {
      FarLimit(order, lens, e, leaves, m, k - 1);
      DadEarlier(order, e, leaves, k - 1);
      var q :| 0 <= q < k - 1 && order[q] == Dad(e, leaves, k - 1);
      DepthBelowPlace(order, lens, e, leaves, m, q);
    }
  }

  /** A limit cuts each length at the limit and changes nothing else. */
  lemma {:induction false} LimitCuts(order: seq<nat>, lens: seq<nat>, free: seq<nat>, e: nat, leaves: nat, m: nat,
                                     far: nat, o: nat)
    requires TreeOrder(order, e, leaves) && |lens| == |free| == e + leaves - 1 && 1 <= m <= far && o < |order| <= far
    requires Descends(order, lens, e, leaves, m, |order|) && Descends(order, free, e, leaves, far, |order|)
    ensures order[o] < |lens| && lens[order[o]] == if free[order[o]] > m then m else free[order[o]]
  {
    DescendsBounded(order, lens, e, leaves, m, o);
    if o > 0 {
      DadEarlier(order, e, leaves, o);
      var q :| 0 <= q < o && order[q] == Dad(e, leaves, o);
      LimitCuts(order, lens, free, e, leaves, m, far, q);
      DepthBelowPlace(order, free, e, leaves, far, q);
      DadBounded(order, lens, e, leaves, m, o);
      DadBounded(order, free, e, leaves, far, o);
    }
  }

  /** If the free lengths keep the limit, the limit was not met: otherwise they would have two Kraft sums. */
  lemma FreeKeepsLimit(order: seq<nat>, lens: seq<nat>, free: seq<nat>, e: nat, leaves: nat, m: nat, far: nat)
    requires TreeOrder(order, e, leaves) && |lens| == |free| == e + leaves - 1 && 1 <= m && far == m + |order|
    requires Descends(order, lens, e, leaves, m, |order|) && Descends(order, free, e, leaves, far, |order|)
    ensures Bounded(Table(order, free, e), m) ==> Overflows(order, lens, e, leaves, m, |order|) == 0
  {
    hide Kraft, Overflows, Pow2, Descends, Distinct;
    var t, s := Table(order, free, e), Table(order, lens, e);
    FirstPassKraft(order, lens, e, leaves, m);
    FirstPassKraft(order, free, e, leaves, far);
    FarLimit(order, free, e, leaves, far, |order|);
    if Bounded(t, m) {
      forall x | 0 <= x < e
        ensures s[x] == t[x]
      {
        if x in order {
          var o :| 0 <= o < |order| && order[o] == x;
          LimitCuts(order, lens, free, e, leaves, m, far, o);
          assert t[x] <= m;
        }
      }
      assert s == t;
      KraftScale(t, m, |order|);
      Pow2Add(m, |order|);
      SameFactor(Kraft(t, m), Pow2(m), Pow2(|order|));
    }
  }

  lemma SameFactor(a: nat, b: nat, p: nat)
    requires a * p == b * p && p > 0
    ensures a == b
  {
    MulStep(a, b, p);
    MulStep(b, a, p);
  }
}
