/** The forest build_tree works on: the nodes already hung under a father, in the
    order in which they were taken off the heap, and the roots still active. */
module Forest {
  import opened BitStrings
  import opened HeapQueue
  import opened Sums
  import opened CodeLengths
  import opened GenBitlen
  import opened Optimality

  const MAX_TOTAL: nat := 65535

  /** The first t internal nodes. */
  ghost function Internals(e: nat, t: nat): (s: set<nat>)
    ensures forall x {:trigger x in s} :: x in s <==> e <= x < e + t
  {
    if t == 0 then {} else Internals(e, t - 1) + {e + t - 1}
  }

  ghost function FreqOf(tree: seq<CtData>): (f: seq<nat>)
    ensures |f| == |tree|
  {
    seq(|tree|, i requires 0 <= i < |tree| => tree[i].fc)
  }

  ghost function Presence(act: set<nat>, size: nat): (p: seq<nat>)
    ensures |p| == size
  {
    seq(size, i => if i in act then 1 else 0)
  }

  /** The frequencies of the active roots together. */
  ghost function Total(fc: seq<nat>, act: set<nat>): nat {
    Dot(fc, Presence(act, |fc|))
  }

  /** After t joins: done lists the nodes that have a father, latest first. */
  ghost predicate IsForest(done: seq<nat>, act: set<nat>, tree: seq<CtData>, e: nat, leaves: nat, t: nat,
                           leafs: set<nat>) {
    && |done| == 2 * t && t < leaves && |act| == leaves - t && e + leaves - 1 <= |tree|
    && (forall x :: x in leafs ==> x < e)
    && multiset(done) + multiset(act) == multiset(leafs + Internals(e, t))
    && (t > 0 ==> e + t - 1 in act)
    && (forall o {:trigger done[o]} ::
          0 <= o < |done| ==> done[o] < |tree| && done[o] < e + t - 1 - o / 2 == tree[done[o]].dl)
  }

  /** The frequencies of a forest built by always joining the two lightest roots. */
  ghost predicate IsSorted(done: seq<nat>, act: set<nat>, fc: seq<nat>, e: nat, t: nat) {
    && |done| == 2 * t && e + t <= |fc|
    && (forall x :: x in act ==> x < |fc|)
    && (forall o {:trigger done[o]} :: 0 <= o < |done| ==> done[o] < |fc|)
    && (forall p, q {:trigger done[p], done[q]} :: 0 <= p < q < |done| ==> fc[done[p]] >= fc[done[q]])
    && (forall o, x {:trigger done[o], x in act} :: 0 <= o < |done| && x in act ==> fc[done[o]] <= fc[x])
    && (forall x {:trigger LastSon(e, t + 1, x)} :: e <= x < e + t ==>
          fc[x] == fc[done[LastSon(e, t + 1, x) - 2]] + fc[done[LastSon(e, t + 1, x) - 1]])
  }

  // ----- multisets and sets -----

  lemma InForest(done: seq<nat>, act: set<nat>, tree: seq<CtData>, e: nat, leaves: nat, t: nat, leafs: set<nat>, x: nat)
    requires IsForest(done, act, tree, e, leaves, t, leafs)
    ensures x in act ==> x in leafs + Internals(e, t) && x < e + t && x !in done
    ensures x in done ==> x in leafs + Internals(e, t)
    ensures x in leafs + Internals(e, t) ==> x in act || x in done
  {
    var all := multiset(leafs + Internals(e, t));
    assert all[x] == multiset(done)[x] + multiset(act)[x];
    assert x in done <==> multiset(done)[x] > 0;
  }

  lemma DistinctFromMultiset(s: seq<nat>, m: multiset<nat>)
    requires forall x :: m[x] <= 1
    requires multiset(s) <= m
    ensures Distinct(s)
  {
    forall i, j | 0 <= i < j < |s|
      ensures s[i] != s[j]
    {
      assert s == s[..i] + [s[i]] + s[i + 1..j] + [s[j]] + s[j + 1..];
      assert multiset(s)[s[i]] >= multiset([s[i]])[s[i]] + multiset([s[j]])[s[i]];
      assert multiset(s)[s[i]] <= 1;
    }
  }

  /** One join: the roots n and m get the new father e + t. */
  function Join(tree: seq<CtData>, n: nat, m: nat, node: nat): seq<CtData>
    requires n < |tree| && m < |tree| && node < |tree|
  {
    var a := tree[node := tree[node].(fc := (tree[n].fc + tree[m].fc) % 0x10000)];
    var b := a[m := a[m].(dl := node)];
    b[n := b[n].(dl := node)]
  }

  /** The join moves n and m from the roots to the rest, and adds a root. */
  lemma {:induction false} JoinElements(done: seq<nat>, act: set<nat>, all: set<nat>, n: nat, m: nat, node: nat)
    requires multiset(done) + multiset(act) == multiset(all)
    requires n in act && m in act && n != m && node !in all
    ensures multiset([m, n] + done) + multiset(act - {n, m} + {node}) == multiset(all + {node})
    ensures |act - {n, m} + {node}| == |act| - 1
  {
    assert node !in act by {
      assert multiset(all)[node] == multiset(done)[node] + multiset(act)[node];
    }
    assert {n, m} <= act && |{n, m}| == 2;
    assert act == (act - {n, m}) + {n, m};
    assert multiset(act) == multiset(act - {n, m}) + multiset{n, m};
    assert multiset([m, n] + done) == multiset{n, m} + multiset(done);
    assert multiset(act - {n, m} + {node}) == multiset(act - {n, m}) + multiset{node};
    assert multiset(all + {node}) == multiset(all) + multiset{node};
  }

  lemma {:induction false} JoinDads(done: seq<nat>, tree: seq<CtData>, e: nat, t: nat, n: nat, m: nat)
    requires n < |tree| && m < |tree| && e + t < |tree| && n != m && n < e + t && m < e + t
    requires n !in done && m !in done && e + t !in done
    requires forall o {:trigger done[o]} ::
               0 <= o < |done| ==> done[o] < |tree| && done[o] < e + t - 1 - o / 2 == tree[done[o]].dl
    ensures var done', after := [m, n] + done, Join(tree, n, m, e + t);
            forall o {:trigger done'[o]} ::
              0 <= o < |done'| ==> done'[o] < |after| && done'[o] < e + t - o / 2 == after[done'[o]].dl
  {
    var done', after := [m, n] + done, Join(tree, n, m, e + t);
    forall o {:trigger done'[o]} | 0 <= o < |done'|
      ensures done'[o] < |after| && done'[o] < e + t - o / 2 == after[done'[o]].dl
    {
      if o >= 2 {
        assert done'[o] == done[o - 2] && done[o - 2] in done;
      }
    }
  }

  lemma {:induction false} TwoRoots(done: seq<nat>, act: set<nat>, tree: seq<CtData>, e: nat, leaves: nat, t: nat,
                                    leafs: set<nat>, n: nat, m: nat)
    requires IsForest(done, act, tree, e, leaves, t, leafs)
    requires n in act && m in act && n != m
    ensures n < e + t < |tree| && m < e + t && n !in done && m !in done && t + 1 < leaves
    ensures e + t !in act && e + t !in done && e + t !in leafs + Internals(e, t)
  {
    InForest(done, act, tree, e, leaves, t, leafs, n);
    InForest(done, act, tree, e, leaves, t, leafs, m);
    InForest(done, act, tree, e, leaves, t, leafs, e + t);
    TwoMembers(act, n, m);
  }

  lemma TwoMembers(act: set<nat>, n: nat, m: nat)
    requires n in act && m in act && n != m
    ensures |act| >= 2
  {
    assert {n, m} <= act && |{n, m}| == 2;
    assert act == {n, m} + (act - {n, m});
  }

  lemma {:induction false} ForestStep(done: seq<nat>, act: set<nat>, tree: seq<CtData>, e: nat, leaves: nat, t: nat,
                                      leafs: set<nat>, n: nat, m: nat)
    requires IsForest(done, act, tree, e, leaves, t, leafs)
    requires n in act && m in act && n != m
    ensures n < |tree| && m < |tree| && e + t < |tree| && t + 1 < leaves
    ensures e + t !in act && e + t !in done
    ensures IsForest([m, n] + done, act - {n, m} + {e + t}, Join(tree, n, m, e + t), e, leaves, t + 1, leafs)
  {
    hide Join, Internals;
    TwoRoots(done, act, tree, e, leaves, t, leafs, n, m);
    JoinElements(done, act, leafs + Internals(e, t), n, m, e + t);
    NextInternal(leafs, e, t);
    JoinDads(done, tree, e, t, n, m);
    JoinSize(tree, n, m, e + t);
    ForestIs([m, n] + done, act - {n, m} + {e + t}, Join(tree, n, m, e + t), e, leaves, t + 1, leafs);
  }

  lemma NextInternal(leafs: set<nat>, e: nat, t: nat)
    ensures leafs + Internals(e, t + 1) == leafs + Internals(e, t) + {e + t}
  {
    var a, b := leafs + Internals(e, t + 1), leafs + Internals(e, t) + {e + t};
    forall x
      ensures x in a <==> x in b
    {
    }
  }

  lemma ForestIs(done: seq<nat>, act: set<nat>, tree: seq<CtData>, e: nat, leaves: nat, t: nat, leafs: set<nat>)
    requires |done| == 2 * t && t < leaves && |act| == leaves - t && e + leaves - 1 <= |tree|
    requires forall x :: x in leafs ==> x < e
    requires multiset(done) + multiset(act) == multiset(leafs + Internals(e, t))
    requires t > 0 && e + t - 1 in act
    requires forall o {:trigger done[o]} ::
               0 <= o < |done| ==> done[o] < |tree| && done[o] < e + t - 1 - o / 2 == tree[done[o]].dl
    ensures IsForest(done, act, tree, e, leaves, t, leafs)
  {
  }

  lemma JoinSize(tree: seq<CtData>, n: nat, m: nat, node: nat)
    requires n < |tree| && m < |tree| && node < |tree| && n != node && m != node
    ensures |Join(tree, n, m, node)| == |tree|
    ensures (tree[n].fc + tree[m].fc) < 0x10000 ==>
              FreqOf(Join(tree, n, m, node)) == FreqOf(tree)[node := tree[n].fc + tree[m].fc]
  {
  }

  /** The nodes set aside, after another pair. */
  lemma WeightsKept(done: seq<nat>, act: set<nat>, fc: seq<nat>, e: nat, t: nat, n: nat, m: nat)
    requires IsSorted(done, act, fc, e, t) && e + t < |fc|
    requires n in act && m in act && n != m && fc[n] <= fc[m]
    requires forall x :: x in act && x != n ==> fc[m] <= fc[x]
    requires e + t !in act && e + t !in done
    ensures var done', fc' := [m, n] + done, fc[e + t := fc[n] + fc[m]];
            forall o {:trigger done'[o]} :: 0 <= o < |done'| ==>
              done'[o] < |fc'| && fc'[done'[o]] == fc[done'[o]] && fc[done'[o]] <= fc[m]
  {
    var done' := [m, n] + done;
    forall o {:trigger done'[o]} | 0 <= o < |done'|
      ensures done'[o] < |fc| && done'[o] != e + t && fc[done'[o]] <= fc[m]
    {
      if o >= 2 {
        assert done'[o] == done[o - 2] && done[o - 2] in done;
      }
    }
  }

  lemma StillDescending(done: seq<nat>, act: set<nat>, fc: seq<nat>, e: nat, t: nat, n: nat, m: nat)
    requires IsSorted(done, act, fc, e, t) && e + t < |fc|
    requires n in act && m in act && n != m && fc[n] <= fc[m]
    requires forall x :: x in act && x != n ==> fc[m] <= fc[x]
    requires e + t !in act && e + t !in done
    ensures var done' := [m, n] + done;
            forall p, q {:trigger done'[p], done'[q]} :: 0 <= p < q < |done'| ==>
              done'[p] < |fc| && done'[q] < |fc| && fc[done'[p]] >= fc[done'[q]]
  {
    var done' := [m, n] + done;
    forall p, q {:trigger done'[p], done'[q]} | 0 <= p < q < |done'|
      ensures done'[p] < |fc| && done'[q] < |fc| && fc[done'[p]] >= fc[done'[q]]
    {
      if q >= 2 {
        assert done'[q] == done[q - 2];
        if p >= 2 {
          assert done'[p] == done[p - 2];
        }
      }
    }
  }

  lemma SonsStillWeigh(done: seq<nat>, act: set<nat>, fc: seq<nat>, e: nat, t: nat, n: nat, m: nat)
    requires IsSorted(done, act, fc, e, t) && e + t < |fc|
    requires n in act && m in act && n != m && fc[n] <= fc[m]
    requires forall x :: x in act && x != n ==> fc[m] <= fc[x]
    requires e + t !in act && e + t !in done
    ensures var done', fc' := [m, n] + done, fc[e + t := fc[n] + fc[m]];
            forall x {:trigger LastSon(e, t + 2, x)} :: e <= x < e + t + 1 ==>
              var p, q := done'[LastSon(e, t + 2, x) - 2], done'[LastSon(e, t + 2, x) - 1];
              p < |fc| && q < |fc| && fc'[x] == fc[p] + fc[q]
  {
    var done' := [m, n] + done;
    forall x {:trigger LastSon(e, t + 2, x)} | e <= x < e + t
      ensures var p, q := done'[LastSon(e, t + 2, x) - 2], done'[LastSon(e, t + 2, x) - 1];
              p < |fc| && q < |fc| && fc[x] == fc[p] + fc[q]
    {
      assert LastSon(e, t + 2, x) == LastSon(e, t + 1, x) + 2;
      assert done'[LastSon(e, t + 2, x) - 2] == done[LastSon(e, t + 1, x) - 2];
      assert done'[LastSon(e, t + 2, x) - 1] == done[LastSon(e, t + 1, x) - 1];
    }
  }

  lemma SortedStep(done: seq<nat>, act: set<nat>, fc: seq<nat>, e: nat, t: nat, n: nat, m: nat)
    requires IsSorted(done, act, fc, e, t) && e + t < |fc|
    requires n in act && m in act && n != m && fc[n] <= fc[m]
    requires forall x :: x in act && x != n ==> fc[m] <= fc[x]
    requires e + t !in act && e + t !in done
    ensures IsSorted([m, n] + done, act - {n, m} + {e + t}, fc[e + t := fc[n] + fc[m]], e, t + 1)
  {
    WeightsKept(done, act, fc, e, t, n, m);
    StillDescending(done, act, fc, e, t, n, m);
    SonsStillWeigh(done, act, fc, e, t, n, m);
  }

  /** Joining keeps the total, and so never exceeds 16 bits. */
  lemma {:induction false} TotalStep(fc: seq<nat>, act: set<nat>, n: nat, m: nat, node: nat)
    requires n in act && m in act && n != m && n < |fc| && m < |fc| && node < |fc| && node !in act
    ensures fc[n] + fc[m] <= Total(fc, act)
    ensures Total(fc[node := fc[n] + fc[m]], act - {n, m} + {node}) == Total(fc, act)
  {
    hide Dot;
    var p := Presence(act, |fc|);
    var p1 := p[n := 0];
    var p2 := p1[m := 0];
    DotSetRight(fc, p, n, 0);
    DotSetRight(fc, p1, m, 0);
    var fc' := fc[node := fc[n] + fc[m]];
    DotSetLeft(fc, p2, node, fc[n] + fc[m]);
    DotSetRight(fc', p2, node, 1);
    assert Presence(act - {n, m} + {node}, |fc'|) == p2[node := 1];
  }
}
