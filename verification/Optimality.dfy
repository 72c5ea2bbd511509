/** Why joining the two lightest roots is right: no assignment of code lengths
    that any prefix code could have costs less than the tree built so. */
module Optimality {
  import opened BitStrings
  import opened Canonical
  import opened Sums

  /** l gives a length to exactly the nodes in act, and some prefix code has these
      lengths (Kraft's inequality). */
  ghost predicate Feasible(l: Lengths, k: nat, act: set<nat>) {
    && Bounded(l, k) && Kraft(l, k) <= Pow2(k)
    && (forall i :: i in act ==> i < |l|)
    && (forall i :: 0 <= i < |l| ==> (l[i] > 0 <==> i in act))
  }

  // ----- how the Kraft sum changes -----

  lemma {:induction false} KraftSet(l: Lengths, i: nat, x: nat, k: nat)
    requires i < |l|
    ensures Kraft(l[i := x], k) + Weight(l[i], k) == Kraft(l, k) + Weight(x, k)
  {
    var j := |l| - 1;
    if i == j {
      assert l[i := x][..j] == l[..j];
    } else {
      KraftSet(l[..j], i, x, k);
      assert l[i := x][..j] == l[..j][i := x];
    }
  }

  function Swapped(l: Lengths, i: nat, j: nat): (r: Lengths)
    requires i < |l| && j < |l|
    ensures |r| == |l|
  {
    l[i := l[j]][j := l[i]]
  }

  /** Giving the longer of two codes to the lighter node costs no more. */
  lemma {:induction false} SwapHelps(l: Lengths, k: nat, act: set<nat>, fc: seq<nat>, i: nat, j: nat)
    requires Feasible(l, k, act) && |fc| == |l| && i in act && j in act && i < |l| && j < |l|
    requires l[i] <= l[j] && fc[i] <= fc[j]
    ensures Feasible(Swapped(l, i, j), k, act)
    ensures Dot(fc, Swapped(l, i, j)) <= Dot(fc, l)
  {
    hide Dot, Kraft, Weight;
    var l1 := l[i := l[j]];
    KraftSet(l, i, l[j], k);
    KraftSet(l1, j, l[i], k);
    DotSetRight(fc, l, i, l[j]);
    DotSetRight(fc, l1, j, l[i]);
    Rearrange(fc[i], fc[j], l[i], l[j]);
  }

  lemma Rearrange(a: nat, b: nat, x: nat, y: nat)
    requires a <= b && x <= y
    ensures a * y + b * x <= a * x + b * y
  {
    var d, e: nat := b - a, y - x;
    assert b * y == (a + d) * y == a * y + d * y;
    assert b * x == (a + d) * x == a * x + d * x;
    assert d * y == d * (x + e) == d * x + d * e;
  }

  /** The index of a longest code. */
  lemma {:induction false} Longest(l: Lengths) returns (a: nat)
    requires l != []
    ensures a < |l| && forall i :: 0 <= i < |l| ==> l[i] <= l[a]
  {
    if |l| == 1 {
      a := 0;
    } else {
      a := Longest(l[..|l| - 1]);
      if l[|l| - 1] > l[a] {
        a := |l| - 1;
      }
    }
  }

  /** A single longest code can be cut to the length of the next longest. */
  lemma {:induction false} CutLongest(l: Lengths, k: nat, act: set<nat>, n: nat, q: nat)
    requires Feasible(l, k, act) && n in act && 1 <= q < l[n]
    requires forall i :: 0 <= i < |l| && i != n ==> l[i] <= q
    ensures Feasible(l[n := q], k, act)
  {
    hide Kraft, Pow2;
    var rest := l[n := 0];
    KraftSet(l, n, 0, k);
    KraftSet(l, n, q, k);
    KraftScale(rest, q, k - q);
    assert q + (k - q) == k;
    Pow2Add(q, k - q);
    RoomForOne(Kraft(rest, q), Pow2(k - q), Pow2(q), Pow2(k - l[n]));
  }

  lemma RoomForOne(c: nat, p: nat, size: nat, x: nat)
    requires c * p + x <= size * p && x > 0
    ensures c * p + p <= size * p
  {
    MulStep(c, size, p);
    MulStep(size, c, p);
  }

  /** Some assignment that costs no more gives n and m the same, greatest, length. */
  lemma {:induction false} LightestDeepest(l: Lengths, k: nat, act: set<nat>, fc: seq<nat>, n: nat, m: nat)
    returns (r: Lengths)
    requires Feasible(l, k, act) && |fc| == |l| && n in act && m in act && n != m && fc[n] <= fc[m]
    requires forall i :: i in act && i != n ==> fc[m] <= fc[i]
    ensures Feasible(r, k, act) && |r| == |l| && r[n] == r[m] >= 1
    ensures Dot(fc, r) <= Dot(fc, l)
  {
    hide Dot, Kraft, Bounded;
    var a := Longest(l);
    SwapHelps(l, k, act, fc, n, a);
    var l1 := Swapped(l, n, a);
    var b := Longest(l1[n := 0]);
    assert l1[n := 0][m] == l1[m] >= 1;
    assert b != n;
    SwapHelps(l1, k, act, fc, m, b);
    var l2 := Swapped(l1, m, b);
    var q := l2[m];
    assert l2[n] == l1[n] >= q;
    forall i | 0 <= i < |l2| && i != n
      ensures l2[i] <= q
    {
      assert l1[n := 0][i] <= l1[n := 0][b];
      assert l1[n := 0][m] <= l1[n := 0][b];
    }
    if l2[n] > q {
      CutLongest(l2, k, act, n, q);
      DotSetRight(fc, l2, n, q);
      MulDist(l2[n] - q, q, fc[n]);
      r := l2[n := q];
    } else {
      r := l2;
    }
  }

  ghost function Joined(l: Lengths, n: nat, m: nat, node: nat, q: nat): (r: Lengths)
    requires n < |l| && m < |l| && node < |l|
    ensures |r| == |l|
  {
    l[n := 0][m := 0][node := q]
  }

  lemma {:induction false} JoinedDot(l: Lengths, fc: seq<nat>, n: nat, m: nat, node: nat)
    requires |fc| == |l| && n < |l| && m < |l| && n != m && l[n] == l[m] >= 1
    requires node < |l| && l[node] == 0 && fc[node] == fc[n] + fc[m]
    ensures Dot(fc, Joined(l, n, m, node, l[n] - 1)) + fc[n] + fc[m] == Dot(fc, l)
  {
    hide Dot;
    var q := l[n];
    var l1 := l[n := 0];
    var l2 := l1[m := 0];
    DotSetRight(fc, l, n, 0);
    DotSetRight(fc, l1, m, 0);
    DotSetRight(fc, l2, node, q - 1);
    SumTimesLess(fc[n], fc[m], q);
  }

  lemma SumTimesLess(a: int, b: int, q: int)
    ensures (a + b) * (q - 1) + a + b == a * q + b * q
  {
    MulDist(a, b, q);
    MulDist(q, -1, a + b);
  }

  lemma {:induction false} JoinedKraft(l: Lengths, k: nat, n: nat, m: nat, node: nat, third: nat)
    requires n < |l| && m < |l| && n != m && 1 <= l[n] == l[m] <= k && node < |l| && l[node] == 0
    requires third < |l| && third != n && third != m && 1 <= l[third] <= k && Kraft(l, k) <= Pow2(k)
    ensures l[n] >= 2
    ensures Kraft(Joined(l, n, m, node, l[n] - 1), k) == Kraft(l, k)
  {
    hide Kraft;
    var q := l[n];
    var l1 := l[n := 0];
    var l2 := l1[m := 0];
    KraftSet(l, n, 0, k);
    KraftSet(l1, m, 0, k);
    KraftSet(l2, node, q - 1, k);
    KraftSet(l2, third, 0, k);
    assert Pow2(k - (q - 1)) == 2 * Pow2(k - q);
  }

  /** Joining n and m into a new node one level up saves exactly their frequencies. */
  lemma {:induction false} JoinSaves(l: Lengths, k: nat, act: set<nat>, fc: seq<nat>, n: nat, m: nat, node: nat,
                                     third: nat)
    requires Feasible(l, k, act) && |fc| == |l| && n in act && m in act && n != m && l[n] == l[m]
    requires node < |l| && node !in act && fc[node] == fc[n] + fc[m]
    requires third in act && third != n && third != m
    ensures Feasible(Joined(l, n, m, node, l[n] - 1), k, act - {n, m} + {node})
    ensures Dot(fc, Joined(l, n, m, node, l[n] - 1)) + fc[n] + fc[m] == Dot(fc, l)
  {
    hide Dot, Kraft, Pow2;
    JoinedKraft(l, k, n, m, node, third);
    JoinedDot(l, fc, n, m, node);
  }

  /** Every feasible assignment for the roots act0 yields one for the roots act that saves at least s. */
  ghost predicate Reduces(fc: seq<nat>, act0: set<nat>, act: set<nat>, s: nat) {
    forall l: Lengths, k: nat {:trigger Feasible(l, k, act0)} ::
      |l| == |fc| && Feasible(l, k, act0) ==> exists r: Lengths ::
        |r| == |fc| && Feasible(r, k, act) && Dot(fc, r) + s <= Dot(fc, l)
  }

  ghost predicate CostsAtLeast(fc: seq<nat>, act: set<nat>, s: nat) {
    forall l: Lengths, k: nat {:trigger Feasible(l, k, act)} :: |l| == |fc| && Feasible(l, k, act) ==> s <= Dot(fc, l)
  }

  lemma {:induction false} ReducesAtFirst(fc: seq<nat>, act: set<nat>)
    ensures Reduces(fc, act, act, 0)
  {
  }

  /** One step of Huffman's construction. */
  lemma {:induction false} ReducesMore(fc: seq<nat>, act0: set<nat>, act: set<nat>, s: nat, n: nat, m: nat, node: nat,
                                       third: nat)
    requires Reduces(fc, act0, act, s)
    requires n in act && m in act && n != m && (forall i :: i in act ==> i < |fc|) && fc[n] <= fc[m]
    requires forall i :: i in act && i != n ==> fc[m] <= fc[i]
    requires node < |fc| && node !in act && fc[node] == fc[n] + fc[m]
    requires third in act && third != n && third != m
    ensures Reduces(fc, act0, act - {n, m} + {node}, s + fc[n] + fc[m])
  {
    forall l: Lengths, k: nat {:trigger Feasible(l, k, act0)} | |l| == |fc| && Feasible(l, k, act0)
      ensures exists r: Lengths ::
                |r| == |fc| && Feasible(r, k, act - {n, m} + {node}) && Dot(fc, r) + (s + fc[n] + fc[m]) <= Dot(fc, l)
    {
      var r: Lengths :| |r| == |fc| && Feasible(r, k, act) && Dot(fc, r) + s <= Dot(fc, l);
      var d := LightestDeepest(r, k, act, fc, n, m);
      JoinSaves(d, k, act, fc, n, m, node, third);
    }
  }

  /** The last two roots need a bit each. */
  lemma {:induction false} LastTwo(fc: seq<nat>, act0: set<nat>, act: set<nat>, s: nat, n: nat, m: nat)
    requires Reduces(fc, act0, act, s)
    requires act == {n, m} && n != m && n < |fc| && m < |fc|
    ensures CostsAtLeast(fc, act0, s + fc[n] + fc[m])
  {
    forall l: Lengths, k: nat {:trigger Feasible(l, k, act0)} | |l| == |fc| && Feasible(l, k, act0)
      ensures s + fc[n] + fc[m] <= Dot(fc, l)
    {
      var r: Lengths :| |r| == |fc| && Feasible(r, k, act) && Dot(fc, r) + s <= Dot(fc, l);
      CostOfTwo(fc, r, n, m);
    }
  }

  lemma {:induction false} CostOfTwo(fc: seq<nat>, r: Lengths, n: nat, m: nat)
    requires |r| == |fc| && n < |r| && m < |r| && n != m && r[n] >= 1 && r[m] >= 1
    requires forall i :: 0 <= i < |r| && i != n && i != m ==> r[i] == 0
    ensures fc[n] + fc[m] <= Dot(fc, r)
  {
    hide Dot;
    DotSetRight(fc, r, n, 0);
    DotSetRight(fc, r[n := 0], m, 0);
    DotRightZero(fc, r[n := 0][m := 0]);
    AtLeastOnce(fc[n], r[n]);
    AtLeastOnce(fc[m], r[m]);
  }

  lemma AtLeastOnce(a: nat, b: nat)
    requires b >= 1
    ensures a <= a * b
  {
    MulDist(b - 1, 1, a);
  }

  lemma {:induction false} DotRightZero(a: seq<nat>, b: seq<nat>)
    requires |a| <= |b| && forall i :: 0 <= i < |a| ==> b[i] == 0
    ensures Dot(a, b) == 0
  {
    if a != [] {
      DotRightZero(a[..|a| - 1], b);
    }
  }
}
