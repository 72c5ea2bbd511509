/** Counting symbols: how frequency tables grow, and what a list of symbols costs. */
module Tallies {
  import opened Sums

  /** The table f after one more occurrence of every symbol in syms. */
  ghost function Tally(f: seq<nat>, syms: seq<nat>): (g: seq<nat>)
    requires forall i :: 0 <= i < |syms| ==> syms[i] < |f|
    ensures |g| == |f|
  {
    if syms == [] then f
    else
      var k := |syms| - 1;
      var g := Tally(f, syms[..k]);
      g[syms[k] := g[syms[k]] + 1]
  }

  /** The sum of w over a list of symbols. */
  ghost function CostOf(syms: seq<nat>, w: seq<nat>): nat
    requires forall i :: 0 <= i < |syms| ==> syms[i] < |w|
  {
    if syms == [] then 0 else CostOf(syms[..|syms| - 1], w) + w[syms[|syms| - 1]]
  }

  lemma {:induction false} TallySnoc(f: seq<nat>, syms: seq<nat>, x: nat)
    requires (forall i :: 0 <= i < |syms| ==> syms[i] < |f|) && x < |f|
    ensures Tally(f, syms + [x]) == Tally(f, syms)[x := Tally(f, syms)[x] + 1]
  {
    assert (syms + [x])[..|syms|] == syms;
  }

  lemma {:induction false} TallyConcat(f: seq<nat>, a: seq<nat>, b: seq<nat>)
    requires forall i :: 0 <= i < |a| ==> a[i] < |f|
    requires forall i :: 0 <= i < |b| ==> b[i] < |f|
    ensures Tally(f, a + b) == Tally(Tally(f, a), b)
  {
    if b == [] {
      assert a + b == a;
    } else {
      var k := |b| - 1;
      TallyConcat(f, a, b[..k]);
      assert (a + b)[..|a| + k] == a + b[..k];
      assert (a + b)[|a| + k] == b[k];
    }
  }

  lemma {:induction false} CostConcat(a: seq<nat>, b: seq<nat>, w: seq<nat>)
    requires forall i :: 0 <= i < |a| ==> a[i] < |w|
    requires forall i :: 0 <= i < |b| ==> b[i] < |w|
    ensures CostOf(a + b, w) == CostOf(a, w) + CostOf(b, w)
  {
    if b == [] {
      assert a + b == a;
    } else {
      var k := |b| - 1;
      CostConcat(a, b[..k], w);
      assert (a + b)[..|a| + k] == a + b[..k];
      assert (a + b)[|a| + k] == b[k];
    }
  }

  /** Frequencies times weights is the cost of the list they were counted from. */
  lemma {:induction false} TallyCost(f: seq<nat>, syms: seq<nat>, w: seq<nat>)
    requires |f| == |w| && forall i :: 0 <= i < |syms| ==> syms[i] < |f|
    ensures Dot(Tally(f, syms), w) == Dot(f, w) + CostOf(syms, w)
    ensures Sum(Tally(f, syms)) == Sum(f) + |syms|
  {
    if syms != [] {
      var k := |syms| - 1;
      TallyCost(f, syms[..k], w);
      var g, x := Tally(f, syms[..k]), syms[k];
      DotSetLeft(g, w, x, g[x] + 1);
      SumSet(g, x, g[x] + 1);
      OneMore(g[x], w[x]);
    }
  }

  lemma OneMore(a: nat, b: nat)
    ensures (a + 1) * b == a * b + b
  {
  }

  /** A symbol that occurs has a frequency. */
  lemma {:induction false} TallyCounts(f: seq<nat>, syms: seq<nat>)
    requires forall i :: 0 <= i < |syms| ==> syms[i] < |f|
    ensures forall i :: 0 <= i < |syms| ==> Tally(f, syms)[syms[i]] > 0
    ensures forall x :: 0 <= x < |f| ==> Tally(f, syms)[x] >= f[x]
  {
    if syms != [] {
      var k := |syms| - 1;
      TallyCounts(f, syms[..k]);
      forall i | 0 <= i < |syms|
        ensures Tally(f, syms)[syms[i]] > 0
      {
        if i < k {
          assert syms[i] == syms[..k][i];
        }
      }
    }
  }

  ghost function Zeroes(n: nat): (z: seq<nat>)
    ensures |z| == n
  {
    seq(n, _ => 0)
  }
}
