/** Weighted sums over tables, and how they change when one entry does. */
module Sums {

  /** The sum of a[i] * b[i]. */
  function Dot(a: seq<nat>, b: seq<nat>): nat
    requires |a| <= |b|
  {
    if a == [] then 0
    else Dot(a[..|a| - 1], b) + a[|a| - 1] * b[|a| - 1]
  }

  lemma {:induction false} DotPrefix(a: seq<nat>, b: seq<nat>, c: seq<nat>)
    requires |a| <= |b| && |a| <= |c|
    requires forall i :: 0 <= i < |a| ==> a[i] == 0 || b[i] == c[i]
    ensures Dot(a, b) == Dot(a, c)
  {
    if a != [] {
      var k := |a| - 1;
      DotPrefix(a[..k], b, c);
      assert a[k] == 0 || b[k] == c[k];
    }
  }

  lemma {:induction false} DotZero(a: seq<nat>, b: seq<nat>)
    requires |a| <= |b| && forall i :: 0 <= i < |a| ==> a[i] == 0
    ensures Dot(a, b) == 0
  {
    if a != [] {
      DotZero(a[..|a| - 1], b);
    }
  }

  lemma {:induction false} DotSetLeft(a: seq<nat>, b: seq<nat>, i: nat, x: nat)
    requires |a| <= |b| && i < |a|
    ensures Dot(a[i := x], b) + a[i] * b[i] == Dot(a, b) + x * b[i]
  {
    var k := |a| - 1;
    if i == k {
      assert a[i := x][..k] == a[..k];
    } else {
      DotSetLeft(a[..k], b, i, x);
      assert a[i := x][..k] == a[..k][i := x];
    }
  }

  /** Where the left factor is 0 the right one does not matter. */
  lemma {:induction false} DotSetIdle(a: seq<nat>, b: seq<nat>, i: nat, y: nat)
    requires |a| <= |b| && i < |b| && (i < |a| ==> a[i] == 0)
    ensures Dot(a, b[i := y]) == Dot(a, b)
  {
    DotPrefix(a, b[i := y], b);
  }

  lemma {:induction false} DotSetBoth(a: seq<nat>, b: seq<nat>, i: nat, x: nat, y: nat)
    requires |a| <= |b| && i < |a| && a[i] == 0
    ensures Dot(a[i := x], b[i := y]) == Dot(a, b) + x * y
  {
    DotSetIdle(a, b, i, y);
    DotSetLeft(a, b[i := y], i, x);
  }

  lemma {:induction false} DotSetRight(a: seq<nat>, b: seq<nat>, i: nat, y: nat)
    requires |a| <= |b| && i < |a|
    ensures Dot(a, b[i := y]) + a[i] * b[i] == Dot(a, b) + a[i] * y
  {
    var k := |a| - 1;
    if i == k {
      DotPrefix(a[..k], b[i := y], b);
    } else {
      DotSetRight(a[..k], b, i, y);
    }
  }

  /** Takes d off entry p and opens entry n with x * y. */
  lemma {:induction false} DotMove(a: seq<nat>, b: seq<nat>, p: nat, d: nat, n: nat, x: nat, y: nat)
    requires |a| <= |b| && p < |a| && n < |a| && p != n && d <= a[p] && a[n] == 0
    ensures Dot(a[p := a[p] - d][n := x], b[n := y]) + d * b[p] == Dot(a, b) + x * y
  {
    DotSetLeft(a, b, p, a[p] - d);
    var a1 := a[p := a[p] - d];
    assert a[p] * b[p] == (a[p] - d) * b[p] + d * b[p];
    DotSetBoth(a1, b, n, x, y);
  }

  lemma {:induction false} DotTrim(a: seq<nat>, b: seq<nat>, j: nat)
    requires |a| <= |b| && j <= |a| && forall i :: j <= i < |a| ==> a[i] == 0
    ensures Dot(a, b) == Dot(a[..j], b)
  {
    var k := |a| - 1;
    if j == |a| {
      assert a[..j] == a;
    } else {
      DotTrim(a[..k], b, j);
      assert a[..k][..j] == a[..j];
    }
  }

  function Sum(v: seq<nat>): nat {
    if v == [] then 0 else Sum(v[..|v| - 1]) + v[|v| - 1]
  }

  /** Setting an entry that was 0 to 1. */
  lemma DotSetOne(a: seq<nat>, b: seq<nat>, i: nat)
    requires |a| <= |b| && i < |a| && a[i] == 0
    ensures Dot(a[i := 1], b) == Dot(a, b) + b[i]
  {
    hide Dot;
    DotSetLeft(a, b, i, 1);
  }

  lemma {:induction false} SumSet(v: seq<nat>, i: nat, x: nat)
    requires i < |v|
    ensures Sum(v[i := x]) + v[i] == Sum(v) + x
  {
    var k := |v| - 1;
    if i == k {
      assert v[i := x][..k] == v[..k];
    } else {
      SumSet(v[..k], i, x);
      assert v[i := x][..k] == v[..k][i := x];
    }
  }

  lemma {:induction false} SumZero(v: seq<nat>)
    requires forall i :: 0 <= i < |v| ==> v[i] == 0
    ensures Sum(v) == 0
  {
    if v != [] {
      SumZero(v[..|v| - 1]);
    }
  }

  /** The entrywise products. */
  function Times(a: seq<nat>, b: seq<nat>): (v: seq<nat>)
    requires |a| <= |b|
    ensures |v| == |a|
  {
    seq(|a|, i requires 0 <= i < |a| => a[i] * b[i])
  }

  lemma {:induction false} SumTimes(a: seq<nat>, b: seq<nat>)
    requires |a| <= |b|
    ensures Sum(Times(a, b)) == Dot(a, b)
  {
    if a != [] {
      var k := |a| - 1;
      SumTimes(a[..k], b);
      assert Times(a, b)[..k] == Times(a[..k], b);
    }
  }
}
