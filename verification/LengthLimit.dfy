/** The repair gen_bitlen makes when codes would be too long: it moves leaves
    between lengths until the Kraft sum is exactly 1 again. */
module LengthLimit {
  import opened BitStrings
  import opened Canonical
  import opened Sums

  /** How many symbols there are of each length; entry 0 is unused, as in bl_count. */
  ghost function CountsOf(t: Lengths): (c: seq<nat>)
    ensures |c| == MAX_BITS + 1
  {
    seq(MAX_BITS + 1, b requires 0 <= b <= MAX_BITS => if b == 0 then 0 else Count(t, b))
  }

  /** The Kraft weight of each length, in units of 2^-m. */
  ghost function KraftWeights(m: nat): (w: seq<nat>)
    ensures |w| == MAX_BITS + 1
  {
    seq(MAX_BITS + 1, b requires 0 <= b <= MAX_BITS => Weight(b, m))
  }

  ghost function Ones(): (w: seq<nat>)
    ensures |w| == MAX_BITS + 1
  {
    seq(MAX_BITS + 1, b => if b == 0 then 0 else 1)
  }

  ghost function WeightSum(t: Lengths, w: seq<nat>): nat
    requires Bounded(t, MAX_BITS) && |w| == MAX_BITS + 1
  {
    if t == [] then 0
    else assert t[|t| - 1] <= MAX_BITS; WeightSum(t[..|t| - 1], w) + w[t[|t| - 1]]
  }

  lemma {:induction false} WeightSumByCounts(t: Lengths, w: seq<nat>)
    requires Bounded(t, MAX_BITS) && |w| == MAX_BITS + 1 && w[0] == 0
    ensures Dot(CountsOf(t), w) == WeightSum(t, w)
  {
    if t == [] {
      DotZero(CountsOf(t), w);
    } else {
      var k := |t| - 1;
      var x := t[k];
      WeightSumByCounts(t[..k], w);
      var c := CountsOf(t[..k]);
      if x == 0 {
        assert CountsOf(t) == c;
      } else {
        assert CountsOf(t) == c[x := c[x] + 1];
        DotSetLeft(c, w, x, c[x] + 1);
        MulDist(c[x], 1, w[x]);
      }
    }
  }

  lemma {:induction false} KraftIsWeightSum(t: Lengths, m: nat)
    requires Bounded(t, MAX_BITS)
    ensures Kraft(t, m) == WeightSum(t, KraftWeights(m))
  {
    if t != [] {
      KraftIsWeightSum(t[..|t| - 1], m);
      assert t[|t| - 1] <= MAX_BITS;
    }
  }

  lemma {:induction false} KraftOfCounts(t: Lengths, m: nat)
    requires Bounded(t, MAX_BITS)
    ensures Kraft(t, m) == Dot(CountsOf(t), KraftWeights(m))
  {
    KraftIsWeightSum(t, m);
    WeightSumByCounts(t, KraftWeights(m));
  }

  /** The number of symbols in use. */
  ghost function Used(t: Lengths): (u: nat)
    ensures u <= |t|
  {
    if t == [] then 0 else Used(t[..|t| - 1]) + (if t[|t| - 1] > 0 then 1 else 0)
  }

  lemma {:induction false} UsedOfCounts(t: Lengths)
    requires Bounded(t, MAX_BITS)
    ensures Used(t) == Dot(CountsOf(t), Ones())
  {
    UsedIsWeightSum(t);
    WeightSumByCounts(t, Ones());
  }

  lemma {:induction false} UsedIsWeightSum(t: Lengths)
    requires Bounded(t, MAX_BITS)
    ensures Used(t) == WeightSum(t, Ones())
  {
    if t != [] {
      UsedIsWeightSum(t[..|t| - 1]);
      assert t[|t| - 1] <= MAX_BITS;
    }
  }

  // ----- one step of the repair -----

  /** A leaf of length b moves down one, an overflowing item becomes its brother. */
  ghost function MoveLeaf(c: seq<nat>, b: nat, m: nat): (d: seq<nat>)
    requires |c| == MAX_BITS + 1 && 1 <= b < m <= MAX_BITS && c[b] >= 1 && c[m] >= 1
    ensures |d| == |c|
  {
    var c1 := c[b := c[b] - 1];
    var c2 := c1[b + 1 := c1[b + 1] + 2];
    c2[m := c2[m] - 1]
  }

  lemma {:induction false} MoveLeafDot(c: seq<nat>, b: nat, m: nat, w: seq<nat>)
    requires |c| == |w| == MAX_BITS + 1 && 1 <= b < m <= MAX_BITS && c[b] >= 1 && c[m] >= 1
    ensures Dot(MoveLeaf(c, b, m), w) + w[b] + w[m] == Dot(c, w) + 2 * w[b + 1]
  {
    hide Dot;
    var c1 := c[b := c[b] - 1];
    var c2 := c1[b + 1 := c1[b + 1] + 2];
    DotSetLeft(c, w, b, c[b] - 1);
    DotSetLeft(c1, w, b + 1, c1[b + 1] + 2);
    DotSetLeft(c2, w, m, c2[m] - 1);
    MulDist(c[b] - 1, 1, w[b]);
    MulDist(c1[b + 1], 2, w[b + 1]);
    MulDist(c2[m] - 1, 1, w[m]);
  }

  /** The step takes one unit off the Kraft sum and keeps the number of symbols. */
  lemma {:induction false} MoveLeafKraft(c: seq<nat>, b: nat, m: nat)
    requires |c| == MAX_BITS + 1 && 1 <= b < m <= MAX_BITS && c[b] >= 1 && c[m] >= 1
    ensures Dot(MoveLeaf(c, b, m), KraftWeights(m)) + 1 == Dot(c, KraftWeights(m))
    ensures Dot(MoveLeaf(c, b, m), Ones()) == Dot(c, Ones())
  {
    MoveLeafDot(c, b, m, KraftWeights(m));
    MoveLeafDot(c, b, m, Ones());
    assert Pow2(m - b) == 2 * Pow2(m - (b + 1));
  }

  /** While the Kraft sum is too large some leaf is above the limit: otherwise
      there would be more leaves than numbers of m bits. */
  lemma {:induction false} LeafToMove(c: seq<nat>, m: nat)
    requires |c| == MAX_BITS + 1 && 1 <= m <= MAX_BITS && c[0] == 0 && forall b :: m < b <= MAX_BITS ==> c[b] == 0
    requires Dot(c, Ones()) <= Pow2(m) < Dot(c, KraftWeights(m))
    ensures exists b :: 1 <= b < m && c[b] > 0
  {
    if forall b :: 1 <= b < m ==> c[b] == 0 {
      DotPrefix(c, KraftWeights(m), Ones());
    }
  }

  /** The repair loop of gen_bitlen. */
  method Repair(blCount: array<nat>, m: nat, overflow: nat)
    requires blCount.Length == MAX_BITS + 1 && 2 <= m <= MAX_BITS && overflow > 0
    requires blCount[0] == 0 && forall b :: m < b <= MAX_BITS ==> blCount[b] == 0
    requires 2 * blCount[m] >= overflow
    requires 2 * Dot(blCount[..], KraftWeights(m)) == 2 * Pow2(m) + overflow
    requires Dot(blCount[..], Ones()) <= Pow2(m)
    modifies blCount
    ensures blCount[0] == 0 && forall b :: m < b <= MAX_BITS ==> blCount[b] == 0
    ensures Dot(blCount[..], KraftWeights(m)) == Pow2(m)
    ensures Dot(blCount[..], Ones()) == old(Dot(blCount[..], Ones()))
  {
    hide Dot, KraftWeights, Ones, Pow2;
    var left: int := overflow;
    while left > 0
      invariant blCount[0] == 0 && forall b :: m < b <= MAX_BITS ==> blCount[b] == 0
      invariant 0 <= left && 2 * blCount[m] >= left
      invariant 2 * Dot(blCount[..], KraftWeights(m)) == 2 * Pow2(m) + left
      invariant Dot(blCount[..], Ones()) == old(Dot(blCount[..], Ones()))
    {
      ghost var c := blCount[..];
      LeafToMove(c, m);
      ghost var leaf :| 1 <= leaf < m && c[leaf] > 0;
      var bits := m - 1;
      while blCount[bits] == 0
        invariant leaf <= bits < m
        decreases bits
      {
        bits := bits - 1;
      }
      blCount[bits] := blCount[bits] - 1;
      blCount[bits + 1] := blCount[bits + 1] + 2;
      blCount[m] := blCount[m] - 1;
      left := left - 2;
      MoveLeafKraft(c, bits, m);
      assert blCount[..] == MoveLeaf(c, bits, m);
    }
  }
}
