/** gen_bitlen: from the order in which a Huffman tree was built to code lengths. */
module CodeLengths {
  import opened BitStrings
  import opened Canonical
  import opened HeapQueue
  import opened Sums

  /** The node under which the node at position o of the order hangs: nodes e, e+1, ... are
      created in turn, each from the next two nodes counted from the end of the order. */
  function Dad(e: nat, leaves: nat, o: nat): int {
    e + leaves - 1 - (o + 1) / 2
  }

  ghost predicate Distinct(s: seq<nat>) {
    forall i, j :: 0 <= i < j < |s| ==> s[i] != s[j]
  }

  /** The nodes of a tree with the given number of leaves, sons behind fathers
      and siblings side by side; the internal nodes are e, e+1, ... */
  ghost predicate TreeOrder(order: seq<nat>, e: nat, leaves: nat)
  {
    && leaves >= 2 && |order| == 2 * leaves - 1
    && Distinct(order)
    && order[0] == e + leaves - 2
    && (forall o {:trigger order[o]} :: 1 <= o < |order| ==> order[o] < Dad(e, leaves, o))
    && (forall x {:trigger x in order} :: e <= x < e + leaves - 1 ==> x in order)
  }

  /** A father comes before its sons. */
  lemma {:induction false} DadEarlier(order: seq<nat>, e: nat, leaves: nat, o: nat)
    requires TreeOrder(order, e, leaves) && 1 <= o < |order|
    ensures e <= Dad(e, leaves, o) < e + leaves - 1
    ensures exists q :: 0 <= q < o && order[q] == Dad(e, leaves, o)
  {
    var d := Dad(e, leaves, o);
    assert d in order;
    var q :| 0 <= q < |order| && order[q] == d;
    assert q >= 1 ==> order[q] < Dad(e, leaves, q);
  }

  /** One more than the father, but no more than m. */
  function Below(len: nat, m: nat): nat {
    if len + 1 > m then m else len + 1
  }

  /** The lengths the first pass gives to the first k nodes of the order. */
  ghost predicate Descends(order: seq<nat>, lens: seq<nat>, e: nat, leaves: nat, m: nat, k: nat)
    requires TreeOrder(order, e, leaves) && e + leaves - 1 <= |lens| && k <= |order|
  {
    && (k > 0 ==> lens[order[0]] == 0)
    && (forall o {:trigger order[o]} :: 1 <= o < k ==>
          order[o] < |lens| && lens[order[o]] == Below(lens[Dad(e, leaves, o)], m))
  }

  /** How many of the first k nodes hung under a node already at length m. */
  ghost function Overflows(order: seq<nat>, lens: seq<nat>, e: nat, leaves: nat, m: nat, k: nat): nat
    requires TreeOrder(order, e, leaves) && e + leaves - 1 <= |lens| && 1 <= k <= |order|
    decreases k
  {
    if k == 1 then 0
    else
      Overflows(order, lens, e, leaves, m, k - 1)
      + (DadEarlier(order, e, leaves, k - 1); if lens[Dad(e, leaves, k - 1)] == m then 1 else 0)
  }

  // ----- the frontier of the tree while the first pass walks down it -----

  /** What node x holds after k nodes: a leaf 2 units for good, an internal node
      one unit for each son still to come; nothing before x itself is reached. */
  function Holds(order: seq<nat>, e: nat, leaves: nat, k: nat, x: nat): nat
    requires k <= |order|
  {
    if x !in order[..k] then 0
    else if x < e then 2
    else
      var last := 2 * (leaves - 1 - (x - e));
      if k < last then 2 else if k == last then 1 else 0
  }

  ghost function Frontier(order: seq<nat>, e: nat, leaves: nat, k: nat): (f: seq<nat>)
    requires k <= |order| && leaves >= 1
    ensures |f| == e + leaves - 1
  {
    seq(e + leaves - 1, (x: int) requires x >= 0 => Holds(order, e, leaves, k, x))
  }

  /** The next node takes one unit from its father and brings its own two. */
  lemma {:induction false} FrontierStep(order: seq<nat>, e: nat, leaves: nat, k: nat)
    requires TreeOrder(order, e, leaves) && 1 <= k < |order|
    ensures e <= Dad(e, leaves, k) < e + leaves - 1 && order[k] < e + leaves - 1 && order[k] != Dad(e, leaves, k)
    ensures var f, d := Frontier(order, e, leaves, k), Dad(e, leaves, k);
            f[d] >= 1 && f[order[k]] == 0
            && Frontier(order, e, leaves, k + 1) == f[d := f[d] - 1][order[k] := 2]
  {
    var f, g := Frontier(order, e, leaves, k), Frontier(order, e, leaves, k + 1);
    var n, d := order[k], Dad(e, leaves, k);
    DadEarlier(order, e, leaves, k);
    assert order[..k + 1] == order[..k] + [n];
    assert d in order[..k] && n !in order[..k];
    assert n < d;
    forall x: nat | x < |f|
      ensures g[x] == f[d := f[d] - 1][n := 2][x]
    {
      if x == n && e <= x {
        assert k + 1 < 2 * (leaves - 1 - (n - e));
      }
    }
  }

  lemma {:induction false} FrontierStart(order: seq<nat>, e: nat, leaves: nat)
    requires TreeOrder(order, e, leaves)
    ensures Frontier(order, e, leaves, 1) == seq(e + leaves - 1, x => 0)[e + leaves - 2 := 2]
  {
    assert order[..1] == [order[0]];
  }

  lemma {:induction false} FrontierEnd(order: seq<nat>, e: nat, leaves: nat, x: nat)
    requires TreeOrder(order, e, leaves) && x < e + leaves - 1
    ensures Frontier(order, e, leaves, |order|)[x] == if x < e && x in order then 2 else 0
  {
    assert order[..|order|] == order;
  }

  ghost function Weights(lens: seq<nat>, m: nat): (w: seq<nat>)
    ensures |w| == |lens|
  {
    seq(|lens|, i requires 0 <= i < |lens| => if lens[i] <= m then Pow2(m - lens[i]) else 0)
  }

  ghost function AtLimit(lens: seq<nat>, m: nat): (w: seq<nat>)
    ensures |w| == |lens|
  {
    seq(|lens|, i requires 0 <= i < |lens| => if lens[i] == m then 1 else 0)
  }

  lemma {:induction false} DescendsBounded(order: seq<nat>, lens: seq<nat>, e: nat, leaves: nat, m: nat, o: nat)
    requires TreeOrder(order, e, leaves) && e + leaves - 1 <= |lens| && o < |order| && m >= 1
    requires Descends(order, lens, e, leaves, m, |order|)
    ensures order[o] < |lens| && lens[order[o]] <= m && (o > 0 ==> lens[order[o]] >= 1)
  {
  }

  /** What one node adds to the weight of the frontier. */
  lemma {:induction false} FrontierDot(order: seq<nat>, e: nat, leaves: nat, k: nat, w: seq<nat>)
    requires TreeOrder(order, e, leaves) && |w| == e + leaves - 1 && 1 <= k < |order|
    ensures e <= Dad(e, leaves, k) < |w| && order[k] < |w|
    ensures Dot(Frontier(order, e, leaves, k + 1), w) + w[Dad(e, leaves, k)]
         == Dot(Frontier(order, e, leaves, k), w) + 2 * w[order[k]]
  {
    hide Dot, TreeOrder, Frontier;
    FrontierStep(order, e, leaves, k);
    var f, d, n := Frontier(order, e, leaves, k), Dad(e, leaves, k), order[k];
    DotMove(f, w, d, 1, n, 2, w[n]);
    assert w[n := w[n]] == w;
  }

  lemma {:induction false} FrontierDotStart(order: seq<nat>, e: nat, leaves: nat, w: seq<nat>)
    requires TreeOrder(order, e, leaves) && |w| == e + leaves - 1
    ensures Dot(Frontier(order, e, leaves, 1), w) == 2 * w[order[0]]
  {
    FrontierStart(order, e, leaves);
    var zero := seq(e + leaves - 1, x => 0);
    DotZero(zero, w);
    DotSetLeft(zero, w, e + leaves - 2, 2);
  }

  /** The frontier always weighs 1, plus half a unit for each node pushed up to the limit. */
  lemma {:induction false} FrontierWeighs(order: seq<nat>, lens: seq<nat>, e: nat, leaves: nat, m: nat, k: nat)
    requires TreeOrder(order, e, leaves) && |lens| == e + leaves - 1 && 1 <= k <= |order| && m >= 1
    requires Descends(order, lens, e, leaves, m, |order|)
    ensures Dot(Frontier(order, e, leaves, k), Weights(lens, m))
            == Pow2(m + 1) + Overflows(order, lens, e, leaves, m, k)
    ensures Dot(Frontier(order, e, leaves, k), AtLimit(lens, m)) >= Overflows(order, lens, e, leaves, m, k)
  {
    hide Dot, Frontier, Distinct;
    if k == 1 {
      FrontierDotStart(order, e, leaves, Weights(lens, m));
      FrontierDotStart(order, e, leaves, AtLimit(lens, m));
    } else {
      FrontierWeighs(order, lens, e, leaves, m, k - 1);
      DadBounded(order, lens, e, leaves, m, k - 1);
      FrontierDot(order, e, leaves, k - 1, Weights(lens, m));
      FrontierDot(order, e, leaves, k - 1, AtLimit(lens, m));
    }
  }

  lemma {:induction false} DadBounded(order: seq<nat>, lens: seq<nat>, e: nat, leaves: nat, m: nat, o: nat)
    requires TreeOrder(order, e, leaves) && e + leaves - 1 <= |lens| && 1 <= o < |order| && m >= 1
    requires Descends(order, lens, e, leaves, m, |order|)
    ensures e <= Dad(e, leaves, o) < e + leaves - 1 && lens[Dad(e, leaves, o)] <= m
    ensures order[o] < |lens| && lens[order[o]] == Below(lens[Dad(e, leaves, o)], m)
  {
    DadEarlier(order, e, leaves, o);
    var q :| 0 <= q < o && order[q] == Dad(e, leaves, o);
    DescendsBounded(order, lens, e, leaves, m, q);
  }

  // ----- the table of code lengths -----

  /** The code lengths of symbols 0..e-1: those of the leaves, and 0 for symbols not in the tree. */
  ghost function Table(order: seq<nat>, lens: seq<nat>, e: nat): (t: Lengths)
    requires e <= |lens|
    ensures |t| == e
  {
    seq(e, x requires 0 <= x < e => if x in order then lens[x] else 0)
  }

  lemma {:induction false} TableKraft(order: seq<nat>, lens: seq<nat>, e: nat, leaves: nat, m: nat, j: nat)
    requires TreeOrder(order, e, leaves) && |lens| == e + leaves - 1 && j <= e && m >= 1
    requires Descends(order, lens, e, leaves, m, |order|)
    ensures Dot(Frontier(order, e, leaves, |order|)[..j], Weights(lens, m)) == 2 * Kraft(Table(order, lens, e)[..j], m)
  {
    hide Distinct, Descends, Frontier, Pow2;
    var f, t := Frontier(order, e, leaves, |order|), Table(order, lens, e);
    if j > 0 {
      var x: nat := j - 1;
      TableKraft(order, lens, e, leaves, m, x);
      FrontierEnd(order, e, leaves, x);
      assert f[..j][..x] == f[..x] && t[..j][..x] == t[..x];
      LeafLength(order, lens, e, leaves, m, x);
    }
  }

  lemma {:induction false} TableAtLimit(order: seq<nat>, lens: seq<nat>, e: nat, leaves: nat, m: nat, j: nat)
    requires TreeOrder(order, e, leaves) && |lens| == e + leaves - 1 && j <= e && m >= 1
    requires Descends(order, lens, e, leaves, m, |order|)
    ensures Dot(Frontier(order, e, leaves, |order|)[..j], AtLimit(lens, m)) == 2 * Count(Table(order, lens, e)[..j], m)
  {
    hide Distinct, Descends, Frontier, Pow2;
    var f, t := Frontier(order, e, leaves, |order|), Table(order, lens, e);
    if j > 0 {
      var x: nat := j - 1;
      TableAtLimit(order, lens, e, leaves, m, x);
      FrontierEnd(order, e, leaves, x);
      assert f[..j][..x] == f[..x] && t[..j][..x] == t[..x];
      LeafLength(order, lens, e, leaves, m, x);
    }
  }

  lemma {:induction false} LeafLength(order: seq<nat>, lens: seq<nat>, e: nat, leaves: nat, m: nat, x: nat)
    requires TreeOrder(order, e, leaves) && e + leaves - 1 <= |lens| && x < e && m >= 1
    requires Descends(order, lens, e, leaves, m, |order|)
    ensures x in order ==> 1 <= lens[x] <= m
  {
    if x in order {
      var o :| 0 <= o < |order| && order[o] == x;
      DescendsBounded(order, lens, e, leaves, m, o);
    }
  }

  /** What the first pass leaves: the Kraft sum exceeds 1 by half a unit for each
      node pushed up to the limit, and at least as many leaves are there. */
  lemma {:induction false} FirstPassKraft(order: seq<nat>, lens: seq<nat>, e: nat, leaves: nat, m: nat)
    requires TreeOrder(order, e, leaves) && |lens| == e + leaves - 1 && m >= 1
    requires Descends(order, lens, e, leaves, m, |order|)
    ensures 2 * Kraft(Table(order, lens, e), m) == 2 * Pow2(m) + Overflows(order, lens, e, leaves, m, |order|)
    ensures 2 * Count(Table(order, lens, e), m) >= Overflows(order, lens, e, leaves, m, |order|)
  {
    hide Dot, Frontier, Kraft, Count, Overflows;
    var f, t := Frontier(order, e, leaves, |order|), Table(order, lens, e);
    FrontierWeighs(order, lens, e, leaves, m, |order|);
    TableKraft(order, lens, e, leaves, m, e);
    TableAtLimit(order, lens, e, leaves, m, e);
    forall x | e <= x < |f|
      ensures f[x] == 0
    {
      FrontierEnd(order, e, leaves, x);
    }
    DotTrim(f, Weights(lens, m), e);
    DotTrim(f, AtLimit(lens, m), e);
    assert t[..e] == t;
  }

  // ----- sums over the leaves, in the order of the tree and in the order of symbols -----

  /** The sum of vals over the leaves among the first k nodes of the order. */
  function LeafSum(order: seq<nat>, vals: seq<nat>, k: nat): nat
    requires k <= |order|
  {
    if k == 0 then 0
    else LeafSum(order, vals, k - 1) + (if order[k - 1] < |vals| then vals[order[k - 1]] else 0)
  }

  ghost function Masked(order: seq<nat>, vals: seq<nat>): (v: seq<nat>)
    ensures |v| == |vals|
  {
    seq(|vals|, x requires 0 <= x < |vals| => if x in order then vals[x] else 0)
  }

  /** The order visits every leaf exactly once. */
  lemma {:induction false} LeafSumByTable(order: seq<nat>, vals: seq<nat>, k: nat)
    requires Distinct(order) && k <= |order|
    ensures LeafSum(order, vals, k) == Sum(Masked(order[..k], vals))
  {
    if k == 0 {
      SumZero(Masked(order[..0], vals));
    } else {
      LeafSumByTable(order, vals, k - 1);
      var n := order[k - 1];
      var v := Masked(order[..k - 1], vals);
      assert order[..k] == order[..k - 1] + [n];
      assert n !in order[..k - 1];
      if n < |vals| {
        SumSet(v, n, vals[n]);
        assert Masked(order[..k], vals) == v[n := vals[n]];
      } else {
        assert Masked(order[..k], vals) == v;
      }
    }
  }

  ghost function Indicator(lens: seq<nat>, e: nat, b: nat): (v: seq<nat>)
    requires e <= |lens|
    ensures |v| == e
  {
    seq(e, x requires 0 <= x < e => if lens[x] == b then 1 else 0)
  }

  lemma {:induction false} CountIsSum(t: Lengths, b: nat)
    ensures Sum(Indicator(t, |t|, b)) == Count(t, b)
  {
    if t != [] {
      var k := |t| - 1;
      CountIsSum(t[..k], b);
      assert Indicator(t, |t|, b)[..k] == Indicator(t[..k], k, b);
    }
  }

  /** Counting lengths along the order counts the table. */
  lemma {:induction false} CountAlongOrder(order: seq<nat>, lens: seq<nat>, e: nat, b: nat)
    requires Distinct(order) && e <= |lens| && b >= 1
    ensures LeafSum(order, Indicator(lens, e, b), |order|) == Count(Table(order, lens, e), b)
  {
    var t := Table(order, lens, e);
    LeafSumByTable(order, Indicator(lens, e, b), |order|);
    assert order[..|order|] == order;
    assert Masked(order, Indicator(lens, e, b)) == Indicator(t, |t|, b);
    CountIsSum(t, b);
  }

  // ----- the lengths of the first pass as a function of the order -----

  ghost function FirstLens(order: seq<nat>, e: nat, leaves: nat, m: nat, k: nat): (lens: seq<nat>)
    requires TreeOrder(order, e, leaves) && k <= |order|
    ensures |lens| == e + leaves - 1
    decreases k
  {
    if k <= 1 then seq(e + leaves - 1, _ => 0)
    else
      DadEarlier(order, e, leaves, k - 1);
      var before := FirstLens(order, e, leaves, m, k - 1);
      before[order[k - 1] := Below(before[Dad(e, leaves, k - 1)], m)]
  }

  lemma {:induction false} FirstLensDescends(order: seq<nat>, e: nat, leaves: nat, m: nat, k: nat)
    requires TreeOrder(order, e, leaves) && k <= |order|
    ensures Descends(order, FirstLens(order, e, leaves, m, k), e, leaves, m, k)
  {
    if k > 1 {
      var o := k - 1;
      FirstLensDescends(order, e, leaves, m, o);
      DadEarlier(order, e, leaves, o);
      var before, after := FirstLens(order, e, leaves, m, o), FirstLens(order, e, leaves, m, k);
      assert after[Dad(e, leaves, o)] == before[Dad(e, leaves, o)];
      forall p {:trigger order[p]} | 1 <= p < k
        ensures order[p] < |after| && after[order[p]] == Below(after[Dad(e, leaves, p)], m)
      {
        if p < o {
          EarlierDadsDiffer(order, e, leaves, p, o);
        }
      }
    }
  }

  /** A node met later is not the father of one met earlier. */
  lemma {:induction false} EarlierDadsDiffer(order: seq<nat>, e: nat, leaves: nat, p: nat, o: nat)
    requires TreeOrder(order, e, leaves) && 1 <= p < o < |order|
    ensures e <= Dad(e, leaves, p) && Dad(e, leaves, p) != order[o] && order[p] != order[o]
  {
    DadEarlier(order, e, leaves, p);
  }

  // ----- frequencies -----

  /** Nodes come in order of falling frequency, and each internal node has the
      frequency of its two sons together. */
  ghost predicate Weighted(order: seq<nat>, fc: seq<nat>, e: nat, leaves: nat) {
    && |order| == 2 * leaves - 1
    && (forall o :: 0 <= o < |order| ==> order[o] < |fc|)
    && (forall p, q {:trigger order[p], order[q]} :: 0 <= p < q < |order| ==> fc[order[p]] >= fc[order[q]])
    && (forall x {:trigger LastSon(e, leaves, x)} :: e <= x < e + leaves - 1 && x < |fc| ==>
          fc[x] == fc[order[LastSon(e, leaves, x) - 1]] + fc[order[LastSon(e, leaves, x)]])
  }

  /** Where the later of the two sons of internal node x stands. */
  function LastSon(e: nat, leaves: nat, x: nat): int {
    2 * (leaves - 1 - (x - e))
  }

  /** The other son of the same father. */
  function Sibling(o: nat): nat
    requires o >= 1
  {
    if o % 2 == 1 then o + 1 else o - 1
  }

  lemma {:induction false} FatherIsSum(order: seq<nat>, fc: seq<nat>, e: nat, leaves: nat, o: nat)
    requires TreeOrder(order, e, leaves) && Weighted(order, fc, e, leaves) && 1 <= o < |order|
    ensures Sibling(o) < |order| && e <= Dad(e, leaves, o) < |fc|
    ensures fc[Dad(e, leaves, o)] == fc[order[o]] + fc[order[Sibling(o)]]
  {
    var d := Dad(e, leaves, o);
    DadEarlier(order, e, leaves, o);
    var q :| 0 <= q < o && order[q] == d;
    assert order[q] < |fc|;
    assert LastSon(e, leaves, d) == (o + 1) / 2 * 2;
  }

  /** The first pass never makes the rarer of two nodes shorter. */
  lemma {:induction false} RarerIsLonger(order: seq<nat>, fc: seq<nat>, lens: seq<nat>, e: nat, leaves: nat, m: nat,
                                         p: nat, q: nat)
    requires TreeOrder(order, e, leaves) && Weighted(order, fc, e, leaves) && |lens| == e + leaves - 1 && m >= 1
    requires Descends(order, lens, e, leaves, m, |order|)
    requires q < p < |order| && fc[order[p]] < fc[order[q]]
    ensures order[p] < |lens| && order[q] < |lens| && lens[order[p]] >= lens[order[q]]
    decreases q
  {
    DadBounded(order, lens, e, leaves, m, p);
    if q > 0 {
      DadBounded(order, lens, e, leaves, m, q);
      var dp, dq := Dad(e, leaves, p), Dad(e, leaves, q);
      if dp != dq {
        FatherIsSum(order, fc, e, leaves, p);
        FatherIsSum(order, fc, e, leaves, q);
        assert Sibling(q) < Sibling(p);
        assert fc[order[Sibling(q)]] >= fc[order[Sibling(p)]];
        DadEarlier(order, e, leaves, p);
        DadEarlier(order, e, leaves, q);
        var p' :| 0 <= p' < p && order[p'] == dp;
        var q' :| 0 <= q' < q && order[q'] == dq;
        assert fc[order[p']] < fc[order[q']];
        RarerIsLonger(order, fc, lens, e, leaves, m, p', q');
      }
    }
  }

  /** The sum of frequencies of all nodes but the root, over the first k nodes. */
  ghost function NodeSum(order: seq<nat>, fc: seq<nat>, k: nat): nat
    requires k <= |order| && forall o :: 0 <= o < |order| ==> order[o] < |fc|
  {
    if k <= 1 then 0 else NodeSum(order, fc, k - 1) + fc[order[k - 1]]
  }

  /** The frequency that still hangs under node x after k nodes. */
  ghost function Pends(order: seq<nat>, fc: seq<nat>, e: nat, leaves: nat, k: nat, x: nat): nat
    requires k <= |order| && Weighted(order, fc, e, leaves) && x < |fc|
  {
    if x !in order[..k] then 0
    else if x < e || x - e >= leaves - 1 then fc[x]
    else
      var last := LastSon(e, leaves, x);
      if k < last then fc[x] else if k == last then fc[order[last]] else 0
  }

  ghost function Pending(order: seq<nat>, fc: seq<nat>, e: nat, leaves: nat, k: nat): (f: seq<nat>)
    requires k <= |order| && Weighted(order, fc, e, leaves) && e + leaves - 1 <= |fc| && leaves >= 1
    ensures |f| == e + leaves - 1
  {
    seq(e + leaves - 1, (x: int) requires 0 <= x < e + leaves - 1 => Pends(order, fc, e, leaves, k, x))
  }

  lemma {:induction false} PendsStep(order: seq<nat>, fc: seq<nat>, e: nat, leaves: nat, k: nat, x: nat)
    requires TreeOrder(order, e, leaves) && Weighted(order, fc, e, leaves) && 1 <= k < |order|
             && x < e + leaves - 1 <= |fc|
    requires order[k] !in order[..k] && Dad(e, leaves, k) in order[..k] && order[..k + 1] == order[..k] + [order[k]]
    requires fc[Dad(e, leaves, k)] == fc[order[k]] + fc[order[Sibling(k)]]
    ensures Pends(order, fc, e, leaves, k + 1, x)
         == if x == order[k] then fc[x]
            else if x == Dad(e, leaves, k) then Pends(order, fc, e, leaves, k, x) - fc[order[k]]
            else Pends(order, fc, e, leaves, k, x)
    ensures x == order[k] ==> Pends(order, fc, e, leaves, k, x) == 0
  {
    assert order[k] < Dad(e, leaves, k);
    if x == Dad(e, leaves, k) {
      assert LastSon(e, leaves, x) == (k + 1) / 2 * 2;
      DadEarlier(order, e, leaves, k);
    }
  }

  lemma {:induction false} PendingStep(order: seq<nat>, fc: seq<nat>, e: nat, leaves: nat, k: nat)
    requires TreeOrder(order, e, leaves) && Weighted(order, fc, e, leaves) && 1 <= k < |order| && e + leaves - 1 <= |fc|
    ensures e <= Dad(e, leaves, k) < e + leaves - 1 && order[k] < e + leaves - 1 && order[k] != Dad(e, leaves, k)
    ensures var f, d, n := Pending(order, fc, e, leaves, k), Dad(e, leaves, k), order[k];
            f[d] >= fc[n] && f[n] == 0 && Pending(order, fc, e, leaves, k + 1) == f[d := f[d] - fc[n]][n := fc[n]]
  {
    hide Pends, Weighted;
    var f, g := Pending(order, fc, e, leaves, k), Pending(order, fc, e, leaves, k + 1);
    var n, d := order[k], Dad(e, leaves, k);
    DadEarlier(order, e, leaves, k);
    FatherIsSum(order, fc, e, leaves, k);
    assert order[..k + 1] == order[..k] + [n];
    assert d in order[..k] && n !in order[..k];
    assert n < d;
    PendsStep(order, fc, e, leaves, k, d);
    PendsStep(order, fc, e, leaves, k, n);
    forall x: nat | x < |f|
      ensures g[x] == if x == n then fc[n] else if x == d then f[d] - fc[n] else f[x]
    {
      PendsStep(order, fc, e, leaves, k, x);
    }
  }

  lemma {:induction false} PendingCost(order: seq<nat>, fc: seq<nat>, lens: seq<nat>, e: nat, leaves: nat, m: nat,
                                       k: nat)
    requires TreeOrder(order, e, leaves) && Weighted(order, fc, e, leaves) && 1 <= k <= |order|
    requires |lens| == e + leaves - 1 <= |fc| && m >= 1
    requires Descends(order, lens, e, leaves, m, |order|) && Overflows(order, lens, e, leaves, m, k) == 0
    ensures Dot(Pending(order, fc, e, leaves, k), lens) == NodeSum(order, fc, k)
  {
    hide Dot, Distinct, Weighted, Pending, Descends, Overflows;
    if k == 1 {
      RootAtZero(order, lens, e, leaves, m);
      PendingStart(order, fc, lens, e, leaves);
    } else {
      NotAtLimit(order, lens, e, leaves, m, k);
      PendingCost(order, fc, lens, e, leaves, m, k - 1);
      PendingStep(order, fc, e, leaves, k - 1);
      var f, d, n := Pending(order, fc, e, leaves, k - 1), Dad(e, leaves, k - 1), order[k - 1];
      DotMove(f, lens, d, fc[n], n, fc[n], lens[n]);
      assert lens[n := lens[n]] == lens;
      MulDist(lens[d], 1, fc[n]);
    }
  }

  lemma RootAtZero(order: seq<nat>, lens: seq<nat>, e: nat, leaves: nat, m: nat)
    requires TreeOrder(order, e, leaves) && e + leaves - 1 <= |lens| && Descends(order, lens, e, leaves, m, |order|)
    ensures lens[order[0]] == 0
  {
  }

  /** Without an overflow so far, the last node is one deeper than its father. */
  lemma NotAtLimit(order: seq<nat>, lens: seq<nat>, e: nat, leaves: nat, m: nat, k: nat)
    requires TreeOrder(order, e, leaves) && 2 <= k <= |order| && e + leaves - 1 <= |lens| && m >= 1
    requires Descends(order, lens, e, leaves, m, |order|) && Overflows(order, lens, e, leaves, m, k) == 0
    ensures Overflows(order, lens, e, leaves, m, k - 1) == 0
    ensures e <= Dad(e, leaves, k - 1) < e + leaves - 1 && order[k - 1] < |lens|
    ensures lens[order[k - 1]] == lens[Dad(e, leaves, k - 1)] + 1
  {
    hide Descends, Distinct;
    DadBounded(order, lens, e, leaves, m, k - 1);
  }

  lemma {:induction false} PendingStart(order: seq<nat>, fc: seq<nat>, lens: seq<nat>, e: nat, leaves: nat)
    requires TreeOrder(order, e, leaves) && Weighted(order, fc, e, leaves) && |lens| == e + leaves - 1 <= |fc|
    requires lens[order[0]] == 0
    ensures Dot(Pending(order, fc, e, leaves, 1), lens) == 0
  {
    var f := Pending(order, fc, e, leaves, 1);
    assert order[..1] == [order[0]];
    var zero := seq(|f|, _ => 0);
    assert f == zero[order[0] := f[order[0]]];
    DotZero(zero, lens);
    DotSetLeft(zero, lens, order[0], f[order[0]]);
  }

  /** The cost of a tree in which no code was cut short. */
  lemma {:induction false} CostOfTree(order: seq<nat>, fc: seq<nat>, lens: seq<nat>, e: nat, leaves: nat, m: nat)
    requires TreeOrder(order, e, leaves) && Weighted(order, fc, e, leaves)
    requires |lens| == e + leaves - 1 <= |fc| && m >= 1
    requires forall x :: 0 <= x < e && x !in order ==> fc[x] == 0
    requires Descends(order, lens, e, leaves, m, |order|) && Overflows(order, lens, e, leaves, m, |order|) == 0
    ensures Dot(fc[..e], Table(order, lens, e)) == NodeSum(order, fc, |order|)
  {
    hide Dot, Distinct, Overflows, Descends;
    PendingCost(order, fc, lens, e, leaves, m, |order|);
    var f := Pending(order, fc, e, leaves, |order|);
    assert order[..|order|] == order;
    DotTrim(f, lens, e);
    assert f[..e] == fc[..e];
    DotPrefix(fc[..e], lens, Table(order, lens, e));
  }
}
