/** gen_bitlen as the compressor runs it, on arrays. */
module GenBitlen {
  import opened BitStrings
  import opened Canonical
  import opened HeapQueue
  import opened Sums
  import opened CodeLengths

  const HEAP_SIZE: nat := 573

  /** tree_desc, without the trees themselves. */
  datatype TreeDesc = TreeDesc(extra: seq<nat>, extraBase: nat, elems: nat, maxLength: nat) {
    ghost predicate Valid() {
      && elems <= extraBase + |extra|
      && 2 <= maxLength <= MAX_BITS && elems <= Pow2(maxLength)
      && 3 <= elems <= 286
      // the codes build_tree may force, 0 to 2, have no extra bits
      && forall x :: 0 <= x <= 2 ==> ExtraBits(x) == 0
    }

    function ExtraBits(n: nat): nat
      requires n < elems <= extraBase + |extra|
    {
      if n >= extraBase then extra[n - extraBase] else 0
    }
  }

  ghost predicate SameLens(order: seq<nat>, tree: seq<CtData>, lens: seq<nat>, k: nat) {
    k <= |order| && forall o {:trigger order[o]} :: 0 <= o < k ==>
      order[o] < |tree| && order[o] < |lens| && tree[order[o]].dl == lens[order[o]]
  }

  ghost predicate StillDads(order: seq<nat>, tree: seq<CtData>, e: nat, leaves: nat, k: nat) {
    1 <= k && forall o {:trigger order[o]} :: k <= o < |order| ==>
      order[o] < |tree| && tree[order[o]].dl == Dad(e, leaves, o)
  }

  ghost function Freqs(tree: seq<CtData>, e: nat): (f: seq<nat>)
    requires e <= |tree|
    ensures |f| == e
  {
    seq(e, x requires 0 <= x < e => tree[x].fc)
  }

  /** Frequency times length plus extra bits, for each symbol. */
  ghost function Costs(freqs: seq<nat>, lens: seq<nat>, desc: TreeDesc): (c: seq<nat>)
    requires |freqs| == |lens| == desc.elems && desc.elems <= desc.extraBase + |desc.extra|
    ensures |c| == desc.elems
  {
    seq(desc.elems, x requires 0 <= x < desc.elems => freqs[x] * (lens[x] + desc.ExtraBits(x)))
  }

  ghost predicate Tallied(order: seq<nat>, lens: seq<nat>, e: nat, counts: seq<nat>, k: nat) {
    k <= |order| && e <= |lens| && |counts| == MAX_BITS + 1
    && forall b {:trigger counts[b]} :: 0 <= b <= MAX_BITS ==> counts[b] == LeafSum(order, Indicator(lens, e, b), k)
  }

  lemma TalliedStart(order: seq<nat>, lens: seq<nat>, e: nat, counts: seq<nat>)
    requires e <= |lens| && |counts| == MAX_BITS + 1 && forall b :: 0 <= b <= MAX_BITS ==> counts[b] == 0
    requires order != [] && order[0] >= e
    ensures Tallied(order, lens, e, counts, 1)
  {
    forall b {:trigger counts[b]} | 0 <= b <= MAX_BITS
      ensures counts[b] == LeafSum(order, Indicator(lens, e, b), 1)
    {
      LeafSumRoot(order, Indicator(lens, e, b));
    }
  }

  lemma LeafSumRoot(order: seq<nat>, vals: seq<nat>)
    requires order != [] && order[0] >= |vals|
    ensures LeafSum(order, vals, 1) == 0
  {
    assert LeafSum(order, vals, 0) == 0;
  }

  /** The root of the tree is an internal node of length 0. */
  lemma PassStart(order: seq<nat>, tree: seq<CtData>, lens: seq<nat>, e: nat, leaves: nat, m: nat)
    requires TreeOrder(order, e, leaves) && |lens| == e + leaves - 1 <= |tree|
    requires Descends(order, lens, e, leaves, m, |order|) && StillDads(order, tree, e, leaves, 1)
    ensures |order| == 2 * leaves - 1 >= 3 && e <= order[0] < |tree|
    ensures SameLens(order, tree[order[0] := tree[order[0]].(dl := 0)], lens, 1)
    ensures StillDads(order, tree[order[0] := tree[order[0]].(dl := 0)], e, leaves, 1)
    ensures Overflows(order, lens, e, leaves, m, 1) == 0
  {
  }

  /** One node of the first pass, on values. */
  lemma {:induction false} PassStep(order: seq<nat>, tree: seq<CtData>, lens: seq<nat>, e: nat, leaves: nat, m: nat,
                                    k: nat)
    requires TreeOrder(order, e, leaves) && 1 <= k < |order| && |lens| == e + leaves - 1 <= |tree| && m >= 1
    requires Descends(order, lens, e, leaves, m, |order|)
    requires SameLens(order, tree, lens, k) && StillDads(order, tree, e, leaves, k)
    ensures order[k] < |lens| && tree[order[k]].dl == Dad(e, leaves, k) < |lens|
    ensures tree[tree[order[k]].dl].dl == lens[Dad(e, leaves, k)] <= m
    ensures 1 <= lens[order[k]] == Below(lens[Dad(e, leaves, k)], m) <= m
    ensures var after := tree[order[k] := tree[order[k]].(dl := lens[order[k]])];
            SameLens(order, after, lens, k + 1) && StillDads(order, after, e, leaves, k + 1)
  {
    DadEarlier(order, e, leaves, k);
    var q :| 0 <= q < k && order[q] == Dad(e, leaves, k);
    DadBounded(order, lens, e, leaves, m, k);
    assert order[q] < |tree|;
  }

  lemma TalliedStep(order: seq<nat>, lens: seq<nat>, e: nat, counts: seq<nat>, k: nat)
    requires Tallied(order, lens, e, counts, k) && k < |order|
    requires order[k] < |lens| && lens[order[k]] <= MAX_BITS
    ensures Tallied(order, lens, e,
                    if order[k] < e then counts[lens[order[k]] := counts[lens[order[k]]] + 1] else counts, k + 1)
  {
    var n := order[k];
    var after := if n < e then counts[lens[n] := counts[lens[n]] + 1] else counts;
    forall b {:trigger after[b]} | 0 <= b <= MAX_BITS
      ensures after[b] == LeafSum(order, Indicator(lens, e, b), k + 1)
    {
      var v := Indicator(lens, e, b);
      assert counts[b] == LeafSum(order, v, k);
      assert n < e ==> v[n] == if lens[n] == b then 1 else 0;
    }
  }

  ghost predicate KeptFreqs(before: seq<CtData>, after: seq<CtData>) {
    |after| == |before| && forall x {:trigger after[x]} :: 0 <= x < |after| ==> after[x].fc == before[x].fc
  }

  ghost predicate KeptOutside(order: seq<nat>, before: seq<CtData>, after: seq<CtData>) {
    |after| == |before| && forall x {:trigger after[x]} :: 0 <= x < |after| && x !in order ==> after[x] == before[x]
  }

  lemma FreqsSame(a: seq<CtData>, b: seq<CtData>, e: nat)
    requires KeptFreqs(a, b) && e <= |a|
    ensures Freqs(a, e) == Freqs(b, e)
  {
  }

  lemma CostStep(order: seq<nat>, tree: seq<CtData>, lens: seq<nat>, desc: TreeDesc, k: nat)
    requires desc.elems <= |tree| && desc.elems <= |lens| && desc.elems <= desc.extraBase + |desc.extra| && k < |order|
    ensures var costs := Costs(Freqs(tree, desc.elems), lens[..desc.elems], desc);
            LeafSum(order, costs, k + 1) == LeafSum(order, costs, k)
              + (if order[k] < desc.elems then tree[order[k]].fc * (lens[order[k]] + desc.ExtraBits(order[k])) else 0)
  {
  }

  /** Everything gen_bitlen accumulates over the first k nodes, given the lengths it will assign. */
  datatype Progress = Progress(tree: seq<CtData>, counts: seq<nat>, overflow: nat, opt: int, stat: int)

  ghost predicate Passed(order: seq<nat>, before: seq<CtData>, lens: seq<nat>, slens: seq<nat>, desc: TreeDesc,
                         leaves: nat, p: Progress, k: nat)
    requires desc.Valid() && TreeOrder(order, desc.elems, leaves)
    requires |lens| == desc.elems + leaves - 1 <= |before| && |slens| == desc.elems && 1 <= k <= |order|
  {
    var freqs := Freqs(before, desc.elems);
    && KeptFreqs(before, p.tree) && KeptOutside(order, before, p.tree)
    && SameLens(order, p.tree, lens, k) && StillDads(order, p.tree, desc.elems, leaves, k)
    && Tallied(order, lens, desc.elems, p.counts, k)
    && p.overflow == Overflows(order, lens, desc.elems, leaves, desc.maxLength, k)
    && p.opt == LeafSum(order, Costs(freqs, lens[..desc.elems], desc), k)
    && p.stat == LeafSum(order, Costs(freqs, slens, desc), k)
  }

  /** What the body of the first loop does to the accumulators when it meets node n. */
  ghost function Visit(desc: TreeDesc, slens: seq<nat>, n: nat, p: Progress): Progress
    requires desc.Valid() && n < |p.tree| && p.tree[n].dl < |p.tree| && |slens| == desc.elems
    requires |p.counts| == MAX_BITS + 1
  {
    var raw := p.tree[p.tree[n].dl].dl + 1;
    var bits := if raw > desc.maxLength then desc.maxLength else raw;
    var q := p.(tree := p.tree[n := p.tree[n].(dl := bits)],
                overflow := if raw > desc.maxLength then p.overflow + 1 else p.overflow);
    if n >= desc.elems then q
    else
      var f, x := p.tree[n].fc, desc.ExtraBits(n);
      q.(counts := p.counts[bits := p.counts[bits] + 1], opt := p.opt + f * (bits + x),
         stat := p.stat + f * (slens[n] + x))
  }

  lemma LimitStep(order: seq<nat>, lens: seq<nat>, e: nat, leaves: nat, m: nat, k: nat)
    requires TreeOrder(order, e, leaves) && e + leaves - 1 <= |lens| && 1 <= k < |order| && m >= 1
    requires Descends(order, lens, e, leaves, m, |order|)
    ensures e <= Dad(e, leaves, k) < e + leaves - 1 && order[k] < |lens| && lens[Dad(e, leaves, k)] <= m
    ensures var raw := lens[Dad(e, leaves, k)] + 1;
            && lens[order[k]] == (if raw > m then m else raw)
            && Overflows(order, lens, e, leaves, m, k + 1)
               == Overflows(order, lens, e, leaves, m, k) + (if raw > m then 1 else 0)
  {
    hide Descends, Distinct;
    DadBounded(order, lens, e, leaves, m, k);
  }

  lemma {:induction false} VisitPasses(order: seq<nat>, before: seq<CtData>, lens: seq<nat>, slens: seq<nat>,
                                       desc: TreeDesc, leaves: nat, p: Progress, k: nat)
    requires desc.Valid() && TreeOrder(order, desc.elems, leaves)
    requires |lens| == desc.elems + leaves - 1 <= |before| && |slens| == desc.elems && 1 <= k < |order|
    requires Descends(order, lens, desc.elems, leaves, desc.maxLength, |order|)
    requires Passed(order, before, lens, slens, desc, leaves, p, k)
    ensures order[k] < |p.tree| && p.tree[order[k]].dl < |p.tree| && |p.counts| == MAX_BITS + 1
    ensures Passed(order, before, lens, slens, desc, leaves, Visit(desc, slens, order[k], p), k + 1)
  {
    hide Distinct, Descends, Costs, Freqs, Tallied, SameLens, StillDads, LeafSum, Overflows, Below;
    var n := order[k];
    LimitStep(order, lens, desc.elems, leaves, desc.maxLength, k);
    PassStep(order, p.tree, lens, desc.elems, leaves, desc.maxLength, k);
    TalliedStep(order, lens, desc.elems, p.counts, k);
    CostStep(order, before, lens, desc, k);
    CostStep(order, before, slens, desc, k);
    assert slens[..desc.elems] == slens;
    TalliedSize(order, lens, desc.elems, p.counts, k);
    var q := Visit(desc, slens, n, p);
    assert p.tree[n].fc == before[n].fc;
    assert q.tree == p.tree[n := p.tree[n].(dl := lens[n])];
    assert n in order;
  }

  lemma TalliedSize(order: seq<nat>, lens: seq<nat>, e: nat, counts: seq<nat>, k: nat)
    requires Tallied(order, lens, e, counts, k)
    ensures |counts| == MAX_BITS + 1
  {
  }

  lemma {:induction false} PassedStart(order: seq<nat>, before: seq<CtData>, lens: seq<nat>, slens: seq<nat>,
                                       desc: TreeDesc, leaves: nat, counts: seq<nat>)
    requires desc.Valid() && TreeOrder(order, desc.elems, leaves)
    requires |lens| == desc.elems + leaves - 1 <= |before| && |slens| == desc.elems
    requires Descends(order, lens, desc.elems, leaves, desc.maxLength, |order|)
    requires StillDads(order, before, desc.elems, leaves, 1)
    requires |counts| == MAX_BITS + 1 && forall b :: 0 <= b <= MAX_BITS ==> counts[b] == 0
    ensures |order| == 2 * leaves - 1 >= 3 && order[0] < |before|
    ensures Passed(order, before, lens, slens, desc, leaves,
                   Progress(before[order[0] := before[order[0]].(dl := 0)], counts, 0, 0, 0), 1)
  {
    PassStart(order, before, lens, desc.elems, leaves, desc.maxLength);
    TalliedStart(order, lens, desc.elems, counts);
    LeafSumRoot(order, Costs(Freqs(before, desc.elems), lens[..desc.elems], desc));
    LeafSumRoot(order, Costs(Freqs(before, desc.elems), slens, desc));
    assert order[0] in order;
  }

  /** The code lengths of the static tree that goes with a dynamic one; all 0 when there is none. */
  ghost predicate Static(stree: array?<CtData>, e: nat, slens: seq<nat>)
    reads stree
  {
    |slens| == e && (stree != null ==> e <= stree.Length && forall x :: 0 <= x < e ==> slens[x] == stree[x].dl)
  }

  method ClearCounts(blCount: array<nat>)
    modifies blCount
    ensures forall b :: 0 <= b < blCount.Length ==> blCount[b] == 0
  {
    var bits := 0;
    while bits < blCount.Length
      invariant 0 <= bits <= blCount.Length
      invariant forall b :: 0 <= b < bits ==> blCount[b] == 0
    {
      blCount[bits] := 0;
      bits := bits + 1;
    }
  }

  /** The body of the first loop of gen_bitlen. */
  method VisitNode(tree: array<CtData>, blCount: array<nat>, n: nat, maxCode: nat, desc: TreeDesc,
                   stree: array?<CtData>, overflow0: nat, opt0: int, stat0: int, ghost slens: seq<nat>)
    returns (overflow: nat, opt: int, stat: int)
    requires desc.Valid() && blCount.Length == MAX_BITS + 1 && tree != stree && Static(stree, desc.elems, slens)
    requires n < tree.Length && tree[n].dl < tree.Length && (n > maxCode <==> n >= desc.elems)
    modifies tree, blCount
    ensures var q := Visit(desc, slens, n, Progress(old(tree[..]), old(blCount[..]), overflow0, opt0, stat0));
            && tree[..] == q.tree && blCount[..] == q.counts && overflow == q.overflow && opt == q.opt
            && stat == if stree != null then q.stat else stat0
  {
    overflow, opt, stat := overflow0, opt0, stat0;
    var bits := tree[tree[n].dl].dl + 1;
    if bits > desc.maxLength {
      bits := desc.maxLength;
      overflow := overflow + 1;
    }
    var f := tree[n].fc;
    tree[n] := tree[n].(dl := bits);
    if n > maxCode {
      return;
    }
    blCount[bits] := blCount[bits] + 1;
    var xbits := desc.ExtraBits(n);
    opt := opt + f * (bits + xbits);
    if stree != null {
      stat := stat + f * (stree[n].dl + xbits);
    }
  }

  lemma VisitIgnoresStat(desc: TreeDesc, slens: seq<nat>, n: nat, p: Progress, stat: int)
    requires desc.Valid() && n < |p.tree| && p.tree[n].dl < |p.tree| && |slens| == desc.elems
    requires |p.counts| == MAX_BITS + 1
    ensures var q, r := Visit(desc, slens, n, p), Visit(desc, slens, n, p.(stat := stat));
            q == r.(stat := q.stat)
  {
  }

  /** The first loop of gen_bitlen. */
  method FirstPass(tree: array<CtData>, heap: array<nat>, heapMax: nat, blCount: array<nat>, maxCode: nat,
                   desc: TreeDesc, stree: array?<CtData>, ghost leaves: nat, ghost slens: seq<nat>)
    returns (overflow: nat, opt: int, stat: int, ghost p: Progress)
    requires desc.Valid() && heap != blCount && heap.Length == HEAP_SIZE && blCount.Length == MAX_BITS + 1
    requires tree != stree && Static(stree, desc.elems, slens)
    requires maxCode < desc.elems && desc.elems + leaves - 1 <= tree.Length
    requires heapMax == HEAP_SIZE - (2 * leaves - 1) && 2 <= leaves && 2 * leaves - 1 <= HEAP_SIZE
    requires TreeOrder(heap[heapMax..], desc.elems, leaves)
    requires StillDads(heap[heapMax..], tree[..], desc.elems, leaves, 1)
    requires forall x :: maxCode < x < desc.elems ==> x !in heap[heapMax..]
    modifies tree, blCount
    ensures heap[..] == old(heap[..])
    ensures var order := heap[heapMax..];
            var lens := FirstLens(order, desc.elems, leaves, desc.maxLength, |order|);
            Passed(order, old(tree[..]), lens, slens, desc, leaves, p, |order|)
    ensures p == Progress(tree[..], blCount[..], overflow, opt, if stree != null then stat else p.stat)
    ensures stree == null ==> stat == 0
  {
    hide TreeOrder, FirstLens, Descends, Passed, StillDads, Visit;
    ghost var order, before := heap[heapMax..], tree[..];
    ghost var lens := FirstLens(order, desc.elems, leaves, desc.maxLength, |order|);
    FirstLensDescends(order, desc.elems, leaves, desc.maxLength, |order|);
    overflow, opt, stat := 0, 0, 0;
    ClearCounts(blCount);
    PassedStart(order, before, lens, slens, desc, leaves, blCount[..]);
    var root := heap[heapMax];
    tree[root] := tree[root].(dl := 0);
    p := Progress(before[root := before[root].(dl := 0)], blCount[..], 0, 0, 0);
    var h := heapMax + 1;
    while h < HEAP_SIZE
      invariant heapMax + 1 <= h <= HEAP_SIZE
      invariant p.tree == tree[..] && p.counts == blCount[..] && p.overflow == overflow && p.opt == opt
      invariant if stree != null then p.stat == stat else stat == 0
      invariant Passed(order, before, lens, slens, desc, leaves, p, h - heapMax)
    {
      VisitPasses(order, before, lens, slens, desc, leaves, p, h - heapMax);
      var n := heap[h];
      assert n == order[h - heapMax] && n in order;
      VisitIgnoresStat(desc, slens, n, p, stat);
      p := Visit(desc, slens, n, p);
      overflow, opt, stat := VisitNode(tree, blCount, n, maxCode, desc, stree, overflow, opt, stat, slens);
      h := h + 1;
    }
  }
}
