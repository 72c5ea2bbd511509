/** CActivityToSequenceMapping: from an activity to the sequences that play it. */
module ActivityMap {
  import opened Options

  /** The parts of mstudioseqdesc_t that matter. */
  datatype SeqDesc = SeqDesc(activity: int, actWeight: int)

  /** HashValueType, without its key. */
  datatype HashValue = HashValue(startingIdx: int, count: nat, totalWeight: nat)

  /** SequenceTuple: both fields are 16 bits wide. */
  datatype SequenceTuple = SequenceTuple(seqnum: int, weight: int)

  /** (short)x */
  function Short(x: int): (s: int)
    ensures -0x8000 <= s < 0x8000
  {
    (x + 0x8000) % 0x10000 - 0x8000
  }

  /** Nothing is lost exactly when the number fits. */
  lemma ShortFits(x: int)
    ensures Short(x) == x <==> -0x8000 <= x < 0x8000
  {
  }

  /** The iabs macro. */
  function Abs(x: int): nat {
    if x >= 0 then x else -x
  }

  function TupleOf(seqs: seq<SeqDesc>, i: nat): SequenceTuple
    requires i < |seqs|
  {
    SequenceTuple(Short(i), Short(Abs(seqs[i].actWeight)))
  }

  // ----- a full scan -----

  /** The sequences with the given activity among the first n, in increasing order. */
  function SeqsOf(seqs: seq<SeqDesc>, n: nat, act: int): (r: seq<nat>)
    requires n <= |seqs|
  {
    if n == 0 then []
    else SeqsOf(seqs, n - 1, act) + (if seqs[n - 1].activity == act then [n - 1] else [])
  }

  /** The scan finds exactly the sequences with the activity, in order. */
  lemma {:induction false} ScanFinds(seqs: seq<SeqDesc>, n: nat, act: int)
    requires n <= |seqs|
    ensures forall i: nat :: i in SeqsOf(seqs, n, act) <==> i < n && seqs[i].activity == act
    ensures forall j, k :: 0 <= j < k < |SeqsOf(seqs, n, act)| ==> SeqsOf(seqs, n, act)[j] < SeqsOf(seqs, n, act)[k]
  {
    if n > 0 {
      ScanFinds(seqs, n - 1, act);
      var r := SeqsOf(seqs, n - 1, act);
      forall k | 0 <= k < |r|
        ensures r[k] < n - 1
      {
        assert r[k] in r;
      }
    }
  }

  function WeightOf(seqs: seq<SeqDesc>, n: nat, act: int): nat
    requires n <= |seqs|
  {
    if n == 0 then 0
    else WeightOf(seqs, n - 1, act) + (if seqs[n - 1].activity == act then Abs(seqs[n - 1].actWeight) else 0)
  }

  /** How many of the first n sequences have an activity at all. */
  function Active(seqs: seq<SeqDesc>, n: nat): nat
    requires n <= |seqs|
  {
    if n == 0 then 0 else Active(seqs, n - 1) + (if seqs[n - 1].activity >= 0 then 1 else 0)
  }

  // ----- the first pass: counting -----

  ghost predicate Counted(hash: map<int, HashValue>, seqs: seq<SeqDesc>, n: nat) {
    && n <= |seqs|
    && (forall a {:trigger a in hash} :: a in hash <==> a >= 0 && SeqsOf(seqs, n, a) != [])
    && (forall a {:trigger hash[a]} :: a in hash ==>
          hash[a].count == |SeqsOf(seqs, n, a)| && hash[a].totalWeight == WeightOf(seqs, n, a))
  }

  ghost function CountOne(hash: map<int, HashValue>, a: int, w: nat): map<int, HashValue> {
    if a < 0 then hash
    else if a in hash then hash[a := hash[a].(count := hash[a].count + 1, totalWeight := hash[a].totalWeight + w)]
    else hash[a := HashValue(0, 1, w)]
  }

  lemma CountStep(hash: map<int, HashValue>, seqs: seq<SeqDesc>, n: nat)
    requires Counted(hash, seqs, n) && n < |seqs|
    ensures Counted(CountOne(hash, seqs[n].activity, Abs(seqs[n].actWeight)), seqs, n + 1)
  {
    var after := CountOne(hash, seqs[n].activity, Abs(seqs[n].actWeight));
    forall a {:trigger a in after}
      ensures a in after <==> a >= 0 && SeqsOf(seqs, n + 1, a) != []
      ensures a in after ==>
                after[a].count == |SeqsOf(seqs, n + 1, a)| && after[a].totalWeight == WeightOf(seqs, n + 1, a)
    {
      ScanStep(seqs, n, a);
      if a >= 0 && a !in hash {
        NoneNoWeight(seqs, n, a);
      }
    }
  }

  lemma NothingCounted(seqs: seq<SeqDesc>)
    ensures Counted(map[], seqs, 0)
  {
  }

  lemma ScanStep(seqs: seq<SeqDesc>, n: nat, a: int)
    requires n < |seqs|
    ensures SeqsOf(seqs, n + 1, a) == SeqsOf(seqs, n, a) + (if seqs[n].activity == a then [n] else [])
    ensures WeightOf(seqs, n + 1, a)
            == WeightOf(seqs, n, a) + (if seqs[n].activity == a then Abs(seqs[n].actWeight) else 0)
  {
  }

  lemma {:induction false} NoneNoWeight(seqs: seq<SeqDesc>, n: nat, a: int)
    requires n <= |seqs| && SeqsOf(seqs, n, a) == []
    ensures WeightOf(seqs, n, a) == 0
  {
    if n > 0 {
      NoneNoWeight(seqs, n - 1, a);
    }
  }

  method CountSequences(seqs: seq<SeqDesc>) returns (hash: map<int, HashValue>, foundOne: bool)
    ensures Counted(hash, seqs, |seqs|)
    ensures foundOne == (hash != map[])
  {
    hide Counted, SeqsOf, WeightOf;
    NothingCounted(seqs);
    foundOne := false;
    hash := map[];
    var i := 0;
    while i < |seqs|
      invariant 0 <= i <= |seqs| && Counted(hash, seqs, i)
      invariant foundOne == (hash != map[])
    {
      var seqdesc := seqs[i];
      CountStep(hash, seqs, i);
      if seqdesc.activity >= 0 {
        foundOne := true;
        if seqdesc.activity in hash {
          var e := hash[seqdesc.activity];
          hash := hash[seqdesc.activity := e.(count := e.count + 1,
              totalWeight := e.totalWeight + Abs(seqdesc.actWeight))];
        } else {
          hash := hash[seqdesc.activity := HashValue(0, 1, Abs(seqdesc.actWeight))];
        }
        assert seqdesc.activity in hash;
      }
      i := i + 1;
    }
  }

  // ----- the starting indices, in whatever order the hash table is walked -----

  predicate Known(hash: map<int, HashValue>, order: seq<int>) {
    forall k {:trigger order[k]} :: 0 <= k < |order| ==> order[k] in hash
  }

  function SumCounts(hash: map<int, HashValue>, order: seq<int>): nat
    requires Known(hash, order)
  {
    if order == [] then 0 else SumCounts(hash, order[..|order| - 1]) + hash[order[|order| - 1]].count
  }

  /** The activities in order own consecutive slices, from the front. */
  ghost predicate Sliced(hash: map<int, HashValue>, order: seq<int>) {
    && Known(hash, order)
    && (forall j, k :: 0 <= j < k < |order| ==> order[j] != order[k])
    && (forall k {:trigger order[k]} :: 0 <= k < |order| ==> hash[order[k]].startingIdx == SumCounts(hash, order[..k]))
  }

  ghost predicate SameCounts(a: map<int, HashValue>, b: map<int, HashValue>) {
    a.Keys == b.Keys && forall x {:trigger a[x]} {:trigger b[x]} ::
      x in b ==> a[x].count == b[x].count && a[x].totalWeight == b[x].totalWeight
  }

  lemma {:induction false} SumCountsSame(a: map<int, HashValue>, b: map<int, HashValue>, order: seq<int>)
    requires SameCounts(a, b) && Known(b, order)
    ensures Known(a, order) && SumCounts(a, order) == SumCounts(b, order)
  {
    if order != [] {
      var k := |order| - 1;
      SumCountsSame(a, b, order[..k]);
      var x := order[k];
      assert x in b && x in a;
      assert a[x].count == b[x].count;
    }
  }

  lemma {:induction false} SlicesApart(hash: map<int, HashValue>, order: seq<int>, j: nat, k: nat)
    requires Known(hash, order) && j < k <= |order|
    ensures SumCounts(hash, order[..j]) + hash[order[j]].count <= SumCounts(hash, order[..k])
    decreases k
  {
    assert order[..k][..k - 1] == order[..k - 1];
    if j < k - 1 {
      SlicesApart(hash, order, j, k - 1);
    }
  }

  method AssignSlices(hash0: map<int, HashValue>)
    returns (hash: map<int, HashValue>, sequenceCount: nat, topActivity: int, ghost order: seq<int>)
    requires forall a :: a in hash0 ==> a >= 0
    ensures SameCounts(hash, hash0) && Sliced(hash, order) && sequenceCount == SumCounts(hash, order)
    ensures forall a :: a in hash <==> a in order
    ensures topActivity >= 0 && forall a :: a in hash ==> a <= topActivity
  {
    hide Sliced, SumCounts, SameCounts;
    hash := hash0;
    sequenceCount, topActivity := 0, 0;
    order := [];
    NothingSliced(hash0);
    var left := hash0.Keys;
    while left != {}
      invariant left <= hash0.Keys == hash.Keys && SameCounts(hash, hash0)
      invariant forall a :: a in hash0.Keys <==> a in left || a in order
      invariant Known(hash, order)
      invariant forall a :: a in order ==> a !in left
      invariant Sliced(hash, order) && sequenceCount == SumCounts(hash, order)
      invariant topActivity >= 0 && forall a :: a in order ==> a <= topActivity
      decreases |left|
    {
      EmptyOrNot(left);
      var a :| a in left;
      ghost var before := hash;
      hash := hash[a := hash[a].(startingIdx := sequenceCount)];
      SlicedMore(before, hash, order, a);
      SameCountsTrans(hash, before, hash0);
      sequenceCount := sequenceCount + hash[a].count;
      topActivity := if a > topActivity then a else topActivity;
      left := left - {a};
      order := order + [a];
    }
  }

  lemma EmptyOrNot(s: set<int>)
    ensures (forall a :: a !in s) ==> s == {}
  {
    if forall a :: a !in s {
      assert s == {};
    }
  }

  lemma NothingSliced(hash: map<int, HashValue>)
    ensures Sliced(hash, []) && SumCounts(hash, []) == 0 && SameCounts(hash, hash)
  {
  }

  lemma SameCountsTrans(a: map<int, HashValue>, b: map<int, HashValue>, c: map<int, HashValue>)
    requires SameCounts(a, b) && SameCounts(b, c)
    ensures SameCounts(a, c)
  {
  }

  lemma SlicedMore(before: map<int, HashValue>, hash: map<int, HashValue>, order: seq<int>, a: int)
    requires Sliced(before, order) && a in before && a !in order
    requires hash == before[a := before[a].(startingIdx := SumCounts(before, order))]
    ensures SameCounts(hash, before) && Sliced(hash, order + [a])
    ensures SumCounts(hash, order + [a]) == SumCounts(before, order) + before[a].count
  {
    var more := order + [a];
    assert more[..|order|] == order;
    forall k {:trigger more[k]} | 0 <= k < |more|
      ensures more[k] in hash && hash[more[k]].startingIdx == SumCounts(hash, more[..k])
    {
      assert more[..k] == order[..k];
      SumCountsSame(hash, before, order[..k]);
    }
    SumCountsSame(hash, before, order);
  }

  // ----- the second pass: filling the slices -----

  /** The hash table as it is when the tuples are filled in. */
  ghost predicate Ready(hash: map<int, HashValue>, order: seq<int>, seqs: seq<SeqDesc>, total: nat) {
    && Counted(hash, seqs, |seqs|) && Sliced(hash, order) && (forall a :: a in hash <==> a in order)
    && total == SumCounts(hash, order)
  }

  lemma SliceWithin(hash: map<int, HashValue>, order: seq<int>, seqs: seq<SeqDesc>, total: nat, a: int)
    requires Ready(hash, order, seqs, total) && a in hash
    ensures 0 <= hash[a].startingIdx && hash[a].startingIdx + hash[a].count <= total
  {
    var k :| 0 <= k < |order| && order[k] == a;
    SlicesApart(hash, order, k, |order|);
    assert order[..|order|] == order;
  }

  lemma SlicesDisjoint(hash: map<int, HashValue>, order: seq<int>, seqs: seq<SeqDesc>, total: nat, a: int, b: int)
    requires Ready(hash, order, seqs, total) && a in hash && b in hash && a != b
    ensures hash[a].startingIdx + hash[a].count <= hash[b].startingIdx
            || hash[b].startingIdx + hash[b].count <= hash[a].startingIdx
  {
    var j :| 0 <= j < |order| && order[j] == a;
    var k :| 0 <= k < |order| && order[k] == b;
    if j < k {
      SlicesApart(hash, order, j, k);
    } else {
      SlicesApart(hash, order, k, j);
    }
  }

  /** The slices of all activities hold their sequences among the first n. */
  ghost predicate Filled(hash: map<int, HashValue>, seqs: seq<SeqDesc>, n: nat, tuples: seq<SequenceTuple>) {
    && n <= |seqs|
    && forall a {:trigger hash[a]} :: a in hash ==> FilledOne(hash[a], seqs, n, tuples, a)
  }

  ghost predicate FilledOne(e: HashValue, seqs: seq<SeqDesc>, n: nat, tuples: seq<SequenceTuple>, a: int)
    requires n <= |seqs|
  {
    var r := SeqsOf(seqs, n, a);
    && 0 <= e.startingIdx && e.startingIdx + |r| <= |tuples|
    && forall k {:trigger r[k]} :: 0 <= k < |r| ==> r[k] < |seqs| && tuples[e.startingIdx + k] == TupleOf(seqs, r[k])
  }

  lemma {:induction false} SeqsOfGrow(seqs: seq<SeqDesc>, n: nat, m: nat, a: int)
    requires n <= m <= |seqs|
    ensures |SeqsOf(seqs, n, a)| <= |SeqsOf(seqs, m, a)|
    decreases m
  {
    if n < m {
      SeqsOfGrow(seqs, n, m - 1, a);
    }
  }

  lemma FillStep(hash: map<int, HashValue>, order: seq<int>, seqs: seq<SeqDesc>, n: nat, tuples: seq<SequenceTuple>)
    requires Ready(hash, order, seqs, |tuples|) && Filled(hash, seqs, n, tuples) && n < |seqs|
    ensures seqs[n].activity >= 0 ==>
              && seqs[n].activity in hash
              && var e, offset := hash[seqs[n].activity], |SeqsOf(seqs, n, seqs[n].activity)|;
              && 0 <= e.startingIdx && offset < e.count && e.startingIdx + offset < |tuples|
              && Filled(hash, seqs, n + 1, tuples[e.startingIdx + offset := TupleOf(seqs, n)])
    ensures seqs[n].activity < 0 ==> Filled(hash, seqs, n + 1, tuples)
  {
    var act := seqs[n].activity;
    if act < 0 {
      forall a {:trigger hash[a]} | a in hash
        ensures FilledOne(hash[a], seqs, n + 1, tuples, a)
      {
        ScanStep(seqs, n, a);
      }
    } else {
      FillInto(hash, order, seqs, n, tuples);
    }
  }

  lemma FillInto(hash: map<int, HashValue>, order: seq<int>, seqs: seq<SeqDesc>, n: nat, tuples: seq<SequenceTuple>)
    requires Ready(hash, order, seqs, |tuples|) && Filled(hash, seqs, n, tuples) && n < |seqs| && seqs[n].activity >= 0
    ensures seqs[n].activity in hash
    ensures var e, offset := hash[seqs[n].activity], |SeqsOf(seqs, n, seqs[n].activity)|;
            && 0 <= e.startingIdx && offset < e.count && e.startingIdx + offset < |tuples|
            && Filled(hash, seqs, n + 1, tuples[e.startingIdx + offset := TupleOf(seqs, n)])
  {
    hide Ready, FilledOne, SeqsOf;
    var act := seqs[n].activity;
    ScanStep(seqs, n, act);
    SeqsOfGrow(seqs, n + 1, |seqs|, act);
    CountsKnown(hash, order, seqs, |tuples|, act);
    SliceWithin(hash, order, seqs, |tuples|, act);
    var offset := |SeqsOf(seqs, n, act)|;
    var at := hash[act].startingIdx + offset;
    var after := tuples[at := TupleOf(seqs, n)];
    forall a {:trigger hash[a]} | a in hash
      ensures FilledOne(hash[a], seqs, n + 1, after, a)
    {
      assert FilledOne(hash[a], seqs, n, tuples, a);
      if a != act {
        CountsKnown(hash, order, seqs, |tuples|, a);
        SeqsOfGrow(seqs, n, |seqs|, a);
        SlicesDisjoint(hash, order, seqs, |tuples|, a, act);
        FilledOther(hash[a], seqs, n, tuples, a, at, TupleOf(seqs, n));
      } else {
        FilledOwn(hash[a], seqs, n, tuples, a);
      }
    }
  }

  lemma FilledOther(e: HashValue, seqs: seq<SeqDesc>, n: nat, tuples: seq<SequenceTuple>, a: int, at: nat,
                    t: SequenceTuple)
    requires n < |seqs| && FilledOne(e, seqs, n, tuples, a) && seqs[n].activity != a && at < |tuples|
    requires at < e.startingIdx || e.startingIdx + |SeqsOf(seqs, n, a)| <= at
    ensures FilledOne(e, seqs, n + 1, tuples[at := t], a)
  {
    hide TupleOf;
    ScanStep(seqs, n, a);
  }

  lemma FilledOwn(e: HashValue, seqs: seq<SeqDesc>, n: nat, tuples: seq<SequenceTuple>, a: int)
    requires n < |seqs| && FilledOne(e, seqs, n, tuples, a) && seqs[n].activity == a
    requires e.startingIdx + |SeqsOf(seqs, n, a)| < |tuples|
    ensures 0 <= e.startingIdx
            && FilledOne(e, seqs, n + 1, tuples[e.startingIdx + |SeqsOf(seqs, n, a)| := TupleOf(seqs, n)], a)
  {
    hide TupleOf, SeqsOf;
    ScanStep(seqs, n, a);
  }

  lemma CountsKnown(hash: map<int, HashValue>, order: seq<int>, seqs: seq<SeqDesc>, total: nat, a: int)
    requires Ready(hash, order, seqs, total)
    ensures a in hash <==> a >= 0 && SeqsOf(seqs, |seqs|, a) != []
    ensures a in hash ==> hash[a].count == |SeqsOf(seqs, |seqs|, a)| && hash[a].totalWeight == WeightOf(seqs, |seqs|, a)
  {
  }

  // ----- the slices together hold every active sequence once -----

  ghost function ScanTotal(seqs: seq<SeqDesc>, n: nat, order: seq<int>): nat
    requires n <= |seqs|
  {
    if order == [] then 0 else ScanTotal(seqs, n, order[..|order| - 1]) + |SeqsOf(seqs, n, order[|order| - 1])|
  }

  ghost predicate Distinct(order: seq<int>) {
    forall j, k :: 0 <= j < k < |order| ==> order[j] != order[k]
  }

  lemma {:induction false} ScanTotalStep(seqs: seq<SeqDesc>, n: nat, order: seq<int>)
    requires n < |seqs| && Distinct(order)
    ensures ScanTotal(seqs, n + 1, order) == ScanTotal(seqs, n, order) + (if seqs[n].activity in order then 1 else 0)
  {
    if order != [] {
      var k := |order| - 1;
      assert order == order[..k] + [order[k]];
      ScanTotalStep(seqs, n, order[..k]);
      ScanStep(seqs, n, order[k]);
    }
  }

  lemma {:induction false} ScanTotalZero(seqs: seq<SeqDesc>, order: seq<int>)
    ensures ScanTotal(seqs, 0, order) == 0
  {
    if order != [] {
      ScanTotalZero(seqs, order[..|order| - 1]);
    }
  }

  lemma {:induction false} ScanTotalActive(seqs: seq<SeqDesc>, n: nat, order: seq<int>)
    requires n <= |seqs| && Distinct(order)
    requires forall i {:trigger seqs[i]} :: 0 <= i < |seqs| ==> (seqs[i].activity >= 0 <==> seqs[i].activity in order)
    ensures ScanTotal(seqs, n, order) == Active(seqs, n)
  {
    if n == 0 {
      ScanTotalZero(seqs, order);
    } else {
      ScanTotalActive(seqs, n - 1, order);
      ScanTotalStep(seqs, n - 1, order);
    }
  }

  lemma {:induction false} SumCountsScan(hash: map<int, HashValue>, seqs: seq<SeqDesc>, order: seq<int>)
    requires Counted(hash, seqs, |seqs|) && Known(hash, order)
    ensures SumCounts(hash, order) == ScanTotal(seqs, |seqs|, order)
  {
    if order != [] {
      var a := order[|order| - 1];
      SumCountsScan(hash, seqs, order[..|order| - 1]);
      assert a in hash && hash[a].count == |SeqsOf(seqs, |seqs|, a)|;
    }
  }

  lemma SlicesCover(hash: map<int, HashValue>, order: seq<int>, seqs: seq<SeqDesc>, total: nat)
    requires Ready(hash, order, seqs, total)
    ensures total == Active(seqs, |seqs|)
  {
    forall i {:trigger seqs[i]} | 0 <= i < |seqs|
      ensures seqs[i].activity >= 0 <==> seqs[i].activity in order
    {
      ScanFinds(seqs, |seqs|, seqs[i].activity);
      assert seqs[i].activity >= 0 <==> seqs[i].activity in hash;
    }
    SumCountsScan(hash, seqs, order);
    ScanTotalActive(seqs, |seqs|, order);
  }

  // ----- the mapping -----

  datatype Slice = Slice(start: nat, count: nat, totalWeight: nat)

  /** The tuples of an activity, as a full scan of the sequences would list them. */
  ghost function Listed(seqs: seq<SeqDesc>, act: int): seq<SequenceTuple> {
    ScanFinds(seqs, |seqs|, act);
    var r := SeqsOf(seqs, |seqs|, act);
    seq(|r|, k requires 0 <= k < |r| => assert r[k] in r; TupleOf(seqs, r[k]))
  }

  class ActivityMapping {
    var hash: map<int, HashValue>
    var tuples: array?<SequenceTuple>
    ghost var order: seq<int>

    constructor ()
      ensures hash == map[] && tuples == null
    {
      hash, tuples, order := map[], null, [];
    }

    /** The mapping answers for these sequences. */
    ghost predicate Maps(seqs: seq<SeqDesc>)
      reads this, tuples
    {
      if tuples == null then hash == map[] && Active(seqs, |seqs|) == 0
      else Ready(hash, order, seqs, tuples.Length) && Filled(hash, seqs, |seqs|, tuples[..])
    }

    /** Initialize. A mapping that already has its tuples stays as it is. */
    method Initialize(seqs: seq<SeqDesc>)
      requires tuples == null ==> hash == map[]
      modifies this
      ensures old(tuples) != null ==> unchanged(this)
      ensures old(tuples) == null ==> Maps(seqs)
      ensures old(tuples) == null && tuples != null ==> fresh(tuples) && tuples.Length == Active(seqs, |seqs|)
    {
      hide Ready, Filled, Counted, Sliced;
      if tuples != null {
        return;
      }
      var counted, foundOne := CountSequences(seqs);
      if !foundOne {
        NothingActive(counted, seqs, |seqs|);
        return;
      }
      CountedKeys(counted, seqs);
      var sliced, sequenceCount, topActivity, walked := AssignSlices(counted);
      ReadyNow(counted, sliced, walked, seqs, sequenceCount);
      SlicesCover(sliced, walked, seqs, sequenceCount);
      var list := new SequenceTuple[sequenceCount];
      FillTuples(list, sliced, topActivity, seqs, walked);
      hash, tuples, order := sliced, list, walked;
    }

    /** GetSequences: where the tuples of an activity are, if it has any. */
    method GetSequences(forActivity: int, ghost seqs: seq<SeqDesc>) returns (r: Option<Slice>)
      requires Maps(seqs)
      ensures r.None? <==> forActivity < 0 || Listed(seqs, forActivity) == []
      ensures r.Some? ==> tuples != null && r.value.start + r.value.count <= tuples.Length
                          && tuples[r.value.start..r.value.start + r.value.count] == Listed(seqs, forActivity)
                          && r.value.totalWeight == WeightOf(seqs, |seqs|, forActivity)
    {
      hide Ready, Filled, FilledOne, Listed;
      if forActivity in hash {
        SliceIsListed(hash, order, seqs, tuples[..], forActivity);
        r := Some(Slice(hash[forActivity].startingIdx, hash[forActivity].count, hash[forActivity].totalWeight));
      } else {
        NotListed(hash, order, seqs, tuples == null, if tuples == null then 0 else tuples.Length, forActivity);
        r := None;
      }
    }

    method NumSequencesForActivity(forActivity: int, ghost seqs: seq<SeqDesc>) returns (n: nat)
      requires Maps(seqs)
      ensures n == if forActivity < 0 then 0 else |Listed(seqs, forActivity)|
    {
      hide Ready, Filled, FilledOne, Listed;
      if tuples == null {
        NotListed(hash, order, seqs, true, 0, forActivity);
        return 0;
      }
      if forActivity in hash {
        SliceIsListed(hash, order, seqs, tuples[..], forActivity);
        n := hash[forActivity].count;
      } else {
        NotListed(hash, order, seqs, false, tuples.Length, forActivity);
        n := 0;
      }
    }
  }

  /** The last loop of Initialize. */
  method FillTuples(list: array<SequenceTuple>, hash: map<int, HashValue>, topActivity: int, seqs: seq<SeqDesc>,
                    ghost order: seq<int>)
    requires Ready(hash, order, seqs, list.Length) && topActivity >= 0 && forall a ::
               a in hash ==> 0 <= a <= topActivity
    modifies list
    ensures Filled(hash, seqs, |seqs|, list[..])
  {
    hide Ready, Filled, FilledOne, SeqsOf, TupleOf;
    var seqsPerAct := new nat[topActivity + 1](_ => 0);
    var i := 0;
    NothingFilled(hash, order, seqs, list[..]);
    while i < |seqs|
      invariant 0 <= i <= |seqs| && Filled(hash, seqs, i, list[..])
      invariant forall a {:trigger seqsPerAct[a]} :: a in hash ==> seqsPerAct[a] == |SeqsOf(seqs, i, a)|
    {
      var seqdesc := seqs[i];
      ghost var before := list[..];
      FillStep(hash, order, seqs, i, before);
      AllScanned(seqs, i);
      if seqdesc.activity >= 0 {
        var element := hash[seqdesc.activity];
        var tupleOffset := seqsPerAct[seqdesc.activity];
        assert tupleOffset < element.count;
        list[element.startingIdx + tupleOffset] := TupleOf(seqs, i);
        assert list[..] == before[element.startingIdx + tupleOffset := TupleOf(seqs, i)];
        seqsPerAct[seqdesc.activity] := seqsPerAct[seqdesc.activity] + 1;
      }
      i := i + 1;
    }
  }

  lemma AllScanned(seqs: seq<SeqDesc>, n: nat)
    requires n < |seqs|
    ensures forall a {:trigger SeqsOf(seqs, n + 1, a)} ::
              |SeqsOf(seqs, n + 1, a)| == |SeqsOf(seqs, n, a)| + (if seqs[n].activity == a then 1 else 0)
  {
  }

  lemma NothingFilled(hash: map<int, HashValue>, order: seq<int>, seqs: seq<SeqDesc>, tuples: seq<SequenceTuple>)
    requires Ready(hash, order, seqs, |tuples|)
    ensures Filled(hash, seqs, 0, tuples) && forall a {:trigger SeqsOf(seqs, 0, a)} :: SeqsOf(seqs, 0, a) == []
  {
    forall a {:trigger hash[a]} | a in hash
      ensures FilledOne(hash[a], seqs, 0, tuples, a)
    {
      SliceWithin(hash, order, seqs, |tuples|, a);
    }
  }

  lemma CountedKeys(hash: map<int, HashValue>, seqs: seq<SeqDesc>)
    requires Counted(hash, seqs, |seqs|)
    ensures forall a :: a in hash ==> a >= 0
  {
  }

  lemma ReadyNow(counted: map<int, HashValue>, hash: map<int, HashValue>, order: seq<int>, seqs: seq<SeqDesc>,
                 total: nat)
    requires Counted(counted, seqs, |seqs|) && SameCounts(hash, counted) && Sliced(hash, order)
    requires (forall a :: a in hash <==> a in order) && total == SumCounts(hash, order)
    ensures Ready(hash, order, seqs, total) && forall a :: a in hash ==> a >= 0
  {
    forall a {:trigger hash[a]} | a in hash
      ensures hash[a].count == |SeqsOf(seqs, |seqs|, a)| && hash[a].totalWeight == WeightOf(seqs, |seqs|, a)
    {
      assert a in counted && counted[a].count == |SeqsOf(seqs, |seqs|, a)|;
    }
    assert hash.Keys == counted.Keys;
    forall a {:trigger a in hash}
      ensures a in hash <==> a >= 0 && SeqsOf(seqs, |seqs|, a) != []
    {
      assert a in hash <==> a in counted;
    }
  }

  lemma {:induction false} NothingActive(hash: map<int, HashValue>, seqs: seq<SeqDesc>, n: nat)
    requires Counted(hash, seqs, |seqs|) && hash == map[] && n <= |seqs|
    ensures Active(seqs, n) == 0
  {
    if n > 0 {
      NothingActive(hash, seqs, n - 1);
      ScanFinds(seqs, |seqs|, seqs[n - 1].activity);
      assert seqs[n - 1].activity !in hash;
    }
  }

  lemma SliceIsListed(hash: map<int, HashValue>, order: seq<int>, seqs: seq<SeqDesc>, tuples: seq<SequenceTuple>,
                      a: int)
    requires Ready(hash, order, seqs, |tuples|) && Filled(hash, seqs, |seqs|, tuples) && a in hash
    ensures a >= 0 && 0 <= hash[a].startingIdx && hash[a].startingIdx + hash[a].count <= |tuples|
    ensures tuples[hash[a].startingIdx..hash[a].startingIdx + hash[a].count] == Listed(seqs, a) != []
    ensures hash[a].count == |Listed(seqs, a)| && hash[a].totalWeight == WeightOf(seqs, |seqs|, a)
  {
    CountsKnown(hash, order, seqs, |tuples|, a);
    var r := SeqsOf(seqs, |seqs|, a);
    assert FilledOne(hash[a], seqs, |seqs|, tuples, a);
    forall k | 0 <= k < |r|
      ensures tuples[hash[a].startingIdx..hash[a].startingIdx + hash[a].count][k] == Listed(seqs, a)[k]
    {
      assert r[k] < |seqs|;
    }
  }

  lemma NotListed(hash: map<int, HashValue>, order: seq<int>, seqs: seq<SeqDesc>, none: bool, total: nat, a: int)
    requires a !in hash && if none then Active(seqs, |seqs|) == 0 else Ready(hash, order, seqs, total)
    ensures a >= 0 ==> Listed(seqs, a) == []
  {
    if none {
      NoneActive(seqs, |seqs|, a);
    } else {
      CountsKnown(hash, order, seqs, total, a);
    }
  }

  lemma {:induction false} NoneActive(seqs: seq<SeqDesc>, n: nat, a: int)
    requires n <= |seqs| && Active(seqs, n) == 0
    ensures a >= 0 ==> SeqsOf(seqs, n, a) == []
  {
    if n > 0 {
      NoneActive(seqs, n - 1, a);
    }
  }
}
