/** build_tree: the Huffman tree of a frequency table, its code lengths and its codes. */
module BuildTree {
  import opened BitStrings
  import opened Canonical
  import opened HeapQueue
  import opened Sums
  import opened CodeLengths
  import opened GenBitlen
  import opened LengthLimit
  import opened Reassign
  import opened Optimality
  import opened Forest
  import opened GenCodes

  /** The heap holds exactly the roots in act. */
  ghost predicate HeapHas(heap: seq<nat>, len: nat, act: set<nat>) {
    len < |heap| && multiset(heap[1..len + 1]) == multiset(act)
  }

  ghost function UsedSymbols(tree: seq<CtData>, e: nat): set<nat> {
    set x: nat | x < e && x < |tree| && tree[x].fc != 0
  }

  lemma HeapMembers(heap: seq<nat>, len: nat, act: set<nat>)
    requires HeapHas(heap, len, act)
    ensures forall i {:trigger heap[i]} :: 1 <= i <= len ==> heap[i] in act
    ensures forall x {:trigger x in act} :: x in act ==> exists i :: 1 <= i <= len && heap[i] == x
    ensures |act| == len
  {
    var s := heap[1..len + 1];
    forall i {:trigger heap[i]} | 1 <= i <= len
      ensures heap[i] in act
    {
      assert heap[i] == s[i - 1];
      assert multiset(s)[heap[i]] > 0;
      assert multiset(act)[heap[i]] > 0;
    }
    forall x {:trigger x in act} | x in act
      ensures exists i :: 1 <= i <= len && heap[i] == x
    {
      assert multiset(s)[x] > 0;
      var j :| 0 <= j < |s| && s[j] == x;
      assert heap[j + 1] == x;
    }
    assert |multiset(s)| == |s| == len;
    assert |multiset(act)| == |act|;
  }

  lemma TopIsLightest(heap: seq<nat>, len: nat, act: set<nat>, tree: seq<CtData>, depth: seq<nat>)
    requires HeapHas(heap, len, act) && len >= 1
    requires Nodes(heap, len, |tree|) && Nodes(heap, len, |depth|) && Ordered(heap, len, 1, tree, depth)
    ensures heap[1] in act && heap[1] < |tree|
    ensures forall x {:trigger x in act} :: x in act ==> x < |tree| && tree[heap[1]].fc <= tree[x].fc
  {
    HeapMembers(heap, len, act);
    forall x {:trigger x in act} | x in act
      ensures x < |tree| && tree[heap[1]].fc <= tree[x].fc
    {
      var i :| 1 <= i <= len && heap[i] == x;
      RootIsSmallest(heap, len, i, tree, depth);
    }
  }

  lemma NothingUsed(heap: seq<nat>, tree: seq<CtData>)
    requires heap != []
    ensures HeapHas(heap, 0, {}) && UsedSymbols(tree, 0) == {}
  {
    assert heap[1..1] == [];
  }

  lemma UsedNext(tree: seq<CtData>, n: nat)
    requires n < |tree|
    ensures UsedSymbols(tree, n + 1) == UsedSymbols(tree, n) + (if tree[n].fc != 0 then {n} else {})
    ensures forall x :: x in UsedSymbols(tree, n) ==> x < n
  {
  }

  lemma UsedSame(a: seq<CtData>, b: seq<CtData>, e: nat)
    requires |a| == |b| && forall x :: 0 <= x < |a| ==> a[x].fc == b[x].fc
    ensures UsedSymbols(a, e) == UsedSymbols(b, e)
  {
  }

  /** Symbols below n that do not occur get length 0. */
  ghost function Cleared(tree: seq<CtData>, n: nat): (t: seq<CtData>)
    ensures |t| == |tree|
  {
    seq(|tree|, x requires 0 <= x < |tree| => if x < n && tree[x].fc == 0 then tree[x].(dl := 0) else tree[x])
  }

  lemma ClearedNone(tree: seq<CtData>)
    ensures Cleared(tree, 0) == tree && IsLargest({}, -1)
  {
  }

  lemma ClearedNext(tree: seq<CtData>, n: nat)
    requires n < |tree|
    ensures Cleared(tree, n)[n] == tree[n]
    ensures Cleared(tree, n + 1)
            == if tree[n].fc == 0 then Cleared(tree, n)[n := tree[n].(dl := 0)] else Cleared(tree, n)
  {
  }

  ghost predicate IsLargest(act: set<nat>, maxCode: int) {
    (maxCode >= 0 ==> maxCode in act) && forall x :: x in act ==> x <= maxCode
  }

  /** The symbols below n that occur are in the heap, and maxCode is the largest of them. */
  ghost predicate Collected(heap: seq<nat>, len: nat, maxCode: int, tree: seq<CtData>, n: nat) {
    HeapHas(heap, len, UsedSymbols(tree, n)) && IsLargest(UsedSymbols(tree, n), maxCode)
  }

  lemma CollectStart(heap: seq<nat>, tree: seq<CtData>)
    requires heap != []
    ensures Collected(heap, 0, -1, tree, 0) && Cleared(tree, 0) == tree
  {
    NothingUsed(heap, tree);
    ClearedNone(tree);
  }

  lemma CollectStep(heap: seq<nat>, len: nat, maxCode: int, tree: seq<CtData>, n: nat)
    requires Collected(heap, len, maxCode, tree, n) && n < |tree| && len + 1 < |heap|
    ensures Cleared(tree, n)[n] == tree[n]
    ensures tree[n].fc != 0 ==>
              Collected(heap[len + 1 := n], len + 1, n, tree, n + 1) && Cleared(tree, n + 1) == Cleared(tree, n)
    ensures tree[n].fc == 0 ==>
              Collected(heap, len, maxCode, tree, n + 1)
               && Cleared(tree, n + 1) == Cleared(tree, n)[n := tree[n].(dl := 0)]
  {
    UsedNext(tree, n);
    ClearedNext(tree, n);
    if tree[n].fc != 0 {
      PushLast(heap, len, UsedSymbols(tree, n), n);
    }
  }

  lemma CollectedCleared(heap: seq<nat>, len: nat, maxCode: int, tree: seq<CtData>, e: nat)
    requires Collected(heap, len, maxCode, tree, e)
    ensures Collected(heap, len, maxCode, Cleared(tree, e), e)
  {
    UsedSame(tree, Cleared(tree, e), e);
  }

  /** Symbols in forced get frequency 1. */
  ghost function Forcing(tree: seq<CtData>, forced: set<nat>): (t: seq<CtData>)
    ensures |t| == |tree|
  {
    seq(|tree|, x requires 0 <= x < |tree| => if x in forced then tree[x].(fc := 1) else tree[x])
  }

  /** One round of forcing: the symbol chosen does not occur. */
  lemma ForceStep(heap: seq<nat>, len: nat, maxCode: int, tree: seq<CtData>, e: nat)
    returns (newcp: nat)
    requires Collected(heap, len, maxCode, tree, e) && len < 2 && len + 1 < |heap| && 3 <= e <= |tree| && maxCode >= -1
    ensures newcp == (if maxCode < 2 then maxCode + 1 else 0) <= 2
    ensures tree[newcp].fc == 0
    ensures Forced(UsedSymbols(tree, e))
         == {newcp} + Forced(UsedSymbols(tree[newcp := tree[newcp].(fc := 1)], e))
    ensures Collected(heap[len + 1 := newcp], len + 1, if maxCode < 2 then maxCode + 1 else maxCode,
                      tree[newcp := tree[newcp].(fc := 1)], e)
  {
    hide HeapHas;
    newcp := if maxCode < 2 then maxCode + 1 else 0;
    var act := UsedSymbols(tree, e);
    HeapMembers(heap, len, act);
    if maxCode >= 2 {
      assert maxCode in act;
      OnlyMember(act, maxCode);
    }
    assert newcp !in act;
    assert UsedSymbols(tree[newcp := tree[newcp].(fc := 1)], e) == act + {newcp};
    PushLast(heap, len, act, newcp);
    ForcedFirst(act, maxCode, newcp);
  }

  /** The symbols that get a code although they do not occur, when those in act do. */
  ghost function Forced(act: set<nat>): set<nat> {
    if |act| >= 2 then {}
    else if act == {} then {0, 1}
    else
      var x :| x in act;
      {if x < 2 then x + 1 else 0}
  }

  lemma ForcedFirst(act: set<nat>, maxCode: int, newcp: nat)
    requires |act| < 2 && IsLargest(act, maxCode) && maxCode >= -1
    requires newcp == (if maxCode < 2 then maxCode + 1 else 0) && newcp !in act
    ensures Forced(act) == {newcp} + Forced(act + {newcp})
  {
    if act == {} {
      OnlyMember({0}, 0);
    } else {
      var x :| x in act;
      OnlyMember(act, x);
      assert maxCode == x;
      assert |act + {newcp}| == 2;
    }
  }

  lemma NoneForced(heap: seq<nat>, len: nat, maxCode: int, tree: seq<CtData>, e: nat)
    requires Collected(heap, len, maxCode, tree, e) && len >= 2
    ensures Forced(UsedSymbols(tree, e)) == {}
  {
    HeapMembers(heap, len, UsedSymbols(tree, e));
  }

  lemma OnlyMember(act: set<nat>, x: nat)
    requires |act| <= 1 && x in act
    ensures act == {x}
  {
    assert act == (act - {x}) + {x};
    assert |act - {x}| == 0;
  }

  /** What forcing does to opt_len and static_len. */
  ghost predicate ForcedSoFar(before: seq<CtData>, e: nat, slens: seq<nat>, forced: set<nat>, tree: seq<CtData>,
                              saved: int, savedStatic: int)
  {
    && |slens| == e <= |before|
    && (forall x :: x in forced ==> x <= 2 && x < e && before[x].fc == 0)
    && tree == Forcing(before, forced)
    && saved == Dot(Presence(forced, e), AllOnes(e))
    && savedStatic == Dot(Presence(forced, e), slens)
  }

  lemma ForcedNone(before: seq<CtData>, e: nat, slens: seq<nat>)
    requires |slens| == e <= |before|
    ensures ForcedSoFar(before, e, slens, {}, before, 0, 0)
  {
    DotZero(Presence({}, e), slens);
    DotZero(Presence({}, e), AllOnes(e));
  }

  lemma ForcedMore(before: seq<CtData>, e: nat, slens: seq<nat>, forced: set<nat>, tree: seq<CtData>, saved: int,
                   savedStatic: int, newcp: nat)
    requires ForcedSoFar(before, e, slens, forced, tree, saved, savedStatic)
    requires newcp <= 2 && newcp < e && tree[newcp].fc == 0
    ensures ForcedSoFar(before, e, slens, forced + {newcp}, tree[newcp := tree[newcp].(fc := 1)],
                        saved + 1, savedStatic + slens[newcp])
  {
    hide Dot, Presence, Forcing;
    var p := Presence(forced, e);
    PresenceMore(before, e, forced, newcp);
    DotSetOne(p, slens, newcp);
    DotSetOne(p, AllOnes(e), newcp);
  }

  lemma PresenceMore(before: seq<CtData>, e: nat, forced: set<nat>, newcp: nat)
    requires newcp < e <= |before| && Forcing(before, forced)[newcp].fc == 0
    ensures newcp !in forced && before[newcp].fc == 0 && Presence(forced, e)[newcp] == 0
    ensures Presence(forced + {newcp}, e) == Presence(forced, e)[newcp := 1]
    ensures Forcing(before, forced + {newcp})
            == Forcing(before, forced)[newcp := Forcing(before, forced)[newcp].(fc := 1)]
  {
  }

  lemma PushLast(heap: seq<nat>, len: nat, act: set<nat>, n: nat)
    requires HeapHas(heap, len, act) && n !in act && len + 1 < |heap|
    ensures HeapHas(heap[len + 1 := n], len + 1, act + {n})
  {
    assert heap[len + 1 := n][1..len + 2] == heap[1..len + 1] + [n];
    assert multiset(act + {n}) == multiset(act) + multiset{n};
  }

  lemma Cancel(a: multiset<nat>, b: multiset<nat>, c: multiset<nat>)
    requires a + c == b + c
    ensures a == b
  {
    forall x: nat
      ensures a[x] == b[x]
    {
      assert (a + c)[x] == (b + c)[x];
    }
  }

  /** pqremove, before the heap order is restored. */
  lemma PopTop(heap: seq<nat>, len: nat, act: set<nat>)
    requires HeapHas(heap, len, act) && len >= 2
    ensures heap[1] in act
    ensures HeapHas(heap[1 := heap[len]], len - 1, act - {heap[1]})
  {
    HeapMembers(heap, len, act);
    var n := heap[1];
    var mid := heap[2..len];
    assert heap[1..len + 1] == [n] + mid + [heap[len]];
    assert heap[1 := heap[len]][1..len] == [heap[len]] + mid;
    assert multiset(act) == multiset(act - {n}) + multiset{n};
    var popped := [heap[len]] + mid;
    assert multiset(popped) == multiset{heap[len]} + multiset(mid);
    assert multiset(heap[1..len + 1]) == multiset(popped) + multiset{n};
    Cancel(multiset(popped), multiset(act - {n}), multiset{n});
    assert heap[1 := heap[len]][1..len] == popped;
  }

  lemma ReplaceTop(heap: seq<nat>, len: nat, act: set<nat>, node: nat)
    requires HeapHas(heap, len, act) && len >= 1 && node !in act
    ensures heap[1] in act
    ensures HeapHas(heap[1 := node], len, act - {heap[1]} + {node})
  {
    HeapMembers(heap, len, act);
    var m := heap[1];
    var rest := heap[2..len + 1];
    assert heap[1..len + 1] == [m] + rest;
    assert heap[1 := node][1..len + 1] == [node] + rest;
    assert multiset(act) == multiset(act - {m}) + multiset{m};
    assert multiset(act - {m} + {node}) == multiset(act - {m}) + multiset{node};
  }

  /** TTreeState, as far as building trees goes. */
  class TreeBuilder {
    const heap: array<nat>
    const depth: array<nat>
    const blCount: array<nat>
    var heapLen: nat
    var heapMax: nat
    var optLen: int
    var staticLen: int

    ghost predicate Valid() {
      && heap.Length == HEAP_SIZE && depth.Length == HEAP_SIZE && blCount.Length == MAX_BITS + 1
      && heap != depth && heap != blCount && depth != blCount
    }

    constructor ()
      ensures Valid() && fresh(heap) && fresh(depth) && fresh(blCount)
      ensures optLen == 0 && staticLen == 0
    {
      heap := new nat[HEAP_SIZE];
      depth := new nat[HEAP_SIZE];
      blCount := new nat[MAX_BITS + 1];
      heapLen, heapMax, optLen, staticLen := 0, HEAP_SIZE, 0, 0;
    }

    /** The first loop of build_tree: every symbol that occurs becomes a leaf. */
    method CollectSymbols(tree: array<CtData>, elems: nat) returns (maxCode: int)
      requires Valid() && elems <= 286 && elems <= tree.Length
      modifies this`heapLen, this`heapMax, heap, depth, tree
      ensures heapMax == HEAP_SIZE && heapLen <= elems
      ensures tree[..] == Cleared(old(tree[..]), elems)
      ensures -1 <= maxCode < elems && Collected(heap[..], heapLen, maxCode, tree[..], elems)
    {
      hide Collected, Cleared;
      heapLen, heapMax := 0, HEAP_SIZE;
      maxCode := -1;
      var n: nat := 0;
      ghost var ts := tree[..];
      CollectStart(heap[..], ts);
      while n < elems
        invariant 0 <= n <= elems && heapLen <= n && heapMax == HEAP_SIZE
        invariant tree[..] == Cleared(ts, n)
        invariant -1 <= maxCode < n && Collected(heap[..], heapLen, maxCode, ts, n)
      {
        CollectStep(heap[..], heapLen, maxCode, ts, n);
        if tree[n].fc != 0 {
          heapLen := heapLen + 1;
          heap[heapLen] := n;
          maxCode := n;
          depth[n] := 0;
        } else {
          tree[n] := tree[n].(dl := 0);
        }
        n := n + 1;
      }
      CollectedCleared(heap[..], heapLen, maxCode, ts, elems);
    }
  
    /** The second loop of build_tree: at least two codes of non-zero frequency. */
    method ForceTwo(tree: array<CtData>, stree: array?<CtData>, desc: TreeDesc, maxIn: int, ghost slens: seq<nat>)
      returns (maxCode: int, ghost forced: set<nat>, ghost saved: int)
      requires Valid() && desc.Valid() && desc.elems <= tree.Length && tree != stree && Static(stree, desc.elems, slens)
      requires -1 <= maxIn < desc.elems && Collected(heap[..], heapLen, maxIn, tree[..], desc.elems)
      modifies this`heapLen, this`optLen, this`staticLen, heap, depth, tree
      ensures heapLen >= 2 && (forced != {} ==> heapLen == 2) && old(optLen) - 2 <= optLen
      ensures heapMax == old(heapMax)
      ensures -1 <= maxCode < desc.elems && Collected(heap[..], heapLen, maxCode, tree[..], desc.elems)
      ensures ForcedSoFar(old(tree[..]), desc.elems, slens, forced, tree[..], old(optLen) - optLen, saved)
      ensures if stree != null then saved == old(staticLen) - staticLen else staticLen == old(staticLen)
      ensures forced == Forced(old(UsedSymbols(tree[..], desc.elems)))
    {
      hide Collected, ForcedSoFar, Forced;
      ghost var used := UsedSymbols(tree[..], desc.elems);
      ghost var before, o, s := tree[..], optLen, staticLen;
      saved := 0;
      maxCode := maxIn;
      forced := {};
      ForcedNone(before, desc.elems, slens);
      while heapLen < 2
        invariant -1 <= maxCode < desc.elems && Collected(heap[..], heapLen, maxCode, tree[..], desc.elems)
        invariant ForcedSoFar(before, desc.elems, slens, forced, tree[..], o - optLen, saved)
        invariant if stree != null then saved == s - staticLen else staticLen == s
        invariant forced != {} ==> heapLen <= 2
        invariant forced + Forced(UsedSymbols(tree[..], desc.elems)) == Forced(used)
        invariant o - optLen <= 2 && (heapLen < 2 ==> o - optLen <= heapLen) && heapMax == old(heapMax)
        decreases 2 - heapLen
      {
        ghost var chosen := ForceStep(heap[..], heapLen, maxCode, tree[..], desc.elems);
        ForcedMore(before, desc.elems, slens, forced, tree[..], o - optLen, saved, chosen);
        ghost var hs, ts := heap[..], tree[..];
        heapLen := heapLen + 1;
        var newcp: nat;
        if maxCode < 2 {
          maxCode := maxCode + 1;
          newcp := maxCode;
        } else {
          newcp := 0;
        }
        heap[heapLen] := newcp;
        tree[newcp] := tree[newcp].(fc := 1);
        depth[newcp] := 0;
        optLen := optLen - 1;
        if stree != null {
          staticLen := staticLen - stree[newcp].dl;
        }
        saved := saved + slens[newcp];
        forced := forced + {newcp};
        assert heap[..] == hs[heapLen := newcp];
        assert tree[..] == ts[newcp := ts[newcp].(fc := 1)];
      }
      NoneForced(heap[..], heapLen, maxCode, tree[..], desc.elems);
    }
  }
}
