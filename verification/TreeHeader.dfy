/** scan_tree, send_tree, build_bl_tree and send_all_trees. */
module TreeHeader {
  import opened BitStrings
  import opened Canonical
  import opened HeapQueue
  import opened Sums
  import opened GenBitlen
  import opened GenCodes
  import opened BitPacking
  import opened Tallies
  import opened RunLengths

  const GUARD: nat := 0xffff
  const BL_CODES: nat := 19

  /** Where the loops of scan_tree and send_tree stand: count entries of the current run,
      all equal to next, have been passed before n. */
  ghost predicate Scanning(lens: Lengths, n: nat, prev: int, next: nat, count: nat, maxCount: nat, minCount: nat) {
    && count <= n <= |lens|
    && (count > 0 ==> n < |lens|)
    && (n < |lens| ==>
          next == lens[n] && maxCount == MaxCount(next, prev) && minCount == MinCount(next, prev) && count < maxCount)
    && (forall j :: n - count <= j < n ==> lens[j] == next)
  }

  /** The items of the runs completed so far, followed by those still to come, are all items. */
  ghost predicate Emitted(lens: Lengths, done: seq<Item>, start: nat, prev: int) {
    start <= |lens| && done + Rle(lens, start, prev) == Rle(lens, 0, -1)
  }

  lemma {:induction false} RunIs(lens: Lengths, i: nat, c: nat, max: nat)
    requires 1 <= c <= max && i + c <= |lens| && forall j :: i <= j < i + c ==> lens[j] == lens[i]
    requires c == max || i + c == |lens| || lens[i + c] != lens[i]
    ensures Run(lens, i, max) == c
    decreases c
  {
    if c > 1 {
      assert lens[i + 1] == lens[i];
      RunIs(lens, i + 1, c - 1, max - 1);
    }
  }

  ghost function NextLen(lens: Lengths, n: nat): nat {
    if n < |lens| then lens[n] else GUARD
  }

  lemma ScanContinues(lens: Lengths, n: nat, prev: int, next: nat, count: nat, maxCount: nat, minCount: nat)
    requires Scanning(lens, n, prev, next, count, maxCount, minCount) && n < |lens| && Bounded(lens, MAX_BITS)
    requires count + 1 < maxCount && next == NextLen(lens, n + 1)
    ensures Scanning(lens, n + 1, prev, next, count + 1, maxCount, minCount)
  {
    assert lens[n] <= MAX_BITS;
  }

  /** The run ends here: one segment is due. */
  lemma ScanEmits(lens: Lengths, n: nat, prev: int, cur: nat, count: nat, maxCount: nat, minCount: nat, done: seq<Item>)
    requires Scanning(lens, n, prev, cur, count, maxCount, minCount) && n < |lens| && Bounded(lens, MAX_BITS)
    requires count + 1 == maxCount || cur != NextLen(lens, n + 1)
    requires Emitted(lens, done, n - count, prev)
    ensures cur <= MAX_BITS && count + 1 <= MaxCount(cur, prev) && minCount == MinCount(cur, prev)
    ensures Emitted(lens, done + Segment(cur, prev, count + 1), n + 1, cur)
    ensures Scanning(lens, n + 1, cur, NextLen(lens, n + 1), 0,
                     MaxCount(NextLen(lens, n + 1), cur), MinCount(NextLen(lens, n + 1), cur))
  {
    hide Segment, Rle, Run, MaxCount, MinCount;
    var start := n - count;
    assert lens[n] <= MAX_BITS;
    assert lens[start] == cur;
    RunIs(lens, start, count + 1, maxCount);
    RleUnfold(lens, start, prev);
    CountLimits(cur, prev);
    CountLimits(NextLen(lens, n + 1), cur);
    var seg, tail := Segment(cur, prev, count + 1), Rle(lens, n + 1, cur);
    assert Rle(lens, start, prev) == seg + tail;
    assert done + (seg + tail) == (done + seg) + tail;
  }

  lemma ScanStarts(lens: Lengths)
    requires lens != []
    ensures Scanning(lens, 0, -1, lens[0], 0, MaxCount(lens[0], -1), MinCount(lens[0], -1))
    ensures Emitted(lens, [], 0, -1)
  {
    assert [] + Rle(lens, 0, -1) == Rle(lens, 0, -1);
  }

  lemma ScanEnds(lens: Lengths, n: nat, prev: int, next: nat, count: nat, maxCount: nat, minCount: nat, done: seq<Item>)
    requires Scanning(lens, n, prev, next, count, maxCount, minCount) && n == |lens|
    requires Emitted(lens, done, n - count, prev)
    ensures done == Rle(lens, 0, -1)
  {
    RleUnfold(lens, |lens|, prev);
  }

  // ----- scan_tree -----

  /** The frequency table f counts the items done. */
  ghost predicate Counted(f0: seq<nat>, f: seq<nat>, done: seq<Item>) {
    && |f0| == BL_CODES && (forall k :: 0 <= k < |done| ==> done[k].sym < BL_CODES)
    && f == Tally(f0, Symbols(done))
  }

  lemma SymbolsConcat(a: seq<Item>, b: seq<Item>)
    ensures Symbols(a + b) == Symbols(a) + Symbols(b)
  {
  }

  lemma CountedMore(f0: seq<nat>, f: seq<nat>, done: seq<Item>, more: seq<Item>)
    requires Counted(f0, f, done) && forall k :: 0 <= k < |more| ==> more[k].sym < BL_CODES
    ensures Counted(f0, Tally(f, Symbols(more)), done + more)
  {
    SymbolsConcat(done, more);
    TallyConcat(f0, Symbols(done), Symbols(more));
  }

  lemma {:induction false} TallyCopies(f: seq<nat>, x: nat, n: nat)
    requires x < |f|
    ensures Tally(f, Symbols(Copies(x, n))) == f[x := f[x] + n]
  {
    var s := Symbols(Copies(x, n));
    if n > 0 {
      TallyCopies(f, x, n - 1);
      assert s == Symbols(Copies(x, n - 1)) + [x];
      TallySnoc(f, Symbols(Copies(x, n - 1)), x);
    }
  }

  lemma TallyOne(f: seq<nat>, it: Item)
    requires it.sym < |f|
    ensures Tally(f, Symbols([it])) == f[it.sym := f[it.sym] + 1]
  {
    hide *;
    SymbolsOne(it);
    TallyNone(f);
    TallyMore(f, [], it.sym, f);
  }

  lemma SymbolsOne(it: Item)
    ensures Symbols([it]) == [] + [it.sym]
  {
  }

  lemma TallyNone(f: seq<nat>)
    ensures Tally(f, []) == f
  {
  }

  lemma TallyMore(f: seq<nat>, s: seq<nat>, y: nat, g: seq<nat>)
    requires (forall i :: 0 <= i < |s| ==> s[i] < |f|) && y < |f| && Tally(f, s) == g
    ensures Tally(f, s + [y]) == g[y := g[y] + 1]
  {
    hide *;
    TallySnoc(f, s, y);
  }

  lemma SymbolsTwo(a: Item, b: Item)
    ensures Symbols([a, b]) == Symbols([a]) + [b.sym]
    ensures |Symbols([a])| == 1 && Symbols([a])[0] == a.sym
  {
  }

  /** What one segment adds to the table of bit length frequencies. */
  ghost function Recount(f: seq<nat>, cur: nat, prev: int, count: nat, minCount: nat): seq<nat>
    requires |f| == BL_CODES && cur < 16
  {
    if count < minCount then f[cur := f[cur] + count]
    else if cur != 0 then
      var g := if cur != prev then f[cur := f[cur] + 1] else f;
      g[REP_3_6 := g[REP_3_6] + 1]
    else if count <= 10 then f[REPZ_3_10 := f[REPZ_3_10] + 1]
    else f[REPZ_11_138 := f[REPZ_11_138] + 1]
  }

  lemma RecountIsTally(f: seq<nat>, cur: nat, prev: int, count: nat)
    requires |f| == BL_CODES && cur < 16 && 1 <= count <= MaxCount(cur, prev)
    ensures forall k :: 0 <= k < |Segment(cur, prev, count)| ==> Segment(cur, prev, count)[k].sym < BL_CODES
    ensures Recount(f, cur, prev, count, MinCount(cur, prev)) == Tally(f, Symbols(Segment(cur, prev, count)))
  {
    hide Tally, Symbols;
    var items := Segment(cur, prev, count);
    if count < MinCount(cur, prev) {
      TallyCopies(f, cur, count);
    } else if cur != 0 && cur != prev {
      SymbolsTwo(items[0], items[1]);
      TallyOne(f, items[0]);
      TallyMore(f, Symbols([items[0]]), items[1].sym, f[cur := f[cur] + 1]);
      assert items == [items[0], items[1]];
    } else {
      TallyOne(f, items[0]);
    }
  }

  ghost predicate SameLens19(a: seq<CtData>, b: seq<CtData>) {
    |a| == |b| && forall x {:trigger b[x]} :: 0 <= x < |b| ==> b[x].dl == a[x].dl && (x >= BL_CODES ==> b[x] == a[x])
  }

  /** bl_tree[x].freq += times */
  method Bump(blTree: array<CtData>, x: nat, times: nat)
    requires x < BL_CODES <= blTree.Length
    modifies blTree
    ensures SameLens19(old(blTree[..]), blTree[..])
    ensures Freqs(blTree[..], BL_CODES)
         == old(Freqs(blTree[..], BL_CODES))[x := old(Freqs(blTree[..], BL_CODES))[x] + times]
  {
    blTree[x] := blTree[x].(fc := blTree[x].fc + times);
  }

  lemma SameLensTransitive(a: seq<CtData>, b: seq<CtData>, c: seq<CtData>)
    requires SameLens19(a, b) && SameLens19(b, c)
    ensures SameLens19(a, c)
  {
  }

  /** One segment's worth of counting, as in the body of scan_tree. */
  method CountSegment(blTree: array<CtData>, cur: nat, prev: int, count: nat, minCount: nat)
    requires BL_CODES <= blTree.Length && cur < 16
    modifies blTree
    ensures SameLens19(old(blTree[..]), blTree[..])
    ensures Freqs(blTree[..], BL_CODES) == Recount(old(Freqs(blTree[..], BL_CODES)), cur, prev, count, minCount)
  {
    hide Freqs, SameLens19;
    ghost var before := blTree[..];
    if count < minCount {
      Bump(blTree, cur, count);
    } else if cur != 0 {
      if cur != prev {
        Bump(blTree, cur, 1);
      } else {
        SameLensReflexive(before);
      }
      ghost var middle := blTree[..];
      Bump(blTree, REP_3_6, 1);
      SameLensTransitive(before, middle, blTree[..]);
    } else if count <= 10 {
      Bump(blTree, REPZ_3_10, 1);
    } else {
      Bump(blTree, REPZ_11_138, 1);
    }
  }

  lemma SameLensReflexive(a: seq<CtData>)
    ensures SameLens19(a, a)
  {
  }

  /** scan_tree. No counter can reach 16 bits: the table only ever counts as many
      items as there are code lengths. */
  method ScanTree(tree: array<CtData>, blTree: array<CtData>, maxCode: nat)
    requires tree != blTree && maxCode + 1 < tree.Length && BL_CODES <= blTree.Length
    requires Bounded(LensOf(tree[..], maxCode + 1), MAX_BITS)
    modifies tree, blTree
    ensures tree[..] == old(tree[..])[maxCode + 1 := old(tree[maxCode + 1]).(dl := GUARD)]
    ensures SameLens19(old(blTree[..]), blTree[..])
    ensures Counted(old(Freqs(blTree[..], BL_CODES)), Freqs(blTree[..], BL_CODES),
                    Rle(old(LensOf(tree[..], maxCode + 1)), 0, -1))
  {
    hide Emitted, Counted, Scanning, Segment, MaxCount, MinCount, Bounded, Rle, SameLens19, Freqs, Recount, NextLen,
         LensOf;
    ghost var lens := LensOf(tree[..], maxCode + 1);
    ghost var f0, bl0, t0 := Freqs(blTree[..], BL_CODES), blTree[..], tree[..];
    ghost var done: seq<Item> := [];
    ReadsLens(tree[..], maxCode + 1);
    ScanStarts(lens);
    CountedNothing(f0);
    SameLensReflexive(bl0);
    var prev: int := -1;
    var next: nat := tree[0].dl;
    var count: nat, maxCount: nat, minCount: nat := 0, 7, 4;
    if next == 0 {
      maxCount, minCount := 138, 3;
    }
    CountLimits(next, -1);
    tree[maxCode + 1] := tree[maxCode + 1].(dl := GUARD);
    GuardIsNext(t0, tree[..], maxCode + 1);
    ghost var guarded := tree[..];
    var n: nat := 0;
    while n <= maxCode
      invariant n <= maxCode + 1 && tree[..] == guarded
      invariant Scanning(lens, n, prev, next, count, maxCount, minCount) && count <= n
      invariant Emitted(lens, done, n - count, prev)
      invariant Counted(f0, Freqs(blTree[..], BL_CODES), done) && SameLens19(bl0, blTree[..])
    {
      var cur := next;
      next := tree[n + 1].dl;
      assert next == guarded[n + 1].dl == NextLen(lens, n + 1);
      count := count + 1;
      if count < maxCount && cur == next {
        ScanContinues(lens, n, prev, cur, count - 1, maxCount, minCount);
        n := n + 1;
        continue;
      }
      ScanLimit(lens, n, prev, cur, count - 1, maxCount, minCount);
      ScanEmits(lens, n, prev, cur, count - 1, maxCount, minCount, done);
      ghost var f, bl := Freqs(blTree[..], BL_CODES), blTree[..];
      RecountIsTally(f, cur, prev, count);
      CountSegment(blTree, cur, prev, count, minCount);
      SameLensTransitive(bl0, bl, blTree[..]);
      CountedMore(f0, f, done, Segment(cur, prev, count));
      done := done + Segment(cur, prev, count);
      CountLimits(next, cur);
      count := 0;
      prev := cur;
      if next == 0 {
        maxCount, minCount := 138, 3;
      } else if cur == next {
        maxCount, minCount := 6, 3;
      } else {
        maxCount, minCount := 7, 4;
      }
      n := n + 1;
    }
    ScanEnds(lens, n, prev, next, count, maxCount, minCount, done);
  }

  lemma CountedNothing(f0: seq<nat>)
    requires |f0| == BL_CODES
    ensures Counted(f0, f0, [])
  {
  }

  /** The three cases in which the loops set their limits. */
  lemma CountLimits(next: nat, prev: int)
    ensures next == 0 ==> MaxCount(next, prev) == 138 && MinCount(next, prev) == 3
    ensures next != 0 && next == prev ==> MaxCount(next, prev) == 6 && MinCount(next, prev) == 3
    ensures next != 0 && next != prev ==> MaxCount(next, prev) == 7 && MinCount(next, prev) == 4
  {
  }

  lemma ReadsLens(tree: seq<CtData>, e: nat)
    requires e <= |tree|
    ensures |LensOf(tree, e)| == e && (e > 0 ==> LensOf(tree, e)[0] == tree[0].dl)
  {
  }

  /** With the guard in place the entry after the table differs from every length. */
  lemma GuardIsNext(before: seq<CtData>, tree: seq<CtData>, e: nat)
    requires 1 <= e < |before| && tree == before[e := before[e].(dl := GUARD)]
    ensures LensOf(tree, e) == LensOf(before, e)
    ensures forall n {:trigger tree[n]} :: 0 <= n <= e ==> tree[n].dl == NextLen(LensOf(before, e), n)
  {
  }

  lemma ScanLimit(lens: Lengths, n: nat, prev: int, next: nat, count: nat, maxCount: nat, minCount: nat)
    requires Scanning(lens, n, prev, next, count, maxCount, minCount) && n < |lens|
    ensures count + 1 <= maxCount
  {
  }

  // ----- send_tree -----

  /** The send_code macro. */
  method SendCode(w: BitWriter, tree: array<CtData>, c: nat, ghost lens: Lengths)
    requires w.Valid() && c < |lens| && c < tree.Length && CodedAt(tree[c], lens, c) && 1 <= lens[c] <= MAX_BITS
    modifies w, w.outBuf
    ensures w.Valid() && w.bits == old(w.bits) + CodeBits(lens, c)
  {
    hide Pow2, LsbBits, CodeBits;
    w.SendBits(tree[c].fc, tree[c].dl);
  }

  lemma CodedEntry(tree: seq<CtData>, lens: Lengths, c: nat)
    requires c < |lens| <= |tree| && Coded(tree, lens) && lens[c] > 0
    ensures CodedAt(tree[c], lens, c)
  {
  }

  /** A code of the bit length tree, and its extra bits when it has any. */
  method SendItem(w: BitWriter, blTree: array<CtData>, sym: nat, extra: nat, ghost clens: Lengths)
    requires w.Valid() && |clens| <= blTree.Length && Coded(blTree[..], clens) && Bounded(clens, MAX_BITS)
    requires Sendable(clens, [Item(sym, extra)])
    modifies w, w.outBuf
    ensures w.Valid() && sym < |clens| && w.bits == old(w.bits) + ItemsBits(clens, [Item(sym, extra)])
  {
    hide Coded, CodedAt, LsbBits, CodeBits;
    assert [Item(sym, extra)][0] == Item(sym, extra);
    OneItemBits(clens, Item(sym, extra));
    assert clens[sym] <= MAX_BITS;
    CodedEntry(blTree[..], clens, sym);
    SendCode(w, blTree, sym, clens);
    if ItemExtra(sym) > 0 {
      w.SendBits(extra, ItemExtra(sym));
    }
  }

  lemma OneItemBits(clens: Lengths, it: Item)
    requires it.sym < |clens|
    ensures ItemsBits(clens, [it]) == CodeBits(clens, it.sym) + LsbBits(it.extra, ItemExtra(it.sym))
    ensures ItemExtra(it.sym) == 0 ==> LsbBits(it.extra, ItemExtra(it.sym)) == []
  {
    assert [it][1..] == [];
    assert ItemsBits(clens, [it]) == ItemBits(clens, it) + ItemsBits(clens, []);
  }

  /** The branch of send_tree that sends one run. */
  method SendSegment(w: BitWriter, blTree: array<CtData>, cur: nat, prev: int, count: nat, minCount: nat,
                     ghost clens: Lengths)
    requires w.Valid() && |clens| <= blTree.Length && Coded(blTree[..], clens) && Bounded(clens, MAX_BITS)
    requires cur < 16 && 1 <= count <= MaxCount(cur, prev) && minCount == MinCount(cur, prev)
    requires Sendable(clens, Segment(cur, prev, count))
    modifies w, w.outBuf
    ensures w.Valid()
    ensures InRange(Segment(cur, prev, count), |clens|)
    ensures w.bits == old(w.bits) + ItemsBits(clens, Segment(cur, prev, count))
  {
    hide ItemsBits, Coded, Bounded, Sendable, BitWriter.Valid;
    ghost var items := Segment(cur, prev, count);
    SendableSymbols(clens, items);
    if count < minCount {
      var left := count;
      while left != 0
        invariant 0 <= left <= count && w.Valid() && InRange(Copies(cur, count - left), |clens|)
        invariant w.bits == old(w.bits) + ItemsBits(clens, Copies(cur, count - left))
        decreases left
      {
        SendableCopies(clens, cur, count);
        CopiesMore(clens, cur, count - left);
        SendItem(w, blTree, cur, 0, clens);
        left := left - 1;
      }
    } else if cur != 0 {
      var n := count;
      if cur != prev {
        assert items == [Item(cur, 0)] + [Item(REP_3_6, count - 4)];
        SendableParts(clens, [Item(cur, 0)], [Item(REP_3_6, count - 4)]);
        ItemsBitsConcat(clens, [Item(cur, 0)], [Item(REP_3_6, count - 4)]);
        SendItem(w, blTree, cur, 0, clens);
        n := n - 1;
      }
      // " 3_6?"
      assert n >= 3 && n <= 6;
      SendItem(w, blTree, REP_3_6, n - 3, clens);
    } else if count <= 10 {
      SendItem(w, blTree, REPZ_3_10, count - 3, clens);
    } else {
      SendItem(w, blTree, REPZ_11_138, count - 11, clens);
    }
  }

  lemma SendableSymbols(clens: Lengths, items: seq<Item>)
    requires Sendable(clens, items)
    ensures InRange(items, |clens|)
    ensures InRange([], |clens|) && ItemsBits(clens, []) == []
  {
  }

  lemma SendableCopies(clens: Lengths, cur: nat, n: nat)
    requires Sendable(clens, Copies(cur, n)) && n >= 1
    ensures Sendable(clens, [Item(cur, 0)]) && cur < |clens|
  {
    assert Copies(cur, n)[0] == Item(cur, 0);
  }

  lemma CopiesMore(clens: Lengths, cur: nat, n: nat)
    requires cur < |clens|
    ensures ItemsBits(clens, Copies(cur, n + 1)) == ItemsBits(clens, Copies(cur, n)) + ItemsBits(clens, [Item(cur, 0)])
  {
    assert Copies(cur, n + 1) == Copies(cur, n) + [Item(cur, 0)];
    ItemsBitsConcat(clens, Copies(cur, n), [Item(cur, 0)]);
  }

  /** send_tree */
  method SendTree(w: BitWriter, tree: array<CtData>, blTree: array<CtData>, maxCode: nat, ghost clens: Lengths)
    requires w.Valid() && maxCode + 1 < tree.Length && tree[maxCode + 1].dl == GUARD
    requires Bounded(LensOf(tree[..], maxCode + 1), MAX_BITS)
    requires |clens| <= blTree.Length && Coded(blTree[..], clens) && Bounded(clens, MAX_BITS)
    requires Sendable(clens, Rle(LensOf(tree[..], maxCode + 1), 0, -1))
    modifies w, w.outBuf
    ensures w.Valid()
    ensures InRange(Rle(LensOf(tree[..], maxCode + 1), 0, -1), |clens|)
    ensures w.bits == old(w.bits) + ItemsBits(clens, Rle(LensOf(tree[..], maxCode + 1), 0, -1))
  {
    hide Emitted, Scanning, Segment, MaxCount, MinCount, Bounded, Rle, NextLen, LensOf, Sendable, ItemsBits, Coded,
         InRange, BitWriter.Valid;
    ghost var lens, t := LensOf(tree[..], maxCode + 1), tree[..];
    ghost var all := Rle(lens, 0, -1);
    ghost var done: seq<Item> := [];
    ReadsLens(t, maxCode + 1);
    ScanStarts(lens);
    GuardSet(t, maxCode + 1);
    SendableSymbols(clens, all);
    var prev: int := -1;
    var next: nat := tree[0].dl;
    var count: nat, maxCount: nat, minCount: nat := 0, 7, 4;
    if next == 0 {
      maxCount, minCount := 138, 3;
    }
    CountLimits(next, -1);
    var n: nat := 0;
    while n <= maxCode
      invariant n <= maxCode + 1 && w.Valid()
      invariant Scanning(lens, n, prev, next, count, maxCount, minCount) && count <= n
      invariant Emitted(lens, done, n - count, prev)
      invariant InRange(done, |clens|) && w.bits == old(w.bits) + ItemsBits(clens, done)
    {
      var cur := next;
      next := tree[n + 1].dl;
      assert next == t[n + 1].dl == NextLen(lens, n + 1);
      count := count + 1;
      if count < maxCount && cur == next {
        ScanContinues(lens, n, prev, cur, count - 1, maxCount, minCount);
        n := n + 1;
        continue;
      }
      ScanLimit(lens, n, prev, cur, count - 1, maxCount, minCount);
      ScanEmits(lens, n, prev, cur, count - 1, maxCount, minCount, done);
      SegmentSendable(clens, lens, done, Segment(cur, prev, count), n + 1, cur);
      SendSegment(w, blTree, cur, prev, count, minCount, clens);
      ItemsMore(clens, done, Segment(cur, prev, count));
      done := done + Segment(cur, prev, count);
      CountLimits(next, cur);
      count := 0;
      prev := cur;
      if next == 0 {
        maxCount, minCount := 138, 3;
      } else if cur == next {
        maxCount, minCount := 6, 3;
      } else {
        maxCount, minCount := 7, 4;
      }
      n := n + 1;
    }
    ScanEnds(lens, n, prev, next, count, maxCount, minCount, done);
  }

  lemma ItemsMore(clens: Lengths, done: seq<Item>, more: seq<Item>)
    requires InRange(done, |clens|) && InRange(more, |clens|)
    ensures InRange(done + more, |clens|)
    ensures ItemsBits(clens, done + more) == ItemsBits(clens, done) + ItemsBits(clens, more)
  {
    ItemsBitsConcat(clens, done, more);
  }

  lemma GuardSet(tree: seq<CtData>, e: nat)
    requires e < |tree| && tree[e].dl == GUARD
    ensures forall n {:trigger tree[n]} :: 0 <= n <= e ==> tree[n].dl == NextLen(LensOf(tree, e), n)
  {
  }

  lemma SegmentSendable(clens: Lengths, lens: Lengths, done: seq<Item>, seg: seq<Item>, start: nat, prev: int)
    requires Emitted(lens, done + seg, start, prev) && Sendable(clens, Rle(lens, 0, -1))
    ensures Sendable(clens, seg)
    ensures InRange(seg, |clens|)
  {
    hide Sendable, Rle;
    assert Rle(lens, 0, -1) == done + seg + Rle(lens, start, prev);
    SendableParts(clens, done + seg, Rle(lens, start, prev));
    SendableParts(clens, done, seg);
    SendableSymbols(clens, seg);
  }
}
