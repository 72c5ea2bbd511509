/** build_bl_tree and send_all_trees: the head of a block with dynamic trees. */
module DynamicHeader {
  import opened BitStrings
  import opened Canonical
  import opened Inflate
  import opened HeapQueue
  import opened Sums
  import opened GenBitlen
  import opened GenCodes
  import opened BitPacking
  import opened BuildTree
  import opened Huffman
  import opened Tallies
  import opened RunLengths
  import opened TreeHeader

  /** bl_order */
  const BL_ORDER: seq<nat> := [16, 17, 18, 0, 8, 7, 9, 6, 10, 5, 11, 4, 12, 3, 13, 2, 14, 1, 15]

  /** Where each code length stands in bl_order. */
  const BL_RANK: seq<nat> := [3, 17, 15, 13, 11, 9, 7, 5, 4, 6, 8, 10, 12, 14, 16, 18, 0, 1, 2]

  const MAX_BL_BITS: nat := 7

  const BL_EXTRA: seq<nat> := [0, 0, 0, 0, 0, 0, 0, 0, 0, 0, 0, 0, 0, 0, 0, 0, 2, 3, 7]

  /** bl_desc */
  function BlDesc(): TreeDesc {
    TreeDesc(BL_EXTRA, 0, BL_CODES, MAX_BL_BITS)
  }

  lemma BlDescValid()
    ensures BlDesc().Valid()
    ensures forall x :: 0 <= x < BL_CODES ==> BlDesc().ExtraBits(x) == ItemExtra(x)
  {
    Pow2Values();
  }

  lemma OrderAndRank()
    ensures |BL_ORDER| == |BL_RANK| == BL_CODES && BL_ORDER == CODE_LENGTH_ORDER
    ensures forall x :: 0 <= x < BL_CODES ==> BL_RANK[x] < BL_CODES && BL_ORDER[BL_RANK[x]] == x
    ensures forall k :: 0 <= k < BL_CODES ==> BL_ORDER[k] < BL_CODES && BL_RANK[BL_ORDER[k]] == k
  {
  }

  // ----- the code length code, 3 bits a length -----

  /** The lengths of the code length code from rank k on, as they are sent. */
  ghost function LengthCodeBits(clens: Lengths, k: nat, count: nat): Bits
    requires |clens| == BL_CODES && k <= count <= BL_CODES
    decreases count - k
  {
    if k == count then []
    else
      OrderAndRank();
      LsbBits(clens[BL_ORDER[k]], 3) + LengthCodeBits(clens, k + 1, count)
  }

  /** The lengths with rank below k; 0 for the rest. */
  ghost function KnownLengths(clens: Lengths, k: nat): (r: Lengths)
    requires |clens| == BL_CODES
    ensures |r| == BL_CODES
  {
    seq(BL_CODES, x requires 0 <= x < BL_CODES => if BL_RANK[x] < k then clens[x] else 0)
  }

  lemma {:induction false} ReadLengthCode(clens: Lengths, k: nat, count: nat, rest: Bits)
    requires |clens| == BL_CODES && k <= count <= BL_CODES && Bounded(clens, MAX_BL_BITS)
    ensures ReadCodeLengthLengths(k, count, LengthCodeBits(clens, k, count) + rest, KnownLengths(clens, k))
         == Done(KnownLengths(clens, count), rest)
    decreases count - k
  {
    OrderAndRank();
    if k == count {
      assert LengthCodeBits(clens, k, count) + rest == rest;
    } else {
      var x := BL_ORDER[k];
      var more := LengthCodeBits(clens, k + 1, count) + rest;
      assert LengthCodeBits(clens, k, count) + rest == LsbBits(clens[x], 3) + more;
      assert clens[x] <= MAX_BL_BITS < Pow2(3) by { Pow2Values(); }
      ReadBack(clens[x], 3, more);
      NextKnown(clens, k);
      ReadLengthCode(clens, k + 1, count, rest);
    }
  }

  lemma NextKnown(clens: Lengths, k: nat)
    requires |clens| == BL_CODES && k < BL_CODES
    ensures BL_ORDER[k] < BL_CODES
    ensures KnownLengths(clens, k + 1) == KnownLengths(clens, k)[BL_ORDER[k] := clens[BL_ORDER[k]]]
  {
    OrderAndRank();
    var x := BL_ORDER[k];
    forall y {:trigger BL_RANK[y]} | 0 <= y < BL_CODES
      ensures KnownLengths(clens, k + 1)[y] == KnownLengths(clens, k)[x := clens[x]][y]
    {
      if y != x {
        assert BL_RANK[y] != k by {
          assert BL_ORDER[BL_RANK[y]] == y;
        }
      }
    }
  }

  /** Lengths from rank count on are all zero. */
  ghost predicate ZeroFrom(clens: Lengths, count: nat)
    requires |clens| == BL_CODES
  {
    OrderAndRank();
    forall k :: count <= k < BL_CODES ==> clens[BL_ORDER[k]] == 0
  }

  lemma AllKnown(clens: Lengths, count: nat)
    requires |clens| == BL_CODES && ZeroFrom(clens, count)
    ensures KnownLengths(clens, count) == clens
    ensures KnownLengths(clens, 0) == Repeat(0, BL_CODES)
  {
    OrderAndRank();
    forall x | 0 <= x < BL_CODES
      ensures KnownLengths(clens, count)[x] == clens[x]
    {
      if BL_RANK[x] >= count {
        assert clens[BL_ORDER[BL_RANK[x]]] == 0;
      }
    }
  }

  // ----- the whole head -----

  /** What send_all_trees sends. */
  ghost function HeaderBits(llens: Lengths, dlens: Lengths, clens: Lengths, blcodes: nat): Bits
    requires |llens| >= 257 && |dlens| >= 1 && |clens| == BL_CODES && 4 <= blcodes <= BL_CODES
    requires InRange(Rle(llens, 0, -1), BL_CODES) && InRange(Rle(dlens, 0, -1), BL_CODES)
  {
    LsbBits(|llens| - 257, 5) + (LsbBits(|dlens| - 1, 5) + (LsbBits(blcodes - 4, 4)
      + (LengthCodeBits(clens, 0, blcodes)
         + (ItemsBits(clens, Rle(llens, 0, -1)) + ItemsBits(clens, Rle(dlens, 0, -1))))))
  }

  /** A table pair the format can carry, with a code for all its items. */
  ghost predicate Describes(clens: Lengths, blcodes: nat, llens: Lengths, dlens: Lengths) {
    && 257 <= |llens| <= 286 && 1 <= |dlens| <= 30 && 4 <= blcodes <= BL_CODES && |clens| == BL_CODES
    && Bounded(llens, MAX_BITS) && Bounded(dlens, MAX_BITS) && Bounded(clens, MAX_BL_BITS) && Usable(clens)
    && ZeroFrom(clens, blcodes)
    && Sendable(clens, Rle(llens, 0, -1)) && Sendable(clens, Rle(dlens, 0, -1))
  }

  lemma DescribesInRange(clens: Lengths, blcodes: nat, llens: Lengths, dlens: Lengths)
    requires Describes(clens, blcodes, llens, dlens)
    ensures InRange(Rle(llens, 0, -1), BL_CODES) && InRange(Rle(dlens, 0, -1), BL_CODES)
  {
    SendableSymbols(clens, Rle(llens, 0, -1));
    SendableSymbols(clens, Rle(dlens, 0, -1));
  }

  /** The lengths of both trees, read as one run of lengths. */
  lemma ReadBoth(clens: Lengths, llens: Lengths, dlens: Lengths, rest: Bits)
    requires Usable(clens) && |clens| == BL_CODES && Bounded(llens, MAX_BITS) && Bounded(dlens, MAX_BITS)
    requires Sendable(clens, Rle(llens, 0, -1)) && Sendable(clens, Rle(dlens, 0, -1))
    ensures InRange(Rle(llens, 0, -1), |clens|) && InRange(Rle(dlens, 0, -1), |clens|)
    ensures ReadLengths(clens, |llens| + |dlens|,
                        (ItemsBits(clens, Rle(llens, 0, -1)) + ItemsBits(clens, Rle(dlens, 0, -1))) + rest, [])
         == Done(llens + dlens, rest)
  {
    hide ReadLengths, ItemsBits, Rle, Usable, Sendable;
    SendableSymbols(clens, Rle(llens, 0, -1));
    SendableSymbols(clens, Rle(dlens, 0, -1));
    var a, b := ItemsBits(clens, Rle(llens, 0, -1)), ItemsBits(clens, Rle(dlens, 0, -1));
    var total := |llens| + |dlens|;
    assert (a + b) + rest == a + (b + rest);
    ReadRle(clens, llens, 0, -1, total, b + rest, []);
    assert [] + llens[0..] == llens;
    ReadRle(clens, dlens, 0, -1, total, rest, llens);
    assert dlens[0..] == dlens;
    ReadLengthsEnds(clens, llens + dlens, rest);
  }

  lemma ReadLengthsEnds(clens: Lengths, acc: Lengths, rest: Bits)
    ensures ReadLengths(clens, |acc|, rest, acc) == Done(acc, rest)
  {
  }

  /** Decoding the head of a dynamic block gives back exactly both tables. */
  lemma ReadHeader(llens: Lengths, dlens: Lengths, clens: Lengths, blcodes: nat, rest: Bits)
    requires Describes(clens, blcodes, llens, dlens)
    ensures InRange(Rle(llens, 0, -1), BL_CODES) && InRange(Rle(dlens, 0, -1), BL_CODES)
    ensures ReadTables(HeaderBits(llens, dlens, clens, blcodes) + rest) == Done((llens, dlens), rest)
  {
    hide ReadLengths, ItemsBits, Rle, Usable, LengthCodeBits, LsbBits, ReadCodeLengthLengths, KnownLengths;
    DescribesInRange(clens, blcodes, llens, dlens);
    Pow2Values();
    var lens := ItemsBits(clens, Rle(llens, 0, -1)) + ItemsBits(clens, Rle(dlens, 0, -1));
    var code := LengthCodeBits(clens, 0, blcodes);
    var b4 := lens + rest;
    var b3 := code + b4;
    var b2 := LsbBits(blcodes - 4, 4) + b3;
    var b1 := LsbBits(|dlens| - 1, 5) + b2;
    assert HeaderBits(llens, dlens, clens, blcodes) + rest == LsbBits(|llens| - 257, 5) + b1;
    ReadBack(|llens| - 257, 5, b1);
    ReadBack(|dlens| - 1, 5, b2);
    ReadBack(blcodes - 4, 4, b3);
    AllKnown(clens, blcodes);
    ReadLengthCode(clens, 0, blcodes, b4);
    ReadBoth(clens, llens, dlens, rest);
    assert (llens + dlens)[..|llens|] == llens && (llens + dlens)[|llens|..] == dlens;
  }

  // ----- the methods -----

  lemma {:induction false} ItemsBitsLength(clens: Lengths, items: seq<Item>)
    requires |clens| == BL_CODES && InRange(items, BL_CODES)
    ensures CostOf(Symbols(items), WithExtra(clens, BlDesc())) == |ItemsBits(clens, items)|
  {
    var w := WithExtra(clens, BlDesc());
    if items == [] {
      assert Symbols(items) == [];
    } else {
      var one := [items[0].sym];
      ItemsBitsLength(clens, items[1..]);
      assert Symbols(items) == one + Symbols(items[1..]);
      CostConcat(one, Symbols(items[1..]), w);
      assert one[..0] == [];
      BlDescValid();
      assert CostOf(one, w) == w[items[0].sym];
    }
  }

  /** A table with a non-zero length sends at least one length 1..15 by itself. */
  lemma {:induction false} SomeLengthSent(lens: Lengths, i: nat, prev: int, j: nat) returns (k: nat)
    requires i <= j < |lens| && lens[j] != 0 && prev <= 0 && Bounded(lens, MAX_BITS)
    ensures k < |Rle(lens, i, prev)| && 1 <= Rle(lens, i, prev)[k].sym <= MAX_BITS
    decreases |lens| - i
  {
    hide Run, Segment, Rle, MaxCount;
    RleUnfold(lens, i, prev);
    var c := Run(lens, i, MaxCount(lens[i], prev));
    var seg := Segment(lens[i], prev, c);
    if lens[i] == 0 {
      k := SomeLengthSent(lens, i + c, 0, j);
      assert (seg + Rle(lens, i + c, 0))[|seg| + k] == Rle(lens, i + c, 0)[k];
      k := |seg| + k;
    } else {
      k := 0;
      assert lens[i] <= MAX_BITS;
      NewLengthFirst(lens[i], prev, c);
      assert (seg + Rle(lens, i + c, lens[i]))[0] == seg[0];
    }
  }

  lemma NewLengthFirst(cur: nat, prev: int, c: nat)
    requires 1 <= c <= MaxCount(cur, prev) && cur != 0 && cur != prev
    ensures Segment(cur, prev, c) != [] && Segment(cur, prev, c)[0].sym == cur
  {
  }

  /** The search for the last length worth sending. */
  method LastLength(blTree: array<CtData>, ghost x: nat) returns (maxBlindex: nat)
    requires BL_CODES <= blTree.Length && x <= MAX_BITS && blTree[x].dl != 0
    ensures 3 <= maxBlindex <= BL_CODES - 1
    ensures ZeroFrom(LensOf(blTree[..], BL_CODES), maxBlindex + 1)
  {
    OrderAndRank();
    assert BL_ORDER[BL_RANK[x]] == x && BL_RANK[x] >= 3;
    maxBlindex := BL_CODES - 1;
    while maxBlindex >= 3
      invariant BL_RANK[x] <= maxBlindex <= BL_CODES - 1
      invariant ZeroFrom(LensOf(blTree[..], BL_CODES), maxBlindex + 1)
    {
      if blTree[BL_ORDER[maxBlindex]].dl != 0 {
        break;
      }
      maxBlindex := maxBlindex - 1;
    }
  }

  lemma ZeroFreqs(f: seq<nat>, w: seq<nat>)
    requires |f| <= |w| && forall x :: 0 <= x < |f| ==> f[x] == 0
    ensures Dot(f, w) == 0 && Sum(f) == 0
  {
    DotZero(f, w);
    SumZero(f);
  }

  /** The bit length frequencies are those of the items of both tables. */
  ghost predicate CountsBoth(f: seq<nat>, llens: Lengths, dlens: Lengths) {
    && |f| == BL_CODES
    && InRange(Rle(llens, 0, -1), BL_CODES) && InRange(Rle(dlens, 0, -1), BL_CODES)
    && f == Tally(Tally(Zeroes(BL_CODES), Symbols(Rle(llens, 0, -1))), Symbols(Rle(dlens, 0, -1)))
  }

  lemma CountsBothSum(f: seq<nat>, llens: Lengths, dlens: Lengths)
    requires CountsBoth(f, llens, dlens) && Bounded(llens, MAX_BITS) && Bounded(dlens, MAX_BITS)
    ensures Sum(f) <= |llens| + |dlens|
  {
    var a, b := Rle(llens, 0, -1), Rle(dlens, 0, -1);
    var z := Zeroes(BL_CODES);
    TallyCost(z, Symbols(a), z);
    TallyCost(Tally(z, Symbols(a)), Symbols(b), z);
    ZeroFreqs(z, z);
    RleValid(llens, 0, -1);
    RleValid(dlens, 0, -1);
  }

  /** What the trees cost under the code built for them. */
  lemma CountsBothCost(f: seq<nat>, llens: Lengths, dlens: Lengths, clens: Lengths)
    requires CountsBoth(f, llens, dlens) && |clens| == BL_CODES
    ensures Dot(f, WithExtra(clens, BlDesc()))
         == |ItemsBits(clens, Rle(llens, 0, -1))| + |ItemsBits(clens, Rle(dlens, 0, -1))|
  {
    var a, b := Rle(llens, 0, -1), Rle(dlens, 0, -1);
    var z, w := Zeroes(BL_CODES), WithExtra(clens, BlDesc());
    TallyCost(z, Symbols(a), w);
    TallyCost(Tally(z, Symbols(a)), Symbols(b), w);
    ZeroFreqs(z, w);
    ItemsBitsLength(clens, a);
    ItemsBitsLength(clens, b);
  }

  /** Every item of both tables has a code. */
  lemma CountsBothSendable(f: seq<nat>, llens: Lengths, dlens: Lengths, clens: Lengths)
    requires CountsBoth(f, llens, dlens) && |clens| == BL_CODES && Bounded(llens, MAX_BITS) && Bounded(dlens, MAX_BITS)
    requires forall x :: 0 <= x < BL_CODES && f[x] > 0 ==> clens[x] > 0
    ensures Sendable(clens, Rle(llens, 0, -1)) && Sendable(clens, Rle(dlens, 0, -1))
  {
    var a, b := Rle(llens, 0, -1), Rle(dlens, 0, -1);
    var z := Zeroes(BL_CODES);
    RleValid(llens, 0, -1);
    RleValid(dlens, 0, -1);
    TallyCounts(z, Symbols(a));
    TallyCounts(Tally(z, Symbols(a)), Symbols(b));
    hide Rle, Tally, ValidItem;
    forall k {:trigger a[k]} | 0 <= k < |a|
      ensures clens[a[k].sym] > 0
    {
      assert Tally(z, Symbols(a))[Symbols(a)[k]] > 0;
    }
    forall k {:trigger b[k]} | 0 <= k < |b|
      ensures clens[b[k].sym] > 0
    {
      assert f[Symbols(b)[k]] > 0;
    }
  }

  lemma CountedBoth(f0: seq<nat>, f1: seq<nat>, f2: seq<nat>, llens: Lengths, dlens: Lengths)
    requires f0 == Zeroes(BL_CODES) && Counted(f0, f1, Rle(llens, 0, -1)) && Counted(f1, f2, Rle(dlens, 0, -1))
    ensures CountsBoth(f2, llens, dlens)
  {
    hide Rle, Tally;
  }

  ghost function HeaderLength(llens: Lengths, dlens: Lengths, clens: Lengths, blcodes: nat): nat
    requires |clens| == BL_CODES && InRange(Rle(llens, 0, -1), BL_CODES) && InRange(Rle(dlens, 0, -1), BL_CODES)
  {
    14 + 3 * blcodes + |ItemsBits(clens, Rle(llens, 0, -1))| + |ItemsBits(clens, Rle(dlens, 0, -1))|
  }

  lemma {:induction false} LengthCodeSize(clens: Lengths, k: nat, count: nat)
    requires |clens| == BL_CODES && k <= count <= BL_CODES
    ensures |LengthCodeBits(clens, k, count)| == 3 * (count - k)
    decreases count - k
  {
    if k < count {
      LengthCodeSize(clens, k + 1, count);
    }
  }

  lemma HeaderSize(llens: Lengths, dlens: Lengths, clens: Lengths, blcodes: nat)
    requires |llens| >= 257 && |dlens| >= 1 && |clens| == BL_CODES && 4 <= blcodes <= BL_CODES
    requires InRange(Rle(llens, 0, -1), BL_CODES) && InRange(Rle(dlens, 0, -1), BL_CODES)
    ensures |HeaderBits(llens, dlens, clens, blcodes)| == HeaderLength(llens, dlens, clens, blcodes)
  {
    hide ItemsBits, Rle, LengthCodeBits;
    LengthCodeSize(clens, 0, blcodes);
  }

  /** build_bl_tree. opt_len grows by exactly the size of the head it prepares. */
  method BuildBlTree(b: TreeBuilder, ltree: array<CtData>, dtree: array<CtData>, blTree: array<CtData>, lMax: nat,
                     dMax: nat)
    returns (maxBlindex: nat)
    requires b.Valid() && ltree != dtree && ltree != blTree && dtree != blTree
    requires 256 <= lMax <= 285 && lMax + 1 < ltree.Length && dMax <= 29 && dMax + 1 < dtree.Length
    requires blTree.Length >= 2 * BL_CODES - 1
    requires Bounded(LensOf(ltree[..], lMax + 1), MAX_BITS) && Bounded(LensOf(dtree[..], dMax + 1), MAX_BITS)
    requires ltree[lMax].dl > 0
    requires Freqs(blTree[..], BL_CODES) == Zeroes(BL_CODES)
    modifies b, b.heap, b.depth, b.blCount, ltree, dtree, blTree
    ensures ltree[..] == old(ltree[..])[lMax + 1 := old(ltree[lMax + 1]).(dl := GUARD)]
    ensures dtree[..] == old(dtree[..])[dMax + 1 := old(dtree[dMax + 1]).(dl := GUARD)]
    ensures 3 <= maxBlindex < BL_CODES
    ensures var llens, dlens, clens := old(LensOf(ltree[..], lMax + 1)), old(LensOf(dtree[..], dMax + 1)),
                LensOf(blTree[..], BL_CODES);
            && Describes(clens, maxBlindex + 1, llens, dlens) && Coded(blTree[..], clens)
            && InRange(Rle(llens, 0, -1), BL_CODES) && InRange(Rle(dlens, 0, -1), BL_CODES)
            && b.optLen == old(b.optLen) + HeaderLength(llens, dlens, clens, maxBlindex + 1)
    ensures b.staticLen == old(b.staticLen)
  {
    hide Rle, Counted, CountsBoth, Bounded, Sum, Dot, WithExtra, IsCode, Fair, Cheapest, SameLens19, LensOf, Freqs,
         Coded, Sendable, ItemsBits, InRange, Usable, ZeroFrom, TreeDesc.Valid, Zeroes;
    ghost var llens, dlens := LensOf(ltree[..], lMax + 1), LensOf(dtree[..], dMax + 1);
    ghost var f0 := Freqs(blTree[..], BL_CODES);
    LensAt(ltree[..], lMax + 1, lMax);
    ScanTree(ltree, blTree, lMax);
    ghost var f1 := Freqs(blTree[..], BL_CODES);
    ScanTree(dtree, blTree, dMax);
    ghost var f2 := Freqs(blTree[..], BL_CODES);
    CountedBoth(f0, f1, f2, llens, dlens);
    CountsBothSum(f2, llens, dlens);
    BlDescValid();
    var blMax, leafs, best := Build(b, blTree, null, BlDesc(), Zeroes(BL_CODES));
    ghost var clens := LensOf(blTree[..], BL_CODES);
    IsCodeFacts(blTree[..], BL_CODES, MAX_BL_BITS, blMax, f2);
    CountsBothSendable(f2, llens, dlens, clens);
    CountsBothCost(f2, llens, dlens, clens);
    ghost var x := SentLength(llens, clens, lMax);
    LensAt(blTree[..], BL_CODES, x);
    maxBlindex := LastLength(blTree, x);
    b.optLen := b.optLen + 3 * (maxBlindex + 1) + 5 + 5 + 4;
    DescribesInRange(clens, maxBlindex + 1, llens, dlens);
  }

  lemma LensAt(tree: seq<CtData>, e: nat, j: nat)
    requires j < e <= |tree|
    ensures |LensOf(tree, e)| == e && LensOf(tree, e)[j] == tree[j].dl
  {
  }

  lemma SentLength(llens: Lengths, clens: Lengths, j: nat) returns (x: nat)
    requires Bounded(llens, MAX_BITS) && j < |llens| && llens[j] != 0 && |clens| == BL_CODES
    requires Sendable(clens, Rle(llens, 0, -1))
    ensures x <= MAX_BITS && clens[x] > 0
  {
    var k := SomeLengthSent(llens, 0, -1, j);
    x := Rle(llens, 0, -1)[k].sym;
  }

  lemma IsCodeFacts(tree: seq<CtData>, e: nat, m: nat, maxCode: nat, freqs: seq<nat>)
    requires IsCode(tree, e, m, maxCode, freqs)
    ensures Bounded(LensOf(tree, e), m) && Usable(LensOf(tree, e)) && Coded(tree, LensOf(tree, e))
            && Bounded(LensOf(tree, e), MAX_BITS)
    ensures forall x :: 0 <= x < e && freqs[x] > 0 ==> LensOf(tree, e)[x] > 0
    ensures forall x :: maxCode < x < e ==> LensOf(tree, e)[x] == 0
    ensures 1 <= maxCode < e && tree[maxCode].dl > 0
  {
  }

  /** send_all_trees */
  method SendAllTrees(w: BitWriter, ltree: array<CtData>, dtree: array<CtData>, blTree: array<CtData>, lcodes: nat,
                      dcodes: nat, blcodes: nat)
    requires w.Valid() && lcodes < ltree.Length && dcodes < dtree.Length && BL_CODES <= blTree.Length
    requires lcodes >= 1 && dcodes >= 1 && ltree[lcodes].dl == GUARD && dtree[dcodes].dl == GUARD
    requires Describes(LensOf(blTree[..], BL_CODES), blcodes, LensOf(ltree[..], lcodes), LensOf(dtree[..], dcodes))
    requires Coded(blTree[..], LensOf(blTree[..], BL_CODES))
    modifies w, w.outBuf
    ensures w.Valid()
    ensures InRange(Rle(LensOf(ltree[..], lcodes), 0, -1), BL_CODES)
            && InRange(Rle(LensOf(dtree[..], dcodes), 0, -1), BL_CODES)
    ensures w.bits == old(w.bits)
              + HeaderBits(LensOf(ltree[..], lcodes), LensOf(dtree[..], dcodes), LensOf(blTree[..], BL_CODES), blcodes)
  {
    hide ItemsBits, Rle, Usable, LengthCodeBits, LsbBits, LensOf, Bounded, Coded, ZeroFrom, Pow2, InRange, Sendable,
         HeaderBits, BitWriter.Valid;
    ghost var llens, dlens, clens := LensOf(ltree[..], lcodes), LensOf(dtree[..], dcodes), LensOf(blTree[..], BL_CODES);
    DescribesInRange(clens, blcodes, llens, dlens);
    // "not enough codes", "too many codes"
    assert lcodes >= 257 && dcodes >= 1 && blcodes >= 4;
    assert lcodes <= 286 && dcodes <= 30 && blcodes <= BL_CODES;
    Pow2Values();
    CodeLengthsFit(blTree[..]);
    ghost var b0 := w.bits;
    w.SendBits(lcodes - 257, 5);
    w.SendBits(dcodes - 1, 5);
    w.SendBits(blcodes - 4, 4);
    SendLengthCode(w, blTree, blcodes);
    SendTree(w, ltree, blTree, lcodes - 1, clens);
    SendTree(w, dtree, blTree, dcodes - 1, clens);
    HeaderParts(b0, llens, dlens, clens, blcodes);
  }

  lemma CodeLengthsFit(tree: seq<CtData>)
    requires BL_CODES <= |tree| && Bounded(LensOf(tree, BL_CODES), MAX_BL_BITS)
    ensures Bounded(LensOf(tree, BL_CODES), MAX_BITS)
  {
  }

  lemma HeaderParts(b0: Bits, llens: Lengths, dlens: Lengths, clens: Lengths, blcodes: nat)
    requires |llens| >= 257 && |dlens| >= 1 && |clens| == BL_CODES && 4 <= blcodes <= BL_CODES
    requires InRange(Rle(llens, 0, -1), BL_CODES) && InRange(Rle(dlens, 0, -1), BL_CODES)
    ensures b0 + LsbBits(|llens| - 257, 5) + LsbBits(|dlens| - 1, 5) + LsbBits(blcodes - 4, 4)
              + LengthCodeBits(clens, 0, blcodes) + ItemsBits(clens, Rle(llens, 0, -1))
               + ItemsBits(clens, Rle(dlens, 0, -1))
         == b0 + HeaderBits(llens, dlens, clens, blcodes)
  {
    hide LsbBits, LengthCodeBits, ItemsBits, Rle;
    var a, b, c := LsbBits(|llens| - 257, 5), LsbBits(|dlens| - 1, 5), LsbBits(blcodes - 4, 4);
    var d, l, m := LengthCodeBits(clens, 0, blcodes), ItemsBits(clens, Rle(llens, 0, -1)),
        ItemsBits(clens, Rle(dlens, 0, -1));
    assert b0 + a + b + c + d + l + m == b0 + (a + (b + (c + (d + (l + m)))));
  }

  /** The loop over bl_order. */
  method SendLengthCode(w: BitWriter, blTree: array<CtData>, blcodes: nat)
    requires w.Valid() && BL_CODES <= blTree.Length && blcodes <= BL_CODES
             && Bounded(LensOf(blTree[..], BL_CODES), MAX_BL_BITS)
    modifies w, w.outBuf
    ensures w.Valid() && w.bits == old(w.bits) + LengthCodeBits(LensOf(blTree[..], BL_CODES), 0, blcodes)
  {
    hide LsbBits, LengthCodeBits, Pow2;
    ghost var clens := LensOf(blTree[..], BL_CODES);
    OrderAndRank();
    Pow2Values();
    LengthCodeNone(clens);
    var rank: nat := 0;
    while rank < blcodes
      invariant 0 <= rank <= blcodes && w.Valid()
      invariant w.bits == old(w.bits) + LengthCodeBits(clens, 0, rank)
    {
      LengthCodeSnoc(clens, 0, rank);
      assert blTree[BL_ORDER[rank]].dl == clens[BL_ORDER[rank]] <= MAX_BL_BITS;
      w.SendBits(blTree[BL_ORDER[rank]].dl, 3);
      rank := rank + 1;
    }
  }

  lemma LengthCodeNone(clens: Lengths)
    requires |clens| == BL_CODES
    ensures LengthCodeBits(clens, 0, 0) == []
  {
  }

  lemma {:induction false} LengthCodeSnoc(clens: Lengths, k: nat, count: nat)
    requires |clens| == BL_CODES && k <= count < BL_CODES
    ensures BL_ORDER[count] < BL_CODES
    ensures LengthCodeBits(clens, k, count + 1) == LengthCodeBits(clens, k, count) + LsbBits(clens[BL_ORDER[count]], 3)
    decreases count - k
  {
    OrderAndRank();
    if k < count {
      LengthCodeSnoc(clens, k + 1, count);
    } else {
      assert LengthCodeBits(clens, k + 1, count + 1) == [];
    }
  }
}
