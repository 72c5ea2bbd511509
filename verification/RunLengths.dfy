/** The run-length form in which code lengths are sent (scan_tree and send_tree), as
    a function of the table, and what a decoder makes of it. */
module RunLengths {
  import opened BitStrings
  import opened Canonical
  import opened Inflate
  import opened Sums
  import opened Tallies

  /** A code length (sym < 16), or a repetition: 16 the last length, 17 and 18 zeros. */
  datatype Item = Item(sym: nat, extra: nat)

  const REP_3_6: nat := 16
  const REPZ_3_10: nat := 17
  const REPZ_11_138: nat := 18

  /** extra_blbits */
  function ItemExtra(sym: nat): nat {
    if sym == REP_3_6 then 2 else if sym == REPZ_3_10 then 3 else if sym == REPZ_11_138 then 7 else 0
  }

  predicate ValidItem(it: Item) {
    it.sym <= 18 && it.extra < Pow2(ItemExtra(it.sym))
  }

  // ----- runs -----

  /** How many entries from i on are equal, counting no further than max. */
  function Run(lens: Lengths, i: nat, max: nat): (c: nat)
    requires i < |lens| && max >= 1
    ensures 1 <= c <= max && i + c <= |lens|
    ensures forall j :: i <= j < i + c ==> lens[j] == lens[i]
    ensures c < max ==> i + c == |lens| || lens[i + c] != lens[i]
    decreases max
  {
    if max == 1 || i + 1 == |lens| || lens[i + 1] != lens[i] then 1 else 1 + Run(lens, i + 1, max - 1)
  }

  function MaxCount(cur: nat, prev: int): nat {
    if cur == 0 then 138 else if cur == prev then 6 else 7
  }

  function MinCount(cur: nat, prev: int): nat {
    if cur == 0 || cur == prev then 3 else 4
  }

  function Copies(cur: nat, n: nat): (s: seq<Item>)
    ensures |s| == n
  {
    seq(n, _ => Item(cur, 0))
  }

  /** What is sent for count equal lengths cur after a length prev. */
  function Segment(cur: nat, prev: int, count: nat): seq<Item>
    requires 1 <= count <= MaxCount(cur, prev)
  {
    if count < MinCount(cur, prev) then Copies(cur, count)
    else if cur != 0 then
      if cur != prev then [Item(cur, 0), Item(REP_3_6, count - 4)] else [Item(REP_3_6, count - 3)]
    else if count <= 10 then [Item(REPZ_3_10, count - 3)]
    else [Item(REPZ_11_138, count - 11)]
  }

  /** The run-length form of lens[i..], after a length prev. */
  function Rle(lens: Lengths, i: nat, prev: int): seq<Item>
    requires i <= |lens|
    decreases |lens| - i
  {
    if i == |lens| then []
    else
      var c := Run(lens, i, MaxCount(lens[i], prev));
      Segment(lens[i], prev, c) + Rle(lens, i + c, lens[i])
  }

  ghost function Symbols(items: seq<Item>): (s: seq<nat>)
    ensures |s| == |items|
  {
    seq(|items|, i requires 0 <= i < |items| => items[i].sym)
  }

  lemma {:induction false} RleValid(lens: Lengths, i: nat, prev: int)
    requires i <= |lens| && Bounded(lens, MAX_BITS)
    ensures forall k :: 0 <= k < |Rle(lens, i, prev)| ==> ValidItem(Rle(lens, i, prev)[k])
    ensures |Rle(lens, i, prev)| <= |lens| - i
    decreases |lens| - i
  {
    hide Segment, ValidItem;
    if i < |lens| {
      var c := Run(lens, i, MaxCount(lens[i], prev));
      RleValid(lens, i + c, lens[i]);
      SegmentValid(lens[i], prev, c);
    }
  }

  lemma SegmentValid(cur: nat, prev: int, count: nat)
    requires cur <= MAX_BITS && 1 <= count <= MaxCount(cur, prev)
    ensures forall k :: 0 <= k < |Segment(cur, prev, count)| ==> ValidItem(Segment(cur, prev, count)[k])
    ensures |Segment(cur, prev, count)| <= count
  {
    Pow2Values();
  }

  // ----- the bits -----

  ghost function ItemBits(clens: Lengths, it: Item): Bits
    requires it.sym < |clens|
  {
    CodeBits(clens, it.sym) + LsbBits(it.extra, ItemExtra(it.sym))
  }

  ghost predicate InRange(items: seq<Item>, n: nat) {
    forall k {:trigger items[k]} :: 0 <= k < |items| ==> items[k].sym < n
  }

  ghost function ItemsBits(clens: Lengths, items: seq<Item>): Bits
    requires InRange(items, |clens|)
  {
    if items == [] then [] else ItemBits(clens, items[0]) + ItemsBits(clens, items[1..])
  }

  lemma {:induction false} ItemsBitsConcat(clens: Lengths, a: seq<Item>, b: seq<Item>)
    requires InRange(a, |clens|)
    requires InRange(b, |clens|)
    ensures ItemsBits(clens, a + b) == ItemsBits(clens, a) + ItemsBits(clens, b)
  {
    hide ItemBits;
    if a == [] {
      assert a + b == b;
    } else {
      ItemsBitsConcat(clens, a[1..], b);
      assert (a + b)[1..] == a[1..] + b;
    }
  }

  // ----- reading back -----

  ghost predicate Sendable(clens: Lengths, items: seq<Item>) {
    forall k {:trigger items[k]} ::
      0 <= k < |items| ==> ValidItem(items[k]) && items[k].sym < |clens| && clens[items[k].sym] > 0
  }

  /** What one item appends to the lengths read so far. */
  function Unpack(it: Item, acc: Lengths): Lengths {
    if it.sym < 16 then [it.sym]
    else if it.sym == REP_3_6 then Repeat(if acc == [] then 0 else acc[|acc| - 1], 3 + it.extra)
    else if it.sym == REPZ_3_10 then Repeat(0, 3 + it.extra)
    else Repeat(0, 11 + it.extra)
  }

  lemma {:induction false} ReadItem(clens: Lengths, it: Item, total: nat, rest: Bits, acc: Lengths)
    requires Usable(clens) && Sendable(clens, [it]) && |acc| < total && (it.sym == REP_3_6 ==> acc != [])
    ensures it.sym < |clens|
    ensures ReadLengths(clens, total, ItemBits(clens, it) + rest, acc)
            == ReadLengths(clens, total, rest, acc + Unpack(it, acc))
  {
    hide ReadSymbol, ReadNumber, CodeBits, LsbBits, Usable, Pow2;
    assert [it][0] == it;
    var x := LsbBits(it.extra, ItemExtra(it.sym));
    ReadSymbolBack(clens, it.sym, x + rest);
    ReadBack(it.extra, ItemExtra(it.sym), rest);
    assert ItemBits(clens, it) + rest == CodeBits(clens, it.sym) + (x + rest);
    if it.sym < 16 {
      assert x + rest == rest;
    }
  }

  lemma {:induction false} ReadCopies(clens: Lengths, cur: nat, n: nat, total: nat, rest: Bits, acc: Lengths)
    requires Usable(clens) && Sendable(clens, Copies(cur, n)) && |acc| + n <= total && cur < 16
    ensures InRange(Copies(cur, n), |clens|)
    ensures ReadLengths(clens, total, ItemsBits(clens, Copies(cur, n)) + rest, acc)
         == ReadLengths(clens, total, rest, acc + Repeat(cur, n))
    decreases n
  {
    if n == 0 {
      assert ItemsBits(clens, Copies(cur, 0)) + rest == rest;
      assert acc + Repeat(cur, 0) == acc;
    } else {
      var items := Copies(cur, n);
      assert items[1..] == Copies(cur, n - 1);
      assert items[0] == Item(cur, 0);
      var more := ItemsBits(clens, items[1..]) + rest;
      assert ItemsBits(clens, items) + rest == ItemBits(clens, items[0]) + more;
      ReadItem(clens, items[0], total, more, acc);
      ReadCopies(clens, cur, n - 1, total, rest, acc + [cur]);
      assert acc + [cur] + Repeat(cur, n - 1) == acc + Repeat(cur, n);
    }
  }

  lemma {:induction false} ReadOne(clens: Lengths, it: Item, total: nat, rest: Bits, acc: Lengths)
    requires Usable(clens) && Sendable(clens, [it]) && |acc| < total && (it.sym == REP_3_6 ==> acc != [])
    ensures it.sym < |clens|
    ensures ReadLengths(clens, total, ItemsBits(clens, [it]) + rest, acc)
            == ReadLengths(clens, total, rest, acc + Unpack(it, acc))
  {
    assert [it][0] == it;
    ReadItem(clens, it, total, rest, acc);
    assert [it][1..] == [];
    assert ItemsBits(clens, [it]) == ItemBits(clens, it) + ItemsBits(clens, []);
    assert ItemsBits(clens, [it]) == ItemBits(clens, it);
  }

  /** One segment reads back as the run it stands for. */
  lemma {:induction false} ReadSegment(clens: Lengths, cur: nat, prev: int, count: nat, total: nat, rest: Bits,
                                       acc: Lengths)
    requires Usable(clens) && cur < 16 && 1 <= count <= MaxCount(cur, prev)
             && Sendable(clens, Segment(cur, prev, count))
    requires |acc| + count <= total && (prev >= 0 ==> acc != [] && acc[|acc| - 1] == prev)
    ensures InRange(Segment(cur, prev, count), |clens|)
    ensures ReadLengths(clens, total, ItemsBits(clens, Segment(cur, prev, count)) + rest, acc)
         == ReadLengths(clens, total, rest, acc + Repeat(cur, count))
  {
    hide ReadLengths, ItemsBits, Usable;
    var items := Segment(cur, prev, count);
    if count < MinCount(cur, prev) {
      ReadCopies(clens, cur, count, total, rest, acc);
    } else if cur != 0 && cur != prev {
      var a, b := [Item(cur, 0)], [Item(REP_3_6, count - 4)];
      assert items == a + b;
      assert a[0] == items[0] && b[0] == items[1];
      ItemsBitsConcat(clens, a, b);
      var more := ItemsBits(clens, b) + rest;
      assert ItemsBits(clens, items) + rest == ItemsBits(clens, a) + more;
      ReadOne(clens, a[0], total, more, acc);
      ReadOne(clens, b[0], total, rest, acc + [cur]);
      assert acc + [cur] + Repeat(cur, count - 1) == acc + Repeat(cur, count);
    } else {
      assert items == [items[0]];
      ReadOne(clens, items[0], total, rest, acc);
    }
  }

  /** Section 3.2.7 undoes the run-length form. */
  lemma {:induction false} ReadRle(clens: Lengths, lens: Lengths, i: nat, prev: int, total: nat, rest: Bits,
                                   acc: Lengths)
    requires Usable(clens) && i <= |lens| && Bounded(lens, MAX_BITS) && Sendable(clens, Rle(lens, i, prev))
    requires |acc| + |lens| - i <= total && (prev >= 0 ==> acc != [] && acc[|acc| - 1] == prev)
    ensures InRange(Rle(lens, i, prev), |clens|)
    ensures ReadLengths(clens, total, ItemsBits(clens, Rle(lens, i, prev)) + rest, acc)
         == ReadLengths(clens, total, rest, acc + lens[i..])
    decreases |lens| - i
  {
    hide ReadLengths, ItemsBits, Usable, Segment, Rle, Run, MaxCount, Sendable, Repeat;
    RleUnfold(lens, i, prev);
    if i == |lens| {
      ItemsBitsNil(clens, rest);
      assert acc + lens[i..] == acc;
    } else {
      var cur := lens[i];
      var c := Run(lens, i, MaxCount(cur, prev));
      var seg, tail := Segment(cur, prev, c), Rle(lens, i + c, cur);
      SendableParts(clens, seg, tail);
      ItemsBitsConcat(clens, seg, tail);
      var more := ItemsBits(clens, tail) + rest;
      assert ItemsBits(clens, seg + tail) + rest == ItemsBits(clens, seg) + more;
      assert cur <= MAX_BITS;
      RunSplits(lens, i, c, acc);
      ReadSegment(clens, cur, prev, c, total, more, acc);
      ReadRle(clens, lens, i + c, cur, total, rest, acc + Repeat(cur, c));
    }
  }

  lemma RleUnfold(lens: Lengths, i: nat, prev: int)
    requires i <= |lens|
    ensures i == |lens| ==> Rle(lens, i, prev) == []
    ensures i < |lens| ==> MaxCount(lens[i], prev) >= 1
    ensures i < |lens| ==>
              var c := Run(lens, i, MaxCount(lens[i], prev));
              Rle(lens, i, prev) == Segment(lens[i], prev, c) + Rle(lens, i + c, lens[i])
  {
    hide Run, Segment;
  }

  lemma RunSplits(lens: Lengths, i: nat, c: nat, acc: Lengths)
    requires 1 <= c && i + c <= |lens| && forall j :: i <= j < i + c ==> lens[j] == lens[i]
    ensures acc + Repeat(lens[i], c) != [] && (acc + Repeat(lens[i], c))[|acc| + c - 1] == lens[i]
    ensures acc + Repeat(lens[i], c) + lens[i + c..] == acc + lens[i..]
    ensures |Repeat(lens[i], c)| == c
  {
    assert lens[i..] == Repeat(lens[i], c) + lens[i + c..];
  }

  lemma ItemsBitsNil(clens: Lengths, rest: Bits)
    ensures ItemsBits(clens, []) + rest == rest
  {
  }

  lemma SendableParts(clens: Lengths, a: seq<Item>, b: seq<Item>)
    requires Sendable(clens, a + b)
    ensures Sendable(clens, a) && Sendable(clens, b)
  {
    forall k {:trigger a[k]} | 0 <= k < |a|
      ensures ValidItem(a[k]) && a[k].sym < |clens| && clens[a[k].sym] > 0
    {
      assert (a + b)[k] == a[k];
    }
    forall k {:trigger b[k]} | 0 <= k < |b|
      ensures ValidItem(b[k]) && b[k].sym < |clens| && clens[b[k].sym] > 0
    {
      assert (a + b)[|a| + k] == b[k];
    }
  }
}
