/** gen_codes and bi_reverse: from code lengths to the bit strings that are sent. */
module GenCodes {
  import opened BitStrings
  import opened Canonical
  import opened HeapQueue
  import opened LengthLimit

  /** The code lengths in a tree. */
  ghost function LensOf(tree: seq<CtData>, e: nat): (t: Lengths)
    requires e <= |tree|
    ensures |t| == e
  {
    seq(e, x requires 0 <= x < e => tree[x].dl)
  }

  /** Every used symbol of the tree carries its canonical code, ready to be sent low bit first. */
  ghost predicate Coded(tree: seq<CtData>, lens: Lengths)
    requires |lens| <= |tree|
  {
    forall x {:trigger tree[x]} :: 0 <= x < |lens| && lens[x] > 0 ==> CodedAt(tree[x], lens, x)
  }

  ghost predicate CodedAt(d: CtData, lens: Lengths, x: nat)
    requires x < |lens|
  {
    d.dl == lens[x] && d.fc < Pow2(lens[x]) && LsbBits(d.fc, lens[x]) == CodeBits(lens, x)
  }

  lemma {:induction false} ReverseSnoc(a: Bits, b: bool)
    ensures Reverse(a + [b]) == [b] + Reverse(a)
  {
    if a == [] {
      assert [] + [b] == [b];
    } else {
      ReverseSnoc(a[1..], b);
      assert (a + [b])[1..] == a[1..] + [b];
    }
  }

  lemma {:induction false} OrRightZero(a: nat)
    ensures Or(a, 0) == a
  {
    if a > 0 {
      OrRightZero(a / 2);
    }
  }

  /** Shifting one more bit of the code into the reversed word. */
  lemma {:induction false} ReverseStep(code: nat, i: nat, r: nat)
    requires r < Pow2(i) && LsbBits(r, i) == Reverse(LsbBits(code, i))
    ensures var w := Or(2 * r, Shr(code, i) % 2);
            w == 2 * r + Shr(code, i) % 2 < Pow2(i + 1) && LsbBits(w, i + 1) == Reverse(LsbBits(code, i + 1))
  {
    var b := Shr(code, i) % 2;
    OrRightZero(r);
    assert Or(2 * r, b) == 2 * r + b;
    LsbBitsSplit(code, i, 1);
    assert LsbBits(Shr(code, i), 1) == [Bit(Shr(code, i))];
    ReverseSnoc(LsbBits(code, i), Bit(Shr(code, i)));
    assert (2 * r + b) / 2 == r && Bit(2 * r + b) == Bit(Shr(code, i));
  }

  lemma ReverseStart(code: nat)
    ensures Shr(code, 0) == code && Pow2(0) == 1
    ensures LsbBits(0, 0) == Reverse(LsbBits(code, 0))
  {
  }

  lemma {:induction false} ShrNext(v: nat, d: nat)
    ensures Shr(v, d) / 2 == Shr(v, d + 1)
  {
    if d > 0 {
      ShrNext(v / 2, d - 1);
    }
  }

  /** bi_reverse */
  method BiReverse(code: nat, len: nat) returns (r: nat)
    requires len >= 1
    ensures r < Pow2(len)
    ensures LsbBits(r, len) == MsbBits(code, len)
  {
    hide LsbBits, Reverse, Or, Pow2, Shr;
    var res, c, left := 0, code, len;
    ghost var i: nat := 0;
    ghost var reversed: nat := 0;
    ReverseStart(code);
    while left > 0
      invariant i + left == len && left >= 0 && c == Shr(code, i) && res == 2 * reversed
      invariant reversed < Pow2(i) && LsbBits(reversed, i) == Reverse(LsbBits(code, i))
    {
      ReverseStep(code, i, reversed);
      ShrNext(code, i);
      res := Or(res, c % 2);
      reversed := res;
      c := c / 2;
      res := res * 2;
      left := left - 1;
      i := i + 1;
    }
    r := res / 2;
    ReverseLsb(code, len);
  }

  /** The first loop of gen_codes: next_code[bits] is the smallest code of each length. */
  method FirstCodes(blCount: array<nat>, ghost lens: Lengths) returns (nextCode: array<nat>)
    requires blCount.Length == MAX_BITS + 1 && blCount[..] == CountsOf(lens)
    requires Bounded(lens, MAX_BITS) && Kraft(lens, MAX_BITS) == Pow2(MAX_BITS)
    ensures fresh(nextCode) && nextCode.Length == MAX_BITS + 1
    ensures forall b :: 1 <= b <= MAX_BITS ==> nextCode[b] == FirstCode(lens, b)
  {
    hide Pow2, Kraft, Count, FirstCode, CountsOf;
    nextCode := new nat[MAX_BITS + 1];
    var code := 0;
    var bits := 1;
    while bits <= MAX_BITS
      invariant 1 <= bits <= MAX_BITS + 1
      invariant blCount[..] == CountsOf(lens)
      invariant forall b :: 1 <= b < bits ==> nextCode[b] == FirstCode(lens, b)
      invariant code == if bits == 1 then 0 else FirstCode(lens, bits - 1)
    {
      NoWrap(lens, bits);
      assert blCount[bits - 1] == CountsOf(lens)[bits - 1];
      code := ((code + blCount[bits - 1]) * 2) % 0x10000;
      nextCode[bits] := code;
      bits := bits + 1;
    }
    LastCode(lens);
    assert blCount[MAX_BITS] == CountsOf(lens)[MAX_BITS];
    // "inconsistent bit counts": the last code is all ones
    assert code + blCount[MAX_BITS] - 1 == Pow2(MAX_BITS) - 1;
  }

  /** No code exceeds 16 bits on the way. */
  lemma NoWrap(lens: Lengths, bits: nat)
    requires 1 <= bits <= MAX_BITS && Bounded(lens, MAX_BITS) && Kraft(lens, MAX_BITS) == Pow2(MAX_BITS)
    ensures (((if bits == 1 then 0 else FirstCode(lens, bits - 1)) + CountsOf(lens)[bits - 1]) * 2) % 0x10000
         == FirstCode(lens, bits)
  {
    hide Kraft, Count;
    if bits > 1 {
      EndOfLengthFits(lens, MAX_BITS, bits - 1);
      Pow2Monotone(bits - 1, MAX_BITS - 1);
      Pow2Values();
    }
  }

  lemma LastCode(lens: Lengths)
    requires Bounded(lens, MAX_BITS) && Kraft(lens, MAX_BITS) == Pow2(MAX_BITS)
    ensures FirstCode(lens, MAX_BITS) + CountsOf(lens)[MAX_BITS] == Pow2(MAX_BITS)
  {
    hide Kraft, Count, FirstCode;
    EndOfLengthFits(lens, MAX_BITS, MAX_BITS);
  }

  /** The second loop of gen_codes. */
  ghost predicate NextCodes(next: seq<nat>, lens: Lengths, n: nat) {
    && |next| == MAX_BITS + 1 && n <= |lens|
    && forall b {:trigger next[b]} :: 1 <= b <= MAX_BITS ==> next[b] == FirstCode(lens, b) + Count(lens[..n], b)
  }

  lemma {:induction false} NextCodesStep(next: seq<nat>, lens: Lengths, n: nat)
    requires NextCodes(next, lens, n) && n < |lens| && lens[n] <= MAX_BITS
    ensures NextCodes(if lens[n] == 0 then next else next[lens[n] := next[lens[n]] + 1], lens, n + 1)
    ensures lens[n] > 0 ==> next[lens[n]] == Code(lens, n)
  {
    hide FirstCode, Count;
    var after := if lens[n] == 0 then next else next[lens[n] := next[lens[n]] + 1];
    forall b {:trigger after[b]} | 1 <= b <= MAX_BITS
      ensures after[b] == FirstCode(lens, b) + Count(lens[..n + 1], b)
    {
      assert next[b] == FirstCode(lens, b) + Count(lens[..n], b);
      CountPrefix(lens, n, b);
    }
  }

  /** gen_codes, for a tree whose symbols above maxCode are unused. */
  method GenerateCodes(tree: array<CtData>, blCount: array<nat>, maxCode: nat, ghost e: nat)
    requires maxCode < e <= tree.Length && blCount.Length == MAX_BITS + 1
    requires blCount[..] == CountsOf(LensOf(tree[..], e))
    requires Bounded(LensOf(tree[..], e), MAX_BITS) && Kraft(LensOf(tree[..], e), MAX_BITS) == Pow2(MAX_BITS)
    requires forall x :: maxCode < x < e ==> tree[x].dl == 0
    modifies tree
    ensures LensOf(tree[..], e) == old(LensOf(tree[..], e))
    ensures Coded(tree[..], LensOf(tree[..], e))
    ensures forall x {:trigger tree[x]} ::
              0 <= x < tree.Length && (x >= e || tree[x].dl == 0) ==> tree[x] == old(tree[x])
  {
    hide Kraft, Count, FirstCode, Pow2, LsbBits, CodedAt, CountsOf;
    ghost var lens := LensOf(tree[..], e);
    var nextCode := FirstCodes(blCount, lens);
    NextCodesStart(nextCode[..], lens);
    var n := 0;
    while n <= maxCode
      invariant 0 <= n <= maxCode + 1 && nextCode.Length == MAX_BITS + 1
      invariant NextCodes(nextCode[..], lens, n)
      invariant LensOf(tree[..], e) == lens
      invariant forall x {:trigger tree[x]} :: 0 <= x < n && lens[x] > 0 ==> CodedAt(tree[x], lens, x)
      invariant forall x {:trigger tree[x]} ::
                  0 <= x < tree.Length && (x >= n || tree[x].dl == 0) ==> tree[x] == old(tree[x])
    {
      var len := tree[n].dl;
      assert len == lens[n];
      NextCodesStep(nextCode[..], lens, n);
      ghost var next := nextCode[..];
      if len == 0 {
        n := n + 1;
        continue;
      }
      var code := BiReverse(nextCode[len], len);
      CodedNow(code, lens, n);
      nextCode[len] := nextCode[len] + 1;
      assert nextCode[..] == next[len := next[len] + 1];
      tree[n] := tree[n].(fc := code);
      n := n + 1;
    }
  }

  lemma NextCodesStart(next: seq<nat>, lens: Lengths)
    requires |next| == MAX_BITS + 1 && forall b :: 1 <= b <= MAX_BITS ==> next[b] == FirstCode(lens, b)
    ensures NextCodes(next, lens, 0)
  {
    forall b {:trigger next[b]} | 1 <= b <= MAX_BITS
      ensures next[b] == FirstCode(lens, b) + Count(lens[..0], b)
    {
      assert lens[..0] == [];
    }
  }

  lemma CodedNow(code: nat, lens: Lengths, n: nat)
    requires n < |lens| && lens[n] > 0 && code < Pow2(lens[n])
    requires LsbBits(code, lens[n]) == MsbBits(Code(lens, n), lens[n])
    ensures forall d: CtData {:trigger CodedAt(d, lens, n)} :: d.fc == code && d.dl == lens[n] ==> CodedAt(d, lens, n)
  {
  }
}
