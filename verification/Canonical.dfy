/** Canonical Huffman codes as RFC 1951 section 3.2.2 defines them from a table
    of code lengths (0 = symbol not used), with the facts every user of such a
    code relies on: it is prefix free, and it fits when the Kraft sum does. */
module Canonical {
  import opened BitStrings

  const MAX_BITS: nat := 15

  type Lengths = seq<nat>

  /** How many symbols have a code of length len. */
  function Count(lens: Lengths, len: nat): (c: nat)
    ensures c <= |lens|
  {
    if lens == [] then 0
    else Count(lens[..|lens| - 1], len) + (if lens[|lens| - 1] == len then 1 else 0)
  }

  /** The smallest code of each length: steps 1 and 2 of section 3.2.2. */
  function FirstCode(lens: Lengths, len: nat): nat {
    if len <= 1 then 0 else 2 * (FirstCode(lens, len - 1) + Count(lens, len - 1))
  }

  /** Step 3 of section 3.2.2: codes of one length are consecutive, in symbol order. */
  function Code(lens: Lengths, n: nat): nat
    requires n < |lens|
  {
    FirstCode(lens, lens[n]) + Count(lens[..n], lens[n])
  }

  /** The bits a compressor sends for symbol n: Huffman codes go most significant bit first. */
  function CodeBits(lens: Lengths, n: nat): (b: Bits)
    requires n < |lens|
    ensures |b| == lens[n]
  {
    MsbBits(Code(lens, n), lens[n])
  }

  /** The Kraft sum in units of 2^-m. */
  function Kraft(lens: Lengths, m: nat): nat {
    if lens == [] then 0 else Kraft(lens[..|lens| - 1], m) + Weight(lens[|lens| - 1], m)
  }

  function Weight(len: nat, m: nat): nat {
    if 0 < len <= m then Pow2(m - len) else 0
  }

  ghost predicate Bounded(lens: Lengths, m: nat) {
    forall i :: 0 <= i < |lens| ==> lens[i] <= m
  }

  /** A table whose codes are no longer than m and fit into m-bit numbers. */
  ghost predicate Usable(lens: Lengths) {
    Bounded(lens, MAX_BITS) && Kraft(lens, MAX_BITS) <= Pow2(MAX_BITS)
  }

  // ----- counting -----

  lemma {:induction false} CountPrefix(lens: Lengths, k: nat, len: nat)
    requires k < |lens|
    ensures Count(lens[..k], len) + (if lens[k] == len then 1 else 0) == Count(lens[..k + 1], len)
    ensures Count(lens[..k + 1], len) <= Count(lens, len)
    decreases |lens| - k
  {
    assert lens[..k + 1][..k] == lens[..k];
    if k + 1 < |lens| {
      CountPrefix(lens, k + 1, len);
    } else {
      assert lens[..k + 1] == lens;
    }
  }

  lemma {:induction false} CountRankLess(lens: Lengths, i: nat, j: nat)
    requires i < j < |lens| && lens[i] == lens[j]
    ensures Count(lens[..i], lens[i]) < Count(lens[..j], lens[i])
  {
    CountPrefix(lens[..j], i, lens[i]);
    assert lens[..j][..i] == lens[..i];
  }

  lemma {:induction false} CountUpdate(lens: Lengths, i: nat, x: nat, len: nat)
    requires i < |lens|
    ensures Count(lens[i := x], len) + (if lens[i] == len then 1 else 0)
         == Count(lens, len) + (if x == len then 1 else 0)
  {
    var k := |lens| - 1;
    if i == k {
      assert lens[i := x][..k] == lens[..k];
    } else {
      CountUpdate(lens[..k], i, x, len);
      assert lens[i := x][..k] == lens[..k][i := x];
    }
  }

  lemma {:induction false} CountBelow(lens: Lengths, m: nat, len: nat)
    requires Bounded(lens, m) && len > m
    ensures Count(lens, len) == 0
  {
    if lens != [] {
      CountBelow(lens[..|lens| - 1], m, len);
    }
  }

  // ----- the Kraft sum by lengths -----

  /** The part of the Kraft sum that codes of length 1..b contribute. */
  function KraftUpTo(lens: Lengths, m: nat, b: nat): nat
    requires b <= m
  {
    if b == 0 then 0 else KraftUpTo(lens, m, b - 1) + Count(lens, b) * Pow2(m - b)
  }

  lemma {:induction false} KraftUpToSnoc(lens: Lengths, m: nat, b: nat)
    requires lens != [] && b <= m
    ensures KraftUpTo(lens, m, b)
         == KraftUpTo(lens[..|lens| - 1], m, b)
          + (if lens[|lens| - 1] <= b then Weight(lens[|lens| - 1], m) else 0)
  {
    hide Pow2;
    if b > 0 {
      KraftUpToSnoc(lens, m, b - 1);
      MulDist(Count(lens[..|lens| - 1], b), 1, Pow2(m - b));
    }
  }

  lemma {:induction false} KraftUpToNil(m: nat, b: nat)
    requires b <= m
    ensures KraftUpTo([], m, b) == 0
  {
    if b > 0 {
      KraftUpToNil(m, b - 1);
    }
  }

  lemma {:induction false} KraftByCounts(lens: Lengths, m: nat)
    requires Bounded(lens, m)
    ensures Kraft(lens, m) == KraftUpTo(lens, m, m)
  {
    if lens == [] {
      KraftUpToNil(m, m);
    } else {
      KraftByCounts(lens[..|lens| - 1], m);
      KraftUpToSnoc(lens, m, m);
    }
  }

  lemma {:induction false} KraftUpToMonotone(lens: Lengths, m: nat, a: nat, b: nat)
    requires a <= b <= m
    ensures KraftUpTo(lens, m, a) <= KraftUpTo(lens, m, b)
  {
    if a < b {
      KraftUpToMonotone(lens, m, a, b - 1);
    }
  }

  /** Codes shorter than len fill exactly the numbers below FirstCode(len). */
  lemma {:induction false} FirstCodeIsKraft(lens: Lengths, m: nat, len: nat)
    requires 1 <= len <= m
    ensures FirstCode(lens, len) * Pow2(m - len) == KraftUpTo(lens, m, len - 1)
  {
    if len > 1 {
      FirstCodeIsKraft(lens, m, len - 1);
      var p := Pow2(m - len);
      var f, c := FirstCode(lens, len - 1), Count(lens, len - 1);
      assert Pow2(m - (len - 1)) == 2 * p;
      MulDist(f, c, 2 * p);
      MulAssoc(f + c, 2, p);
    }
  }

  lemma {:induction false} EndOfLengthFits(lens: Lengths, m: nat, len: nat)
    requires 1 <= len <= m && Bounded(lens, m) && Kraft(lens, m) <= Pow2(m)
    ensures FirstCode(lens, len) + Count(lens, len) <= Pow2(len)
    ensures Kraft(lens, m) == Pow2(m) && len == m ==> FirstCode(lens, len) + Count(lens, len) == Pow2(len)
  {
    KraftByCounts(lens, m);
    KraftUpToMonotone(lens, m, len, m);
    FirstCodeIsKraft(lens, m, len);
    var p := Pow2(m - len);
    var f, c := FirstCode(lens, len), Count(lens, len);
    MulDist(f, c, p);
    assert (f + c) * p == KraftUpTo(lens, m, len);
    Pow2Add(len, m - len);
    assert Pow2(m) == Pow2(len) * p by { assert len + (m - len) == m; }
    MulStep(Pow2(len), f + c, p);
  }

  /** When the Kraft sum is at most 1 every code fits its length. */
  lemma {:induction false} CodeFits(lens: Lengths, m: nat, n: nat)
    requires n < |lens| && lens[n] > 0 && Bounded(lens, m) && Kraft(lens, m) <= Pow2(m)
    ensures Code(lens, n) < Pow2(lens[n])
  {
    EndOfLengthFits(lens, m, lens[n]);
    CountPrefix(lens, n, lens[n]);
  }

  lemma {:induction false} KraftScale(lens: Lengths, m: nat, k: nat)
    requires Bounded(lens, m)
    ensures Kraft(lens, m + k) == Kraft(lens, m) * Pow2(k)
  {
    if lens != [] {
      var init, last := lens[..|lens| - 1], lens[|lens| - 1];
      KraftScale(init, m, k);
      WeightScale(last, m, k);
      MulDist(Kraft(init, m), Weight(last, m), Pow2(k));
    }
  }

  lemma WeightScale(len: nat, m: nat, k: nat)
    requires len <= m
    ensures Weight(len, m + k) == Weight(len, m) * Pow2(k)
  {
    if len > 0 {
      Pow2Add(m - len, k);
      assert m - len + k == m + k - len;
    }
  }

  // ----- prefix freedom -----

  /** Shifting a longer code down to length a lands above every code of length a. */
  lemma {:induction false} LongerCodesFollow(lens: Lengths, a: nat, b: nat, v: nat)
    requires 1 <= a < b && v >= FirstCode(lens, b)
    ensures Shr(v, b - a) >= FirstCode(lens, a) + Count(lens, a)
  {
    if b == a + 1 {
      assert Shr(v, 1) == Shr(v / 2, 0) == v / 2;
    } else {
      LongerCodesFollow(lens, a, b - 1, v / 2);
    }
  }

  /** No code is a prefix of another: cutting the longer code down to the
      length of the shorter one never gives the shorter one. */
  lemma {:induction false} PrefixFree(lens: Lengths, i: nat, j: nat)
    requires i < |lens| && j < |lens| && i != j && 0 < lens[i] <= lens[j]
    ensures Shr(Code(lens, j), lens[j] - lens[i]) != Code(lens, i)
  {
    if lens[i] == lens[j] {
      if i < j {
        CountRankLess(lens, i, j);
      } else {
        CountRankLess(lens, j, i);
      }
    } else {
      LongerCodesFollow(lens, lens[i], lens[j], Code(lens, j));
      CountPrefix(lens, i, lens[i]);
    }
  }

  /** The same, said about the bits that are sent. */
  lemma {:induction false} CodeBitsPrefixFree(lens: Lengths, i: nat, j: nat)
    requires i < |lens| && j < |lens| && i != j && 0 < lens[i] <= lens[j]
    requires Usable(lens)
    ensures CodeBits(lens, j)[..lens[i]] != CodeBits(lens, i)
  {
    hide Code, Shr, MsbBits, Kraft, Pow2;
    var d := lens[j] - lens[i];
    PrefixFree(lens, i, j);
    CodeFits(lens, MAX_BITS, i);
    CodeFits(lens, MAX_BITS, j);
    ShrFits(Code(lens, j), d, lens[i]);
    MsbBitsPrefix(Code(lens, j), lens[j], d);
    MsbBitsInjective(Shr(Code(lens, j), d), Code(lens, i), lens[i]);
  }

  lemma {:induction false} MsbBitsInjective(v: nat, w: nat, n: nat)
    requires v < Pow2(n) && w < Pow2(n)
    ensures MsbBits(v, n) == MsbBits(w, n) ==> v == w
  {
    if n > 0 && MsbBits(v, n) == MsbBits(w, n) {
      assert MsbBits(v, n)[..n - 1] == MsbBits(v / 2, n - 1);
      assert MsbBits(w, n)[..n - 1] == MsbBits(w / 2, n - 1);
      assert MsbBits(v, n)[n - 1] == Bit(v) && MsbBits(w, n)[n - 1] == Bit(w);
      MsbBitsInjective(v / 2, w / 2, n - 1);
    }
  }
}
