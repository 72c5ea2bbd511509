/** CVarBitVec: a set of bit numbers kept in 32-bit words. */
module BitVec {
  import opened BitStrings

  type Word = w: int | 0 <= w < 0x1_0000_0000

  const USHRT_MAX: nat := 65535

  const START_MASKS: seq<Word> := [
    0xffffffff, 0xfffffffe, 0xfffffffc, 0xfffffff8, 0xfffffff0, 0xffffffe0, 0xffffffc0, 0xffffff80,
    0xffffff00, 0xfffffe00, 0xfffffc00, 0xfffff800, 0xfffff000, 0xffffe000, 0xffffc000, 0xffff8000,
    0xffff0000, 0xfffe0000, 0xfffc0000, 0xfff80000, 0xfff00000, 0xffe00000, 0xffc00000, 0xff800000,
    0xff000000, 0xfe000000, 0xfc000000, 0xf8000000, 0xf0000000, 0xe0000000, 0xc0000000, 0x80000000]

  const END_MASKS: seq<Word> := [
    0xffffffff, 0x00000001, 0x00000003, 0x00000007, 0x0000000f, 0x0000001f, 0x0000003f, 0x0000007f,
    0x000000ff, 0x000001ff, 0x000003ff, 0x000007ff, 0x00000fff, 0x00001fff, 0x00003fff, 0x00007fff,
    0x0000ffff, 0x0001ffff, 0x0003ffff, 0x0007ffff, 0x000fffff, 0x001fffff, 0x003fffff, 0x007fffff,
    0x00ffffff, 0x01ffffff, 0x03ffffff, 0x07ffffff, 0x0fffffff, 0x1fffffff, 0x3fffffff, 0x7fffffff]

  /** firstBitLUT, in rows of sixteen. */
  const FIRST_BIT_ROWS: seq<seq<nat>> := [
    [0, 0, 1, 0, 2, 0, 1, 0, 3, 0, 1, 0, 2, 0, 1, 0],
    [4, 0, 1, 0, 2, 0, 1, 0, 3, 0, 1, 0, 2, 0, 1, 0],
    [5, 0, 1, 0, 2, 0, 1, 0, 3, 0, 1, 0, 2, 0, 1, 0],
    [4, 0, 1, 0, 2, 0, 1, 0, 3, 0, 1, 0, 2, 0, 1, 0],
    [6, 0, 1, 0, 2, 0, 1, 0, 3, 0, 1, 0, 2, 0, 1, 0],
    [4, 0, 1, 0, 2, 0, 1, 0, 3, 0, 1, 0, 2, 0, 1, 0],
    [5, 0, 1, 0, 2, 0, 1, 0, 3, 0, 1, 0, 2, 0, 1, 0],
    [4, 0, 1, 0, 2, 0, 1, 0, 3, 0, 1, 0, 2, 0, 1, 0],
    [7, 0, 1, 0, 2, 0, 1, 0, 3, 0, 1, 0, 2, 0, 1, 0],
    [4, 0, 1, 0, 2, 0, 1, 0, 3, 0, 1, 0, 2, 0, 1, 0],
    [5, 0, 1, 0, 2, 0, 1, 0, 3, 0, 1, 0, 2, 0, 1, 0],
    [4, 0, 1, 0, 2, 0, 1, 0, 3, 0, 1, 0, 2, 0, 1, 0],
    [6, 0, 1, 0, 2, 0, 1, 0, 3, 0, 1, 0, 2, 0, 1, 0],
    [4, 0, 1, 0, 2, 0, 1, 0, 3, 0, 1, 0, 2, 0, 1, 0],
    [5, 0, 1, 0, 2, 0, 1, 0, 3, 0, 1, 0, 2, 0, 1, 0],
    [4, 0, 1, 0, 2, 0, 1, 0, 3, 0, 1, 0, 2, 0, 1, 0]]

  // ----- bits of a number -----

  /** Bit i of v. */
  predicate Has(v: nat, i: nat) {
    Bit(Shr(v, i))
  }

  /** a & b */
  function And(a: nat, b: nat): (r: nat)
    ensures r <= a && r <= b
  {
    if a == 0 || b == 0 then 0
    else BitVal(Bit(a) && Bit(b)) + 2 * And(a / 2, b / 2)
  }

  lemma AndHalves(a: nat, b: nat)
    ensures And(a, b) % 2 == BitVal(Bit(a) && Bit(b)) && And(a, b) / 2 == And(a / 2, b / 2)
  {
  }

  lemma {:induction false} AndHas(a: nat, b: nat, i: nat)
    ensures Has(And(a, b), i) <==> Has(a, i) && Has(b, i)
  {
    hide And;
    AndHalves(a, b);
    if i > 0 {
      AndHas(a / 2, b / 2, i - 1);
    }
  }

  lemma OrHalves(a: nat, b: nat)
    ensures Or(a, b) % 2 == BitVal(Bit(a) || Bit(b)) && Or(a, b) / 2 == Or(a / 2, b / 2)
  {
  }

  lemma {:induction false} OrHas(a: nat, b: nat, i: nat)
    ensures Has(Or(a, b), i) <==> Has(a, i) || Has(b, i)
  {
    hide Or;
    OrHalves(a, b);
    if i > 0 {
      OrHas(a / 2, b / 2, i - 1);
    }
  }

  lemma {:induction false} OrFits(a: nat, b: nat, n: nat)
    requires a < Pow2(n) && b < Pow2(n)
    ensures Or(a, b) < Pow2(n)
  {
    if n > 0 {
      OrFits(a / 2, b / 2, n - 1);
    }
  }

  lemma {:induction false} ZeroHas(i: nat)
    ensures !Has(0, i)
  {
    if i > 0 {
      ZeroHas(i - 1);
    }
  }

  lemma {:induction false} ShrHas(v: nat, d: nat, i: nat)
    ensures Has(Shr(v, d), i) == Has(v, d + i)
  {
    if d > 0 {
      ShrHas(v / 2, d - 1, i);
      assert d - 1 + i == d + i - 1;
    }
  }

  /** A number below 2^n is zero exactly when none of its n low bits is set. */
  lemma {:induction false} ZeroIff(v: nat, n: nat)
    requires v < Pow2(n)
    ensures v == 0 <==> forall i: nat :: i < n ==> !Has(v, i)
  {
    if v == 0 {
      forall i: nat ensures !Has(v, i) { ZeroHas(i); }
    } else {
      ZeroIff(v / 2, n - 1);
      if v / 2 == 0 {
        assert Has(v, 0);
      } else {
        var i: nat :| i < n - 1 && Has(v / 2, i);
        assert Has(v, i + 1);
      }
    }
  }

  lemma WordZero(w: Word)
    ensures w == 0 <==> forall i: nat :: i < 32 ==> !Has(w, i)
  {
    Pow2Word();
    ZeroIff(w, 32);
  }

  lemma Pow2Word()
    ensures Pow2(32) == 0x1_0000_0000
  {
    Pow2Values();
    Pow2Add(16, 16);
  }

  /** 2^n - 2^s has the bits from s up to n. */
  lemma {:induction false} RunHas(n: nat, s: nat, i: nat)
    requires s <= n
    ensures Pow2(n) >= Pow2(s) && (Has(Pow2(n) - Pow2(s), i) <==> s <= i < n)
  {
    Pow2Monotone(s, n);
    var v: nat := Pow2(n) - Pow2(s);
    if s == n {
      ZeroHas(i);
    } else if s == 0 {
      if i > 0 {
        assert v / 2 == Pow2(n - 1) - Pow2(0);
        RunHas(n - 1, 0, i - 1);
      }
    } else if i > 0 {
      assert v / 2 == Pow2(n - 1) - Pow2(s - 1);
      RunHas(n - 1, s - 1, i - 1);
    }
  }

  lemma EndMaskTable(n: nat)
    requires n < 32
    ensures END_MASKS[n] == Pow2(if n == 0 then 32 else n) - 1
  {
    Pow2Table();
    Pow2Word();
  }

  lemma StartMaskTable(s: nat)
    requires s < 32
    ensures START_MASKS[s] == Pow2(32) - Pow2(s)
  {
    EndMaskTable(s);
    Pow2Word();
    MasksMeet(s);
    Pow2Values();
  }

  lemma MasksMeet(s: nat)
    requires s < 32
    ensures START_MASKS[s] == if s == 0 then 0xffff_ffff else 0xffff_ffff - END_MASKS[s]
  {
  }

  lemma Pow2Table()
    ensures Pow2(17) == 0x20000 && Pow2(18) == 0x40000 && Pow2(19) == 0x80000 && Pow2(20) == 0x100000
    ensures Pow2(21) == 0x200000 && Pow2(22) == 0x400000 && Pow2(23) == 0x800000 && Pow2(24) == 0x1000000
    ensures Pow2(25) == 0x2000000 && Pow2(26) == 0x4000000 && Pow2(27) == 0x8000000 && Pow2(28) == 0x10000000
    ensures Pow2(29) == 0x20000000 && Pow2(30) == 0x40000000 && Pow2(31) == 0x80000000
  {
    Pow2Values();
    assert Pow2(20) == 0x100000;
    assert Pow2(24) == 0x1000000;
    assert Pow2(28) == 0x10000000;
  }

  /** GetStartBitMask */
  function StartMask(startBit: nat): (m: Word) {
    START_MASKS[startBit % 32]
  }

  /** GetEndMask */
  function EndMask(numBits: nat): (m: Word) {
    END_MASKS[numBits % 32]
  }

  /** The start mask keeps the bits from startBit on in its word. */
  lemma StartMaskHas(startBit: nat, i: nat)
    requires i < 32
    ensures Has(StartMask(startBit), i) <==> startBit % 32 <= i
  {
    StartMaskTable(startBit % 32);
    RunHas(32, startBit % 32, i);
  }

  /** The end mask of a vector keeps, in its last word, the bits the vector has. */
  lemma EndMaskHas(numBits: nat, i: nat)
    requires i < 32
    ensures Has(EndMask(numBits), i) <==> numBits % 32 == 0 || i < numBits % 32
  {
    var n := if numBits % 32 == 0 then 32 else numBits % 32;
    EndMaskTable(numBits % 32);
    RunHas(n, 0, i);
  }

  // ----- the lowest bit of a word -----

  /** firstBitLUT[b] */
  function FirstBitLut(b: nat): nat
    requires b < 256
  {
    FIRST_BIT_ROWS[b / 16][b % 16]
  }

  ghost predicate IsLowest(v: nat, k: nat) {
    Has(v, k) && forall i: nat :: i < k ==> !Has(v, i)
  }

  /** The table gives the lowest bit of a byte. */
  lemma LutRight(b: nat)
    requires 0 < b < 256
    ensures FirstBitLut(b) < 8 && IsLowest(b, FirstBitLut(b))
  {
    hide FirstBitLut, Nibble;
    RowRight(b / 16, b % 16);
    if b % 16 > 0 {
      NibbleLowest(b, b % 16);
      assert FirstBitLut(b) == Nibble(b % 16) by { LutEntry(b); }
    } else {
      NibbleLowest(b / 16, b / 16);
      LutEntry(b);
      var k := Nibble(b / 16);
      forall i: nat | i < 4 + k
        ensures !Has(b, i)
      {
        if i < 4 {
          LowHas(b, 0, i);
          ZeroHas(i);
        } else {
          FourHas(b, i - 4);
        }
      }
      FourHas(b, k);
    }
  }

  lemma LutEntry(b: nat)
    requires b < 256
    ensures FirstBitLut(b) == FIRST_BIT_ROWS[b / 16][b % 16]
  {
  }

  lemma NibbleLowest(v: nat, c: nat)
    requires c == v % 16 > 0
    ensures Nibble(c) < 4 && IsLowest(v, Nibble(c))
  {
    hide Shr;
    ShiftValues(c);
    forall i: nat | i < 4
      ensures Has(v, i) == Has(c, i)
    {
      LowHas(v, c, i);
    }
  }

  lemma LowHas(v: nat, c: nat, i: nat)
    requires c == v % 16 && i < 4
    ensures Has(v, i) == Has(c, i)
  {
    SameLow(v, c, v / 16, 4, i);
    Pow2Values();
  }

  /** Adding a multiple of 2^n leaves the n low bits alone. */
  lemma {:induction false} SameLow(v: nat, c: nat, q: nat, n: nat, i: nat)
    requires v == c + q * Pow2(n) && i < n
    ensures Has(v, i) == Has(c, i)
  {
    MulAssoc(q, 2, Pow2(n - 1));
    MulAssoc(2, q, Pow2(n - 1));
    assert v == c + 2 * (q * Pow2(n - 1));
    if i > 0 {
      SameLow(v / 2, c / 2, q, n - 1, i - 1);
    }
  }

  lemma ShiftValues(v: nat)
    ensures Shr(v, 0) == v && Shr(v, 1) == v / 2 && Shr(v, 2) == v / 4 && Shr(v, 3) == v / 8
  {
    assert v / 2 / 2 == v / 4 && v / 4 / 2 == v / 8;
    assert Shr(v, 2) == Shr(v / 2 / 2, 0);
    assert Shr(v, 3) == Shr(v / 2 / 2, 1);
  }

  lemma FourHas(v: nat, i: nat)
    ensures Has(v, 4 + i) == Has(v / 16, i)
  {
    assert v / 2 / 2 / 2 / 2 == v / 16;
    assert Shr(v, 4 + i) == Shr(v / 2 / 2, 2 + i) == Shr(v / 16, i);
  }

  function Nibble(c: nat): nat {
    if c % 2 == 1 then 0 else if c / 2 % 2 == 1 then 1 else if c / 4 % 2 == 1 then 2 else 3
  }

  lemma RowRight(r: nat, c: nat)
    requires r < 16 && c < 16
    ensures FIRST_BIT_ROWS[r][c] == if c > 0 then Nibble(c) else if r > 0 then 4 + Nibble(r) else 0
  {
    var row := FIRST_BIT_ROWS[r];
    assert row == [row[0], 0, 1, 0, 2, 0, 1, 0, 3, 0, 1, 0, 2, 0, 1, 0];
  }

  /** FirstBitInWord, taking the word a byte at a time. */
  method FirstBitInWord(word: Word, offset: nat) returns (r: int)
    ensures word == 0 ==> r == -1
    ensures word != 0 ==> offset <= r < offset + 32 && IsLowest(word, r - offset)
  {
    hide Has, FirstBitLut, And, Shr, IsLowest;
    var elem: nat := word;
    var base := offset;
    var elemByte := And(elem, 0xff);
    ByteLowest(word, 0);
    ShrZero(word);
    if elemByte != 0 {
      return base + FirstBitLut(elemByte);
    }
    elem := Shr(elem, 8);
    base := base + 8;
    elemByte := And(elem, 0xff);
    ByteLowest(word, 8);
    if elemByte != 0 {
      return base + FirstBitLut(elemByte);
    }
    ShrAdds(word, 8, 8);
    elem := Shr(elem, 8);
    base := base + 8;
    elemByte := And(elem, 0xff);
    ByteLowest(word, 16);
    if elemByte != 0 {
      return base + FirstBitLut(elemByte);
    }
    ShrAdds(word, 16, 8);
    elem := Shr(elem, 8);
    base := base + 8;
    elemByte := And(elem, 0xff);
    ByteLowest(word, 24);
    if elemByte != 0 {
      return base + FirstBitLut(elemByte);
    }
    WordZero(word);
    return -1;
  }

  lemma ShrZero(v: nat)
    ensures Shr(v, 0) == v
  {
  }

  lemma {:induction false} ShrAdds(v: nat, d: nat, e: nat)
    ensures Shr(Shr(v, d), e) == Shr(v, d + e)
  {
    if d > 0 {
      ShrAdds(v / 2, d - 1, e);
      assert d - 1 + e == d + e - 1;
    }
  }

  /** What the byte at bit d says when no lower bit is set. */
  lemma ByteLowest(v: nat, d: nat)
    requires forall i: nat :: i < d ==> !Has(v, i)
    ensures var b := And(Shr(v, d), 0xff);
            if b == 0 then forall i: nat :: i < d + 8 ==> !Has(v, i)
            else v != 0 && FirstBitLut(b) < 8 && IsLowest(v, d + FirstBitLut(b))
  {
    hide FirstBitLut, And, Has;
    var b := And(Shr(v, d), 0xff);
    forall i: nat | i < 8
      ensures Has(b, i) == Has(v, d + i)
    {
      ByteHas(Shr(v, d), i);
      ShrHas(v, d, i);
    }
    if b == 0 {
      forall i: nat | i < d + 8
        ensures !Has(v, i)
      {
        if i >= d {
          ZeroHas(i - d);
          assert Has(b, i - d) == Has(v, d + (i - d));
        }
      }
    } else {
      LutRight(b);
      ZeroHas(d + FirstBitLut(b));
      forall i: nat | i < d + FirstBitLut(b)
        ensures !Has(v, i)
      {
        if i >= d {
          assert Has(b, i - d) == Has(v, d + (i - d));
        }
      }
    }
  }

  lemma ByteHas(v: nat, i: nat)
    requires i < 8
    ensures Has(And(v, 0xff), i) == Has(v, i)
  {
    Pow2Values();
    AndHas(v, 0xff, i);
    RunHas(8, 0, i);
  }

  // ----- vectors of words -----

  /** CalcNumIntsForBits */
  function CalcNumInts(numBits: nat): nat {
    (numBits + 31) / 32
  }

  /** Bit k of a vector, counting from the low bit of word 0. */
  predicate Holds(words: seq<Word>, k: nat) {
    k / 32 < |words| && Has(words[k / 32], k % 32)
  }

  /** The set a vector of numBits bits stands for, whatever lies past its end. */
  ghost function Members(words: seq<Word>, numBits: nat): set<nat> {
    set k: nat | k < numBits && Holds(words, k)
  }

  /** No member from lo up to hi. */
  ghost predicate Clear(words: seq<Word>, lo: nat, hi: nat) {
    forall k: nat :: lo <= k < hi ==> !Holds(words, k)
  }

  /** Word w, as seen through a mask of the bits from lo and below hi of the vector. */
  ghost predicate Shows(words: seq<Word>, w: nat, elem: nat, lo: nat, hi: nat) {
    forall i: nat :: i < 32 ==> (Has(elem, i) <==> Holds(words, 32 * w + i) && lo <= 32 * w + i < hi)
  }

  lemma HoldsAt(words: seq<Word>, w: nat, i: nat)
    requires w < |words| && i < 32
    ensures Holds(words, 32 * w + i) == Has(words[w], i)
  {
    assert (32 * w + i) / 32 == w && (32 * w + i) % 32 == i;
  }

  lemma ShowsPlain(words: seq<Word>, w: nat, lo: nat, hi: nat)
    requires w < |words| && lo <= 32 * w && 32 * w + 32 <= hi
    ensures Shows(words, w, words[w], lo, hi)
  {
    hide Has, Holds;
    forall i: nat | i < 32
      ensures Has(words[w], i) == Holds(words, 32 * w + i)
    {
      HoldsAt(words, w, i);
    }
  }

  lemma ShowsFrom(words: seq<Word>, startBit: nat, hi: nat)
    requires startBit / 32 < |words| && 32 * (startBit / 32) + 32 <= hi
    ensures Shows(words, startBit / 32, And(words[startBit / 32], StartMask(startBit)), startBit, hi)
  {
    hide Has, Holds, And, StartMask;
    var w := startBit / 32;
    forall i: nat | i < 32
      ensures Has(And(words[w], StartMask(startBit)), i) <==> Holds(words, 32 * w + i) && startBit <= 32 * w + i
    {
      HoldsAt(words, w, i);
      AndHas(words[w], StartMask(startBit), i);
      StartMaskHas(startBit, i);
    }
  }

  /** The end mask cuts a view of the last word at the vector's end. */
  lemma ShowsTo(words: seq<Word>, elem: nat, lo: nat, hi: nat, numBits: nat)
    requires |words| == CalcNumInts(numBits) && numBits > 0 && hi >= 32 * |words|
    requires Shows(words, |words| - 1, elem, lo, hi)
    ensures Shows(words, |words| - 1, And(elem, EndMask(numBits)), lo, numBits)
  {
    hide Has, Holds, And, EndMask;
    var w := |words| - 1;
    forall i: nat | i < 32
      ensures Has(And(elem, EndMask(numBits)), i) <==> Holds(words, 32 * w + i) && lo <= 32 * w + i < numBits
    {
      AndHas(elem, EndMask(numBits), i);
      EndMaskHas(numBits, i);
      assert numBits % 32 == 0 ==> numBits == 32 * w + 32;
      assert numBits % 32 != 0 ==> numBits == 32 * w + numBits % 32;
    }
  }

  /** What the lowest bit of a view tells about the vector. */
  lemma ViewLowest(words: seq<Word>, w: nat, elem: Word, lo: nat, hi: nat)
    requires Shows(words, w, elem, lo, hi) && Clear(words, lo, 32 * w)
    ensures elem == 0 ==> Clear(words, lo, if hi < 32 * w + 32 then hi else 32 * w + 32)
    ensures forall k: nat :: k < 32 && IsLowest(elem, k) ==>
              Holds(words, 32 * w + k) && lo <= 32 * w + k < hi && Clear(words, lo, 32 * w + k)
  {
    hide Has, Holds;
    WordZero(elem);
    if elem == 0 {
      forall k: nat | lo <= k < hi && k < 32 * w + 32
        ensures !Holds(words, k)
      {
        if k >= 32 * w {
          assert !Has(elem, k - 32 * w);
          assert k == 32 * w + (k - 32 * w);
        }
      }
    }
    forall k: nat | k < 32 && IsLowest(elem, k)
      ensures Holds(words, 32 * w + k) && lo <= 32 * w + k < hi && Clear(words, lo, 32 * w + k)
    {
      forall j: nat | lo <= j < 32 * w + k
        ensures !Holds(words, j)
      {
        if j >= 32 * w {
          assert !Has(elem, j - 32 * w);
          assert j == 32 * w + (j - 32 * w);
        }
      }
    }
  }

  /** r is the least member from startBit on, or -1 when there is none. */
  ghost predicate IsNext(words: seq<Word>, numBits: nat, startBit: nat, r: int) {
    if r == -1 then forall k: nat :: k in Members(words, numBits) ==> k < startBit
    else r >= startBit && r in Members(words, numBits) &&
         forall k: nat :: k in Members(words, numBits) && k >= startBit ==> k >= r
  }

  lemma NextIs(words: seq<Word>, numBits: nat, startBit: nat, r: int)
    requires r == -1 ==> Clear(words, startBit, numBits)
    requires r != -1 ==> startBit <= r < numBits && Holds(words, r) && Clear(words, startBit, r)
    ensures IsNext(words, numBits, startBit, r)
  {
  }

  /** FirstBitInWord on a view of word w that is not zero. */
  method FirstInView(ghost words: seq<Word>, w: nat, elem: Word, ghost lo: nat, ghost hi: nat) returns (r: int)
    requires Shows(words, w, elem, lo, hi) && Clear(words, lo, 32 * w) && elem != 0
    ensures lo <= r < hi && r < 32 * w + 32 && Holds(words, r) && Clear(words, lo, r)
  {
    hide Has, Holds, Shows, Clear;
    r := FirstBitInWord(elem, 32 * w);
    ViewLowest(words, w, elem, lo, hi);
    assert r == 32 * w + (r - 32 * w);
  }

  /** FindNextSetBit of both classes: they read only the words and the size. */
  method FindNextSetBit(words: seq<Word>, numBits: nat, startBit: nat) returns (r: int)
    requires |words| == CalcNumInts(numBits)
    ensures IsNext(words, numBits, startBit, r)
  {
    hide Has, Holds, Shows, And, StartMask, EndMask, IsNext;
    if startBit < numBits {
      var wordIndex := startBit / 32;
      var startMask := StartMask(startBit);
      var lastWord := |words| - 1;
      var elem: Word := And(words[wordIndex], startMask);
      ghost var end := 32 * |words|;
      ShowsFrom(words, startBit, end);
      if numBits % 32 != 0 {
        if wordIndex == lastWord {
          ShowsTo(words, elem, startBit, end, numBits);
          elem := And(elem, EndMask(numBits));
          if elem != 0 {
            r := FirstInView(words, wordIndex, elem, startBit, numBits);
            NextIs(words, numBits, startBit, r);
            return;
          }
          ViewLowest(words, wordIndex, elem, startBit, numBits);
        } else {
          ViewLowest(words, wordIndex, elem, startBit, end);
          if elem != 0 {
            r := FirstInView(words, wordIndex, elem, startBit, end);
            NextIs(words, numBits, startBit, r);
            return;
          }
          var i := wordIndex + 1;
          while i < lastWord
            invariant wordIndex < i <= lastWord
            invariant Clear(words, startBit, 32 * i)
          {
            elem := words[i];
            ShowsPlain(words, i, startBit, 32 * lastWord);
            if elem != 0 {
              r := FirstInView(words, i, elem, startBit, 32 * lastWord);
              NextIs(words, numBits, startBit, r);
              return;
            }
            ViewLowest(words, i, elem, startBit, 32 * lastWord);
            i := i + 1;
          }
          elem := And(words[lastWord], EndMask(numBits));
          ShowsPlain(words, lastWord, startBit, end);
          ShowsTo(words, words[lastWord], startBit, end, numBits);
          if elem != 0 {
            r := FirstInView(words, lastWord, elem, startBit, numBits);
            NextIs(words, numBits, startBit, r);
            return;
          }
          ViewLowest(words, lastWord, elem, startBit, numBits);
        }
      } else {
        while true
          invariant startBit / 32 <= wordIndex <= lastWord
          invariant Clear(words, startBit, 32 * wordIndex) && Shows(words, wordIndex, elem, startBit, numBits)
          decreases lastWord - wordIndex
        {
          if elem != 0 {
            r := FirstInView(words, wordIndex, elem, startBit, numBits);
            NextIs(words, numBits, startBit, r);
            return;
          }
          ViewLowest(words, wordIndex, elem, startBit, numBits);
          wordIndex := wordIndex + 1;
          // the word past the end is loaded but never looked at
          if wordIndex > lastWord {
            break;
          }
          elem := words[wordIndex];
          ShowsPlain(words, wordIndex, startBit, numBits);
        }
      }
    }
    NextIs(words, numBits, startBit, -1);
    return -1;
  }

  // ----- resizing -----

  /** m_pInt: nothing, the word inside the object, or a block from the heap. */
  datatype Pointer = Null | Inline | Block(ints: array<Word>)

  /** The words of the new base start with those of the old one, as far as both reach. */
  ghost predicate SharePrefix(old_: seq<Word>, new_: seq<Word>) {
    forall i :: 0 <= i < |old_| && i < |new_| ==> new_[i] == old_[i]
  }

  /** Fewer bits, or as many in as many words: the members below the new size stay. */
  lemma ShrinkKeeps(before: seq<Word>, numBits: nat, after: seq<Word>, n: nat)
    requires |before| == CalcNumInts(numBits) && |after| == CalcNumInts(n)
    requires n <= numBits && SharePrefix(before, after)
    ensures Members(after, n) == Below(Members(before, numBits), n)
  {
    hide Has;
    forall k: nat | k < n
      ensures Holds(after, k) == Holds(before, k)
    {
      assert k / 32 < |after| && k / 32 < |before|;
    }
  }

  /** More bits: the old last word is masked and the words after it are zero. */
  lemma GrowKeeps(before: seq<Word>, numBits: nat, after: seq<Word>, n: nat)
    requires |before| == CalcNumInts(numBits) && |after| == CalcNumInts(n)
    requires 0 < numBits <= n
    requires forall i :: 0 <= i < |before| - 1 ==> after[i] == before[i]
    requires after[|before| - 1] == And(before[|before| - 1], EndMask(numBits))
    requires forall i :: |before| <= i < |after| ==> after[i] == 0
    ensures Members(after, n) == Members(before, numBits)
  {
    hide Has, And, EndMask;
    forall k: nat | k < n
      ensures Holds(after, k) <==> k < numBits && Holds(before, k)
    {
      var w, i := k / 32, k % 32;
      if w == |before| - 1 {
        AndHas(before[w], EndMask(numBits), i);
        EndMaskHas(numBits, i);
        assert numBits % 32 == 0 ==> numBits == 32 * w + 32;
        assert numBits % 32 != 0 ==> numBits == 32 * w + numBits % 32;
      } else if w >= |before| {
        ZeroHas(i);
        assert after[w] == 0;
      }
    }
  }

  lemma ClearedHasNone(words: seq<Word>, n: nat)
    requires forall i :: 0 <= i < |words| ==> words[i] == 0
    ensures Members(words, n) == {}
  {
    hide Has;
    forall k: nat ensures !Holds(words, k) { ZeroHas(k % 32); }
  }

  ghost function Below(s: set<nat>, n: nat): set<nat> {
    set k | k in s && k < n
  }

  class VarBitVec {
    var numBits: nat
    var numInts: nat
    var bitStringStorage: Word
    var pInt: Pointer

    function Heap(): set<object>
      reads this
    {
      if pInt.Block? then {pInt.ints} else {}
    }

    /** The words Base() points at. */
    function Base(): (r: seq<Word>)
      reads this, Heap()
      ensures |r| == match pInt case Null => 0 case Inline => 1 case Block(a) => a.Length
    {
      match pInt
      case Null => []
      case Inline => [bitStringStorage]
      case Block(a) => a[..]
    }

    /** One word lives inside the object, several in a block, none nowhere. */
    ghost predicate Stored(n: nat)
      reads this, Heap()
    {
      |Base()| == n && (pInt.Null? <==> n == 0) && (pInt.Inline? <==> n == 1)
    }

    ghost predicate Valid()
      reads this, Heap()
    {
      numBits <= USHRT_MAX && numInts == CalcNumInts(numBits) && Stored(numInts)
    }

    ghost function Contents(): set<nat>
      reads this, Heap()
    {
      Members(Base(), numBits)
    }

    /** CVarBitVec(): an empty vector. */
    constructor ()
      ensures Valid() && numBits == 0 && Contents() == {} && fresh(Heap())
    {
      numBits := 0;
      numInts := 0;
      bitStringStorage := 0;
      pInt := Null;
    }

    /** Base()[i] = v */
    method Poke(i: nat, v: Word)
      requires i < |Base()|
      modifies this`bitStringStorage, Heap()
      ensures Base() == old(Base())[i := v]
    {
      match pInt
      case Inline => bitStringStorage := v;
      case Block(a) => a[i] := v;
    }

    /** Plat_FastMemset(Base() + from, 0, ...): clears every word from `from` on. */
    method ZeroFrom(from: nat)
      requires from <= |Base()|
      modifies this`bitStringStorage, Heap()
      ensures |Base()| == old(|Base()|)
      ensures forall i :: 0 <= i < |Base()| ==> Base()[i] == if i < from then old(Base()[i]) else 0
    {
      var i := from;
      while i < |Base()|
        invariant from <= i <= |Base()| == old(|Base()|)
        invariant forall k :: 0 <= k < |Base()| ==> Base()[k] == if from <= k < i then 0 else old(Base()[k])
      {
        Poke(i, 0);
        i := i + 1;
      }
    }

    /** AllocInts: what malloc returns holds anything. */
    method AllocInts(n: nat)
      requires pInt.Null?
      modifies this`pInt
      ensures Stored(n) && fresh(Heap())
    {
      if n == 0 {
      } else if n == 1 {
        pInt := Inline;
      } else {
        var p := new Word[n];
        pInt := Block(p);
      }
    }

    /** FreeInts: only a block goes back to the heap. */
    method FreeInts()
      modifies this`pInt
      ensures Stored(0)
    {
      pInt := Null;
    }

    /** ReallocInts: the words move between the inline word and the heap; the rest of a new block is anything. */
    method ReallocInts(n: nat)
      requires Stored(|Base()|) && !pInt.Null?
      modifies this`pInt, this`bitStringStorage
      ensures Stored(n) && SharePrefix(old(Base()), Base())
      ensures fresh(Heap() - old(Heap()))
    {
      if n == 0 {
        FreeInts();
        return;
      }
      if pInt.Inline? {
        if n != 1 {
          var p := new Word[n];
          p[0] := bitStringStorage;
          pInt := Block(p);
        }
        return;
      }
      if n == 1 {
        bitStringStorage := pInt.ints[0];
        pInt := Inline;
        return;
      }
      var p := new Word[n];
      var i := 0;
      while i < n && i < pInt.ints.Length
        invariant pInt == old(pInt) && 0 <= i <= n && i <= pInt.ints.Length
        invariant pInt.ints[..] == old(pInt.ints[..]) && p !in Heap()
        invariant forall k :: 0 <= k < i ==> p[k] == pInt.ints[k]
      {
        p[i] := pInt.ints[i];
        i := i + 1;
      }
      pInt := Block(p);
    }

    /** FindNextSetBit of a vector: the next member, whatever the words hold past the last bit. */
    method NextSetBit(startBit: nat) returns (r: int)
      requires Valid()
      ensures r == -1 ==> forall k :: k in Contents() ==> k < startBit
      ensures r != -1 ==> r >= startBit && r in Contents() && forall k :: k in Contents() && k >= startBit ==> k >= r
    {
      r := FindNextSetBit(Base(), numBits, startBit);
    }

    /** IsBitSet */
    method IsBitSet(bitNum: nat) returns (r: bool)
      requires Valid() && bitNum < numBits
      ensures r <==> bitNum in Contents()
    {
      hide Has, And, BitOf;
      var w := Base()[bitNum / 32];
      r := And(w, BitOf(bitNum)) != 0;
      WordZero(And(w, BitOf(bitNum)));
      forall i: nat | i < 32
        ensures Has(And(w, BitOf(bitNum)), i) <==> i == bitNum % 32 && Has(w, i)
      {
        AndHas(w, BitOf(bitNum), i);
        Pow2Has(bitNum % 32, i);
      }
    }

    /** Set(bitNum, bNewVal): the or with the bit, or the and with its complement. */
    method SetTo(bitNum: nat, bNewVal: bool)
      requires Valid() && bitNum < numBits
      modifies this`bitStringStorage, Heap()
      ensures Valid() && Contents() == if bNewVal then old(Contents()) + {bitNum} else old(Contents()) - {bitNum}
    {
      hide Has, And, Or, BitOf, Members;
      var w := Base()[bitNum / 32];
      var bitMask := BitOf(bitNum);
      Pow2Word();
      OrFits(w, bitMask, 32);
      var v: Word := if bNewVal then Or(w, bitMask) else And(w, 0xffff_ffff - bitMask);
      forall i: nat | i < 32
        ensures Has(v, i) <==> if i == bitNum % 32 then bNewVal else Has(w, i)
      {
        OrHas(w, bitMask, i);
        AndHas(w, 0xffff_ffff - bitMask, i);
        NotHas(bitMask, 32, i);
        Pow2Has(bitNum % 32, i);
      }
      OneBit(Base(), numBits, bitNum, v, bNewVal);
      Poke(bitNum / 32, v);
    }

    /** Resize: without clearing, every member that still fits stays and no other appears. */
    method Resize(resizeNumBits: nat, clearAll: bool)
      requires Valid() && resizeNumBits <= USHRT_MAX
      modifies this, Heap()
      ensures Valid() && numBits == resizeNumBits && fresh(Heap() - old(Heap()))
      ensures Contents() == if clearAll then {} else Below(old(Contents()), resizeNumBits)
    {
      hide Has, And, EndMask, Members;
      var bClearAll := clearAll;
      var newIntCount := CalcNumInts(resizeNumBits);
      ghost var before := Base();
      if newIntCount != numInts {
        if !pInt.Null? {
          ReallocInts(newIntCount);
          if !bClearAll && resizeNumBits >= numBits {
            var last := Base()[numInts - 1];
            Poke(numInts - 1, And(last, EndMask(numBits)));
            ZeroFrom(numInts);
          }
        } else {
          AllocInts(newIntCount);
          bClearAll := true;
        }
        numInts := newIntCount;
      } else if !bClearAll && resizeNumBits >= numBits && !pInt.Null? {
        var last := Base()[numInts - 1];
        Poke(numInts - 1, And(last, EndMask(numBits)));
      }
      if bClearAll && !pInt.Null? {
        ZeroFrom(0);
      }
      ghost var wasBits := numBits;
      numBits := resizeNumBits;
      if bClearAll {
        ClearedHasNone(Base(), numBits);
        NoMembers(before, wasBits);
      } else if numBits >= wasBits {
        if wasBits > 0 {
          GrowKeeps(before, wasBits, Base(), numBits);
          MembersBelow(before, wasBits, numBits);
        } else {
          NoMembers(before, wasBits);
          NoMembers(Base(), numBits);
        }
      } else {
        ShrinkKeeps(before, wasBits, Base(), numBits);
      }
    }
  }

  /** BitVec_Bit */
  function BitOf(k: nat): (r: Word)
    ensures r == Pow2(k % 32)
  {
    Pow2Fits(k % 32, 32);
    Pow2Word();
    Pow2(k % 32)
  }

  lemma {:induction false} Pow2Fits(a: nat, n: nat)
    requires a < n
    ensures 2 * Pow2(a) <= Pow2(n)
  {
    Pow2Monotone(a + 1, n);
  }

  lemma {:induction false} Pow2Has(b: nat, i: nat)
    ensures Has(Pow2(b), i) <==> i == b
  {
    if b == 0 {
      if i > 0 { ZeroHas(i - 1); }
    } else if i > 0 {
      Pow2Has(b - 1, i - 1);
    }
  }

  /** ~ on the n low bits. */
  lemma {:induction false} NotHas(v: nat, n: nat, i: nat)
    requires v < Pow2(n) && i < n
    ensures Has(Pow2(n) - 1 - v, i) <==> !Has(v, i)
  {
    var u: nat := Pow2(n) - 1 - v;
    assert u / 2 == Pow2(n - 1) - 1 - v / 2 && u % 2 == 1 - v % 2;
    if i > 0 {
      NotHas(v / 2, n - 1, i - 1);
    }
  }

  /** Word k / 32 changes at bit k % 32 only: the set changes at k only. */
  lemma OneBit(words: seq<Word>, numBits: nat, k: nat, w: Word, on: bool)
    requires |words| == CalcNumInts(numBits) && k < numBits
    requires forall i: nat :: i < 32 ==> (Has(w, i) <==> if i == k % 32 then on else Has(words[k / 32], i))
    ensures Members(words[k / 32 := w], numBits)
            == if on then Members(words, numBits) + {k} else Members(words, numBits) - {k}
  {
    hide Has;
    var after := words[k / 32 := w];
    forall j: nat | j < numBits
      ensures Holds(after, j) <==> if j == k then on else Holds(words, j)
    {
      assert j == 32 * (j / 32) + j % 32 && k == 32 * (k / 32) + k % 32;
    }
  }

  lemma NoMembers(words: seq<Word>, n: nat)
    ensures words == [] ==> Members(words, n) == {}
  {
  }

  lemma MembersBelow(words: seq<Word>, numBits: nat, n: nat)
    requires numBits <= n
    ensures Below(Members(words, numBits), n) == Members(words, numBits)
  {
  }
}
