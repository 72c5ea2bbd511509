/** A reference decoder for the deflate format, written from RFC 1951 alone. It
    says what a compressed byte string means. Bits are consumed from the
    front; what is left over is returned, and how far the reader is from a byte
    boundary is the number of bits left modulo 8, as the whole stream is made
    of whole bytes. */
module Inflate {
  import opened BitStrings
  import opened Canonical
  import opened Options

  datatype Parse<+T> = Fail | Done(value: T, rest: Bits) {
    predicate IsFailure() { Fail? }

    function PropagateFailure<U>(): Parse<U>
      requires Fail?
    {
      Fail
    }

    function Extract(): (T, Bits)
      requires Done?
    {
      (value, rest)
    }
  }

  const END_OF_BLOCK: nat := 256

  // ----- numbers and Huffman codes (section 3.1.1) -----

  function ReadNumber(n: nat, bits: Bits): (r: Parse<nat>)
    ensures r.Done? ==> |r.rest| + n == |bits|
  {
    if |bits| < n then Fail else Done(LsbValue(bits[..n]), bits[n..])
  }

  /** The first symbol from k on whose code is v in len bits; |lens| when there is none. */
  function FindSymbol(lens: Lengths, len: nat, v: nat, k: nat): (n: nat)
    requires k <= |lens|
    ensures k <= n <= |lens|
    ensures n < |lens| ==> lens[n] == len && Code(lens, n) == v
    ensures forall i :: k <= i < n ==> !(lens[i] == len && Code(lens, i) == v)
    decreases |lens| - k
  {
    if k == |lens| || (lens[k] == len && Code(lens, k) == v) then k
    else FindSymbol(lens, len, v, k + 1)
  }

  /** Reads bits, most significant first, until they spell the code of a symbol. */
  function ReadCode(lens: Lengths, bits: Bits, len: nat, v: nat): (r: Parse<nat>)
    ensures r.Done? ==> r.value < |lens| && |r.rest| < |bits|
    decreases |bits|
  {
    if len >= MAX_BITS || bits == [] then Fail
    else
      var w := 2 * v + BitVal(bits[0]);
      var n := FindSymbol(lens, len + 1, w, 0);
      if n < |lens| then Done(n, bits[1..]) else ReadCode(lens, bits[1..], len + 1, w)
  }

  function ReadSymbol(lens: Lengths, bits: Bits): (r: Parse<nat>)
    ensures r.Done? ==> r.value < |lens| && |r.rest| < |bits|
  {
    ReadCode(lens, bits, 0, 0)
  }

  // ----- lengths and distances (section 3.2.5) -----

  /** Code 257 + k: the smallest match length it stands for. */
  const LENGTH_BASE: seq<nat> :=
    [3, 4, 5, 6, 7, 8, 9, 10, 11, 13, 15, 17, 19, 23, 27, 31, 35, 43, 51, 59, 67, 83, 99, 115,
     131, 163, 195, 227, 258]

  const LENGTH_EXTRA: seq<nat> :=
    [0, 0, 0, 0, 0, 0, 0, 0, 1, 1, 1, 1, 2, 2, 2, 2, 3, 3, 3, 3, 4, 4, 4, 4, 5, 5, 5, 5, 0]

  const DIST_BASE: seq<nat> :=
    [1, 2, 3, 4, 5, 7, 9, 13, 17, 25, 33, 49, 65, 97, 129, 193, 257, 385, 513, 769, 1025, 1537,
     2049, 3073, 4097, 6145, 8193, 12289, 16385, 24577]

  const DIST_EXTRA: seq<nat> :=
    [0, 0, 0, 0, 1, 1, 2, 2, 3, 3, 4, 4, 5, 5, 6, 6, 7, 7, 8, 8, 9, 9, 10, 10, 11, 11, 12, 12, 13, 13]

  function LengthBase(k: nat): nat
    requires k < 29
  {
    LENGTH_BASE[k]
  }

  function LengthExtra(k: nat): nat
    requires k < 29
  {
    LENGTH_EXTRA[k]
  }

  function DistBase(k: nat): (d: nat)
    requires k < 30
    ensures d >= 1
  {
    DIST_BASE[k]
  }

  function DistExtra(k: nat): nat
    requires k < 30
  {
    DIST_EXTRA[k]
  }

  /** Appends len bytes, each the one dist back from the current end (section 2.3). */
  function CopyBack(out: seq<Byte>, len: nat, dist: nat): (r: seq<Byte>)
    requires 1 <= dist <= |out|
    ensures |r| == |out| + len
    decreases len
  {
    if len == 0 then out else CopyBack(out + [out[|out| - dist]], len - 1, dist)
  }

  function ReadMatch(dlens: Lengths, lcode: nat, bits: Bits, out: seq<Byte>): (r: Parse<seq<Byte>>)
    requires lcode < 29
    ensures r.Done? ==> |r.rest| <= |bits|
  {
    var (x, b1) :- ReadNumber(LengthExtra(lcode), bits);
    var (dcode, b2) :- ReadSymbol(dlens, b1);
    if dcode >= 30 then Fail
    else
      var (y, b3) :- ReadNumber(DistExtra(dcode), b2);
      var dist := DistBase(dcode) + y;
      if dist > |out| then Fail else Done(CopyBack(out, LengthBase(lcode) + x, dist), b3)
  }

  /** Compressed data up to the end-of-block symbol (section 3.2.3). */
  function ReadData(llens: Lengths, dlens: Lengths, bits: Bits, out: seq<Byte>): (r: Parse<seq<Byte>>)
    ensures r.Done? ==> |r.rest| < |bits|
    decreases |bits|
  {
    var (sym, b1) :- ReadSymbol(llens, bits);
    if sym < 256 then ReadData(llens, dlens, b1, out + [sym])
    else if sym == END_OF_BLOCK then Done(out, b1)
    else if sym >= 286 then Fail
    else
      var (out', b2) :- ReadMatch(dlens, sym - 257, b1, out);
      ReadData(llens, dlens, b2, out')
  }

  // ----- fixed codes (section 3.2.6) -----

  function FixedLiteralLength(n: nat): nat {
    if n <= 143 then 8 else if n <= 255 then 9 else if n <= 279 then 7 else 8
  }

  function FixedLiterals(): (r: Lengths)
    ensures |r| == 288
  {
    seq(288, (n: int) requires n >= 0 => FixedLiteralLength(n))
  }

  function FixedDistances(): (r: Lengths)
    ensures |r| == 32
  {
    Repeat(5, 32)
  }

  // ----- dynamic codes (section 3.2.7) -----

  const CODE_LENGTH_ORDER: seq<nat> := [16, 17, 18, 0, 8, 7, 9, 6, 10, 5, 11, 4, 12, 3, 13, 2, 14, 1, 15]

  /** The lengths of the code length code: 3 bits each, in the order above; the rest are 0. */
  function ReadCodeLengthLengths(k: nat, count: nat, bits: Bits, acc: Lengths): (r: Parse<Lengths>)
    requires k <= count <= 19 && |acc| == 19
    ensures r.Done? ==> |r.value| == 19 && |r.rest| <= |bits|
    decreases count - k
  {
    if k == count then Done(acc, bits)
    else
      var (x, b1) :- ReadNumber(3, bits);
      ReadCodeLengthLengths(k + 1, count, b1, acc[CODE_LENGTH_ORDER[k] := x])
  }

  function Repeat(x: nat, k: nat): (r: Lengths)
    ensures |r| == k
  {
    seq(k, _ => x)
  }

  /** Code lengths until total of them have been read; 16, 17 and 18 repeat. */
  function ReadLengths(clens: Lengths, total: nat, bits: Bits, acc: Lengths): (r: Parse<Lengths>)
    ensures r.Done? ==> |r.value| == total && |r.rest| <= |bits|
    decreases |bits|
  {
    if |acc| == total then Done(acc, bits)
    else if |acc| > total then Fail
    else
      var (sym, b1) :- ReadSymbol(clens, bits);
      if sym < 16 then ReadLengths(clens, total, b1, acc + [sym])
      else if sym == 16 then
        var (x, b2) :- ReadNumber(2, b1);
        if acc == [] then Fail
        else ReadLengths(clens, total, b2, acc + Repeat(acc[|acc| - 1], 3 + x))
      else if sym == 17 then
        var (x, b2) :- ReadNumber(3, b1);
        ReadLengths(clens, total, b2, acc + Repeat(0, 3 + x))
      else if sym == 18 then
        var (x, b2) :- ReadNumber(7, b1);
        ReadLengths(clens, total, b2, acc + Repeat(0, 11 + x))
      else Fail
  }

  /** The two tables at the head of a dynamic block. */
  function ReadTables(bits: Bits): (r: Parse<(Lengths, Lengths)>)
    ensures r.Done? ==> |r.rest| <= |bits|
  {
    var (hlit, b1) :- ReadNumber(5, bits);
    var (hdist, b2) :- ReadNumber(5, b1);
    var (hclen, b3) :- ReadNumber(4, b2);
    if hlit + 257 > 286 || hclen + 4 > 19 then Fail
    else
      var (clens, b4) :- ReadCodeLengthLengths(0, hclen + 4, b3, Repeat(0, 19));
      var (lens, b5) :- ReadLengths(clens, hlit + 257 + hdist + 1, b4, []);
      Done((lens[..hlit + 257], lens[hlit + 257..]), b5)
  }

  // ----- blocks (sections 3.2.3 and 3.2.4) -----

  function ReadBytes(n: nat, bits: Bits): (r: Parse<seq<Byte>>)
    ensures r.Done? ==> |r.rest| <= |bits|
  {
    if n == 0 then Done([], bits)
    else
      var (b, b1) :- ReadNumber(8, bits);
      if b >= 256 then Fail
      else
        var (bs, b2) :- ReadBytes(n - 1, b1);
        Done([b] + bs, b2)
  }

  /** A stored block: skip to the byte boundary, LEN, its complement, LEN bytes. */
  function ReadStored(bits: Bits, out: seq<Byte>): (r: Parse<seq<Byte>>)
    ensures r.Done? ==> |r.rest| <= |bits|
  {
    var b1 := bits[|bits| % 8..];
    var (len, b2) :- ReadNumber(16, b1);
    var (nlen, b3) :- ReadNumber(16, b2);
    if len + nlen != 0xffff then Fail
    else
      var (bytes, b4) :- ReadBytes(len, b3);
      Done(out + bytes, b4)
  }

  /** The contents of one block of the given type. */
  function ReadBlock(kind: nat, bits: Bits, out: seq<Byte>): (r: Parse<seq<Byte>>)
    ensures r.Done? ==> |r.rest| <= |bits|
  {
    if kind == 0 then ReadStored(bits, out)
    else if kind == 1 then ReadData(FixedLiterals(), FixedDistances(), bits, out)
    else if kind == 2 then
      var (tables, b1) :- ReadTables(bits);
      ReadData(tables.0, tables.1, b1, out)
    else Fail
  }

  /** Blocks up to and including the one marked final. */
  function ReadBlocks(bits: Bits, out: seq<Byte>): (r: Parse<seq<Byte>>)
    decreases |bits|
  {
    var (final, b1) :- ReadNumber(1, bits);
    var (kind, b2) :- ReadNumber(2, b1);
    var (out', b3) :- ReadBlock(kind, b2, out);
    if final == 1 then Done(out', b3) else ReadBlocks(b3, out')
  }

  /** The meaning of a compressed byte string. The last block must end in its last byte. */
  function Decompress(bytes: seq<Byte>): Option<seq<Byte>> {
    match ReadBlocks(BytesBits(bytes), [])
    case Done(out, rest) => if |rest| < 8 then Some(out) else None
    case Fail => None
  }

  // ----- reading back what is written -----

  lemma {:induction false} ReadBack(v: nat, n: nat, rest: Bits)
    requires v < Pow2(n)
    ensures ReadNumber(n, LsbBits(v, n) + rest) == Done(v, rest)
  {
    LsbValueOfBits(v, n);
    assert (LsbBits(v, n) + rest)[..n] == LsbBits(v, n);
    assert (LsbBits(v, n) + rest)[n..] == rest;
  }

  lemma {:induction false} ShrStep(v: nat, d: nat)
    ensures Shr(v, d + 1) == Shr(v, d) / 2
  {
    if d > 0 {
      ShrStep(v / 2, d - 1);
    }
  }

  /** Bit number k of an MSB-first number of n bits. */
  lemma {:induction false} MsbBitAt(v: nat, n: nat, k: nat)
    requires k < n
    ensures MsbBits(v, n)[k] == Bit(Shr(v, n - 1 - k))
  {
    if k < n - 1 {
      MsbBitAt(v / 2, n - 1, k);
    }
  }

  /** Having read the first k bits of the code of n, the only symbol that can
      match is n, and only when the code is complete. */
  lemma {:induction false} FindsOnly(lens: Lengths, n: nat, k: nat)
    requires n < |lens| && 0 < k <= lens[n]
    ensures FindSymbol(lens, k, Shr(Code(lens, n), lens[n] - k), 0) == if k == lens[n] then n else |lens|
  {
    var found := FindSymbol(lens, k, Shr(Code(lens, n), lens[n] - k), 0);
    if found < |lens| && found != n {
      PrefixFree(lens, found, n);
    }
  }

  /** Reading one more bit of an MSB-first number. */
  lemma {:induction false} NextMsbBit(v: nat, n: nat, k: nat)
    requires k < n
    ensures 2 * Shr(v, n - k) + BitVal(MsbBits(v, n)[k]) == Shr(v, n - (k + 1))
  {
    MsbBitAt(v, n, k);
    ShrStep(v, n - 1 - k);
  }

  lemma ReadCodeStep(lens: Lengths, bits: Bits, len: nat, v: nat)
    requires len < MAX_BITS && bits != []
    ensures var w := 2 * v + BitVal(bits[0]);
            var n := FindSymbol(lens, len + 1, w, 0);
            ReadCode(lens, bits, len, v)
            == if n < |lens| then Done(n, bits[1..]) else ReadCode(lens, bits[1..], len + 1, w)
  {
    hide FindSymbol;
  }

  lemma {:induction false} ReadCodeFrom(lens: Lengths, n: nat, k: nat, rest: Bits, v: nat, bits: Bits)
    requires n < |lens| && k < lens[n] <= MAX_BITS
    requires v == Shr(Code(lens, n), lens[n] - k)
    requires bits == CodeBits(lens, n)[k..] + rest
    ensures ReadCode(lens, bits, k, v) == Done(n, rest)
    decreases lens[n] - k
  {
    hide FindSymbol, FirstCode, Count, Shr, Code, ReadCode, MsbBits;
    var code := CodeBits(lens, n);
    NextMsbBit(Code(lens, n), lens[n], k);
    FindsOnly(lens, n, k + 1);
    assert bits[0] == code[k];
    var w := 2 * v + BitVal(bits[0]);
    assert bits[1..] == code[k + 1..] + rest;
    ReadCodeStep(lens, bits, k, v);
    if k + 1 < lens[n] {
      ReadCodeFrom(lens, n, k + 1, rest, w, bits[1..]);
    } else {
      assert bits[1..] == rest;
    }
  }

  /** The decoder undoes the canonical code. */
  lemma {:induction false} ReadSymbolBack(lens: Lengths, n: nat, rest: Bits)
    requires n < |lens| && Usable(lens) && lens[n] > 0
    ensures ReadSymbol(lens, CodeBits(lens, n) + rest) == Done(n, rest)
  {
    hide Code, CodeBits, Shr, Kraft, ReadCode;
    CodeFits(lens, MAX_BITS, n);
    ShrFits(Code(lens, n), lens[n], 0);
    assert CodeBits(lens, n)[0..] == CodeBits(lens, n);
    ReadCodeFrom(lens, n, 0, rest, 0, CodeBits(lens, n) + rest);
  }
}
