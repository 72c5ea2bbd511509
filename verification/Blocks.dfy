/** The three kinds of block, and that the decoder reads each back. */
module Blocks {
  import opened BitStrings
  import opened Canonical
  import opened Inflate
  import opened BitPacking
  import opened RunLengths
  import opened DynamicHeader
  import opened Tokens
  import opened Options

  const STORED_BLOCK: nat := 0
  const STATIC_TREES: nat := 1
  const DYN_TREES: nat := 2

  /** The three bits a block starts with. */
  ghost function BlockHead(kind: nat, eof: bool): (b: Bits)
    ensures |b| == 3
  {
    LsbBits(2 * kind + BitVal(eof), 3)
  }

  /** What the decoder makes of a block: after it, out has become more. */
  ghost function AfterBlock(eof: bool, rest: Bits, more: seq<Byte>): Parse<seq<Byte>> {
    if eof then Done(more, rest) else ReadBlocks(rest, more)
  }

  /** A block that starts pos bits into the stream and turns out into more. */
  ghost predicate Encodes(blk: Bits, pos: nat, eof: bool, out: seq<Byte>, more: seq<Byte>) {
    forall rest: Bits {:trigger ReadBlocks(blk + rest, out)} :: (pos + |blk| + |rest|) % 8 == 0 ==>
      ReadBlocks(blk + rest, out) == AfterBlock(eof, rest, more)
  }

  lemma ReadBlockHead(kind: nat, eof: bool, rest: Bits, out: seq<Byte>)
    requires kind <= 3
    ensures var r := ReadBlock(kind, rest, out);
            r.Done? ==> ReadBlocks(BlockHead(kind, eof) + rest, out) == AfterBlock(eof, r.rest, r.value)
  {
    hide ReadBlock, LsbBits;
    Pow2Values();
    HeadParts(kind, eof);
    assert BlockHead(kind, eof) + rest == LsbBits(BitVal(eof), 1) + (LsbBits(kind, 2) + rest);
    ReadBack(BitVal(eof), 1, LsbBits(kind, 2) + rest);
    ReadBack(kind, 2, rest);
  }

  lemma HeadParts(kind: nat, eof: bool)
    ensures BlockHead(kind, eof) == LsbBits(BitVal(eof), 1) + LsbBits(kind, 2)
  {
    var e := BitVal(eof);
    assert Shl(kind, 1) == 2 * kind by { assert Shl(kind, 0) == kind; }
    Pow2Values();
    LsbBitsAppend(e, 1, kind, 2);
  }

  // ----- compressed blocks -----

  ghost function StaticBits(c: Codes, tokens: seq<Token>, eof: bool): Bits
    requires AllCodable(c, FixedLiterals(), FixedDistances(), tokens)
  {
    BlockHead(STATIC_TREES, eof) + BlockBits(c, FixedLiterals(), FixedDistances(), tokens)
  }

  lemma FixedEnd()
    ensures FixedLiterals()[END_OF_BLOCK] > 0
  {
  }

  lemma StaticBlock(c: Codes, tokens: seq<Token>, eof: bool, pos: nat, out: seq<Byte>)
    requires AllCodable(c, FixedLiterals(), FixedDistances(), tokens) && Expands(tokens, out)
    requires Usable(FixedLiterals()) && Usable(FixedDistances())
    ensures Encodes(StaticBits(c, tokens, eof), pos, eof, out, Expand(tokens, out))
  {
    hide ReadBlocks, BlockHead, BlockBits, ReadData, AllCodable, Usable, FixedLiterals, FixedDistances, Expands, Expand;
    FixedEnd();
    var blk := StaticBits(c, tokens, eof);
    forall rest: Bits {:trigger ReadBlocks(blk + rest, out)} | (pos + |blk| + |rest|) % 8 == 0
      ensures ReadBlocks(blk + rest, out) == AfterBlock(eof, rest, Expand(tokens, out))
    {
      var data := BlockBits(c, FixedLiterals(), FixedDistances(), tokens) + rest;
      ReadTokensBack(c, FixedLiterals(), FixedDistances(), tokens, rest, out);
      ReadBlockHead(STATIC_TREES, eof, data, out);
      assert blk + rest == BlockHead(STATIC_TREES, eof) + data;
    }
  }

  ghost function DynamicBits(c: Codes, llens: Lengths, dlens: Lengths, clens: Lengths, blcodes: nat, tokens: seq<Token>,
                             eof: bool): Bits
    requires AllCodable(c, llens, dlens, tokens) && Describes(clens, blcodes, llens, dlens)
  {
    DescribesInRange(clens, blcodes, llens, dlens);
    BlockHead(DYN_TREES, eof) + HeaderBits(llens, dlens, clens, blcodes) + BlockBits(c, llens, dlens, tokens)
  }

  lemma DynamicBlock(c: Codes, llens: Lengths, dlens: Lengths, clens: Lengths, blcodes: nat, tokens: seq<Token>,
                     eof: bool, pos: nat, out: seq<Byte>)
    requires AllCodable(c, llens, dlens, tokens) && Expands(tokens, out) && Describes(clens, blcodes, llens, dlens)
    requires Usable(llens) && Usable(dlens) && llens[END_OF_BLOCK] > 0
    ensures Encodes(DynamicBits(c, llens, dlens, clens, blcodes, tokens, eof), pos, eof, out, Expand(tokens, out))
  {
    hide ReadBlocks, BlockHead, BlockBits, HeaderBits, ReadTables, ReadData, AllCodable, Usable, Bounded, Expands,
         Expand, Rle, InRange, Sendable, ZeroFrom;
    var blk := DynamicBits(c, llens, dlens, clens, blcodes, tokens, eof);
    DescribesInRange(clens, blcodes, llens, dlens);
    forall rest: Bits {:trigger ReadBlocks(blk + rest, out)} | (pos + |blk| + |rest|) % 8 == 0
      ensures ReadBlocks(blk + rest, out) == AfterBlock(eof, rest, Expand(tokens, out))
    {
      var data := BlockBits(c, llens, dlens, tokens) + rest;
      var tables := HeaderBits(llens, dlens, clens, blcodes) + data;
      ReadHeader(llens, dlens, clens, blcodes, data);
      ReadTokensBack(c, llens, dlens, tokens, rest, out);
      ReadBlockHead(DYN_TREES, eof, tables, out);
      assert blk + rest == BlockHead(DYN_TREES, eof) + tables;
    }
  }

  // ----- stored blocks -----

  lemma {:induction false} ReadBytesBack(data: seq<Byte>, rest: Bits)
    ensures ReadBytes(|data|, BytesBits(data) + rest) == Done(data, rest)
  {
    hide LsbBits;
    if data == [] {
      assert BytesBits(data) + rest == rest;
    } else {
      var more := BytesBits(data[1..]) + rest;
      assert BytesBits(data) + rest == LsbBits(data[0], 8) + more;
      Pow2Values();
      ReadBack(data[0], 8, more);
      ReadBytesBack(data[1..], rest);
      assert data == [data[0]] + data[1..];
    }
  }

  /** A stored block that starts pos bits into the stream. */
  ghost function StoredBlockBits(data: seq<Byte>, eof: bool, pos: nat): Bits
    requires |data| <= 0xffff
  {
    BlockHead(STORED_BLOCK, eof) + Zeros(Padding(pos + 3))
    + (LsbBits(|data|, 16) + LsbBits(0xffff - |data|, 16) + BytesBits(data))
  }

  lemma SkipPadding(pad: nat, b1: Bits)
    requires pad < 8 && |b1| % 8 == 0
    ensures |Zeros(pad) + b1| % 8 == pad && (Zeros(pad) + b1)[pad..] == b1
  {
  }

  lemma StoredParts(zeros: Bits, a: Bits, b: Bits, data: Bits, rest: Bits, n: nat)
    requires |a| == |b| == 16 && |data| == 8 * n && |rest| % 8 == 0
    ensures zeros + (a + b + data) + rest == zeros + (a + (b + (data + rest)))
    ensures |a + (b + (data + rest))| % 8 == 0
  {
  }

  lemma ReadStoredBody(n: nat, data: seq<Byte>, bits: Bits, b1: Bits, b2: Bits, b3: Bits, rest: Bits, out: seq<Byte>)
    requires b1 == bits[|bits| % 8..] && ReadNumber(16, b1) == Done(n, b2) && ReadNumber(16, b2) == Done(0xffff - n, b3)
    requires n <= 0xffff && ReadBytes(n, b3) == Done(data, rest)
    ensures ReadStored(bits, out) == Done(out + data, rest)
  {
    hide ReadBytes, ReadNumber;
  }

  lemma ReadStoredBack(data: seq<Byte>, pad: nat, rest: Bits, out: seq<Byte>)
    requires |data| <= 0xffff && pad < 8 && |rest| % 8 == 0
    ensures ReadStored(Zeros(pad) + (LsbBits(|data|, 16) + LsbBits(0xffff - |data|, 16) + BytesBits(data)) + rest, out)
         == Done(out + data, rest)
  {
    hide LsbBits, BytesBits, ReadBytes, ReadNumber, ReadStored, Zeros, Pow2;
    var n := |data|;
    var b3 := BytesBits(data) + rest;
    var b2 := LsbBits(0xffff - n, 16) + b3;
    var b1 := LsbBits(n, 16) + b2;
    var bits := Zeros(pad) + (LsbBits(n, 16) + LsbBits(0xffff - n, 16) + BytesBits(data)) + rest;
    StoredParts(Zeros(pad), LsbBits(n, 16), LsbBits(0xffff - n, 16), BytesBits(data), rest, n);
    SkipPadding(pad, b1);
    Pow2Values();
    ReadBack(n, 16, b2);
    ReadBack(0xffff - n, 16, b3);
    ReadBytesBack(data, rest);
    ReadStoredBody(n, data, bits, b1, b2, b3, rest, out);
  }

  lemma StoredBlock(data: seq<Byte>, eof: bool, pos: nat, out: seq<Byte>)
    requires |data| <= 0xffff
    ensures Encodes(StoredBlockBits(data, eof, pos), pos, eof, out, out + data)
  {
    hide ReadBlocks, BlockHead, LsbBits, BytesBits, Zeros, ReadStored;
    var blk := StoredBlockBits(data, eof, pos);
    var body := LsbBits(|data|, 16) + LsbBits(0xffff - |data|, 16) + BytesBits(data);
    var pad := Padding(pos + 3);
    forall rest: Bits {:trigger ReadBlocks(blk + rest, out)} | (pos + |blk| + |rest|) % 8 == 0
      ensures ReadBlocks(blk + rest, out) == AfterBlock(eof, rest, out + data)
    {
      assert |blk| == 3 + pad + 32 + 8 * |data|;
      ReadStoredBack(data, pad, rest, out);
      ReadBlockHead(STORED_BLOCK, eof, Zeros(pad) + body + rest, out);
      assert blk + rest == BlockHead(STORED_BLOCK, eof) + (Zeros(pad) + body + rest);
    }
  }

  // ----- a stream of blocks -----

  /** The bits sent so far, all blocks but the last, stand for out. */
  ghost predicate Means(bits: Bits, out: seq<Byte>) {
    forall rest: Bits {:trigger ReadBlocks(bits + rest, [])} :: (|bits| + |rest|) % 8 == 0 ==>
      ReadBlocks(bits + rest, []) == ReadBlocks(rest, out)
  }

  lemma NothingMeansNothing()
    ensures Means([], [])
  {
    forall rest: Bits {:trigger ReadBlocks([] + rest, [])} | true
      ensures ReadBlocks([] + rest, []) == ReadBlocks(rest, [])
    {
      assert [] + rest == rest;
    }
  }

  lemma MeansMore(bits: Bits, out: seq<Byte>, blk: Bits, more: seq<Byte>)
    requires Means(bits, out) && Encodes(blk, |bits|, false, out, more)
    ensures Means(bits + blk, more)
  {
    hide ReadBlocks;
    forall rest: Bits {:trigger ReadBlocks(bits + blk + rest, [])} | (|bits + blk| + |rest|) % 8 == 0
      ensures ReadBlocks(bits + blk + rest, []) == ReadBlocks(rest, more)
    {
      assert bits + blk + rest == bits + (blk + rest);
      assert ReadBlocks(bits + (blk + rest), []) == ReadBlocks(blk + rest, out);
    }
  }

  /** The whole stream, once its last block is padded to a byte. */
  lemma MeansAll(bits: Bits, out: seq<Byte>, blk: Bits, more: seq<Byte>, bytes: seq<Byte>)
    requires Means(bits, out) && Encodes(blk, |bits|, true, out, more)
    requires BytesBits(bytes) == bits + blk + Zeros(Padding(|bits + blk|))
    ensures Decompress(bytes) == Some(more)
  {
    hide ReadBlocks, BytesBits;
    var pad := Zeros(Padding(|bits + blk|));
    assert bits + blk + pad == bits + (blk + pad);
    assert ReadBlocks(bits + (blk + pad), []) == ReadBlocks(blk + pad, out);
  }
}
