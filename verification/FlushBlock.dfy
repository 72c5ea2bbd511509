/** flush_block: the best of a stored, a static and a dynamic block. */
module FlushBlock {
  import opened BitStrings
  import opened Canonical
  import opened Inflate
  import opened HeapQueue
  import opened Sums
  import opened GenBitlen
  import opened GenCodes
  import opened BitPacking
  import opened BuildTree
  import opened Huffman
  import opened Tallies
  import opened RunLengths
  import opened TreeHeader
  import opened DynamicHeader
  import opened Tokens
  import opened CodeTables
  import opened TokenBuffer
  import opened Blocks
  import opened BlockCost
  import opened BlockBound

  // ----- the trees are ready -----

  /** Both trees can send the tokens, and the bit length tree can send the trees. */
  ghost predicate DynReady(c: Codes, ltree: seq<CtData>, dtree: seq<CtData>, btree: seq<CtData>, lMax: nat, dMax: nat,
                           blMax: nat, tokens: seq<Token>)
  {
    && 256 <= lMax < L_CODES && lMax + 1 < |ltree| && dMax < D_CODES && dMax + 1 < |dtree| && BL_CODES <= |btree|
    && 3 <= blMax < BL_CODES
    && var ll, dl, clens := LensOf(ltree, lMax + 1), LensOf(dtree, dMax + 1), LensOf(btree, BL_CODES);
    && ltree[lMax + 1].dl == GUARD && dtree[dMax + 1].dl == GUARD
    && Describes(clens, blMax + 1, ll, dl) && Coded(btree, clens)
    && Usable(ll) && Usable(dl) && Bounded(ll, MAX_BITS) && Bounded(dl, MAX_BITS) && ll[END_OF_BLOCK] > 0
    && TreeCodes(ltree, ll, L_CODES) && TreeCodes(dtree, dl, D_CODES)
    && AllCodable(c, ll, dl, tokens)
  }

  /** The code lengths in a built literal tree, and in a built distance tree. */
  ghost predicate BothBuilt(lt: seq<CtData>, dt: seq<CtData>, lMax: nat, dMax: nat, lf: seq<nat>, df: seq<nat>) {
    && IsCode(lt, L_CODES, MAX_BITS, lMax, lf) && IsCode(dt, D_CODES, MAX_BITS, dMax, df)
  }

  lemma EndIsCoded(c: Codes, lf: seq<nat>, df: seq<nat>, tokens: seq<Token>)
    requires Frequencies(c, lf, df, tokens)
    ensures |lf| == L_CODES && |df| == D_CODES && lf[END_OF_BLOCK] > 0
    ensures forall i :: 0 <= i < |LitSyms(c, tokens)| ==> lf[LitSyms(c, tokens)[i]] > 0
    ensures forall i :: 0 <= i < |DistSyms(c, tokens)| ==> df[DistSyms(c, tokens)[i]] > 0
  {
    hide CodesOk, LitSyms, DistSyms, Tally;
    TallyCounts(Zeroes(L_CODES)[END_OF_BLOCK := 1], LitSyms(c, tokens));
    TallyCounts(Zeroes(D_CODES), DistSyms(c, tokens));
  }

  lemma {:induction false} SymsOf(c: Codes, tokens: seq<Token>, i: nat)
    requires CodesOk(c) && AllValid(tokens) && i < |tokens|
    ensures tokens[i].Valid() && LitSyms(c, tokens)[i] == LitSym(c, tokens[i])
    ensures tokens[i].Match? ==> DistSym(c, tokens[i]) in DistSyms(c, tokens)
  {
    hide CodesOk, LitSym, DistSym;
    TableSizes(c);
    var k := |tokens| - 1;
    if i < k {
      SymsOf(c, tokens[..k], i);
    } else {
      assert tokens[i].Valid();
      var t := tokens[i];
      if t.Match? {
        assert DistSyms(c, tokens)[|DistSyms(c, tokens[..k])|] == DistSym(c, t);
      }
    }
  }

  /** Every token has a code when every symbol that occurs has one. */
  lemma TokensCodable(c: Codes, lf: seq<nat>, df: seq<nat>, tokens: seq<Token>, ll: Lengths, dl: Lengths)
    requires Frequencies(c, lf, df, tokens) && |ll| >= 257 && |lf| == L_CODES && |df| == D_CODES
    requires forall x :: 0 <= x < L_CODES && lf[x] > 0 ==> x < |ll| && ll[x] > 0
    requires forall x :: 0 <= x < D_CODES && df[x] > 0 ==> x < |dl| && dl[x] > 0
    ensures AllCodable(c, ll, dl, tokens)
  {
    hide CodesOk, LitSym, DistSym, LitSyms, DistSyms, Tally;
    EndIsCoded(c, lf, df, tokens);
    TableSizes(c);
    forall i {:trigger tokens[i]} | 0 <= i < |tokens|
      ensures Codable(c, ll, dl, tokens[i])
    {
      SymsOf(c, tokens, i);
    }
  }

  lemma StaticCodable(c: Codes, lf: seq<nat>, df: seq<nat>, tokens: seq<Token>)
    requires Frequencies(c, lf, df, tokens)
    ensures AllCodable(c, FixedLiterals(), FixedDistances(), tokens)
  {
    hide CodesOk, Tally;
    EndIsCoded(c, lf, df, tokens);
    TokensCodable(c, lf, df, tokens, FixedLiterals(), FixedDistances());
  }

  lemma DynamicReady(c: Codes, lt: seq<CtData>, dt: seq<CtData>, ltree: seq<CtData>, dtree: seq<CtData>,
                     btree: seq<CtData>, lMax: nat, dMax: nat, blMax: nat, lf: seq<nat>, df: seq<nat>,
                     tokens: seq<Token>)
    requires BothBuilt(lt, dt, lMax, dMax, lf, df) && Frequencies(c, lf, df, tokens)
    requires 256 <= lMax && |lt| == HEAP_SIZE && |dt| == 2 * D_CODES + 1 && BL_CODES <= |btree| && 3 <= blMax < BL_CODES
    requires ltree == lt[lMax + 1 := lt[lMax + 1].(dl := GUARD)] && dtree == dt[dMax + 1 := dt[dMax + 1].(dl := GUARD)]
    requires Describes(LensOf(btree, BL_CODES), blMax + 1, LensOf(lt, lMax + 1), LensOf(dt, dMax + 1))
    requires Coded(btree, LensOf(btree, BL_CODES))
    ensures DynReady(c, ltree, dtree, btree, lMax, dMax, blMax, tokens)
    ensures LensOf(ltree, lMax + 1) == LensOf(lt, lMax + 1) && LensOf(dtree, dMax + 1) == LensOf(dt, dMax + 1)
    ensures Within(LensOf(lt, lMax + 1), LensOf(lt, L_CODES)) && Within(LensOf(dt, dMax + 1), LensOf(dt, D_CODES))
  {
    hide CodesOk, Tally, LitSyms, DistSyms, Describes, Coded, Usable, Bounded, TreeCodes, LensOf, Within, IsCode,
         Frequencies;
    EndIsCoded(c, lf, df, tokens);
    IsCodeFacts(lt, L_CODES, MAX_BITS, lMax, lf);
    IsCodeFacts(dt, D_CODES, MAX_BITS, dMax, df);
    TrimmedTree(lt, L_CODES, lMax, lf, ltree);
    TrimmedTree(dt, D_CODES, dMax, df, dtree);
    TokensCodable(c, lf, df, tokens, LensOf(lt, lMax + 1), LensOf(dt, dMax + 1));
  }

  // ----- flush_block -----

  /** The dynamic block under the trees as they are. */
  ghost function DynBits(c: Codes, ltree: seq<CtData>, dtree: seq<CtData>, btree: seq<CtData>, lMax: nat, dMax: nat,
                         blMax: nat, tokens: seq<Token>, eof: bool): Bits
    requires DynReady(c, ltree, dtree, btree, lMax, dMax, blMax, tokens)
  {
    DynamicBits(c, LensOf(ltree, lMax + 1), LensOf(dtree, dMax + 1), LensOf(btree, BL_CODES), blMax + 1, tokens, eof)
  }

  /** The sizes build_tree and build_bl_tree add up are those of the two blocks that could be sent. */
  ghost predicate SizesKnown(c: Codes, ltree: seq<CtData>, dtree: seq<CtData>, btree: seq<CtData>, lMax: nat, dMax: nat,
                             blMax: nat, tokens: seq<Token>, optLen: int, staticLen: int)
    requires DynReady(c, ltree, dtree, btree, lMax, dMax, blMax, tokens)
  {
    && AllCodable(c, FixedLiterals(), FixedDistances(), tokens)
    && optLen + 3 == |DynBits(c, ltree, dtree, btree, lMax, dMax, blMax, tokens, false)|
    && staticLen + 3 == |StaticBits(c, tokens, false)|
  }

  lemma DynamicSize(c: Codes, lt: seq<CtData>, dt: seq<CtData>, ltree: seq<CtData>, dtree: seq<CtData>,
                    btree: seq<CtData>, lMax: nat, dMax: nat, blMax: nat, lf: seq<nat>, df: seq<nat>,
                    tokens: seq<Token>)
    requires DynReady(c, ltree, dtree, btree, lMax, dMax, blMax, tokens) && Frequencies(c, lf, df, tokens)
    requires L_CODES <= |lt| && D_CODES <= |dt| && lMax + 1 <= |lt| && dMax + 1 <= |dt|
    requires LensOf(ltree, lMax + 1) == LensOf(lt, lMax + 1) && LensOf(dtree, dMax + 1) == LensOf(dt, dMax + 1)
    requires Within(LensOf(lt, lMax + 1), LensOf(lt, L_CODES)) && Within(LensOf(dt, dMax + 1), LensOf(dt, D_CODES))
    ensures |lf| == L_CODES && |df| == D_CODES
    ensures var ll, dl, clens := LensOf(ltree, lMax + 1), LensOf(dtree, dMax + 1), LensOf(btree, BL_CODES);
            && Describes(clens, blMax + 1, ll, dl) && AllCodable(c, ll, dl, tokens)
            && InRange(Rle(ll, 0, -1), BL_CODES) && InRange(Rle(dl, 0, -1), BL_CODES)
            && |DynamicBits(c, ll, dl, clens, blMax + 1, tokens, false)|
               == 3 + HeaderLength(ll, dl, clens, blMax + 1)
                  + Dot(lf, WithExtra(LensOf(lt, L_CODES), LDesc())) + Dot(df, WithExtra(LensOf(dt, D_CODES), DDesc()))
  {
    hide Describes, AllCodable, BlockBits, HeaderBits, BlockHead, HeaderLength, Rle, InRange, Dot, WithExtra, LensOf,
         Within, Frequencies, Usable, Bounded, Coded, TreeCodes, DynamicBits;
    var ll, dl, clens := LensOf(ltree, lMax + 1), LensOf(dtree, dMax + 1), LensOf(btree, BL_CODES);
    DynamicParts(c, ll, dl, clens, blMax + 1, tokens);
    BlockSize(c, ll, dl, LensOf(lt, L_CODES), LensOf(dt, D_CODES), lf, df, tokens);
  }

  lemma DynamicParts(c: Codes, ll: Lengths, dl: Lengths, clens: Lengths, blcodes: nat, tokens: seq<Token>)
    requires AllCodable(c, ll, dl, tokens) && Describes(clens, blcodes, ll, dl)
    ensures InRange(Rle(ll, 0, -1), BL_CODES) && InRange(Rle(dl, 0, -1), BL_CODES) && |clens| == BL_CODES
            && |ll| > END_OF_BLOCK
    ensures |DynamicBits(c, ll, dl, clens, blcodes, tokens, false)|
         == 3 + HeaderLength(ll, dl, clens, blcodes) + |BlockBits(c, ll, dl, tokens)|
  {
    hide Describes, AllCodable, BlockBits, HeaderBits, BlockHead, HeaderLength, Rle, InRange;
    DescribesInRange(clens, blcodes, ll, dl);
    DescribedSizes(clens, blcodes, ll, dl);
    HeaderSize(ll, dl, clens, blcodes);
  }

  lemma DescribedSizes(clens: Lengths, blcodes: nat, llens: Lengths, dlens: Lengths)
    requires Describes(clens, blcodes, llens, dlens)
    ensures 257 <= |llens| <= 286 && 1 <= |dlens| <= 30 && 4 <= blcodes <= BL_CODES && |clens| == BL_CODES
  {
  }

  lemma StaticSize(c: Codes, lf: seq<nat>, df: seq<nat>, tokens: seq<Token>)
    requires Frequencies(c, lf, df, tokens)
    ensures AllCodable(c, FixedLiterals(), FixedDistances(), tokens)
    ensures |StaticLengths(FixedLiterals()[..L_CODES], LDesc())| == |lf| == L_CODES
    ensures |StaticLengths(FixedDistances()[..D_CODES], DDesc())| == |df| == D_CODES
    ensures |StaticBits(c, tokens, false)|
         == 3 + Dot(lf, StaticLengths(FixedLiterals()[..L_CODES], LDesc()))
              + Dot(df, StaticLengths(FixedDistances()[..D_CODES], DDesc()))
  {
    hide AllCodable, BlockBits, BlockHead, Dot, Frequencies;
    StaticCodable(c, lf, df, tokens);
    DescsValid();
    var l, d := FixedLiterals()[..L_CODES], FixedDistances()[..D_CODES];
    assert StaticLengths(l, LDesc()) == WithExtra(l, LDesc());
    assert StaticLengths(d, DDesc()) == WithExtra(d, DDesc());
    BlockSize(c, FixedLiterals(), FixedDistances(), l, d, lf, df, tokens);
  }

  /** TTreeState and TBitState together. */
  class BlockSender {
    const b: TreeBuilder
    const buf: TokenBuffer
    const w: BitWriter
    const blTree: array<CtData>
    var cmprBytelen: nat
    var cmprLenBits: nat

    ghost predicate Apart() {
      && b.Valid() && buf.Shape() && blTree.Length == 2 * BL_CODES + 1
      && blTree != buf.dynLtree && blTree != buf.dynDtree
      && blTree != buf.tables.staticLtree && blTree != buf.tables.staticDtree
      && buf.dBuf != b.heap && buf.dBuf != b.depth && buf.dBuf != b.blCount
      && w.outBuf != buf.lBuf && w.outBuf != buf.flagBuf
    }

    ghost function Repr(): set<object> {
      {this, b, b.heap, b.depth, b.blCount, buf, buf.lBuf, buf.dBuf, buf.flagBuf, buf.dynLtree, buf.dynDtree,
       w, w.outBuf, blTree}
    }

    /** Between blocks. */
    ghost predicate Valid()
      reads Repr(), buf.tables.staticLtree, buf.tables.staticDtree
    {
      && Apart() && buf.Valid() && w.Valid() && Freqs(blTree[..], BL_CODES) == Zeroes(BL_CODES)
      && b.optLen == 0 && b.staticLen == 0
      && 8 * cmprBytelen + cmprLenBits == w.bitsSent && cmprLenBits < 8
    }

    /** bi_init and ct_init */
    constructor (size: nat)
      requires size >= 2
      ensures Valid() && fresh(Repr()) && fresh(buf.tables) && fresh(buf.tables.staticLtree)
              && fresh(buf.tables.staticDtree)
      ensures w.bits == [] && buf.tokens == [] && w.written == []
    {
      hide Tables.Valid, BitWriter.Valid, Held, Flagged, Frequencies;
      var builder := new TreeBuilder();
      var tables := new Tables(builder.blCount);
      var tokens := new TokenBuffer(tables);
      var writer := new BitWriter(size);
      var lengths := new CtData[2 * BL_CODES + 1];
      b, buf, w, blTree := builder, tokens, writer, lengths;
      cmprBytelen, cmprLenBits := 0, 0;
      new;
      ClearFreqs(blTree, BL_CODES);
    }

    /** The static tree's first 286 lengths, as build_tree sees them. */
    lemma StaticTrees()
      requires buf.tables.Valid()
      ensures |FixedLiterals()[..L_CODES]| == L_CODES && |FixedDistances()[..D_CODES]| == D_CODES
      ensures Static(buf.tables.staticLtree, L_CODES, FixedLiterals()[..L_CODES])
      ensures Static(buf.tables.staticDtree, D_CODES, FixedDistances()[..D_CODES])
    {
      hide TreeCodes, CodesOk;
      var lt := buf.tables.staticLtree;
      forall x | 0 <= x < L_CODES
        ensures FixedLiterals()[..L_CODES][x] == lt[x].dl
      {
        assert LensOf(lt[..], STATIC_CODES)[x] == lt[x].dl;
      }
    }

    /** Both calls of build_tree. */
    method BuildBoth(ghost c: Codes, ghost lf: seq<nat>, ghost df: seq<nat>) returns (lMax: nat, dMax: nat)
      requires Apart() && buf.tables.Valid() && Frequencies(c, lf, df, buf.tokens) && |buf.tokens| < LIT_BUFSIZE
      requires lf == Freqs(buf.dynLtree[..], L_CODES) && df == Freqs(buf.dynDtree[..], D_CODES)
      modifies b, b.heap, b.depth, b.blCount, buf.dynLtree, buf.dynDtree
      ensures BothBuilt(buf.dynLtree[..], buf.dynDtree[..], lMax, dMax, lf, df)
      ensures |lf| == L_CODES && |df| == D_CODES
      ensures b.optLen == old(b.optLen) + Dot(lf, WithExtra(LensOf(buf.dynLtree[..], L_CODES), LDesc()))
                                        + Dot(df, WithExtra(LensOf(buf.dynDtree[..], D_CODES), DDesc()))
      ensures |StaticLengths(FixedLiterals()[..L_CODES], LDesc())| == L_CODES
      ensures |StaticLengths(FixedDistances()[..D_CODES], DDesc())| == D_CODES
      ensures b.staticLen == old(b.staticLen) + Dot(lf, StaticLengths(FixedLiterals()[..L_CODES], LDesc()))
                                              + Dot(df, StaticLengths(FixedDistances()[..D_CODES], DDesc()))
    {
      hide Frequencies, Dot, Sum, WithExtra, StaticLengths, IsCode, Fair, Cheapest, LensOf, Freqs, Tables.Valid,
           FixedLiterals, FixedDistances, TreeDesc.Valid, ForcedFreqs;
      FrequencySums(c, lf, df, buf.tokens);
      DescsValid();
      StaticTrees();
      ghost var leafs, best;
      lMax, leafs, best := Build(b, buf.dynLtree, buf.tables.staticLtree, LDesc(), FixedLiterals()[..L_CODES]);
      StaticTrees();
      dMax, leafs, best := Build(b, buf.dynDtree, buf.tables.staticDtree, DDesc(), FixedDistances()[..D_CODES]);
    }

    /** The first half of flush_block: all three trees. */
    method BuildTrees() returns (lMax: nat, dMax: nat, blMax: nat)
      requires Valid()
      modifies b, b.heap, b.depth, b.blCount, buf.dynLtree, buf.dynDtree, blTree
      ensures DynReady(buf.tables.Map(), buf.dynLtree[..], buf.dynDtree[..], blTree[..], lMax, dMax, blMax, buf.tokens)
      ensures SizesKnown(buf.tables.Map(), buf.dynLtree[..], buf.dynDtree[..], blTree[..], lMax, dMax, blMax,
                         buf.tokens,
                         b.optLen, b.staticLen)
    {
      hide Frequencies, Dot, Sum, WithExtra, StaticLengths, IsCode, LensOf, Freqs, Tables.Valid, FixedLiterals,
           FixedDistances, DynReady, StaticBits, DynamicBits, AllCodable, Describes, InRange, HeaderLength, Within,
           Coded, Bounded, BitWriter.Valid, TokenBuffer.Holds, Rle, Usable, TreeCodes;
      ghost var c, tokens := buf.tables.Map(), buf.tokens;
      ghost var lf, df := Freqs(buf.dynLtree[..], L_CODES), Freqs(buf.dynDtree[..], D_CODES);
      TokensFit();
      lMax, dMax := BuildBoth(c, lf, df);
      ghost var lt, dt := buf.dynLtree[..], buf.dynDtree[..];
      EndIsCoded(c, lf, df, tokens);
      IsCodeFacts(lt, L_CODES, MAX_BITS, lMax, lf);
      IsCodeFacts(dt, D_CODES, MAX_BITS, dMax, df);
      TrimmedTree(lt, L_CODES, lMax, lf, lt);
      TrimmedTree(dt, D_CODES, dMax, df, dt);
      blMax := BuildBlTree(b, buf.dynLtree, buf.dynDtree, blTree, lMax, dMax);
      DynamicReady(c, lt, dt, buf.dynLtree[..], buf.dynDtree[..], blTree[..], lMax, dMax, blMax, lf, df, tokens);
      DynamicSize(c, lt, dt, buf.dynLtree[..], buf.dynDtree[..], blTree[..], lMax, dMax, blMax, lf, df, tokens);
      StaticSize(c, lf, df, tokens);
    }

    lemma TokensFit()
      requires buf.Valid()
      ensures |buf.tokens| < LIT_BUFSIZE
    {
    }

    /** What the tokens of the block stand for, after out. */
    ghost predicate Describing(out: seq<Byte>, data: seq<Byte>)
      reads buf
    {
      Expands(buf.tokens, out) && Expand(buf.tokens, out) == out + data
    }

    method SendStored(window: array<Byte>, start: nat, storedLen: nat, eof: bool)
      requires Apart() && w.Valid() && start + storedLen <= window.Length && storedLen <= 0xffff && window != w.outBuf
      requires 8 * cmprBytelen + cmprLenBits == w.bitsSent
      modifies this`cmprBytelen, this`cmprLenBits, w, w.outBuf
      ensures w.Valid() && cmprLenBits == 0 && 8 * cmprBytelen == w.bitsSent
      ensures w.bits == old(w.bits) + StoredBlockBits(window[start..start + storedLen], eof, |old(w.bits)|)
    {
      hide LsbBits, BytesBits, Stream, Zeros, BitWriter.Valid;
      ghost var b0, data := w.bits, window[start..start + storedLen];
      AllCounted(w);
      HeadFits(STORED_BLOCK, eof);
      w.SendBits(2 * STORED_BLOCK + BitVal(eof), 3);
      cmprBytelen := cmprBytelen + (cmprLenBits + 3 + 7) / 8 + storedLen + 4;
      cmprLenBits := 0;
      w.CopyBlock(window, start, storedLen);
      assert |b0 + BlockHead(STORED_BLOCK, eof)| == |b0| + 3;
      assert w.bits == b0 + StoredBlockBits(data, eof, |b0|);
      AllCounted(w);
      StoredSize(|b0|, old(cmprBytelen), old(cmprLenBits), storedLen);
    }

    method SendStatic(eof: bool)
      requires Apart() && w.Valid() && buf.tables.Valid() && buf.Holds() && Saved(buf.flagBuf[..], buf.tokens)
      requires AllCodable(buf.tables.Map(), FixedLiterals(), FixedDistances(), buf.tokens)
      requires b.staticLen >= 0 && b.staticLen + 3 == |StaticBits(buf.tables.Map(), buf.tokens, eof)|
      requires 8 * cmprBytelen + cmprLenBits == w.bitsSent
      modifies this`cmprBytelen, this`cmprLenBits, w, w.outBuf
      ensures w.Valid() && cmprLenBits < 8 && 8 * cmprBytelen + cmprLenBits == w.bitsSent
      ensures w.bits == old(w.bits) + StaticBits(buf.tables.Map(), buf.tokens, eof)
    {
      hide LsbBits, BytesBits, Stream, BlockBits, Held, Flagged, Saved, Tables.Valid, AllCodable, FixedLiterals,
           FixedDistances, TreeCodes, Bounded;
      ghost var b0, c := w.bits, buf.tables.Map();
      HeadFits(STATIC_TREES, eof);
      StaticTreesReady(buf.tables);
      w.SendBits(2 * STATIC_TREES + BitVal(eof), 3);
      buf.CompressBlock(w, buf.tables.staticLtree, buf.tables.staticDtree, FixedLiterals(), FixedDistances());
      assert w.bits == b0 + StaticBits(c, buf.tokens, eof);
      cmprLenBits := cmprLenBits + 3 + b.staticLen;
      cmprBytelen := cmprBytelen + cmprLenBits / 8;
      cmprLenBits := cmprLenBits % 8;
    }

    method SendDynamic(lMax: nat, dMax: nat, blMax: nat, eof: bool)
      requires Apart() && w.Valid() && buf.tables.Valid() && buf.Holds() && Saved(buf.flagBuf[..], buf.tokens)
      requires DynReady(buf.tables.Map(), buf.dynLtree[..], buf.dynDtree[..], blTree[..], lMax, dMax, blMax, buf.tokens)
      requires b.optLen >= 0
               && b.optLen + 3 == |DynBits(buf.tables.Map(), buf.dynLtree[..], buf.dynDtree[..], blTree[..],
                                           lMax, dMax, blMax, buf.tokens, eof)|
      requires 8 * cmprBytelen + cmprLenBits == w.bitsSent
      modifies this`cmprBytelen, this`cmprLenBits, w, w.outBuf
      ensures w.Valid() && cmprLenBits < 8 && 8 * cmprBytelen + cmprLenBits == w.bitsSent
      ensures w.bits == old(w.bits) + DynBits(buf.tables.Map(), buf.dynLtree[..], buf.dynDtree[..], blTree[..],
                                              lMax, dMax, blMax, buf.tokens, eof)
    {
      hide LsbBits, BytesBits, Stream, BlockBits, Held, Flagged, Saved, Tables.Valid, AllCodable, TreeCodes, Bounded,
           Usable, Coded, LensOf, Describes, HeaderBits, Rle, InRange;
      ghost var b0, c := w.bits, buf.tables.Map();
      ghost var ll, dl, clens := LensOf(buf.dynLtree[..], lMax + 1), LensOf(buf.dynDtree[..], dMax + 1),
          LensOf(blTree[..], BL_CODES);
      HeadFits(DYN_TREES, eof);
      w.SendBits(2 * DYN_TREES + BitVal(eof), 3);
      SendAllTrees(w, buf.dynLtree, buf.dynDtree, blTree, lMax + 1, dMax + 1, blMax + 1);
      buf.CompressBlock(w, buf.dynLtree, buf.dynDtree, ll, dl);
      assert w.bits == b0 + DynamicBits(c, ll, dl, clens, blMax + 1, buf.tokens, eof);
      cmprLenBits := cmprLenBits + 3 + b.optLen;
      cmprBytelen := cmprBytelen + cmprLenBits / 8;
      cmprLenBits := cmprLenBits % 8;
    }

    /** init_block */
    method InitBlock()
      requires Apart() && buf.tables.Valid()
      modifies b, buf, buf.dynLtree, buf.dynDtree, blTree
      ensures buf.Valid() && buf.tokens == [] && Freqs(blTree[..], BL_CODES) == Zeroes(BL_CODES)
      ensures b.optLen == 0 && b.staticLen == 0
    {
      hide Tables.Valid, Held, Flagged, Frequencies, Freqs;
      buf.Reset();
      ClearFreqs(blTree, BL_CODES);
      b.optLen, b.staticLen := 0, 0;
    }

    /** The choice flush_block makes, and the block it sends. */
    method SendBest(window: array<Byte>, start: int, storedLen: nat, eof: bool, ghost out: seq<Byte>,
                    ghost data: seq<Byte>)
      returns (ghost blk: Bits)
      requires Valid() && Describing(out, data) && |data| == storedLen && window != w.outBuf
               && Saved(buf.flagBuf[..], buf.tokens)
      requires start >= 0 ==>
                 start + storedLen <= window.Length && storedLen <= 0xffff && window[start..start + storedLen] == data
      modifies this, b, b.heap, b.depth, b.blCount, buf.dynLtree, buf.dynDtree, blTree, w, w.outBuf
      ensures w.Valid() && cmprLenBits < 8 && 8 * cmprBytelen + cmprLenBits == w.bitsSent
      ensures w.bits == old(w.bits) + blk && Encodes(blk, |old(w.bits)|, eof, out, out + data)
      ensures |blk| <= MostBits(|data|)
    {
      hide DynReady, SizesKnown, AllCodable, Held, Flagged, Saved, Frequencies, Tables.Valid, BitWriter.Valid, Encodes,
           StaticBits, DynBits, StoredBlockBits, LensOf, Freqs, Expands, Expand, FixedLiterals, FixedDistances, Usable,
           Bounded, TreeCodes, Describes;
      ghost var b0, c, tokens := w.bits, buf.tables.Map(), buf.tokens;
      var lMax, dMax, blMax := BuildTrees();
      ghost var lt, dt, bt := buf.dynLtree[..], buf.dynDtree[..], blTree[..];
      StaticTreesReady(buf.tables);
      Sizes(c, lt, dt, bt, lMax, dMax, blMax, tokens, b.optLen, b.staticLen, eof, |b0|, out);
      var optLenb := (b.optLen + 3 + 7) / 8;
      var staticLenb := (b.staticLen + 3 + 7) / 8;
      StaticBound(c, tokens, eof, out, data);
      if staticLenb <= optLenb {
        optLenb := staticLenb;
      }
      if storedLen + 4 <= optLenb && start >= 0 {
        SendStored(window, start, storedLen, eof);
        blk := StoredBlockBits(data, eof, |b0|);
        StoredBlock(data, eof, |b0|, out);
        StoredLength(data, eof, |b0|);
      } else if staticLenb == optLenb {
        SendStatic(eof);
        blk := StaticBits(c, tokens, eof);
      } else {
        SendDynamic(lMax, dMax, blMax, eof);
        blk := DynBits(c, lt, dt, bt, lMax, dMax, blMax, tokens, eof);
      }
    }

    /** The end of flush_block: everything starts afresh, and the last block is filled up to a whole byte. */
    method EndBlock(eof: bool) returns (total: nat)
      requires Apart() && buf.tables.Valid() && w.Valid()
      requires cmprLenBits < 8 && 8 * cmprBytelen + cmprLenBits == w.bitsSent
      modifies this`cmprLenBits, b, buf, buf.dynLtree, buf.dynDtree, blTree, w, w.outBuf
      ensures buf.tokens == []
      ensures !eof ==> Valid() && w.bits == old(w.bits)
      ensures eof ==> w.bits == old(w.bits) + Zeros(Padding(|old(w.bits)|)) && BytesBits(w.written) == w.bits
      ensures eof ==> total == |w.written|
    {
      hide Held, Frequencies, Tables.Valid, BytesBits, Freqs, Zeros, Stream, Flagged;
      InitBlock();
      if eof {
        w.Windup();
        cmprLenBits := cmprLenBits + 7;
      }
      total := cmprBytelen + cmprLenBits / 8;
    }

    /** flush_block: sends the block whose tokens stand for data after out, of which the window
        still holds all when start is not negative. Returns the compressed length so far. */
    method FlushBlock(window: array<Byte>, start: int, storedLen: nat, eof: bool, ghost out: seq<Byte>,
                      ghost data: seq<Byte>)
      returns (total: nat, ghost blk: Bits)
      requires Valid() && Describing(out, data) && |data| == storedLen && window != w.outBuf && window != buf.flagBuf
      requires start >= 0 ==>
                 start + storedLen <= window.Length && storedLen <= 0xffff && window[start..start + storedLen] == data
      modifies Repr()
      ensures Encodes(blk, |old(w.bits)|, eof, out, out + data) && |blk| <= MostBits(|data|)
      ensures buf.tokens == []
      ensures !eof ==> Valid() && w.bits == old(w.bits) + blk
      ensures eof ==>
                w.bits == old(w.bits) + blk + Zeros(Padding(|old(w.bits) + blk|)) && BytesBits(w.written) == w.bits
      ensures eof ==> total == |w.written|
    {
      hide Held, Frequencies, Tables.Valid, Encodes, BytesBits, Freqs, Expands, Expand, Zeros, Stream, Flagged, Saved,
           Describing, BitWriter.Valid;
      SavedNow(buf.flagBuf[..], buf.lastFlags, buf.flags, buf.flagBit, buf.tokens, buf.lastLit,
               buf.lBuf[..], buf.dBuf[..], buf.lastDist);
      buf.flagBuf[buf.lastFlags] := buf.flags;
      blk := SendBest(window, start, storedLen, eof, out, data);
      // "bad compressed size"
      assert 8 * cmprBytelen + cmprLenBits == w.bitsSent;
      total := EndBlock(eof);
    }
  }

  lemma SavedNow(fb: seq<Byte>, lastFlags: nat, flags: Byte, flagBit: nat, tokens: seq<Token>, lastLit: nat,
                 lb: seq<Byte>, db: seq<nat>, lastDist: nat)
    requires Flagged(fb, lastFlags, flags, flagBit, tokens) && Held(lb, db, lastLit, lastDist, tokens)
    requires |fb| == LIT_BUFSIZE / 8 && lastLit < LIT_BUFSIZE
    ensures lastFlags < |fb| && Saved(fb[lastFlags := flags], tokens)
    ensures Flagged(fb[lastFlags := flags], lastFlags, flags, flagBit, tokens)
  {
    SaveFlags(fb, lastFlags, flags, flagBit, tokens);
    assert fb[lastFlags := flags][..lastFlags] == fb[..lastFlags];
  }

  /** Both compressed forms of the block: their sizes, and that they decode to the tokens' meaning. */
  /** Both blocks that could be sent mean the data, and their sizes are known, whether this is the last one or not. */
  lemma Sizes(c: Codes, ltree: seq<CtData>, dtree: seq<CtData>, btree: seq<CtData>, lMax: nat, dMax: nat, blMax: nat,
              tokens: seq<Token>, optLen: int, staticLen: int, eof: bool, pos: nat, out: seq<Byte>)
    requires DynReady(c, ltree, dtree, btree, lMax, dMax, blMax, tokens) && Expands(tokens, out)
    requires SizesKnown(c, ltree, dtree, btree, lMax, dMax, blMax, tokens, optLen, staticLen)
    requires Usable(FixedLiterals()) && Usable(FixedDistances())
    ensures AllCodable(c, FixedLiterals(), FixedDistances(), tokens)
    ensures staticLen >= 0 && staticLen + 3 == |StaticBits(c, tokens, eof)|
    ensures optLen >= 0 && optLen + 3 == |DynBits(c, ltree, dtree, btree, lMax, dMax, blMax, tokens, eof)|
    ensures Encodes(StaticBits(c, tokens, eof), pos, eof, out, Expand(tokens, out))
    ensures Encodes(DynBits(c, ltree, dtree, btree, lMax, dMax, blMax, tokens, eof), pos, eof, out, Expand(tokens, out))
  {
    hide AllCodable, Usable, Bounded, Coded, TreeCodes, LensOf, Describes, Encodes, Expands, Expand, BlockBits,
         HeaderBits, BlockHead, Rle, FixedLiterals, FixedDistances;
    var ll, dl, clens := LensOf(ltree, lMax + 1), LensOf(dtree, dMax + 1), LensOf(btree, BL_CODES);
    DescribesInRange(clens, blMax + 1, ll, dl);
    StaticBlock(c, tokens, eof, pos, out);
    DynamicBlock(c, ll, dl, clens, blMax + 1, tokens, eof, pos, out);
  }

  lemma HeadFits(kind: nat, eof: bool)
    requires kind <= 3
    ensures 2 * kind + BitVal(eof) < Pow2(3)
  {
    Pow2Values();
  }

  /** Three bits, padding to a byte, two words and the bytes themselves. */
  lemma AllCounted(w: BitWriter)
    requires w.Valid()
    ensures w.bitsSent == |w.bits|
  {
  }

  lemma StoredSize(pos: nat, bytes: nat, bits: nat, len: nat)
    requires 8 * bytes + bits == pos
    ensures 8 * (bytes + (bits + 3 + 7) / 8 + len + 4) == pos + 3 + Padding(pos + 3) + 32 + 8 * len
  {
  }

  lemma StaticTreesReady(tables: Tables)
    requires tables.Valid()
    ensures TreeCodes(tables.staticLtree[..], FixedLiterals(), L_CODES)
            && TreeCodes(tables.staticDtree[..], FixedDistances(), D_CODES)
    ensures Usable(FixedLiterals()) && Usable(FixedDistances())
    ensures Bounded(FixedLiterals(), MAX_BITS) && Bounded(FixedDistances(), MAX_BITS)
            && FixedLiterals()[END_OF_BLOCK] > 0
  {
    hide TreeCodes, CodesOk;
  }
}
