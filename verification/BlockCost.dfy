/** The size of a block's data is what build_tree counted, and cutting a code table
    after its last used symbol changes no code. */
module BlockCost {
  import opened BitStrings
  import opened Canonical
  import opened Inflate
  import opened HeapQueue
  import opened Sums
  import opened GenBitlen
  import opened GenCodes
  import opened Huffman
  import opened Tallies
  import opened Tokens
  import opened CodeTables
  import opened TokenBuffer

  /** l_desc and d_desc */
  function LDesc(): TreeDesc {
    TreeDesc(EXTRA_LBITS, LITERALS + 1, L_CODES, MAX_BITS)
  }

  function DDesc(): TreeDesc {
    TreeDesc(EXTRA_DBITS, 0, D_CODES, MAX_BITS)
  }

  lemma DescsValid()
    ensures LDesc().Valid() && DDesc().Valid()
    ensures forall x {:trigger LDesc().ExtraBits(x)} :: 0 <= x < L_CODES ==>
      LDesc().ExtraBits(x) == if x >= 257 then ExtraLbits(x - 257) else 0
    ensures forall x {:trigger DDesc().ExtraBits(x)} :: 0 <= x < D_CODES ==> DDesc().ExtraBits(x) == ExtraDbits(x)
  {
    Pow2Values();
  }

  /** One table is a part of another. */
  ghost predicate Within(part: Lengths, whole: Lengths) {
    forall x {:trigger part[x]} {:trigger whole[x]} :: 0 <= x < |part| && x < |whole| ==> part[x] == whole[x]
  }

  lemma TokenCost(c: Codes, ll: Lengths, dl: Lengths, l: Lengths, d: Lengths, t: Token)
    requires Codable(c, ll, dl, t) && |l| == L_CODES && |d| == D_CODES && Within(ll, l) && Within(dl, d)
    ensures LitSym(c, t) < L_CODES && (t.Match? ==> DistSym(c, t) < D_CODES)
    ensures |WithExtra(l, LDesc())| == L_CODES && |WithExtra(d, DDesc())| == D_CODES
    ensures |TokenBits(c, ll, dl, t)|
         == WithExtra(l, LDesc())[LitSym(c, t)] + (if t.Match? then WithExtra(d, DDesc())[DistSym(c, t)] else 0)
  {
    hide LsbBits, CodeBits, Pow2, LengthBase, DistBase, LengthExtra, DistExtra, ExtraLbits, ExtraDbits, DCode, CodesOk;
    SymsInRange(c, t);
    DescsValid();
    ExtraBitsAgree();
    if t.Match? {
      var lcode, dcode := MatchCodes(c, ll, dl, t);
      assert LDesc().ExtraBits(lcode + 257) == ExtraLbits(lcode);
      assert DDesc().ExtraBits(dcode) == ExtraDbits(dcode);
    } else {
      assert LDesc().ExtraBits(t.b) == 0;
    }
  }

  lemma {:induction false} TokensCost(c: Codes, ll: Lengths, dl: Lengths, l: Lengths, d: Lengths, tokens: seq<Token>)
    requires AllCodable(c, ll, dl, tokens) && |l| == L_CODES && |d| == D_CODES && Within(ll, l) && Within(dl, d)
    requires AllValid(tokens) && CodesOk(c)
    ensures |TokensBits(c, ll, dl, tokens)|
         == CostOf(LitSyms(c, tokens), WithExtra(l, LDesc())) + CostOf(DistSyms(c, tokens), WithExtra(d, DDesc()))
    decreases |tokens|
  {
    hide Codable, TokenBits, LitSym, DistSym, WithExtra, CodesOk, Within;
    if tokens != [] {
      var k := |tokens| - 1;
      var init, t := tokens[..k], tokens[k];
      assert tokens == init + [t];
      TableSizes(c);
      TokensBitsSnoc(c, ll, dl, init, t);
      TokensCost(c, ll, dl, l, d, init);
      TokenCost(c, ll, dl, l, d, t);
      var lw, dw := WithExtra(l, LDesc()), WithExtra(d, DDesc());
      OneCost(LitSym(c, t), lw);
      CostConcat(LitSyms(c, init), [LitSym(c, t)], lw);
      if t.Match? {
        OneCost(DistSym(c, t), dw);
        CostConcat(DistSyms(c, init), [DistSym(c, t)], dw);
      } else {
        assert DistSyms(c, tokens) == DistSyms(c, init);
      }
    }
  }

  lemma OneCost(x: nat, w: seq<nat>)
    requires x < |w|
    ensures CostOf([x], w) == w[x]
  {
    assert [x][..0] == [];
  }

  lemma CountedCost(c: Codes, lf: seq<nat>, df: seq<nat>, tokens: seq<Token>, lw: seq<nat>, dw: seq<nat>)
    requires Frequencies(c, lf, df, tokens) && |lw| == L_CODES && |dw| == D_CODES
    ensures |lf| == L_CODES && |df| == D_CODES
    ensures Dot(lf, lw) + Dot(df, dw)
            == CostOf(LitSyms(c, tokens), lw) + CostOf(DistSyms(c, tokens), dw) + lw[END_OF_BLOCK]
  {
    hide CodesOk, LitSyms, DistSyms, Tally, Dot, CostOf;
    var z := Zeroes(L_CODES);
    TallyCost(z[END_OF_BLOCK := 1], LitSyms(c, tokens), lw);
    TallyCost(Zeroes(D_CODES), DistSyms(c, tokens), dw);
    EndAlone(lw);
    DotZero(Zeroes(D_CODES), dw);
  }

  lemma EndAlone(lw: seq<nat>)
    requires |lw| == L_CODES
    ensures Dot(Zeroes(L_CODES)[END_OF_BLOCK := 1], lw) == lw[END_OF_BLOCK]
  {
    hide Dot;
    var z := Zeroes(L_CODES);
    DotZero(z, lw);
    DotSetLeft(z, lw, END_OF_BLOCK, 1);
  }

  lemma EndCost(ll: Lengths, l: Lengths)
    requires |l| == L_CODES && Within(ll, l) && |ll| > END_OF_BLOCK
    ensures |WithExtra(l, LDesc())| == L_CODES && WithExtra(l, LDesc())[END_OF_BLOCK] == ll[END_OF_BLOCK]
  {
    DescsValid();
    assert LDesc().ExtraBits(END_OF_BLOCK) == 0;
  }

  /** What build_tree adds to opt_len or static_len is the size of the data. */
  lemma BlockSize(c: Codes, ll: Lengths, dl: Lengths, l: Lengths, d: Lengths, lf: seq<nat>, df: seq<nat>,
                  tokens: seq<Token>)
    requires AllCodable(c, ll, dl, tokens) && |l| == L_CODES && |d| == D_CODES && Within(ll, l) && Within(dl, d)
    requires Frequencies(c, lf, df, tokens) && |ll| > END_OF_BLOCK
    ensures |WithExtra(l, LDesc())| == |lf| == L_CODES && |WithExtra(d, DDesc())| == |df| == D_CODES
    ensures |BlockBits(c, ll, dl, tokens)| == Dot(lf, WithExtra(l, LDesc())) + Dot(df, WithExtra(d, DDesc()))
  {
    hide AllCodable, TokensBits, CodesOk, WithExtra, CodeBits, Within, Dot, CostOf, LitSyms, DistSyms, Tally;
    EndCost(ll, l);
    TokensCost(c, ll, dl, l, d, tokens);
    CountedCost(c, lf, df, tokens, WithExtra(l, LDesc()), WithExtra(d, DDesc()));
  }

  // ----- cutting a table after its last used symbol -----

  lemma {:induction false} CountTrim(lens: Lengths, m: nat, b: nat)
    requires m <= |lens| && b > 0 && forall x :: m <= x < |lens| ==> lens[x] == 0
    ensures Count(lens[..m], b) == Count(lens, b)
    decreases |lens|
  {
    var k := |lens| - 1;
    if m <= k {
      CountTrim(lens[..k], m, b);
      assert lens[..k][..m] == lens[..m];
    } else {
      assert lens[..m] == lens;
    }
  }

  lemma {:induction false} KraftTrim(lens: Lengths, m: nat, u: nat)
    requires m <= |lens| && forall x :: m <= x < |lens| ==> lens[x] == 0
    ensures Kraft(lens[..m], u) == Kraft(lens, u)
    decreases |lens|
  {
    var k := |lens| - 1;
    if m <= k {
      KraftTrim(lens[..k], m, u);
      assert lens[..k][..m] == lens[..m];
    } else {
      assert lens[..m] == lens;
    }
  }

  lemma {:induction false} FirstCodeTrim(lens: Lengths, m: nat, len: nat)
    requires m <= |lens| && forall x :: m <= x < |lens| ==> lens[x] == 0
    ensures FirstCode(lens[..m], len) == FirstCode(lens, len)
    decreases len
  {
    if len > 1 {
      FirstCodeTrim(lens, m, len - 1);
      CountTrim(lens, m, len - 1);
    }
  }

  lemma CodeTrim(lens: Lengths, m: nat, x: nat)
    requires x < m <= |lens| && lens[x] > 0 && forall y :: m <= y < |lens| ==> lens[y] == 0
    ensures Code(lens[..m], x) == Code(lens, x) && CodeBits(lens[..m], x) == CodeBits(lens, x)
  {
    hide FirstCode, Count, MsbBits;
    FirstCodeTrim(lens, m, lens[x]);
    assert lens[..m][..x] == lens[..x];
  }

  /** A tree built by build_tree, seen by the decoder that is sent only maxCode + 1 lengths.
      The tree may have been given its guard since. */
  lemma TrimmedTree(tree: seq<CtData>, e: nat, maxCode: nat, freqs: seq<nat>, guarded: seq<CtData>)
    requires IsCode(tree, e, MAX_BITS, maxCode, freqs)
    requires |guarded| == |tree| && forall x {:trigger guarded[x]} :: 0 <= x <= maxCode ==> guarded[x] == tree[x]
    ensures var lens := LensOf(tree, e)[..maxCode + 1];
            && LensOf(tree, maxCode + 1) == LensOf(guarded, maxCode + 1) == lens
            && TreeCodes(guarded, lens, e) && Usable(lens) && Bounded(lens, MAX_BITS) && Within(lens, LensOf(tree, e))
            && (forall x :: 0 <= x < e && freqs[x] > 0 ==> x <= maxCode && lens[x] > 0)
  {
    hide CodeBits, LsbBits, Pow2, Kraft;
    var whole := LensOf(tree, e);
    var lens := whole[..maxCode + 1];
    KraftTrim(whole, maxCode + 1, MAX_BITS);
    forall x: nat | x < |lens| && lens[x] > 0
      ensures CodedAt(guarded[x], lens, x)
    {
      CodeTrim(whole, maxCode + 1, x);
      assert CodedAt(tree[x], whole, x);
      assert guarded[x] == tree[x];
    }
  }
}
