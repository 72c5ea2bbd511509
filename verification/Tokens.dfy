/** Literals and matches: what they stand for, how they are coded, and that the
    decoder of section 3.2.3 expands them. */
module Tokens {
  import opened BitStrings
  import opened Canonical
  import opened Inflate

  const MIN_MATCH: nat := 3
  const MAX_MATCH: nat := 258
  const LITERALS: nat := 256
  const L_CODES: nat := 286
  const D_CODES: nat := 30
  const LENGTH_CODES: nat := 29
  const MAX_DISTANCE: nat := 32768

  datatype Token = Literal(b: Byte) | Match(len: nat, dist: nat) {
    predicate Valid() {
      Literal? || (MIN_MATCH <= len <= MAX_MATCH && 1 <= dist <= MAX_DISTANCE)
    }
  }

  ghost predicate AllValid(tokens: seq<Token>) {
    forall i {:trigger tokens[i]} :: 0 <= i < |tokens| ==> tokens[i].Valid()
  }

  // ----- what tokens stand for -----

  /** A match may only reach back into what is already there. */
  predicate Reaches(t: Token, n: nat) {
    t.Literal? || 1 <= t.dist <= n
  }

  function ExpandOne(t: Token, out: seq<Byte>): (r: seq<Byte>)
    requires Reaches(t, |out|)
    ensures |r| == |out| + (if t.Literal? then 1 else t.len)
  {
    match t
    case Literal(b) => out + [b]
    case Match(len, dist) => CopyBack(out, len, dist)
  }

  ghost predicate Expands(tokens: seq<Token>, out: seq<Byte>)
    decreases |tokens|
  {
    tokens == [] || (Reaches(tokens[0], |out|) && Expands(tokens[1..], ExpandOne(tokens[0], out)))
  }

  /** The output after the tokens, given the output before them. */
  ghost function Expand(tokens: seq<Token>, out: seq<Byte>): seq<Byte>
    requires Expands(tokens, out)
    decreases |tokens|
  {
    if tokens == [] then out else Expand(tokens[1..], ExpandOne(tokens[0], out))
  }

  lemma {:induction false} ExpandSnoc(tokens: seq<Token>, out: seq<Byte>, t: Token)
    requires Expands(tokens, out) && Reaches(t, |Expand(tokens, out)|)
    ensures Expands(tokens + [t], out)
    ensures Expand(tokens + [t], out) == ExpandOne(t, Expand(tokens, out))
    decreases |tokens|
  {
    if tokens == [] {
      assert tokens + [t] == [t];
      assert [t][1..] == [];
    } else {
      ExpandSnoc(tokens[1..], ExpandOne(tokens[0], out), t);
      assert (tokens + [t])[1..] == tokens[1..] + [t];
    }
  }

  // ----- the codes of lengths and distances -----

  /** length_code and dist_code, the tables of ct_init, as sequences. */
  datatype Codes = Codes(lengthCode: seq<nat>, distCode: seq<nat>)

  /** The d_code macro; d is the distance less one. */
  function DCode(distCode: seq<nat>, d: nat): nat
    requires |distCode| == 512 && d < MAX_DISTANCE
  {
    if d < 256 then distCode[d] else distCode[256 + d / 128]
  }

  predicate LengthCodeOk(len: nat, code: nat) {
    code < LENGTH_CODES && LengthBase(code) <= len < LengthBase(code) + Pow2(LengthExtra(code))
  }

  predicate DistCodeOk(dist: nat, code: nat) {
    code < D_CODES && DistBase(code) <= dist < DistBase(code) + Pow2(DistExtra(code))
  }

  /** Every length and every distance has a code of the table in section 3.2.5. */
  ghost predicate CodesOk(c: Codes) {
    && |c.lengthCode| == 256 && |c.distCode| == 512
    && (forall k {:trigger c.lengthCode[k]} :: 0 <= k < 256 ==> LengthCodeOk(k + MIN_MATCH, c.lengthCode[k]))
    && (forall d: nat {:trigger DCode(c.distCode, d)} :: d < MAX_DISTANCE ==> DistCodeOk(d + 1, DCode(c.distCode, d)))
  }

  // ----- the bits of a block's data -----

  /** The literal/length symbol of a token. */
  function LitSym(c: Codes, t: Token): nat
    requires |c.lengthCode| == 256 && t.Valid()
  {
    if t.Literal? then t.b else c.lengthCode[t.len - MIN_MATCH] + LITERALS + 1
  }

  function DistSym(c: Codes, t: Token): nat
    requires |c.distCode| == 512 && t.Valid() && t.Match?
  {
    DCode(c.distCode, t.dist - 1)
  }

  /** The code tables of a block give a code to every symbol of the token. */
  ghost predicate Codable(c: Codes, ll: Lengths, dl: Lengths, t: Token) {
    && CodesOk(c) && t.Valid() && |ll| >= 257
    && LitSym(c, t) < |ll| && ll[LitSym(c, t)] > 0
    && (t.Match? ==> DistSym(c, t) < |dl| && dl[DistSym(c, t)] > 0)
  }

  ghost function TokenBits(c: Codes, ll: Lengths, dl: Lengths, t: Token): Bits
    requires Codable(c, ll, dl, t)
  {
    if t.Literal? then CodeBits(ll, t.b)
    else
      var lcode, dcode := c.lengthCode[t.len - MIN_MATCH], DistSym(c, t);
      assert LengthCodeOk(t.len - MIN_MATCH + MIN_MATCH, lcode) && DistCodeOk(t.dist - 1 + 1, dcode);
      CodeBits(ll, lcode + LITERALS + 1) + LsbBits(t.len - LengthBase(lcode), LengthExtra(lcode))
      + CodeBits(dl, dcode) + LsbBits(t.dist - DistBase(dcode), DistExtra(dcode))
  }

  ghost predicate AllCodable(c: Codes, ll: Lengths, dl: Lengths, tokens: seq<Token>) {
    forall i {:trigger tokens[i]} :: 0 <= i < |tokens| ==> Codable(c, ll, dl, tokens[i])
  }

  ghost function TokensBits(c: Codes, ll: Lengths, dl: Lengths, tokens: seq<Token>): Bits
    requires AllCodable(c, ll, dl, tokens)
  {
    if tokens == [] then []
    else
      assert Codable(c, ll, dl, tokens[0]);
      assert AllCodable(c, ll, dl, tokens[1..]) by { CodableTail(c, ll, dl, tokens); }
      TokenBits(c, ll, dl, tokens[0]) + TokensBits(c, ll, dl, tokens[1..])
  }

  lemma CodableTail(c: Codes, ll: Lengths, dl: Lengths, tokens: seq<Token>)
    requires AllCodable(c, ll, dl, tokens) && tokens != []
    ensures AllCodable(c, ll, dl, tokens[1..]) && Codable(c, ll, dl, tokens[0])
  {
    forall i {:trigger tokens[1..][i]} | 0 <= i < |tokens[1..]|
      ensures Codable(c, ll, dl, tokens[1..][i])
    {
      assert tokens[1..][i] == tokens[i + 1];
    }
  }

  lemma CodableParts(c: Codes, ll: Lengths, dl: Lengths, a: seq<Token>, b: seq<Token>)
    requires AllCodable(c, ll, dl, a + b)
    ensures AllCodable(c, ll, dl, a) && AllCodable(c, ll, dl, b)
  {
    forall i {:trigger a[i]} | 0 <= i < |a|
      ensures Codable(c, ll, dl, a[i])
    {
      assert (a + b)[i] == a[i];
    }
    forall i {:trigger b[i]} | 0 <= i < |b|
      ensures Codable(c, ll, dl, b[i])
    {
      assert (a + b)[|a| + i] == b[i];
    }
  }

  lemma {:induction false} TokensBitsSnoc(c: Codes, ll: Lengths, dl: Lengths, tokens: seq<Token>, t: Token)
    requires AllCodable(c, ll, dl, tokens + [t])
    ensures AllCodable(c, ll, dl, tokens) && Codable(c, ll, dl, t)
    ensures TokensBits(c, ll, dl, tokens + [t]) == TokensBits(c, ll, dl, tokens) + TokenBits(c, ll, dl, t)
    decreases |tokens|
  {
    hide Codable, TokenBits;
    CodableParts(c, ll, dl, tokens, [t]);
    assert [t][0] == t;
    if tokens == [] {
      assert tokens + [t] == [t] && [t][1..] == [];
    } else {
      CodableTail(c, ll, dl, tokens + [t]);
      assert (tokens + [t])[1..] == tokens[1..] + [t];
      TokensBitsSnoc(c, ll, dl, tokens[1..], t);
    }
  }

  /** The data of a block: its tokens and the end-of-block code. */
  ghost function BlockBits(c: Codes, ll: Lengths, dl: Lengths, tokens: seq<Token>): Bits
    requires AllCodable(c, ll, dl, tokens) && |ll| > END_OF_BLOCK
  {
    TokensBits(c, ll, dl, tokens) + CodeBits(ll, END_OF_BLOCK)
  }

  // ----- reading back -----

  lemma ReadMatchBack(c: Codes, ll: Lengths, dl: Lengths, t: Token, rest: Bits, out: seq<Byte>)
    requires Codable(c, ll, dl, t) && t.Match? && Usable(dl) && Reaches(t, |out|)
    ensures var lcode, dcode := c.lengthCode[t.len - MIN_MATCH], DistSym(c, t);
            && lcode < LENGTH_CODES && LengthBase(lcode) <= t.len && DistCodeOk(t.dist, dcode)
            && ReadMatch(dl, lcode, LsbBits(t.len - LengthBase(lcode), LengthExtra(lcode))
                         + (CodeBits(dl, dcode) + (LsbBits(t.dist - DistBase(dcode), DistExtra(dcode)) + rest)), out)
               == Done(ExpandOne(t, out), rest)
  {
    hide LsbBits, Usable, Pow2, CodeBits, LengthBase, LengthExtra, DistBase, DistExtra, DCode;
    var lcode, dcode := c.lengthCode[t.len - MIN_MATCH], DistSym(c, t);
    assert LengthCodeOk(t.len - MIN_MATCH + MIN_MATCH, lcode) && DistCodeOk(t.dist - 1 + 1, dcode);
    var tail := LsbBits(t.dist - DistBase(dcode), DistExtra(dcode)) + rest;
    ReadBack(t.len - LengthBase(lcode), LengthExtra(lcode), CodeBits(dl, dcode) + tail);
    ReadSymbolBack(dl, dcode, tail);
    ReadBack(t.dist - DistBase(dcode), DistExtra(dcode), rest);
  }

  /** One round of the decoder's loop. */
  lemma DataStep(ll: Lengths, dl: Lengths, bits: Bits, out: seq<Byte>, sym: nat, b1: Bits)
    requires ReadSymbol(ll, bits) == Done(sym, b1)
    ensures sym < 256 ==> ReadData(ll, dl, bits, out) == ReadData(ll, dl, b1, out + [sym])
    ensures sym == END_OF_BLOCK ==> ReadData(ll, dl, bits, out) == Done(out, b1)
    ensures 257 <= sym < 286 ==>
              var r := ReadMatch(dl, sym - 257, b1, out);
              r.Done? ==> ReadData(ll, dl, bits, out) == ReadData(ll, dl, r.rest, r.value)
  {
    hide ReadMatch;
  }

  lemma ReadTokenBack(c: Codes, ll: Lengths, dl: Lengths, t: Token, rest: Bits, out: seq<Byte>)
    requires Codable(c, ll, dl, t) && Usable(ll) && Usable(dl) && Reaches(t, |out|)
    ensures ReadData(ll, dl, TokenBits(c, ll, dl, t) + rest, out) == ReadData(ll, dl, rest, ExpandOne(t, out))
  {
    hide LsbBits, Usable, Pow2, ReadMatch, CodeBits, ReadData, ReadSymbol, CodesOk, DistCodeOk, LengthCodeOk,
         LengthBase, LengthExtra, DistBase, DistExtra, TokenBits, ExpandOne, DCode;
    TableSizes(c);
    var bits := TokenBits(c, ll, dl, t) + rest;
    if t.Literal? {
      LiteralBits(c, ll, dl, t);
      LiteralOut(t, out);
      ReadSymbolBack(ll, t.b, rest);
      DataStep(ll, dl, bits, out, t.b, rest);
    } else {
      var lcode, dcode := MatchBits(c, ll, dl, t, rest);
      ReadMatchBack(c, ll, dl, t, rest, out);
      var more := LsbBits(t.len - LengthBase(lcode), LengthExtra(lcode))
                    + (CodeBits(dl, dcode) + (LsbBits(t.dist - DistBase(dcode), DistExtra(dcode)) + rest));
      ReadSymbolBack(ll, lcode + LITERALS + 1, more);
      DataStep(ll, dl, bits, out, lcode + LITERALS + 1, more);
    }
  }

  lemma TableSizes(c: Codes)
    requires CodesOk(c)
    ensures |c.lengthCode| == 256 && |c.distCode| == 512
  {
  }

  lemma LiteralOut(t: Token, out: seq<Byte>)
    requires t.Literal?
    ensures ExpandOne(t, out) == out + [t.b]
  {
  }

  lemma LiteralBits(c: Codes, ll: Lengths, dl: Lengths, t: Token)
    requires Codable(c, ll, dl, t) && t.Literal?
    ensures t.b < |ll| && ll[t.b] > 0 && TokenBits(c, ll, dl, t) == CodeBits(ll, t.b)
  {
  }

  /** The two codes of a match, which the tables give rightly. */
  lemma MatchCodes(c: Codes, ll: Lengths, dl: Lengths, t: Token) returns (lcode: nat, dcode: nat)
    requires Codable(c, ll, dl, t) && t.Match?
    ensures |c.lengthCode| == 256 && MIN_MATCH <= t.len <= MAX_MATCH
    ensures lcode == c.lengthCode[t.len - MIN_MATCH] && dcode == DistSym(c, t)
    ensures lcode < LENGTH_CODES && LengthBase(lcode) <= t.len && dcode < D_CODES && DistBase(dcode) <= t.dist
    ensures lcode + LITERALS + 1 == LitSym(c, t) < |ll| && ll[lcode + LITERALS + 1] > 0
    ensures dcode < |dl| && dl[dcode] > 0
  {
    hide LengthBase, LengthExtra, DistBase, DistExtra, DCode, Pow2;
    lcode, dcode := c.lengthCode[t.len - MIN_MATCH], DistSym(c, t);
    assert LengthCodeOk(t.len - MIN_MATCH + MIN_MATCH, lcode) && DistCodeOk(t.dist - 1 + 1, dcode);
  }

  lemma MatchBits(c: Codes, ll: Lengths, dl: Lengths, t: Token, rest: Bits) returns (lcode: nat, dcode: nat)
    requires Codable(c, ll, dl, t) && t.Match?
    ensures |c.lengthCode| == 256 && MIN_MATCH <= t.len <= MAX_MATCH
    ensures lcode == c.lengthCode[t.len - MIN_MATCH] && dcode == DistSym(c, t)
    ensures lcode < LENGTH_CODES && LengthBase(lcode) <= t.len && dcode < D_CODES && DistBase(dcode) <= t.dist
    ensures lcode + LITERALS + 1 < |ll| && ll[lcode + LITERALS + 1] > 0 && dcode < |dl| && dl[dcode] > 0
    ensures TokenBits(c, ll, dl, t) + rest
            == CodeBits(ll, lcode + LITERALS + 1)
               + (LsbBits(t.len - LengthBase(lcode), LengthExtra(lcode))
                  + (CodeBits(dl, dcode) + (LsbBits(t.dist - DistBase(dcode), DistExtra(dcode)) + rest)))
  {
    hide LsbBits, CodeBits, LengthBase, LengthExtra, DistBase, DistExtra, DCode, CodesOk, LengthCodeOk, DistCodeOk;
    lcode, dcode := MatchCodes(c, ll, dl, t);
    var x, y := LsbBits(t.len - LengthBase(lcode), LengthExtra(lcode)),
        LsbBits(t.dist - DistBase(dcode), DistExtra(dcode));
    var a, b := CodeBits(ll, lcode + LITERALS + 1), CodeBits(dl, dcode);
    assert (a + x + b + y) + rest == a + (x + (b + (y + rest)));
  }

  /** The decoder expands exactly the tokens that were sent. */
  lemma {:induction false} ReadTokensBack(c: Codes, ll: Lengths, dl: Lengths, tokens: seq<Token>, rest: Bits,
                                          out: seq<Byte>)
    requires AllCodable(c, ll, dl, tokens) && Usable(ll) && Usable(dl) && Expands(tokens, out)
    requires |ll| > END_OF_BLOCK && ll[END_OF_BLOCK] > 0
    ensures ReadData(ll, dl, BlockBits(c, ll, dl, tokens) + rest, out) == Done(Expand(tokens, out), rest)
    decreases |tokens|
  {
    hide Usable, ReadData, CodeBits, TokenBits, Codable, ExpandOne;
    var end := CodeBits(ll, END_OF_BLOCK);
    if tokens == [] {
      assert BlockBits(c, ll, dl, tokens) + rest == end + rest;
      ReadEnd(ll, dl, rest, out);
    } else {
      CodableTail(c, ll, dl, tokens);
      var t := tokens[0];
      var more := BlockBits(c, ll, dl, tokens[1..]) + rest;
      assert BlockBits(c, ll, dl, tokens) + rest == TokenBits(c, ll, dl, t) + more;
      ReadTokenBack(c, ll, dl, t, more, out);
      ReadTokensBack(c, ll, dl, tokens[1..], rest, ExpandOne(t, out));
    }
  }

  lemma ReadEnd(ll: Lengths, dl: Lengths, rest: Bits, out: seq<Byte>)
    requires Usable(ll) && |ll| > END_OF_BLOCK && ll[END_OF_BLOCK] > 0
    ensures ReadData(ll, dl, CodeBits(ll, END_OF_BLOCK) + rest, out) == Done(out, rest)
  {
    hide Usable, CodeBits, ReadData;
    ReadSymbolBack(ll, END_OF_BLOCK, rest);
    DataStep(ll, dl, CodeBits(ll, END_OF_BLOCK) + rest, out, END_OF_BLOCK, rest);
  }
}
