/** How large a block can get: never more than what the fixed codes take, and a little. */
module BlockBound {
  import opened BitStrings
  import opened Canonical
  import opened Inflate
  import opened Tokens
  import opened Blocks
  import opened BitPacking

  /** The bytes a token stands for. */
  function Gain(t: Token): nat {
    if t.Literal? then 1 else t.len
  }

  lemma LargestExtras(k: nat)
    ensures k < 29 ==> LengthExtra(k) <= 5
    ensures k < 30 ==> DistExtra(k) <= 13
  {
  }

  lemma FixedLengths(n: nat)
    ensures n < 288 ==> 7 <= FixedLiterals()[n] <= 9
    ensures n < 32 ==> FixedDistances()[n] == 5
  {
  }

  /** Under the fixed codes a token takes at most eleven bits for each byte it stands for. */
  lemma TokenBound(c: Codes, t: Token)
    requires Codable(c, FixedLiterals(), FixedDistances(), t)
    ensures |TokenBits(c, FixedLiterals(), FixedDistances(), t)| <= 11 * Gain(t)
  {
    hide LsbBits, CodeBits, LengthBase, DistBase, LengthExtra, DistExtra, DCode, FixedLiterals, FixedDistances, Repeat;
    if t.Literal? {
      FixedLengths(t.b);
    } else {
      var lcode, dcode := MatchCodes(c, FixedLiterals(), FixedDistances(), t);
      FixedLengths(lcode + LITERALS + 1);
      FixedLengths(dcode);
      LargestExtras(lcode);
      LargestExtras(dcode);
    }
  }

  lemma {:induction false} TokensBound(c: Codes, tokens: seq<Token>, out: seq<Byte>)
    requires AllCodable(c, FixedLiterals(), FixedDistances(), tokens) && Expands(tokens, out)
    ensures |TokensBits(c, FixedLiterals(), FixedDistances(), tokens)| <= 11 * (|Expand(tokens, out)| - |out|)
    decreases |tokens|
  {
    hide Codable, TokenBits, FixedLiterals, FixedDistances;
    if tokens != [] {
      CodableTail(c, FixedLiterals(), FixedDistances(), tokens);
      TokenBound(c, tokens[0]);
      TokensBound(c, tokens[1..], ExpandOne(tokens[0], out));
    }
  }

  /** Every token stands for at least one byte. */
  lemma {:induction false} ExpandGrows(tokens: seq<Token>, out: seq<Byte>)
    requires AllValid(tokens) && Expands(tokens, out)
    ensures |Expand(tokens, out)| >= |out| + |tokens|
    decreases |tokens|
  {
    if tokens != [] {
      assert tokens[0].Valid();
      assert AllValid(tokens[1..]) by {
        forall i {:trigger tokens[1..][i]} | 0 <= i < |tokens[1..]|
          ensures tokens[1..][i].Valid()
        {
          assert tokens[1..][i] == tokens[i + 1];
        }
      }
      ExpandGrows(tokens[1..], ExpandOne(tokens[0], out));
    }
  }

  /** The size of a static block. */
  lemma StaticBound(c: Codes, tokens: seq<Token>, eof: bool, out: seq<Byte>, data: seq<Byte>)
    requires AllCodable(c, FixedLiterals(), FixedDistances(), tokens) && Expands(tokens, out)
             && Expand(tokens, out) == out + data
    ensures |StaticBits(c, tokens, eof)| <= 11 * |data| + 12
  {
    hide AllCodable, TokensBits, Expands, Expand, FixedLiterals, FixedDistances, BlockHead, CodeBits;
    TokensBound(c, tokens, out);
    FixedLengths(END_OF_BLOCK);
  }

  lemma StoredLength(data: seq<Byte>, eof: bool, pos: nat)
    requires |data| <= 0xffff
    ensures |StoredBlockBits(data, eof, pos)| <= 42 + 8 * |data|
  {
    hide BlockHead, LsbBits, BytesBits, Zeros;
  }

  /** The most bits a block of n bytes takes. */
  function MostBits(n: nat): nat {
    11 * n + 29
  }
}
