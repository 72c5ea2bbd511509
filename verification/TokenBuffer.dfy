/** ct_tally and compress_block: the tokens of a block, held in l_buf, d_buf and flag_buf. */
module TokenBuffer {
  import opened BitStrings
  import opened Canonical
  import opened Inflate
  import opened HeapQueue
  import opened Sums
  import opened GenBitlen
  import opened GenCodes
  import opened BitPacking
  import opened Tallies
  import opened TreeHeader
  import opened Tokens
  import opened CodeTables

  const LIT_BUFSIZE: nat := 0x8000
  const DIST_BUFSIZE: nat := 0x8000
  const WSIZE: nat := 0x8000
  const MIN_LOOKAHEAD: nat := MAX_MATCH + MIN_MATCH + 1
  const MAX_DIST: nat := WSIZE - MIN_LOOKAHEAD

  // ----- what the three buffers hold -----

  /** What l_buf holds for a token: the literal, or the length less MIN_MATCH. */
  function LcOf(t: Token): Byte
    requires t.Valid()
  {
    if t.Literal? then t.b else t.len - MIN_MATCH
  }

  /** What d_buf holds: the distances of the matches, less one. */
  ghost function Dists(tokens: seq<Token>): (d: seq<nat>)
    requires AllValid(tokens)
  {
    if tokens == [] then []
    else
      var k := |tokens| - 1;
      assert tokens[k].Valid();
      Dists(tokens[..k]) + (if tokens[k].Match? then [tokens[k].dist - 1] else [])
  }

  /** What flag_buf holds: one bit a token, set for a match. */
  ghost function MatchFlags(tokens: seq<Token>): (f: Bits)
    ensures |f| == |tokens|
  {
    seq(|tokens|, i requires 0 <= i < |tokens| => tokens[i].Match?)
  }

  ghost predicate Held(lb: seq<Byte>, db: seq<nat>, lastLit: nat, lastDist: nat, tokens: seq<Token>) {
    && AllValid(tokens) && lastLit == |tokens| <= |lb|
    && (forall i {:trigger lb[i]} :: 0 <= i < lastLit ==> lb[i] == LcOf(tokens[i]))
    && lastDist == |Dists(tokens)| <= |db| && db[..lastDist] == Dists(tokens)
  }

  ghost predicate Flagged(fb: seq<Byte>, lastFlags: nat, flags: nat, flagBit: nat, tokens: seq<Token>) {
    var r := |tokens| % 8;
    && lastFlags == |tokens| / 8 && lastFlags <= |fb|
    && flagBit == Pow2(r) && flags < flagBit
    && BytesBits(fb[..lastFlags]) + LsbBits(flags, r) == MatchFlags(tokens)
  }

  lemma {:induction false} DistsCount(tokens: seq<Token>)
    requires AllValid(tokens)
    ensures |Dists(tokens)| <= |tokens|
  {
    if tokens != [] {
      DistsCount(tokens[..|tokens| - 1]);
    }
  }

  lemma DistsSnoc(tokens: seq<Token>, t: Token)
    requires AllValid(tokens) && t.Valid()
    ensures AllValid(tokens + [t])
    ensures Dists(tokens + [t]) == Dists(tokens) + (if t.Match? then [t.dist - 1] else [])
  {
    assert (tokens + [t])[..|tokens|] == tokens;
  }

  /** The distances of the tokens before k come first. */
  lemma {:induction false} DistsAt(tokens: seq<Token>, k: nat)
    requires AllValid(tokens) && k < |tokens|
    ensures AllValid(tokens[..k]) && |Dists(tokens[..k])| <= |Dists(tokens)|
    ensures tokens[k].Match? ==> |Dists(tokens[..k])| < |Dists(tokens)|
                                 && Dists(tokens)[|Dists(tokens[..k])|] == tokens[k].dist - 1
  {
    var n := |tokens| - 1;
    if k < n {
      DistsAt(tokens[..n], k);
      assert tokens[..n][..k] == tokens[..k];
    }
  }

  lemma HeldStep(lb: seq<Byte>, db: seq<nat>, lastLit: nat, lastDist: nat, tokens: seq<Token>, t: Token)
    requires Held(lb, db, lastLit, lastDist, tokens) && t.Valid() && lastLit < |lb| && lastDist < |db|
    ensures Held(lb[lastLit := LcOf(t)], if t.Match? then db[lastDist := t.dist - 1] else db,
                 lastLit + 1, if t.Match? then lastDist + 1 else lastDist, tokens + [t])
  {
    DistsSnoc(tokens, t);
    if t.Match? {
      assert db[lastDist := t.dist - 1][..lastDist + 1] == db[..lastDist] + [t.dist - 1];
    }
  }

  lemma Pow2IsShl(r: nat)
    ensures Shl(1, r) == Pow2(r)
  {
  }

  lemma FlagBitStep(flags: nat, r: nat, m: bool)
    requires flags < Pow2(r)
    ensures var after := if m then Or(flags, Pow2(r)) else flags;
            after < Pow2(r + 1) && LsbBits(after, r + 1) == LsbBits(flags, r) + [m]
  {
    Pow2IsShl(r);
    OrDisjoint(flags, 1, r);
    LsbBitsAppend(flags, r, if m then 1 else 0, 1);
    ShlZero(r);
    assert LsbBits(if m then 1 else 0, 1) == [m] + LsbBits(0, 0);
  }

  lemma FlagRoom(r: nat)
    requires r < 8
    ensures Pow2(r + 1) == 2 * Pow2(r) <= 256 && Pow2(0) == 1 && (r < 7 ==> Pow2(r + 1) <= 128)
  {
    Pow2Values();
    Pow2Monotone(r + 1, 8);
    Pow2Monotone(r + 1, if r < 7 then 7 else 8);
  }

  lemma FlagsWith(front: seq<Byte>, flags: nat, after: nat, r: nat, m: bool, more: seq<Byte>)
    requires r < 8 && LsbBits(after, r + 1) == LsbBits(flags, r) + [m]
    requires r == 7 ==> after < 256 && more == front + [after]
    ensures BytesBits(front) + LsbBits(after, r + 1) == BytesBits(front) + LsbBits(flags, r) + [m]
    ensures r == 7 ==> BytesBits(more) + LsbBits(0, 0) == BytesBits(front) + LsbBits(flags, r) + [m]
  {
    hide LsbBits, BytesBits;
    if r == 7 {
      OneByte(after);
      BytesBitsConcat(front, [after]);
    }
  }

  lemma FlagsSnoc(tokens: seq<Token>, t: Token)
    ensures MatchFlags(tokens + [t]) == MatchFlags(tokens) + [t.Match?]
  {
  }

  lemma FlagsStep(fb: seq<Byte>, lastFlags: nat, flags: nat, flagBit: nat, tokens: seq<Token>, t: Token)
    requires Flagged(fb, lastFlags, flags, flagBit, tokens) && lastFlags < |fb|
    ensures var after := if t.Match? then Or(flags, flagBit) else flags;
            if (|tokens| + 1) % 8 == 0 then
              after < 256 && Flagged(fb[lastFlags := after], lastFlags + 1, 0, 1, tokens + [t])
            else
              flagBit * 2 < 256 && after < 256 && Flagged(fb, lastFlags, after, flagBit * 2, tokens + [t])
  {
    hide LsbBits, BytesBits, Or, MatchFlags, Pow2;
    var r := |tokens| % 8;
    FlagsSnoc(tokens, t);
    FlagBitStep(flags, r, t.Match?);
    var after := if t.Match? then Or(flags, flagBit) else flags;
    FlagRoom(r);
    FlagsWith(fb[..lastFlags], flags, after, r, t.Match?, fb[lastFlags := after][..lastFlags + 1]);
  }

  lemma OneByte(b: Byte)
    ensures BytesBits([b]) == LsbBits(b, 8) && LsbBits(0, 0) == []
  {
    assert [b][1..] == [];
    assert BytesBits([b]) == LsbBits(b, 8) + BytesBits([]);
  }

  // ----- frequencies -----

  lemma SymsInRange(c: Codes, t: Token)
    requires CodesOk(c) && t.Valid()
    ensures LitSym(c, t) < L_CODES && LitSym(c, t) != END_OF_BLOCK
    ensures t.Match? ==> DistSym(c, t) < D_CODES
  {
    if t.Match? {
      assert LengthCodeOk(t.len - MIN_MATCH + MIN_MATCH, c.lengthCode[t.len - MIN_MATCH]);
      assert DistCodeOk(t.dist - 1 + 1, DCode(c.distCode, t.dist - 1));
    }
  }

  /** The literal/length symbols of the tokens, and the distance symbols. */
  ghost function LitSyms(c: Codes, tokens: seq<Token>): (s: seq<nat>)
    requires CodesOk(c) && AllValid(tokens)
    ensures |s| == |tokens| && forall i :: 0 <= i < |s| ==> s[i] < L_CODES
  {
    if tokens == [] then []
    else
      var k := |tokens| - 1;
      assert tokens[k].Valid();
      SymsInRange(c, tokens[k]);
      LitSyms(c, tokens[..k]) + [LitSym(c, tokens[k])]
  }

  ghost function DistSyms(c: Codes, tokens: seq<Token>): (s: seq<nat>)
    requires CodesOk(c) && AllValid(tokens)
    ensures |s| <= |tokens| && forall i :: 0 <= i < |s| ==> s[i] < D_CODES
  {
    if tokens == [] then []
    else
      var k := |tokens| - 1;
      assert tokens[k].Valid();
      SymsInRange(c, tokens[k]);
      DistSyms(c, tokens[..k]) + (if tokens[k].Match? then [DistSym(c, tokens[k])] else [])
  }

  /** The frequency tables of a block: its tokens and one end-of-block code. */
  ghost predicate Frequencies(c: Codes, lf: seq<nat>, df: seq<nat>, tokens: seq<Token>) {
    && CodesOk(c) && AllValid(tokens)
    && lf == Tally(Zeroes(L_CODES)[END_OF_BLOCK := 1], LitSyms(c, tokens))
    && df == Tally(Zeroes(D_CODES), DistSyms(c, tokens))
  }

  lemma FrequenciesStep(c: Codes, lf: seq<nat>, df: seq<nat>, tokens: seq<Token>, t: Token)
    requires Frequencies(c, lf, df, tokens) && t.Valid()
    ensures LitSym(c, t) < L_CODES == |lf| && (t.Match? ==> DistSym(c, t) < D_CODES == |df|)
    ensures Frequencies(c, lf[LitSym(c, t) := lf[LitSym(c, t)] + 1],
                    if t.Match? then df[DistSym(c, t) := df[DistSym(c, t)] + 1] else df, tokens + [t])
  {
    hide CodesOk, LitSym, DistSym, Tally;
    TableSizes(c);
    SymsInRange(c, t);
    assert (tokens + [t])[..|tokens|] == tokens;
    TallySnoc(Zeroes(L_CODES)[END_OF_BLOCK := 1], LitSyms(c, tokens), LitSym(c, t));
    if t.Match? {
      TallySnoc(Zeroes(D_CODES), DistSyms(c, tokens), DistSym(c, t));
    } else {
      assert DistSyms(c, tokens + [t]) == DistSyms(c, tokens);
    }
  }

  lemma NoFrequencies(c: Codes)
    requires CodesOk(c)
    ensures Frequencies(c, Zeroes(L_CODES)[END_OF_BLOCK := 1], Zeroes(D_CODES), [])
  {
  }

  lemma FrequencySums(c: Codes, lf: seq<nat>, df: seq<nat>, tokens: seq<Token>)
    requires Frequencies(c, lf, df, tokens)
    ensures |lf| == L_CODES && Sum(lf) == |tokens| + 1
    ensures |df| == D_CODES && Sum(df) <= |tokens|
  {
    hide CodesOk, LitSyms, DistSyms, Tally;
    var z, d := Zeroes(L_CODES), Zeroes(D_CODES);
    TallyCost(z[END_OF_BLOCK := 1], LitSyms(c, tokens), z);
    TallyCost(d, DistSyms(c, tokens), d);
    SumSet(z, END_OF_BLOCK, 1);
    SumZero(z);
    SumZero(d);
  }

  // ----- ct_tally -----

  /** tree[x].fc.freq++ */
  method CountSymbol(tree: array<CtData>, x: nat, ghost e: nat)
    requires x < e <= tree.Length
    modifies tree
    ensures Freqs(tree[..], e) == old(Freqs(tree[..], e))[x := old(Freqs(tree[..], e))[x] + 1]
  {
    tree[x] := tree[x].(fc := tree[x].fc + 1);
  }

  // ----- compress_block: the flags -----

  /** All flags are in flag_buf. */
  ghost predicate Saved(fb: seq<Byte>, tokens: seq<Token>) {
    |tokens| <= 8 * |fb| && BytesBits(fb)[..|tokens|] == MatchFlags(tokens)
  }

  /** The first line of flush_block saves the flags that do not fill a byte. */
  lemma SaveFlags(fb: seq<Byte>, lastFlags: nat, flags: Byte, flagBit: nat, tokens: seq<Token>)
    requires Flagged(fb, lastFlags, flags, flagBit, tokens) && lastFlags < |fb|
    ensures Saved(fb[lastFlags := flags], tokens)
  {
    hide BytesBits, LsbBits;
    var r := |tokens| % 8;
    var all := fb[lastFlags := flags];
    assert all == fb[..lastFlags] + ([flags] + fb[lastFlags + 1..]);
    BytesBitsConcat(fb[..lastFlags], [flags] + fb[lastFlags + 1..]);
    BytesBitsConcat([flags], fb[lastFlags + 1..]);
    OneByte(flags);
    LsbBitsSplit(flags, r, 8 - r);
    var a, b := BytesBits(fb[..lastFlags]), LsbBits(flags, r);
    var tail := LsbBits(Shr(flags, r), 8 - r) + BytesBits(fb[lastFlags + 1..]);
    assert BytesBits(all) == (a + b) + tail;
  }

  /** Before token lx, flag holds what is left of its byte. */
  ghost predicate FlagLeft(fb: seq<Byte>, lx: nat, flag: nat) {
    lx % 8 != 0 ==> lx / 8 < |fb| && LsbBits(flag, 8 - lx % 8) == BytesBits(fb)[lx..8 * (lx / 8) + 8]
  }

  lemma {:induction false} ByteAt(fb: seq<Byte>, k: nat)
    requires k < |fb|
    ensures BytesBits(fb)[8 * k..8 * k + 8] == LsbBits(fb[k], 8)
  {
    hide LsbBits;
    if k > 0 {
      ByteAt(fb[1..], k - 1);
      assert BytesBits(fb)[8..] == BytesBits(fb[1..]);
      assert BytesBits(fb)[8 * k..8 * k + 8] == BytesBits(fb)[8..][8 * (k - 1)..8 * (k - 1) + 8];
    }
  }

  lemma FirstBit(v: nat, m: nat)
    requires m > 0
    ensures LsbBits(v, m)[0] == (v % 2 == 1) && LsbBits(v, m)[1..] == LsbBits(v / 2, m - 1)
  {
  }

  lemma FlagNext(fb: seq<Byte>, lx: nat, flag: nat, tokens: seq<Token>)
    requires Saved(fb, tokens) && lx < |tokens| && if lx % 8 == 0 then flag == fb[lx / 8] else FlagLeft(fb, lx, flag)
    ensures (flag % 2 == 1) == tokens[lx].Match? && FlagLeft(fb, lx + 1, flag / 2)
  {
    hide BytesBits, LsbBits;
    var r, k := lx % 8, lx / 8;
    ByteAt(fb, k);
    var bits, m := BytesBits(fb), 8 - r;
    FirstBit(flag, m);
    assert bits[lx..8 * k + 8] == LsbBits(flag, m);
    assert MatchFlags(tokens)[lx] == bits[..|tokens|][lx] == bits[lx] == bits[lx..8 * k + 8][0];
    assert bits[lx + 1..8 * k + 8] == bits[lx..8 * k + 8][1..];
  }

  // ----- compress_block: one match -----

  lemma TableParts(tables: Tables)
    requires tables.Valid()
    ensures CodesOk(tables.Map()) && LengthBases(tables.baseLength, 28) && DistBases(tables.baseDist, D_CODES)
  {
    hide CodesOk, LengthBases, DistBases, LensOf, TreeCodes, FixedLiterals, FixedDistances, Usable;
  }

  lemma LengthParts(tables: Tables, ll: Lengths, dl: Lengths, t: Token)
    requires tables.Valid() && Codable(tables.Map(), ll, dl, t) && t.Match?
    ensures |tables.lengthCode| == 256 && |tables.baseLength| == LENGTH_CODES && t.Valid()
    ensures var code := tables.lengthCode[t.len - MIN_MATCH];
            && code < LENGTH_CODES && LengthBase(code) <= t.len
            && ExtraLbits(code) == LengthExtra(code) <= 15 && t.len - LengthBase(code) < Pow2(LengthExtra(code))
            && (LengthExtra(code) > 0 ==> tables.baseLength[code] == LengthBase(code) - MIN_MATCH)
            && code + LITERALS + 1 < |ll| && code + LITERALS + 1 < L_CODES && ll[code + LITERALS + 1] > 0
  {
    hide Pow2, DCode, DistCodeOk, Tables.Valid, LengthBase, LengthExtra, ExtraLbits, LengthStart;
    TableParts(tables);
    var code := tables.lengthCode[t.len - MIN_MATCH];
    assert LengthCodeOk(t.len - MIN_MATCH + MIN_MATCH, code);
    LengthShape(code);
    assert code < 28 ==> tables.baseLength[code] == LengthStart(code);
  }

  lemma LengthShape(code: nat)
    requires code < LENGTH_CODES
    ensures ExtraLbits(code) == LengthExtra(code) <= 15
    ensures LengthExtra(code) > 0 ==> code < 28 && LengthStart(code) == LengthBase(code) - MIN_MATCH
  {
    ExtraBitsAgree();
  }

  lemma DistParts(tables: Tables, ll: Lengths, dl: Lengths, t: Token)
    requires tables.Valid() && Codable(tables.Map(), ll, dl, t) && t.Match?
    ensures |tables.distCode| == 512 && |tables.baseDist| == D_CODES && t.Valid()
    ensures var code := DCode(tables.distCode, t.dist - 1);
            && code < D_CODES && DistBase(code) <= t.dist
            && ExtraDbits(code) == DistExtra(code) <= 15 && t.dist - DistBase(code) < Pow2(DistExtra(code))
            && tables.baseDist[code] == DistBase(code) - 1
            && code < |dl| && dl[code] > 0
  {
    hide Pow2, LengthCodeOk, DCode, Tables.Valid;
    TableParts(tables);
    var code := DCode(tables.distCode, t.dist - 1);
    assert DistCodeOk(t.dist - 1 + 1, code);
    ExtraBitsAgree();
    assert tables.baseDist[code] == DistStart(code);
  }

  lemma NoBits(v: nat)
    ensures LsbBits(v, 0) == []
  {
  }

  /** A code of the given tree followed by its extra bits, when it has any. */
  method SendWithExtra(w: BitWriter, tree: array<CtData>, code: nat, value: int, extra: nat, ghost lens: Lengths,
                       ghost limit: nat, ghost v: nat)
    requires w.Valid() && code < limit && code < |lens| && lens[code] > 0 && Bounded(lens, MAX_BITS)
    requires TreeCodes(tree[..], lens, limit)
    requires extra <= 15 && v < Pow2(extra) && (extra > 0 ==> value == v)
    modifies w, w.outBuf
    ensures w.Valid() && w.bits == old(w.bits) + CodeBits(lens, code) + LsbBits(v, extra)
  {
    hide Pow2, LsbBits, CodeBits, TreeCodes, Bounded;
    CodeAt(tree[..], lens, limit, code);
    SendCode(w, tree, code, lens);
    if extra != 0 {
      w.SendBits(value, extra);
    } else {
      NoBits(v);
    }
  }

  /** The branch of compress_block that sends a literal. */
  method SendLiteral(w: BitWriter, ltree: array<CtData>, lc: nat, ghost c: Codes, ghost ll: Lengths, ghost dl: Lengths,
                     ghost t: Token)
    requires w.Valid() && Codable(c, ll, dl, t) && t.Literal? && t.b == lc
    requires TreeCodes(ltree[..], ll, L_CODES) && Bounded(ll, MAX_BITS)
    modifies w, w.outBuf
    ensures w.Valid() && w.bits == old(w.bits) + TokenBits(c, ll, dl, t)
  {
    hide CodeBits, TokenBits, Codable, TreeCodes, Bounded;
    LiteralBits(c, ll, dl, t);
    CodeAt(ltree[..], ll, L_CODES, lc);
    SendCode(w, ltree, lc, ll);
  }

  /** The branch of compress_block that sends a match. */
  method SendMatch(w: BitWriter, tables: Tables, ltree: array<CtData>, dtree: array<CtData>, lc: nat, dist: nat,
                   ghost ll: Lengths, ghost dl: Lengths, ghost t: Token)
    requires w.Valid() && tables.Valid() && Codable(tables.Map(), ll, dl, t)
    requires t.Match? && lc == t.len - MIN_MATCH && dist == t.dist - 1
    requires TreeCodes(ltree[..], ll, L_CODES) && TreeCodes(dtree[..], dl, D_CODES)
    requires Bounded(ll, MAX_BITS) && Bounded(dl, MAX_BITS)
    modifies w, w.outBuf
    ensures w.Valid() && w.bits == old(w.bits) + TokenBits(tables.Map(), ll, dl, t)
  {
    hide Pow2, LsbBits, CodeBits, TokenBits, Codable, Tables.Valid, TreeCodes, Bounded, DCode, LengthBase, LengthExtra,
         DistBase, DistExtra, ExtraLbits, ExtraDbits;
    LengthParts(tables, ll, dl, t);
    DistParts(tables, ll, dl, t);
    MatchBitsAre(w.bits, tables, ll, dl, t);
    var code := tables.lengthCode[lc];
    SendWithExtra(w, ltree, code + LITERALS + 1, lc - tables.baseLength[code], ExtraLbits(code), ll, L_CODES,
                  t.len - LengthBase(code));
    var dcode := DCode(tables.distCode, dist);
    SendWithExtra(w, dtree, dcode, dist - tables.baseDist[dcode], ExtraDbits(dcode), dl, D_CODES,
                  t.dist - DistBase(dcode));
  }

  lemma CodeAt(tree: seq<CtData>, lens: Lengths, limit: nat, x: nat)
    requires TreeCodes(tree, lens, limit) && x < limit && x < |lens| && lens[x] > 0 && Bounded(lens, MAX_BITS)
    ensures x < |tree| && CodedAt(tree[x], lens, x) && lens[x] <= MAX_BITS
  {
    hide CodedAt;
  }

  lemma MatchBitsAre(b0: Bits, tables: Tables, ll: Lengths, dl: Lengths, t: Token)
    requires tables.Valid() && Codable(tables.Map(), ll, dl, t) && t.Match?
    ensures |tables.lengthCode| == 256 && |tables.distCode| == 512
    ensures var code, dcode := tables.lengthCode[t.len - MIN_MATCH], DCode(tables.distCode, t.dist - 1);
            && code < LENGTH_CODES && LengthBase(code) <= t.len && code + LITERALS + 1 < |ll|
            && dcode < D_CODES && DistBase(dcode) <= t.dist && dcode < |dl|
            && b0 + CodeBits(ll, code + LITERALS + 1) + LsbBits(t.len - LengthBase(code), LengthExtra(code))
               + CodeBits(dl, dcode) + LsbBits(t.dist - DistBase(dcode), DistExtra(dcode))
               == b0 + TokenBits(tables.Map(), ll, dl, t)
  {
    hide Pow2, LsbBits, CodeBits, Tables.Valid, DCode, LengthBase, LengthExtra, DistBase, DistExtra, Codable;
    LengthParts(tables, ll, dl, t);
    DistParts(tables, ll, dl, t);
    var code, dcode := tables.lengthCode[t.len - MIN_MATCH], DCode(tables.distCode, t.dist - 1);
    var a, x := CodeBits(ll, code + LITERALS + 1), LsbBits(t.len - LengthBase(code), LengthExtra(code));
    var b, y := CodeBits(dl, dcode), LsbBits(t.dist - DistBase(dcode), DistExtra(dcode));
    assert TokenBits(tables.Map(), ll, dl, t) == a + x + b + y;
    assert b0 + a + x + b + y == b0 + (a + x + b + y);
  }

  method SetFreq(tree: array<CtData>, x: nat, f: nat, ghost e: nat)
    requires x < e <= tree.Length
    modifies tree
    ensures Freqs(tree[..], e) == old(Freqs(tree[..], e))[x := f]
  {
    tree[x] := tree[x].(fc := f);
  }

  /** A loop of init_block. */
  method ClearFreqs(tree: array<CtData>, e: nat)
    requires e <= tree.Length
    modifies tree
    ensures Freqs(tree[..], e) == Zeroes(e)
  {
    var n := 0;
    while n < e
      invariant 0 <= n <= e && forall x {:trigger tree[x]} :: 0 <= x < n ==> tree[x].fc == 0
    {
      tree[n] := tree[n].(fc := 0);
      n := n + 1;
    }
  }

  lemma NothingHeld(lb: seq<Byte>, db: seq<nat>, fb: seq<Byte>)
    ensures Held(lb, db, 0, 0, []) && Flagged(fb, 0, 0, 1, [])
  {
  }

  /** The part of TTreeState that collects the tokens of the current block. */
  class TokenBuffer {
    const tables: Tables
    const lBuf: array<Byte>
    const dBuf: array<nat>
    const flagBuf: array<Byte>
    const dynLtree: array<CtData>
    const dynDtree: array<CtData>
    var lastLit: nat
    var lastDist: nat
    var lastFlags: nat
    var flags: Byte
    var flagBit: nat
    ghost var tokens: seq<Token>

    ghost predicate Shape() {
      && lBuf.Length == LIT_BUFSIZE && dBuf.Length == DIST_BUFSIZE && flagBuf.Length == LIT_BUFSIZE / 8
      && dynLtree.Length == HEAP_SIZE && dynDtree.Length == 2 * D_CODES + 1
      && lBuf != flagBuf && dynLtree != dynDtree
      && dynLtree != tables.staticLtree && dynLtree != tables.staticDtree
      && dynDtree != tables.staticLtree && dynDtree != tables.staticDtree
    }

    ghost predicate Holds()
      reads this, lBuf, dBuf, flagBuf
    {
      Held(lBuf[..], dBuf[..], lastLit, lastDist, tokens) && Flagged(flagBuf[..], lastFlags, flags, flagBit, tokens)
    }

    ghost predicate Valid()
      reads this, lBuf, dBuf, flagBuf, dynLtree, dynDtree, tables.staticLtree, tables.staticDtree
    {
      && Shape() && tables.Valid() && Holds() && lastLit < LIT_BUFSIZE
      && Frequencies(tables.Map(), Freqs(dynLtree[..], L_CODES), Freqs(dynDtree[..], D_CODES), tokens)
    }

    constructor (tables: Tables)
      requires tables.Valid()
      ensures this.tables == tables && Valid() && tokens == []
      ensures fresh(lBuf) && fresh(dBuf) && fresh(flagBuf) && fresh(dynLtree) && fresh(dynDtree)
    {
      this.tables := tables;
      lBuf, dBuf, flagBuf := new Byte[LIT_BUFSIZE], new nat[DIST_BUFSIZE], new Byte[LIT_BUFSIZE / 8];
      dynLtree, dynDtree := new CtData[HEAP_SIZE], new CtData[2 * D_CODES + 1];
      new;
      Reset();
    }

    /** The part of init_block that empties the buffers and their frequency tables. */
    method Reset()
      requires Shape() && tables.Valid()
      modifies this, dynLtree, dynDtree
      ensures Valid() && tokens == []
    {
      hide Tables.Valid, CodesOk;
      TablesCodes(tables);
      ClearFreqs(dynLtree, L_CODES);
      ClearFreqs(dynDtree, D_CODES);
      SetFreq(dynLtree, END_OF_BLOCK, 1, L_CODES);
      lastLit, lastDist, lastFlags := 0, 0, 0;
      flags, flagBit := 0, 1;
      tokens := [];
      NothingHeld(lBuf[..], dBuf[..], flagBuf[..]);
      NoFrequencies(tables.Map());
    }

    /** The last steps of ct_tally: the flag of a token, and the byte of flags when it is full. */
    method StoreFlag(isMatch: bool, ghost t: Token)
      requires Flagged(flagBuf[..], lastFlags, flags, flagBit, tokens) && |tokens| < LIT_BUFSIZE == 8 * flagBuf.Length
      requires lastLit == |tokens| + 1 && isMatch == t.Match?
      modifies this`lastFlags, this`flags, this`flagBit, flagBuf
      ensures Flagged(flagBuf[..], lastFlags, flags, flagBit, tokens + [t])
    {
      hide Flagged, Or;
      FlagPlace(flagBuf[..], lastFlags, flags, flagBit, tokens);
      FlagsStep(flagBuf[..], lastFlags, flags, flagBit, tokens, t);
      if isMatch {
        flags := Or(flags, flagBit);
      }
      flagBit := (flagBit * 2) % 256;
      if lastLit % 8 == 0 {
        flagBuf[lastFlags] := flags;
        lastFlags := lastFlags + 1;
        flags, flagBit := 0, 1;
      }
    }

    /** The first steps of ct_tally: l_buf and d_buf. */
    method StoreLength(dist: nat, lc: Byte, ghost t: Token)
      requires Held(lBuf[..], dBuf[..], lastLit, lastDist, tokens) && lastLit < lBuf.Length && lastDist < dBuf.Length
      requires dist <= MAX_DIST && t == if dist == 0 then Literal(lc) else Match(lc + MIN_MATCH, dist)
      modifies this`lastLit, this`lastDist, lBuf, dBuf
      ensures Held(lBuf[..], dBuf[..], lastLit, lastDist, tokens + [t])
      ensures lastLit == old(lastLit) + 1
    {
      hide Held;
      HeldStep(lBuf[..], dBuf[..], lastLit, lastDist, tokens, t);
      lBuf[lastLit] := lc;
      lastLit := lastLit + 1;
      if dist != 0 {
        dBuf[lastDist] := dist - 1;
        lastDist := lastDist + 1;
      }
    }

    /** ct_tally: one more token, a literal when dist is 0. Says when the block must end. */
    method Append(dist: nat, lc: Byte, inLength: nat) returns (full: bool)
      requires Valid() && lastLit < LIT_BUFSIZE - 1 && dist <= MAX_DIST
      modifies this, lBuf, dBuf, flagBuf, dynLtree, dynDtree
      ensures Valid()
      ensures tokens == old(tokens) + [if dist == 0 then Literal(lc) else Match(lc + MIN_MATCH, dist)]
      ensures full <==> lastLit == LIT_BUFSIZE - 1 || lastDist == DIST_BUFSIZE || PaysToStop(inLength)
      ensures full ==> |tokens| >= 0x1000
    {
      hide Held, Flagged, Frequencies, Tables.Valid, Freqs, CodesOk, DCode;
      ghost var c, t := tables.Map(), if dist == 0 then Literal(lc) else Match(lc + MIN_MATCH, dist);
      BufferRoom(tables, lBuf[..], dBuf[..], flagBuf[..], lastLit, lastDist, lastFlags, flags, flagBit, tokens);
      FrequenciesStep(c, Freqs(dynLtree[..], L_CODES), Freqs(dynDtree[..], D_CODES), tokens, t);
      StoreLength(dist, lc, t);
      if dist == 0 {
        CountSymbol(dynLtree, lc, L_CODES);
      } else {
        CountSymbol(dynLtree, tables.lengthCode[lc] + LITERALS + 1, L_CODES);
        CountSymbol(dynDtree, DCode(tables.distCode, dist - 1), D_CODES);
      }
      StoreFlag(dist != 0, t);
      tokens := tokens + [t];
      full := ShouldStop(inLength);
      MatchesAreTokens(lBuf[..], dBuf[..], lastLit, lastDist, tokens);
    }

    /** compress_block: the tokens under the given codes, and the end of the block. */
    method CompressBlock(w: BitWriter, ltree: array<CtData>, dtree: array<CtData>, ghost ll: Lengths, ghost dl: Lengths)
      requires w.Valid() && tables.Valid() && Held(lBuf[..], dBuf[..], lastLit, lastDist, tokens)
               && Saved(flagBuf[..], tokens)
      requires w.outBuf != lBuf && w.outBuf != flagBuf
      requires AllCodable(tables.Map(), ll, dl, tokens)
      requires TreeCodes(ltree[..], ll, L_CODES) && TreeCodes(dtree[..], dl, D_CODES)
      requires Bounded(ll, MAX_BITS) && Bounded(dl, MAX_BITS) && |ll| > END_OF_BLOCK && ll[END_OF_BLOCK] > 0
      modifies w, w.outBuf
      ensures w.Valid() && w.bits == old(w.bits) + BlockBits(tables.Map(), ll, dl, tokens)
    {
      hide Codable, CodeBits, TokenBits, Held, Saved, FlagLeft, Tables.Valid, TreeCodes, Bounded, AllCodable,
           TokensBits, LsbBits, Dists, DistsBefore, AllValid, BitWriter.Valid, MatchFlags;
      ghost var c, b0 := tables.Map(), w.bits;
      ghost var lb, db, fb := lBuf[..], dBuf[..], flagBuf[..];
      var lx, dx, fx, flag := 0, 0, 0, 0;
      BuffersHold(lb, db, fb, lastLit, lastDist, tokens);
      NoneSent(c, ll, dl, fb, tokens);
      while lx < lastLit
        invariant 0 <= lx <= lastLit == |tokens| && w.Valid()
        invariant lBuf[..] == lb && dBuf[..] == db && flagBuf[..] == fb
        invariant fx == (lx + 7) / 8 && FlagLeft(fb, lx, flag) && DistsBefore(tokens, lx, dx)
        invariant AllCodable(c, ll, dl, tokens[..lx]) && w.bits == b0 + TokensBits(c, ll, dl, tokens[..lx])
      {
        if lx % 8 == 0 {
          flag := flagBuf[fx];
          fx := fx + 1;
        }
        ghost var t := tokens[lx];
        FlagNext(fb, lx, flag, tokens);
        HeldToken(lb, db, lastLit, lastDist, tokens, lx, dx);
        SentMore(c, ll, dl, tokens, lx);
        var lc := lBuf[lx];
        lx := lx + 1;
        if flag % 2 == 0 {
          SendLiteral(w, ltree, lc, c, ll, dl, t);
        } else {
          SendMatch(w, tables, ltree, dtree, lc, dBuf[dx], ll, dl, t);
          dx := dx + 1;
        }
        flag := flag / 2;
      }
      assert tokens[..lx] == tokens;
      CodeAt(ltree[..], ll, L_CODES, END_OF_BLOCK);
      SendCode(w, ltree, END_OF_BLOCK, ll);
    }

    /** The guess at the end of ct_tally whether to stop the block here, and the limits of the buffers. */
    method ShouldStop(inLength: nat) returns (stop: bool)
      requires dynDtree.Length >= D_CODES
      ensures stop <==> lastLit == LIT_BUFSIZE - 1 || lastDist == DIST_BUFSIZE || PaysToStop(inLength)
    {
      if lastLit % 0x1000 == 0 {
        var outLength := lastLit * 8;
        var dcode := 0;
        while dcode < D_CODES
          invariant 0 <= dcode <= D_CODES && outLength == lastLit * 8 + DistanceBits(dynDtree[..], dcode)
        {
          outLength := outLength + dynDtree[dcode].fc * (5 + ExtraDbits(dcode));
          dcode := dcode + 1;
        }
        outLength := outLength / 8;
        if lastDist < lastLit / 2 && outLength < inLength / 2 {
          return true;
        }
      }
      stop := lastLit == LIT_BUFSIZE - 1 || lastDist == DIST_BUFSIZE;
    }

    /** Every 4096 tokens: few matches, and an upper bound on the size that is below half the input. */
    ghost predicate PaysToStop(inLength: nat)
      requires dynDtree.Length >= D_CODES
      reads this, dynDtree
    {
      lastLit % 0x1000 == 0 && lastDist < lastLit / 2
      && (lastLit * 8 + DistanceBits(dynDtree[..], D_CODES)) / 8 < inLength / 2
    }
  }

  /** What the distances of the first n codes take at most: five bits and the extra bits each. */
  ghost function DistanceBits(dtree: seq<CtData>, n: nat): nat
    requires n <= |dtree| && n <= D_CODES
  {
    if n == 0 then 0 else DistanceBits(dtree, n - 1) + dtree[n - 1].fc * (5 + ExtraDbits(n - 1))
  }

  lemma MatchesAreTokens(lb: seq<Byte>, db: seq<nat>, lastLit: nat, lastDist: nat, tokens: seq<Token>)
    requires Held(lb, db, lastLit, lastDist, tokens)
    ensures lastDist <= lastLit == |tokens|
  {
    DistsCount(tokens);
  }

  /** dx is where the distance of token lx is, if it is a match. */
  ghost predicate DistsBefore(tokens: seq<Token>, lx: nat, dx: nat) {
    AllValid(tokens) && lx <= |tokens| && AllValid(tokens[..lx]) && dx == |Dists(tokens[..lx])|
  }

  lemma BuffersHold(lb: seq<Byte>, db: seq<nat>, fb: seq<Byte>, lastLit: nat, lastDist: nat, tokens: seq<Token>)
    requires Held(lb, db, lastLit, lastDist, tokens) && Saved(fb, tokens)
    ensures AllValid(tokens) && |tokens| == lastLit <= |lb| && lastLit <= 8 * |fb|
  {
  }

  lemma HeldToken(lb: seq<Byte>, db: seq<nat>, lastLit: nat, lastDist: nat, tokens: seq<Token>, lx: nat, dx: nat)
    requires Held(lb, db, lastLit, lastDist, tokens) && DistsBefore(tokens, lx, dx) && lx < lastLit
    ensures var t := tokens[lx];
            && t.Valid() && lb[lx] == LcOf(t)
            && (t.Match? ==> dx < |db| && db[dx] == t.dist - 1)
            && DistsBefore(tokens, lx + 1, if t.Match? then dx + 1 else dx)
  {
    DistsAt(tokens, lx);
    assert tokens[lx].Valid();
    DistsSnoc(tokens[..lx], tokens[lx]);
    assert tokens[..lx + 1] == tokens[..lx] + [tokens[lx]];
    assert tokens[lx].Match? ==> db[..lastDist][dx] == db[dx];
  }

  lemma SentMore(c: Codes, ll: Lengths, dl: Lengths, tokens: seq<Token>, lx: nat)
    requires AllCodable(c, ll, dl, tokens) && lx < |tokens|
    ensures AllCodable(c, ll, dl, tokens[..lx]) && AllCodable(c, ll, dl, tokens[..lx + 1])
            && Codable(c, ll, dl, tokens[lx])
    ensures TokensBits(c, ll, dl, tokens[..lx + 1])
         == TokensBits(c, ll, dl, tokens[..lx]) + TokenBits(c, ll, dl, tokens[lx])
  {
    hide Codable;
    assert tokens == tokens[..lx + 1] + tokens[lx + 1..];
    CodableParts(c, ll, dl, tokens[..lx + 1], tokens[lx + 1..]);
    assert tokens[..lx + 1] == tokens[..lx] + [tokens[lx]];
    TokensBitsSnoc(c, ll, dl, tokens[..lx], tokens[lx]);
  }

  lemma NoneSent(c: Codes, ll: Lengths, dl: Lengths, fb: seq<Byte>, tokens: seq<Token>)
    requires AllValid(tokens)
    ensures FlagLeft(fb, 0, 0) && DistsBefore(tokens, 0, 0)
    ensures AllCodable(c, ll, dl, tokens[..0]) && TokensBits(c, ll, dl, tokens[..0]) == []
  {
    assert tokens[..0] == [];
  }

  lemma FlagPlace(fb: seq<Byte>, lastFlags: nat, flags: nat, flagBit: nat, tokens: seq<Token>)
    requires Flagged(fb, lastFlags, flags, flagBit, tokens)
    ensures lastFlags == |tokens| / 8
  {
  }

  lemma TablesCodes(tables: Tables)
    requires tables.Valid()
    ensures CodesOk(tables.Map())
  {
  }

  lemma BufferRoom(tables: Tables, lb: seq<Byte>, db: seq<nat>, fb: seq<Byte>, lastLit: nat, lastDist: nat,
                   lastFlags: nat, flags: nat, flagBit: nat, tokens: seq<Token>)
    requires tables.Valid() && Held(lb, db, lastLit, lastDist, tokens) && Flagged(fb, lastFlags, flags, flagBit, tokens)
    ensures |tables.lengthCode| == 256 && |tables.distCode| == 512 && CodesOk(tables.Map())
    ensures |tokens| == lastLit && lastDist <= lastLit && lastFlags == lastLit / 8
  {
    DistsCount(tokens);
  }
}
