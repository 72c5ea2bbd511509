/** deflate: the lazy matcher, and what a whole run sends. */
module Deflate {
  import opened BitStrings
  import opened Inflate
  import opened Hashing
  import opened BitPacking
  import opened Tokens
  import opened TokenBuffer
  import opened Blocks
  import opened FlushBlock
  import opened BlockBound
  import opened Window
  import opened LongestMatch
  import opened StaleHead
  import opened Options

  const TOO_FAR: nat := 4096

  // ----- tokens against the input -----

  /** A true match copies the input's own bytes, even where it overlaps itself. */
  lemma {:induction false} CopyIsInput(input: seq<Byte>, m: nat, at: nat, len: nat)
    requires MatchAt(input, m, at, len)
    ensures CopyBack(input[..at], len, at - m) == input[..at + len]
    decreases len
  {
    if len > 0 {
      assert Agree(input, m, at, 0);
      assert input[..at] + [input[..at][m]] == input[..at + 1];
      forall i {:trigger Agree(input, m + 1, at + 1, i)} | 0 <= i < len - 1
        ensures Agree(input, m + 1, at + 1, i)
      {
        assert Agree(input, m, at, i + 1);
      }
      CopyIsInput(input, m + 1, at + 1, len - 1);
    }
  }

  /** The tokens of the block that starts at position from stand for the input up to upto. */
  ghost predicate Covers(tokens: seq<Token>, input: seq<Byte>, from: int, upto: int) {
    && 0 <= from <= upto <= |input|
    && Expands(tokens, input[..from]) && Expand(tokens, input[..from]) == input[..upto]
  }

  lemma CoversLiteral(tokens: seq<Token>, input: seq<Byte>, from: int, upto: int, b: Byte)
    requires Covers(tokens, input, from, upto) && upto < |input| && b == input[upto]
    ensures Covers(tokens + [Literal(b)], input, from, upto + 1)
  {
    ExpandSnoc(tokens, input[..from], Literal(b));
  }

  lemma CoversMatch(tokens: seq<Token>, input: seq<Byte>, from: int, upto: int, m: nat, len: nat)
    requires Covers(tokens, input, from, upto) && MatchAt(input, m, upto, len)
    ensures Covers(tokens + [Match(len, upto - m)], input, from, upto + len)
  {
    hide MatchAt;
    MatchFacts(input, m, upto, len);
    CopyIsInput(input, m, upto, len);
    ExpandSnoc(tokens, input[..from], Match(len, upto - m));
  }

  lemma MatchFacts(input: seq<Byte>, m: nat, at: nat, len: nat)
    requires MatchAt(input, m, at, len)
    ensures m < at <= m + MAX_DIST && at + len <= |input|
  {
  }

  lemma CoversNothing(input: seq<Byte>, from: int)
    requires 0 <= from <= |input|
    ensures Covers([], input, from, from)
  {
  }

  // ----- the state between steps -----

  /** The strings up to the current one are in the hash table, and the running key is ready. */
  ghost predicate Strings(d: DeflateState)
    reads d, d.reader
  {
    && Hashed(d.ins, d.At(), d.reader.pos, false)
    && (d.lookahead >= MIN_MATCH ==> KeyReady(d.insH, d.reader.input, d.ins))
  }

  /** Enough lookahead, except at the end of the input. */
  ghost predicate Room(d: DeflateState)
    reads d, d.reader
  {
    && d.strstart <= WINDOW_SIZE - MIN_LOOKAHEAD
    && (d.lookahead < MIN_LOOKAHEAD ==> d.eofile && d.strstart < WSIZE + MAX_DIST)
  }

  /** A match of the string before the current one is pending: m is where it starts in the input.
      Its window index may have been carried below zero by a slide, so the distance is only right
      as a 32-bit number. */
  ghost predicate Pending(d: DeflateState, m: nat, len: nat)
    reads d, d.reader
  {
    1 <= len <= MAX_MATCH && (d.lookahead > 0 ==> len >= 2)
    && (len >= MIN_MATCH ==> MatchPends(d.reader.input, d.At(), d.reader.pos, d.strstart, d.matchStart, m, len))
  }

  ghost predicate MatchPends(input: seq<Byte>, at: int, end: nat, strstart: nat, matchStart: nat, m: nat, len: nat) {
    && at >= 1 && MatchAt(input, m, at - 1, len) && at - 1 + len <= end
    && (strstart + U32 - 1 - matchStart) % U32 == at - 1 - m
  }

  /** The window has slid under hash_head, which still says where the last inserted string was seen before. */
  ghost predicate Stale(d: DeflateState, hashHead: nat)
    reads d, d.reader
  {
    && RiskyLength(|d.reader.input|) && d.base >= WSIZE && |d.reader.input| <= d.base + WSIZE
    && d.strstart >= MAX_DIST && d.ins >= 1 && Newest(hashHead, d.base - WSIZE, d.reader.input, d.ins - 1)
  }

  /** hash_head says where the last inserted string was seen before, or the window has slid under it near the end
      of the input. */
  ghost predicate HeadPlace(d: DeflateState, hashHead: nat)
    reads d, d.reader
  {
    (if d.ins == 0 then hashHead == NIL else Newest(hashHead, d.base, d.reader.input, d.ins - 1)) || Stale(d, hashHead)
  }

  /** When no more strings are inserted, hash_head is stale; until then it is about to be replaced. */
  ghost predicate HeadKnown(d: DeflateState, hashHead: nat)
    reads d, d.reader
  {
    0 < d.lookahead < MIN_MATCH ==> HeadPlace(d, hashHead)
  }

  // ----- one step of the matcher -----

  /** INSERT_STRING */
  method InsertString(d: DeflateState, s: nat) returns (matchHead: nat)
    requires d.Tables() && d.base + s == d.ins && d.ins + 2 < d.reader.pos && KeyReady(d.insH, d.reader.input, d.ins)
    modifies d`insH, d`ins, d.prev, d.head
    ensures d.Tables() && d.ins == old(d.ins) + 1 && KeyReady(d.insH, d.reader.input, d.ins)
    ensures Link(matchHead, d.base, d.reader.input, old(d.ins)) && Latest(matchHead, d.base, d.reader.input, old(d.ins))
  {
    hide Filled, HeadsOk, PrevOk, HeadsRecent, Link, Latest, HashAt, Roll, Slot, KeyReady;
    ghost var base, input, ins, hs, ps := d.base, d.reader.input, d.ins, d.head[..], d.prev[..];
    InputAt(d.window[..], base, input, d.reader.pos, s + 2);
    InsertStep(hs, ps, base, input, ins);
    InsertRecent(hs, base, input, ins);
    KeyRolls(d.insH, input, ins);
    SlotOfIndex(base, s);
    d.insH := Roll(d.insH, d.window[s + 2]);
    matchHead := d.head[d.insH];
    d.prev[Slot(s)] := matchHead;
    d.head[d.insH] := s;
    d.ins := d.ins + 1;
    assert d.head[..] == hs[d.insH := s] && d.prev[..] == ps[Slot(ins) := matchHead];
  }

  lemma InputAt(win: seq<Byte>, base: nat, input: seq<Byte>, end: nat, i: nat)
    requires Filled(win, base, input, end) && base + i < end
    ensures i < |win| == WINDOW_SIZE && base % WSIZE == 0 && base + i < |input| && win[i] == input[base + i]
    ensures base <= end <= |input| && end - base <= WINDOW_SIZE
  {
  }

  /** Whether longest_match is about to be given the current string itself. */
  ghost predicate NoFuture(d: DeflateState, hashHead: nat, matchLength: nat)
    reads d
  {
    0 < d.lookahead < MIN_MATCH && hashHead != NIL && hashHead == d.strstart && matchLength < MAX_LAZY
  }

  lemma HeadIsCandidate(d: DeflateState, hashHead: nat)
    requires d.Valid() && Hashed(d.ins, d.At(), d.reader.pos, true) && d.lookahead > 0
             && d.reader.pos <= |d.reader.input|
    requires hashHead != NIL && hashHead <= d.strstart <= hashHead + MAX_DIST
    requires if d.lookahead >= MIN_MATCH
             then d.At() + 2 < |d.reader.input| && Link(hashHead, d.base, d.reader.input, d.At())
             else HeadKnown(d, hashHead)
    ensures Candidate(hashHead, d.base, d.reader.input, d.ins, d.At(), d.lookahead)
    ensures d.lookahead >= MIN_MATCH ==> hashHead < d.strstart
  {
    hide HeadsOk, PrevOk, HeadsRecent, HashAt;
  }

  /** The search of one step, with its guards, and the limits put on what it reports. */
  method LookBack(d: DeflateState, hashHead: nat) returns (matchLength: nat)
    requires d.Valid() && Hashed(d.ins, d.At(), d.reader.pos, true) && Room(d) && d.lookahead > 0
             && 2 <= d.prevLength <= MAX_MATCH
    requires d.reader.pos <= |d.reader.input|
    requires if d.lookahead >= MIN_MATCH
             then d.At() + 2 < |d.reader.input| && Link(hashHead, d.base, d.reader.input, d.At())
             else HeadKnown(d, hashHead)
    modifies d`matchStart, d`niceMatch, d`err
    ensures d.Valid() && 1 <= matchLength <= MAX_MATCH && (d.lookahead > 1 ==> matchLength >= 2)
    ensures matchLength > d.prevLength && matchLength >= MIN_MATCH ==>
              0 < d.matchStart <= d.strstart && MatchAt(d.reader.input, d.base + d.matchStart, d.At(), matchLength)
              && d.At() + matchLength <= d.reader.pos
    ensures d.err == (old(d.err) || old(NoFuture(d, hashHead, d.prevLength)))
  {
    hide Filled, HeadsOk, PrevOk, HeadsRecent, HashAt, Link, Candidate, MatchAt, AtRisk, HeadKnown, Hashed;
    matchLength := MIN_MATCH - 1;
    if hashHead != NIL && d.prevLength < MAX_LAZY && hashHead <= d.strstart && d.strstart - hashHead <= MAX_DIST {
      HeadIsCandidate(d, hashHead);
      if d.niceMatch > d.lookahead {
        d.niceMatch := d.lookahead;
      }
      matchLength := Search(d, hashHead);
      if matchLength > d.lookahead {
        matchLength := d.lookahead;
      }
      if matchLength == MIN_MATCH && (d.strstart + U32 - d.matchStart) % U32 > TOO_FAR {
        matchLength := MIN_MATCH - 1;
      }
    }
  }

  /** The first part of the loop: insert the current string and look for a match that beats the pending one. */
  method FindMatch(d: DeflateState, hashHead0: nat, matchLength0: nat)
    returns (hashHead: nat, matchLength: nat, prevMatch: nat)
    requires d.Valid() && Strings(d) && Room(d) && HeadKnown(d, hashHead0) && d.lookahead > 0
             && 2 <= matchLength0 <= MAX_MATCH
    modifies d`insH, d`ins, d`prevLength, d`matchStart, d`niceMatch, d`err, d.prev, d.head
    ensures d.Valid() && Hashed(d.ins, d.At(), d.reader.pos, true) && Room(d) && HeadPlace(d, hashHead)
    ensures d.lookahead >= MIN_MATCH ==>
              KeyReady(d.insH, d.reader.input, d.ins) && Newest(hashHead, d.base, d.reader.input, d.At())
    ensures d.lookahead < MIN_MATCH ==> hashHead == hashHead0
    ensures d.prevLength == matchLength0 && prevMatch == old(d.matchStart)
    ensures 1 <= matchLength <= MAX_MATCH && (d.lookahead > 1 ==> matchLength >= 2)
    ensures matchLength > d.prevLength && matchLength >= MIN_MATCH ==>
              0 < d.matchStart <= d.strstart && MatchAt(d.reader.input, d.base + d.matchStart, d.At(), matchLength)
              && d.At() + matchLength <= d.reader.pos
    ensures d.err == (old(d.err) || old(NoFuture(d, hashHead0, matchLength0)))
  {
    hide Filled, HeadsOk, PrevOk, HeadsRecent, HashAt, KeyReady, MatchAt, AtRisk, Latest;
    FilledFacts(d.window[..], d.base, d.reader.input, d.reader.pos);
    hashHead := hashHead0;
    if d.lookahead >= MIN_MATCH {
      hashHead := InsertString(d, d.strstart);
    }
    d.prevLength, prevMatch := matchLength0, d.matchStart;
    matchLength := LookBack(d, hashHead);
  }

  /** Subtracting WSIZE from both indices keeps their 32-bit difference. */
  lemma SameDifference(a: nat, b: nat)
    requires WSIZE <= a < U32 && b < U32
    ensures (a - WSIZE + U32 - 1 - (b + U32 - WSIZE) % U32) % U32 == (a + U32 - 1 - b) % U32
  {
  }

  lemma SlidAtEnd(n: nat, base: nat, strstart: nat, lookahead: nat)
    requires n == base + strstart + lookahead && base % WSIZE == 0
    requires WSIZE + MAX_DIST <= strstart <= WINDOW_SIZE - 5 && 0 < lookahead < MIN_MATCH
    ensures RiskyLength(n)
  {
    var r := strstart + lookahead - WSIZE;
    assert MAX_DIST < r <= WSIZE - MIN_MATCH;
    assert n == base + WSIZE + r;
    assert n % WSIZE == r by {
      DivMod(base, WSIZE);
      assert n == (base / WSIZE + 1) * WSIZE + r;
      DivUnique(n, WSIZE, base / WSIZE + 1, r);
    }
  }

  /** The last part of the loop: fill the window again when the lookahead is short. */
  method Refill(d: DeflateState, ghost hashHead: nat, ghost m: nat, ghost len: nat)
    requires d.Valid() && d.strstart <= WINDOW_SIZE - 5 && HeadPlace(d, hashHead) && Pending(d, m, len)
    requires Strings(d) && (d.lookahead < MIN_MATCH ==> d.eofile)
    modifies d, d.window, d.prev, d.head, d.reader`pos, d.reader`calls
    ensures d.Valid() && Room(d) && HeadKnown(d, hashHead) && Pending(d, m, len) && Strings(d)
    ensures d.At() == old(d.At()) && d.base + d.blockStart == old(d.base + d.blockStart) && d.err == old(d.err)
    ensures |d.reader.input| - d.reader.pos + d.lookahead == old(|d.reader.input| - d.reader.pos + d.lookahead)
    ensures d.strstart >= 1 || old(d.strstart) == 0
    ensures d.base == old(d.base) || (d.base == old(d.base) + WSIZE && d.At() >= old(d.base) + WSIZE + MAX_DIST)
  {
    hide Filled, HeadsOk, PrevOk, HeadsRecent, HashAt, KeyReady, MatchAt, AtRisk, Newest, RiskyLength, MatchPends;
    FilledFacts(d.window[..], d.base, d.reader.input, d.reader.pos);
    ghost var strstart, matchStart, base, at, end := d.strstart, d.matchStart, d.base, d.At(), d.reader.pos;
    if d.lookahead < MIN_LOOKAHEAD {
      d.FillWindow();
      FilledFacts(d.window[..], d.base, d.reader.input, d.reader.pos);
      if len >= MIN_MATCH {
        MatchMoved(d.reader.input, at, end, strstart, matchStart, m, len, d.reader.pos);
      }
      if d.base != base && 0 < d.lookahead < MIN_MATCH {
        SlidAtEnd(|d.reader.input|, base, strstart, d.lookahead);
      }
    }
  }
  /** The pending match is where it was, though its start may have wrapped around. */
  lemma MatchMoved(input: seq<Byte>, at: int, end: nat, strstart: nat, matchStart: nat, m: nat, len: nat, more: nat)
    requires MatchPends(input, at, end, strstart, matchStart, m, len) && end <= more
    requires strstart < U32 && matchStart < U32
    ensures MatchPends(input, at, more, strstart, matchStart, m, len)
    ensures strstart >= WSIZE ==>
              MatchPends(input, at, more, strstart - WSIZE, (matchStart + U32 - WSIZE) % U32, m, len)
  {
    hide MatchAt;
    if strstart >= WSIZE {
      SameDifference(strstart, matchStart);
    }
  }

  /** The loop that inserts the rest of a match, which starts one byte before strstart. */
  method InsertRest(d: DeflateState, hashHead0: nat, maxInsert: nat) returns (hashHead: nat)
    requires d.Tables() && HeadPlace(d, hashHead0) && d.prevLength >= 1
             && d.base + maxInsert + MIN_MATCH == d.reader.pos
    requires Hashed(d.ins, d.At(), d.reader.pos, true)
             && (d.At() + MIN_MATCH <= d.reader.pos ==> KeyReady(d.insH, d.reader.input, d.ins))
    modifies d`prevLength, d`strstart, d`insH, d`ins, d.prev, d.head
    ensures d.Tables() && HeadPlace(d, hashHead) && d.strstart == old(d.strstart + d.prevLength)
    ensures Hashed(d.ins, d.At(), d.reader.pos, true)
            && (d.At() + MIN_MATCH <= d.reader.pos ==> KeyReady(d.insH, d.reader.input, d.ins))
  {
    hide Filled, HeadsOk, PrevOk, HeadsRecent, HashAt, KeyReady, RiskyLength, Latest;
    hashHead := hashHead0;
    var going := true;
    while going
      invariant d.Tables() && HeadPlace(d, hashHead) && d.prevLength >= 0 && going == (d.prevLength > 0)
      invariant d.strstart + d.prevLength == old(d.strstart + d.prevLength)
      invariant Hashed(d.ins, d.At(), d.reader.pos, true)
      invariant d.At() + MIN_MATCH <= d.reader.pos ==> KeyReady(d.insH, d.reader.input, d.ins)
      decreases d.prevLength
    {
      d.strstart := d.strstart + 1;
      if d.strstart <= maxInsert {
        hashHead := InsertString(d, d.strstart);
      }
      d.prevLength := d.prevLength - 1;
      going := d.prevLength != 0;
    }
  }

  /** Moving past the pending match, whose first byte is already behind. */
  method PassMatch(d: DeflateState, hashHead0: nat, maxInsert: nat) returns (hashHead: nat)
    requires d.Valid() && HeadPlace(d, hashHead0) && MIN_MATCH <= d.prevLength <= d.lookahead + 1
    requires maxInsert == d.strstart + d.lookahead - MIN_MATCH
    requires Hashed(d.ins, d.At(), d.reader.pos, true)
             && (d.lookahead >= MIN_MATCH ==> KeyReady(d.insH, d.reader.input, d.ins))
    modifies d`prevLength, d`strstart, d`lookahead, d`insH, d`ins, d.prev, d.head
    ensures d.Valid() && HeadPlace(d, hashHead) && d.strstart == old(d.strstart + d.prevLength - 1) && Strings(d)
  {
    hide Filled, HeadsOk, PrevOk, HeadsRecent, HashAt, KeyReady, RiskyLength, Newest;
    d.lookahead := d.lookahead - (d.prevLength - 1);
    d.prevLength := d.prevLength - 2;
    hashHead := InsertRest(d, hashHead0, maxInsert);
    d.strstart := d.strstart + 1;
  }

  // ----- the tokens sent -----

  ghost function Mine(d: DeflateState): set<object> {
    {d, d.reader, d.window, d.prev, d.head}
  }

  /** The matcher and the sender share nothing. */
  ghost predicate Separate(d: DeflateState, s: BlockSender) {
    Mine(d) !! s.Repr() + {s.buf.tables.staticLtree, s.buf.tables.staticDtree}
  }

  /** Finished blocks stand for the input up to block_start, and the tokens of the current
      block for the input from there up to upto. */
  ghost predicate Sent(s: BlockSender, input: seq<Byte>, from: int, upto: int)
    reads s.Repr(), s.buf.tables.staticLtree, s.buf.tables.staticDtree
  {
    && s.Valid() && Covers(s.buf.tokens, input, from, upto) && Means(s.w.bits, input[..from]) && |s.w.bits| <= 12 * from
  }

  ghost predicate NotFull(s: BlockSender)
    reads s, s.buf
  {
    s.buf.lastLit < LIT_BUFSIZE - 1
  }

  /** ct_tally for the byte at upto. */
  method TallyLiteral(s: BlockSender, b: Byte, inLength: nat, ghost input: seq<Byte>, ghost from: int, ghost upto: int)
    returns (full: bool)
    requires Sent(s, input, from, upto) && NotFull(s) && upto < |input| && b == input[upto]
    modifies s.buf, s.buf.lBuf, s.buf.dBuf, s.buf.flagBuf, s.buf.dynLtree, s.buf.dynDtree
    ensures Sent(s, input, from, upto + 1) && (full || NotFull(s)) && (full ==> |s.buf.tokens| >= 0x1000)
  {
    hide Covers, Means, TokenBuffer.Valid, BitWriter.Valid;
    CoversLiteral(s.buf.tokens, input, from, upto, b);
    ValidParts(s);
    full := s.buf.Append(0, b, inLength);
    ValidParts(s);
  }

  /** ct_tally for a match at upto. */
  method TallyMatch(s: BlockSender, dist: nat, len: nat, inLength: nat, ghost input: seq<Byte>, ghost from: int,
                    ghost upto: int, ghost m: nat)
    returns (full: bool)
    requires Sent(s, input, from, upto) && NotFull(s) && 0 <= upto && MIN_MATCH <= len <= MAX_MATCH
    requires MatchAt(input, m, upto, len) && dist == upto - m
    modifies s.buf, s.buf.lBuf, s.buf.dBuf, s.buf.flagBuf, s.buf.dynLtree, s.buf.dynDtree
    ensures Sent(s, input, from, upto + len) && (full || NotFull(s)) && (full ==> |s.buf.tokens| >= 0x1000)
  {
    hide Covers, Means, TokenBuffer.Valid, BitWriter.Valid, MatchAt;
    CoversMatch(s.buf.tokens, input, from, upto, m, len);
    MatchFacts(input, m, upto, len);
    ValidParts(s);
    full := s.buf.Append(dist, len - MIN_MATCH, inLength);
    ValidParts(s);
  }

  lemma ValidParts(s: BlockSender)
    requires s.buf.Valid()
    ensures s.buf.lastLit < LIT_BUFSIZE
  {
  }

  /** While block_start is not negative the window still holds the whole block. */
  lemma BlockData(win: seq<Byte>, base: nat, input: seq<Byte>, end: nat, start: int, strstart: nat, tokens: seq<Token>)
    requires Filled(win, base, input, end) && base + strstart <= end
             && Covers(tokens, input, base + start, base + strstart)
    ensures 0 <= base + start <= base + strstart <= |input|
    ensures var out, data := input[..base + start], input[base + start..base + strstart];
            && |data| == strstart - start && out + data == input[..base + strstart]
            && Expands(tokens, out) && Expand(tokens, out) == out + data
            && (start >= 0 ==> strstart <= |win| && win[start..strstart] == data)
  {
    hide Expands, Expand;
    var data := input[base + start..base + strstart];
    if start >= 0 {
      assert win[start..strstart] == data by {
        forall i | 0 <= i < |data|
          ensures win[start..strstart][i] == data[i]
        {
          assert win[start + i] == input[base + (start + i)];
        }
      }
    }
  }

  /** The window is not among the sender's buffers. */
  lemma NotDisturbed(d: DeflateState, s: BlockSender)
    requires Separate(d, s)
    ensures d.window != s.w.outBuf && d.window != s.buf.flagBuf && Mine(d) !! s.Repr()
  {
    assert s.w.outBuf in s.Repr() && s.buf.flagBuf in s.Repr();
    assert d.window in Mine(d);
  }

  /** FLUSH_BLOCK(0), and the new start of the block. */
  method Flush(d: DeflateState, s: BlockSender)
    requires Separate(d, s) && d.Tables() && d.At() <= d.reader.pos && d.strstart < WINDOW_SIZE
    requires Sent(s, d.reader.input, d.base + d.blockStart, d.At()) && |s.buf.tokens| >= 0x1000
    modifies s.Repr(), d`blockStart
    ensures d.Tables() && d.blockStart == d.strstart
    ensures Sent(s, d.reader.input, d.base + d.blockStart, d.At()) && NotFull(s)
  {
    hide Filled, HeadsOk, PrevOk, HeadsRecent, Covers, Means, TokenBuffer.Valid, BitWriter.Valid, Encodes;
    ghost var input, from, at := d.reader.input, d.base + d.blockStart, d.At();
    ghost var bits := s.w.bits;
    BlockData(d.window[..], d.base, input, d.reader.pos, d.blockStart, d.strstart, s.buf.tokens);
    NotDisturbed(d, s);
    BlockGrows(s.buf, input, from, at);
    ghost var blk;
    var total;
    total, blk := s.FlushBlock(d.window, d.blockStart, d.strstart - d.blockStart, false, input[..from],
        input[from..at]);
    assert input[..from] + input[from..at] == input[..at];
    MeansMore(bits, input[..from], blk, input[..at]);
    CoversNothing(input, at);
    NothingBuffered(s);
    d.blockStart := d.strstart;
  }

  lemma BlockGrows(buf: TokenBuffer, input: seq<Byte>, from: int, upto: int)
    requires Covers(buf.tokens, input, from, upto) && buf.Valid()
    ensures upto - from >= |buf.tokens|
  {
    hide Expands, Expand;
    ExpandGrows(buf.tokens, input[..from]);
  }

  lemma NothingBuffered(s: BlockSender)
    requires s.buf.Valid() && s.buf.tokens == []
    ensures NotFull(s)
  {
  }

  /** FLUSH_BLOCK(1): the stream is complete, and its length is what is returned. */
  method FlushLast(d: DeflateState, s: BlockSender) returns (total: nat)
    requires Separate(d, s) && d.Tables() && d.At() <= d.reader.pos && d.strstart < WINDOW_SIZE
    requires Sent(s, d.reader.input, d.base + d.blockStart, d.At())
    modifies s.Repr()
    ensures d.At() <= |d.reader.input| && Decompress(s.w.written) == Some(d.reader.input[..d.At()])
    ensures total == |s.w.written| && 8 * total <= 12 * d.At() + 36
  {
    hide Filled, HeadsOk, PrevOk, HeadsRecent, Covers, Means, TokenBuffer.Valid, BitWriter.Valid, Encodes, Decompress,
         BytesBits, Zeros;
    ghost var input, from, at := d.reader.input, d.base + d.blockStart, d.At();
    ghost var bits := s.w.bits;
    BlockData(d.window[..], d.base, input, d.reader.pos, d.blockStart, d.strstart, s.buf.tokens);
    NotDisturbed(d, s);
    ghost var blk;
    total, blk := s.FlushBlock(d.window, d.blockStart, d.strstart - d.blockStart, true, input[..from], input[from..at]);
    MeansAll(bits, input[..from], blk, input[..at], s.w.written);
  }

  lemma SentFrom(s: BlockSender, input: seq<Byte>, from: int, upto: int)
    requires Sent(s, input, from, upto)
    ensures 0 <= from <= upto <= |input|
  {
  }

  /** The branch that outputs the pending match. */
  method EmitMatch(d: DeflateState, s: BlockSender, hashHead0: nat, prevMatch: nat, ghost m: nat)
    returns (hashHead: nat)
    requires Separate(d, s) && d.Valid() && HeadPlace(d, hashHead0) && MIN_MATCH <= d.prevLength <= MAX_MATCH
             && d.At() >= 1
    requires Hashed(d.ins, d.At(), d.reader.pos, true)
             && (d.lookahead >= MIN_MATCH ==> KeyReady(d.insH, d.reader.input, d.ins))
    requires MatchAt(d.reader.input, m, d.At() - 1, d.prevLength) && d.At() - 1 + d.prevLength <= d.reader.pos
    requires d.strstart >= 1 && d.strstart <= WINDOW_SIZE - MIN_LOOKAHEAD
             && (d.strstart + U32 - 1 - prevMatch) % U32 == d.At() - 1 - m
    requires Sent(s, d.reader.input, d.base + d.blockStart, d.At() - 1) && NotFull(s)
    modifies s.Repr(), d`prevLength, d`strstart, d`lookahead, d`insH, d`ins, d`blockStart, d.prev, d.head
    ensures d.Valid() && HeadPlace(d, hashHead) && d.At() == old(d.At() - 1 + d.prevLength)
            && 1 <= d.strstart <= WINDOW_SIZE - 5
    ensures Strings(d)
    ensures Sent(s, d.reader.input, d.base + d.blockStart, d.At()) && NotFull(s)
  {
    hide DeflateState.Tables, Covers, Means, TokenBuffer.Valid, BitWriter.Valid, MatchAt, HashAt, KeyReady, AtRisk,
         BlockSender.Valid, Sent, Hashed, Newest, RiskyLength, Strings, HeadPlace;
    SentFrom(s, d.reader.input, d.base + d.blockStart, d.At() - 1);
    ghost var input, from, upto, len := d.reader.input, d.base + d.blockStart, d.At() - 1, d.prevLength;
    var maxInsert := d.strstart + d.lookahead - MIN_MATCH;
    var flush := TallyMatch(s, (d.strstart + U32 - 1 - prevMatch) % U32, d.prevLength, d.strstart - d.blockStart, input,
        from, upto, m);
    hashHead := PassTallied(d, s, hashHead0, maxInsert, from, upto + len);
    FlushIf(d, s, flush, hashHead);
  }

  /** The strings of a match that has been tallied. */
  method PassTallied(d: DeflateState, s: BlockSender, hashHead0: nat, maxInsert: nat, ghost from: int, ghost upto: int)
    returns (hashHead: nat)
    requires Separate(d, s) && d.Valid() && HeadPlace(d, hashHead0) && MIN_MATCH <= d.prevLength <= d.lookahead + 1
    requires maxInsert == d.strstart + d.lookahead - MIN_MATCH
    requires Hashed(d.ins, d.At(), d.reader.pos, true)
             && (d.lookahead >= MIN_MATCH ==> KeyReady(d.insH, d.reader.input, d.ins))
    requires Sent(s, d.reader.input, from, upto)
    modifies d`prevLength, d`strstart, d`lookahead, d`insH, d`ins, d.prev, d.head
    ensures d.Valid() && HeadPlace(d, hashHead) && d.strstart == old(d.strstart + d.prevLength - 1) && Strings(d)
    ensures Sent(s, d.reader.input, from, upto)
  {
    hide DeflateState.Tables, KeyReady, Sent, Hashed, HeadPlace, Strings, BlockSender.Valid;
    hashHead := PassMatch(d, hashHead0, maxInsert);
  }

  /** FLUSH_BLOCK behind a match, if the buffer asked for it. */
  method FlushIf(d: DeflateState, s: BlockSender, flush: bool, ghost hashHead: nat)
    requires Separate(d, s) && d.Valid() && d.strstart < WINDOW_SIZE && HeadPlace(d, hashHead) && Strings(d)
    requires Sent(s, d.reader.input, d.base + d.blockStart, d.At())
    requires if flush then |s.buf.tokens| >= 0x1000 else NotFull(s)
    modifies s.Repr(), d`blockStart
    ensures d.Valid() && HeadPlace(d, hashHead) && Strings(d) && d.At() == old(d.At()) && d.strstart == old(d.strstart)
    ensures Sent(s, d.reader.input, d.base + d.blockStart, d.At()) && NotFull(s)
  {
    hide DeflateState.Tables, KeyReady, Sent, Hashed, Newest, BlockSender.Valid;
    if flush {
      Flush(d, s);
    }
  }

  // ----- the whole run -----

  /** How far behind strstart the tokens are: the pending byte, if there is one. */
  function Behind(matchAvailable: bool): nat {
    if matchAvailable then 1 else 0
  }

  /** What holds whenever the loop of deflate is entered. */
  ghost predicate Running(d: DeflateState, s: BlockSender, hashHead: nat, matchLength: nat, matchAvailable: bool,
                          m: nat)
    reads Mine(d), s.Repr(), s.buf.tables.staticLtree, s.buf.tables.staticDtree
  {
    && Separate(d, s) && d.Valid() && Strings(d) && Room(d) && HeadKnown(d, hashHead)
    && Pending(d, m, matchLength) && (matchLength >= MIN_MATCH ==> matchAvailable)
    && (matchAvailable ==> d.strstart >= 1)
    && Sent(s, d.reader.input, d.base + d.blockStart, d.At() - Behind(matchAvailable)) && NotFull(s)
    && (d.err ==> AtRisk(d.reader.input))
  }

  /** strstart++, lookahead-- */
  method PassByte(d: DeflateState)
    requires d.Valid() && d.lookahead > 0
    requires Hashed(d.ins, d.At(), d.reader.pos, true)
             && (d.lookahead >= MIN_MATCH ==> KeyReady(d.insH, d.reader.input, d.ins))
    modifies d`strstart, d`lookahead
    ensures d.Valid() && Strings(d) && d.strstart == old(d.strstart) + 1
  {
    hide Filled, HeadsOk, PrevOk, HeadsRecent, HashAt, KeyReady;
    d.strstart := d.strstart + 1;
    d.lookahead := d.lookahead - 1;
  }

  /** The branches without a match to output: at most one literal, and one byte further. */
  method EmitLiteral(d: DeflateState, s: BlockSender, matchAvailable: bool)
    requires Separate(d, s) && d.Valid() && d.lookahead > 0 && d.strstart <= WINDOW_SIZE - MIN_LOOKAHEAD
    requires Hashed(d.ins, d.At(), d.reader.pos, true)
             && (d.lookahead >= MIN_MATCH ==> KeyReady(d.insH, d.reader.input, d.ins))
    requires matchAvailable ==> d.strstart >= 1
    requires Sent(s, d.reader.input, d.base + d.blockStart, d.At() - Behind(matchAvailable)) && NotFull(s)
    modifies s.Repr(), d`blockStart, d`strstart, d`lookahead
    ensures d.Valid() && Strings(d) && d.strstart == old(d.strstart) + 1
    ensures Sent(s, d.reader.input, d.base + d.blockStart, d.At() - 1) && NotFull(s)
  {
    hide DeflateState.Tables, HashAt, KeyReady, Covers, Means, TokenBuffer.Valid, BitWriter.Valid, BlockSender.Valid,
         Sent, Hashed, Strings;
    if matchAvailable {
      EmitByte(d, s);
    }
    PassByte(d);
  }

  /** The byte before the current string becomes a literal. */
  method EmitByte(d: DeflateState, s: BlockSender)
    requires Separate(d, s) && d.Valid() && d.strstart <= WINDOW_SIZE - MIN_LOOKAHEAD && d.strstart >= 1
    requires Sent(s, d.reader.input, d.base + d.blockStart, d.At() - 1) && NotFull(s)
    modifies s.Repr(), d`blockStart
    ensures d.Valid() && d.At() == old(d.At())
    ensures Sent(s, d.reader.input, d.base + d.blockStart, d.At()) && NotFull(s)
  {
    hide DeflateState.Tables, Sent, BlockSender.Valid;
    LastByte(d, s);
    var full := TallyLiteral(s, d.window[d.strstart - 1], d.strstart - d.blockStart, d.reader.input,
        d.base + d.blockStart, d.At() - 1);
    if full {
      Flush(d, s);
    }
  }

  lemma LastByte(d: DeflateState, s: BlockSender)
    requires d.Valid() && d.strstart >= 1 && d.strstart <= WINDOW_SIZE
             && Sent(s, d.reader.input, d.base + d.blockStart, d.At() - 1)
    ensures d.strstart <= d.window.Length && d.At() - 1 < |d.reader.input|
            && d.window[d.strstart - 1] == d.reader.input[d.At() - 1] && d.strstart - d.blockStart >= 0
    ensures d.At() <= d.reader.pos
  {
    hide HeadsOk, PrevOk, HeadsRecent, BlockSender.Valid, Means;
    InputAt(d.window[..], d.base, d.reader.input, d.reader.pos, d.strstart - 1);
  }

  /** The same, with the match just found becoming the pending one. */
  method Postpone(d: DeflateState, s: BlockSender, matchAvailable: bool, matchLength: nat, ghost hashHead: nat)
    returns (ghost m: nat)
    requires Separate(d, s) && d.Valid() && HeadPlace(d, hashHead) && d.lookahead > 0
             && d.strstart <= WINDOW_SIZE - MIN_LOOKAHEAD
    requires Hashed(d.ins, d.At(), d.reader.pos, true)
             && (d.lookahead >= MIN_MATCH ==> KeyReady(d.insH, d.reader.input, d.ins))
    requires matchAvailable ==> d.strstart >= 1
    requires Sent(s, d.reader.input, d.base + d.blockStart, d.At() - Behind(matchAvailable)) && NotFull(s)
    requires 1 <= matchLength <= MAX_MATCH && (d.lookahead > 1 ==> matchLength >= 2)
    requires matchLength >= MIN_MATCH ==>
               0 < d.matchStart <= d.strstart && MatchAt(d.reader.input, d.base + d.matchStart, d.At(), matchLength)
               && d.At() + matchLength <= d.reader.pos
    modifies s.Repr(), d`blockStart, d`strstart, d`lookahead
    ensures d.Valid() && Strings(d) && d.strstart == old(d.strstart) + 1 && Pending(d, m, matchLength)
    ensures HeadPlace(d, hashHead) && d.At() == old(d.At()) + 1
    ensures Sent(s, d.reader.input, d.base + d.blockStart, d.At() - 1) && NotFull(s)
  {
    hide DeflateState.Tables, HashAt, KeyReady, Sent, BlockSender.Valid, MatchAt, Hashed, Strings;
    m := d.base + d.matchStart;
    EmitLiteral(d, s, matchAvailable);
  }

  /** Between the two parts of a turn: all is done but filling the window again. */
  ghost predicate Advanced(d: DeflateState, s: BlockSender, hashHead: nat, matchLength: nat, matchAvailable: bool,
                           m: nat)
    reads Mine(d), s.Repr(), s.buf.tables.staticLtree, s.buf.tables.staticDtree
  {
    && d.Valid() && Strings(d) && HeadPlace(d, hashHead) && Pending(d, m, matchLength)
    && (matchLength >= MIN_MATCH ==> matchAvailable)
    && 1 <= d.strstart <= WINDOW_SIZE - 5 && (d.lookahead < MIN_MATCH ==> d.eofile)
    && Sent(s, d.reader.input, d.base + d.blockStart, d.At() - Behind(matchAvailable)) && NotFull(s)
  }

  /** Either the pending match was passed, or one byte, in which case hash_head stays when no string is inserted. */
  twostate predicate Went(d: DeflateState, hashHead0: nat, hashHead: nat, matchLength0: nat)
    reads d, d.reader
  {
    || (matchLength0 >= MIN_MATCH && d.At() == old(d.At()) - 1 + matchLength0)
    || (d.At() == old(d.At()) + 1 && (old(d.lookahead) < MIN_MATCH ==> hashHead == hashHead0))
  }

  method Advance(d: DeflateState, s: BlockSender, hashHead0: nat, matchLength0: nat, matchAvailable0: bool,
                 ghost m0: nat)
    returns (hashHead: nat, matchLength: nat, matchAvailable: bool, ghost m: nat)
    requires Running(d, s, hashHead0, matchLength0, matchAvailable0, m0) && d.lookahead > 0
    modifies d, d.prev, d.head, s.Repr()
    ensures Advanced(d, s, hashHead, matchLength, matchAvailable, m) && d.base == old(d.base)
    ensures Went(d, hashHead0, hashHead, matchLength0) && d.At() > old(d.At())
    ensures d.err == (old(d.err) || old(NoFuture(d, hashHead0, matchLength0)))
  {
    hide DeflateState.Tables, HashAt, KeyReady, Covers, Means, TokenBuffer.Valid, BitWriter.Valid, BlockSender.Valid,
         MatchAt, AtRisk, Pending, Sent, Hashed, Strings, NoFuture, Newest, HeadKnown, HeadPlace;
    matchAvailable, m := matchAvailable0, m0;
    PendingFacts(d, m0, matchLength0);
    var prevMatch;
    hashHead, matchLength, prevMatch := FindMatch(d, hashHead0, matchLength0);
    if d.prevLength >= MIN_MATCH && matchLength <= d.prevLength {
      hashHead := EmitMatch(d, s, hashHead, prevMatch, m);
      matchAvailable, matchLength := false, MIN_MATCH - 1;
      NonePending(d, m);
    } else {
      m := Postpone(d, s, matchAvailable, matchLength, hashHead);
      matchAvailable := true;
    }
  }

  /** Near the end of the input, hash_head is where the last string of all was seen before. */
  ghost predicate Settled(d: DeflateState, base: nat, hashHead: nat)
    reads d, d.reader
  {
    var n := |d.reader.input|;
    0 < d.lookahead < MIN_MATCH && n > base + WSIZE && n >= MIN_MATCH ==> Newest(hashHead, base, d.reader.input, n - 3)
  }

  lemma HeadSettled(d: DeflateState, hashHead: nat)
    requires d.Valid() && Strings(d) && HeadPlace(d, hashHead) && (d.lookahead < MIN_MATCH ==> d.eofile)
    ensures Settled(d, d.base, hashHead)
    ensures d.lookahead < MIN_MATCH ==> d.reader.pos == |d.reader.input|
  {
    hide Filled, HeadsOk, PrevOk, HeadsRecent, HashAt;
  }

  /** One turn of the loop of deflate. */
  method Step(d: DeflateState, s: BlockSender, hashHead0: nat, matchLength0: nat, matchAvailable0: bool, ghost m0: nat)
    returns (hashHead: nat, matchLength: nat, matchAvailable: bool, ghost m: nat)
    requires Running(d, s, hashHead0, matchLength0, matchAvailable0, m0) && d.lookahead > 0
    modifies Mine(d), s.Repr()
    ensures Running(d, s, hashHead, matchLength, matchAvailable, m)
    ensures Went(d, hashHead0, hashHead, matchLength0) && d.At() > old(d.At())
    ensures d.base == old(d.base) || (d.base == old(d.base) + WSIZE && d.At() >= old(d.base) + WSIZE + MAX_DIST)
    ensures Settled(d, old(d.base), hashHead)
    ensures d.err == (old(d.err) || old(NoFuture(d, hashHead0, matchLength0)))
  {
    hide DeflateState.Tables, HashAt, KeyReady, Covers, Means, TokenBuffer.Valid, BitWriter.Valid, BlockSender.Valid,
         MatchAt, AtRisk, Pending, Sent, Hashed, Strings, NoFuture, Room, HeadKnown, HeadPlace, Newest, RiskyLength;
    AllRead(d);
    RiskOnly(d, hashHead0, matchLength0);
    hashHead, matchLength, matchAvailable, m := Advance(d, s, hashHead0, matchLength0, matchAvailable0, m0);
    HeadSettled(d, hashHead);
    Refill(d, hashHead, m, matchLength);
    AllRead(d);
  }

  lemma PendingFacts(d: DeflateState, m: nat, len: nat)
    requires Pending(d, m, len) && d.lookahead > 0
    ensures 2 <= len <= MAX_MATCH
    ensures len >= MIN_MATCH ==>
              && d.At() >= 1 && MatchAt(d.reader.input, m, d.At() - 1, len) && d.At() - 1 + len <= d.reader.pos
              && (d.strstart + U32 - 1 - d.matchStart) % U32 == d.At() - 1 - m
  {
    hide MatchAt;
  }

  lemma NonePending(d: DeflateState, m: nat)
    ensures Pending(d, m, MIN_MATCH - 1)
  {
  }

  lemma AllRead(d: DeflateState)
    requires d.Valid() && Room(d)
    ensures d.lookahead < MIN_LOOKAHEAD ==> d.reader.pos == |d.reader.input|
    ensures d.base % WSIZE == 0 && d.reader.pos <= |d.reader.input|
  {
    FilledFacts(d.window[..], d.base, d.reader.input, d.reader.pos);
    hide Filled, HeadsOk, PrevOk, HeadsRecent;
  }

  /** The chain can start at the current string only after a slide at the end of the input. */
  lemma RiskOnly(d: DeflateState, hashHead: nat, matchLength: nat)
    requires Strings(d) && HeadKnown(d, hashHead) && d.At() + d.lookahead == d.reader.pos && d.base % WSIZE == 0
    requires d.lookahead < MIN_LOOKAHEAD ==> d.reader.pos == |d.reader.input|
    ensures NoFuture(d, hashHead, matchLength) ==> AtRisk(d.reader.input)
  {
    hide HashAt;
    if NoFuture(d, hashHead, matchLength) {
      var input, p := d.reader.input, d.ins - 1;
      assert d.base + hashHead == d.At() > p;
      assert Stale(d, hashHead);
      var c := d.base - WSIZE + hashHead;
      assert p == |input| - 3 && c == d.At() - WSIZE;
      assert SeenLast(input, c, p);
      assert d.At() == |input| - 2 ==> |input| == d.base + d.strstart + 2 && d.strstart >= MAX_DIST;
    }
  }

  /** The hash table, emptied. */
  method ClearHead(head: array<nat>)
    requires head.Length == HASH_SIZE
    modifies head
    ensures forall h {:trigger head[h]} :: 0 <= h < HASH_SIZE ==> head[h] == NIL
  {
    var n := 0;
    while n < HASH_SIZE
      invariant 0 <= n <= HASH_SIZE && forall h {:trigger head[h]} :: 0 <= h < n ==> head[h] == NIL
    {
      head[n] := NIL;
      n := n + 1;
    }
  }

  /** lm_init */
  method LmInit(d: DeflateState)
    requires d.Shape() && d.reader.pos == 0 && d.matchStart < U32
    modifies Mine(d)
    ensures d.Valid() && Strings(d) && Room(d) && d.At() == 0 && d.blockStart == 0 && d.strstart == 0
    ensures d.err == old(d.err)
  {
    hide HashAt, Roll, Filled, HeadsOk, PrevOk, HeadsRecent;
    ClearHead(d.head);
    d.niceMatch := NICE_MATCH;
    d.strstart, d.blockStart, d.base, d.ins := 0, 0, 0, 0;
    ghost var win := d.window[..];
    EmptyChains(d.head[..], d.prev[..], win, d.reader.input);
    d.lookahead := d.reader.Read(d.window, 0, WINDOW_SIZE);
    ReadMore(win, d.window[..], 0, d.reader.input, 0, d.lookahead);
    if d.lookahead == 0 {
      d.eofile := true;
      return;
    }
    d.eofile := false;
    Reading(d);
  }

  lemma EmptyChains(head: seq<nat>, prev: seq<nat>, win: seq<Byte>, input: seq<Byte>)
    requires |head| == HASH_SIZE && |prev| == WSIZE && |win| == WINDOW_SIZE && forall h {:trigger head[h]} ::
               0 <= h < HASH_SIZE ==> head[h] == NIL
    ensures HeadsOk(head, 0, input, 0) && HeadsRecent(head, 0, input, 0) && PrevOk(prev, 0, input, 0)
            && Filled(win, 0, input, 0)
  {
  }

  method Reading(d: DeflateState)
    requires d.Valid() && d.strstart == d.base == d.blockStart == d.ins == 0 && d.lookahead > 0 && !d.eofile
    modifies Mine(d)
    ensures d.Valid() && Strings(d) && Room(d) && d.At() == 0 && d.blockStart == 0 && d.strstart == 0
    ensures d.err == old(d.err)
  {
    hide HashAt, Roll, HeadsOk, PrevOk, HeadsRecent, Filled;
    if d.lookahead < MIN_LOOKAHEAD {
      d.FillWindow();
    }
    d.insH := 0;
    var j := 0;
    ghost var input := d.reader.input;
    while j < MIN_MATCH - 1
      invariant 0 <= j <= 2 && d.Valid()
      invariant d.insH == (if j == 0 then 0
                           else if j == 1 then Roll(0, d.window[0]) else Roll(Roll(0, d.window[0]), d.window[1]))
      modifies d`insH
    {
      d.insH := Roll(d.insH, d.window[j]);
      j := j + 1;
    }
    if d.lookahead >= MIN_MATCH {
      InputAt(d.window[..], d.base, input, d.reader.pos, 0);
      InputAt(d.window[..], d.base, input, d.reader.pos, 1);
      KeyStarts(0, input, 0);
    }
  }

  ghost function SpotOf(d: DeflateState, hashHead: nat, matchLength: nat, m: nat): Spot
    reads d
  {
    Spot(d.At(), d.base, d.lookahead, hashHead, matchLength, m, d.err)
  }

  lemma SpotPossible(d: DeflateState, s: BlockSender, hashHead: nat, matchLength: nat, matchAvailable: bool, m: nat)
    requires Running(d, s, hashHead, matchLength, matchAvailable, m)
    ensures d.At() <= |d.reader.input|
    ensures SpotOf(d, hashHead, matchLength, m).Possible(d.reader.input)
  {
    hide MatchAt, HeadsOk, PrevOk, HeadsRecent, Sent, Strings, HeadKnown;
  }

  lemma FutureKnown(d: DeflateState, hashHead: nat, matchLength: nat)
    requires d.lookahead > 0
    ensures NoFuture(d, hashHead, matchLength) == SpotOf(d, hashHead, matchLength, 0).Alarm()
  {
  }

  /** A turn of the loop, and what it means for an input that is going to be caught. */
  method Turn(d: DeflateState, s: BlockSender, hashHead0: nat, matchLength0: nat, matchAvailable0: bool, ghost m0: nat)
    returns (hashHead: nat, matchLength: nat, matchAvailable: bool, ghost m: nat)
    requires Running(d, s, hashHead0, matchLength0, matchAvailable0, m0) && d.lookahead > 0
    requires Caught(d.reader.input) ==> Approaching(d.reader.input, SpotOf(d, hashHead0, matchLength0, m0))
    modifies Mine(d), s.Repr()
    ensures Running(d, s, hashHead, matchLength, matchAvailable, m)
    ensures old(d.At()) < d.At() <= |d.reader.input|
    ensures Caught(d.reader.input) ==> Approaching(d.reader.input, SpotOf(d, hashHead, matchLength, m))
  {
    hide Running, Newest, NoFuture, Spot.Possible, Approaching, Caught;
    ghost var a := SpotOf(d, hashHead0, matchLength0, m0);
    SpotPossible(d, s, hashHead0, matchLength0, matchAvailable0, m0);
    FutureKnown(d, hashHead0, matchLength0);
    hashHead, matchLength, matchAvailable, m := Step(d, s, hashHead0, matchLength0, matchAvailable0, m0);
    SpotPossible(d, s, hashHead, matchLength, matchAvailable, m);
    if Caught(d.reader.input) {
      StaleStep(d.reader.input, a, SpotOf(d, hashHead, matchLength, m));
    }
  }

  /** The most bytes n bytes of input are turned into: twelve bits a byte, and what the last block may add. */
  function MostBytes(n: nat): nat {
    (12 * n + 36) / 8
  }

  /** deflate: whatever the input and however it is delivered, the bytes handed over decode to
      the input, and their number is what is returned. The error flag can only be raised for
      inputs at risk, and then wrongly. */
  method Deflate(d: DeflateState, s: BlockSender) returns (total: nat)
    requires Separate(d, s) && d.Valid() && Strings(d) && Room(d) && d.At() == 0 && d.strstart == d.blockStart == 0
             && !d.err
    requires s.Valid() && s.w.bits == [] && s.buf.tokens == []
    modifies Mine(d), s.Repr()
    ensures Decompress(s.w.written) == Some(d.reader.input) && total == |s.w.written| <= MostBytes(|d.reader.input|)
    ensures d.err ==> AtRisk(d.reader.input)
    ensures Caught(d.reader.input) ==> d.err
  {
    hide DeflateState.Tables, HashAt, KeyReady, Covers, Means, TokenBuffer.Valid, BitWriter.Valid, BlockSender.Valid,
         MatchAt, AtRisk, Decompress, Running, Newest, NoFuture, Spot.Possible, Caught, SeenLast;
    var hashHead: nat, matchLength: nat, matchAvailable := NIL, MIN_MATCH - 1, false;
    ghost var m := 0;
    ghost var input := d.reader.input;
    AtStart(d, s);
    AllApproach(input, SpotOf(d, hashHead, matchLength, m));
    while d.lookahead != 0
      invariant Running(d, s, hashHead, matchLength, matchAvailable, m) && d.At() <= |input|
      invariant Caught(input) ==> Approaching(input, SpotOf(d, hashHead, matchLength, m))
      decreases |input| - d.At()
    {
      hashHead, matchLength, matchAvailable, m := Turn(d, s, hashHead, matchLength, matchAvailable, m);
    }
    AtEnd(d, s, hashHead, matchLength, matchAvailable, m);
    total := Finish(d, s, matchAvailable);
  }

  /** What is left when the input has been read: the byte still pending, and the last block. */
  method Finish(d: DeflateState, s: BlockSender, matchAvailable: bool) returns (total: nat)
    requires Separate(d, s) && d.Valid() && d.At() == d.reader.pos == |d.reader.input| && d.strstart < WINDOW_SIZE
    requires (matchAvailable ==> d.strstart >= 1) && NotFull(s)
    requires Sent(s, d.reader.input, d.base + d.blockStart, d.At() - Behind(matchAvailable))
    modifies s.Repr(), d`blockStart
    ensures Decompress(s.w.written) == Some(d.reader.input) && total == |s.w.written| <= MostBytes(|d.reader.input|)
  {
    hide DeflateState.Tables, Decompress, Sent, BlockSender.Valid;
    if matchAvailable {
      LastByte(d, s);
      var full := TallyLiteral(s, d.window[d.strstart - 1], d.strstart - d.blockStart, d.reader.input,
          d.base + d.blockStart, d.At() - 1);
    }
    total := FlushLast(d, s);
    assert d.reader.input[..|d.reader.input|] == d.reader.input;
  }

  lemma AtStart(d: DeflateState, s: BlockSender)
    requires Separate(d, s) && d.Valid() && Strings(d) && Room(d) && d.At() == 0 && d.strstart == d.blockStart == 0
             && !d.err
    requires s.Valid() && s.w.bits == [] && s.buf.tokens == []
    ensures Running(d, s, NIL, MIN_MATCH - 1, false, 0)
  {
    hide HeadsOk, PrevOk, HeadsRecent, HashAt, KeyReady, BlockSender.Valid, MatchAt, Means, AtRisk;
    CoversNothing(d.reader.input, 0);
    NothingMeansNothing();
    ValidBuffer(s);
    NothingBuffered(s);
  }

  lemma ValidBuffer(s: BlockSender)
    requires s.Valid()
    ensures s.buf.Valid()
  {
  }

  lemma AtEnd(d: DeflateState, s: BlockSender, hashHead: nat, matchLength: nat, matchAvailable: bool, m: nat)
    requires Running(d, s, hashHead, matchLength, matchAvailable, m) && d.lookahead == 0
    ensures Separate(d, s) && d.Valid() && d.At() == d.reader.pos == |d.reader.input| && d.strstart < WINDOW_SIZE
    ensures (matchAvailable ==> d.strstart >= 1) && NotFull(s) && (d.err ==> AtRisk(d.reader.input))
    ensures Sent(s, d.reader.input, d.base + d.blockStart, d.At() - Behind(matchAvailable))
  {
  }

  /** ideflate: everything set up from scratch. */
  method Compress(input: seq<Byte>, chunks: nat -> nat, bufferSize: nat)
    returns (written: seq<Byte>, csize: nat, err: bool)
    requires bufferSize >= 2
    ensures Decompress(written) == Some(input) && csize == |written| <= MostBytes(|input|)
    ensures err ==> AtRisk(input)
    ensures Caught(input) ==> err
  {
    hide AtRisk, Caught, Decompress, Strings, BlockSender.Valid;
    var reader := new Reader(input, chunks);
    var d := new DeflateState(reader);
    var s := new BlockSender(bufferSize);
    LmInit(d);
    csize := Deflate(d, s);
    written, err := s.w.written, d.err;
  }
}
