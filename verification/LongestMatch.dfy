/** longest_match: walking a hash chain for a longer match than the one pending. */
module LongestMatch {
  import opened BitStrings
  import opened Hashing
  import opened Tokens
  import opened TokenBuffer
  import opened Window

  // the last but one row of configuration_table, level 8
  const GOOD_MATCH: nat := 32
  const MAX_LAZY: nat := 128
  const NICE_MATCH: nat := 258
  const MAX_CHAIN: nat := 1024

  predicate Agree(s: seq<Byte>, m: nat, at: nat, i: nat)
    requires m + i < |s| && at + i < |s|
  {
    s[m + i] == s[at + i]
  }

  /** Input from position at repeats what is at the earlier position m, for len bytes. */
  ghost predicate MatchAt(input: seq<Byte>, m: nat, at: nat, len: nat) {
    && m < at <= m + MAX_DIST && at + len <= |input|
    && forall i {:trigger Agree(input, m, at, i)} :: 0 <= i < len ==> Agree(input, m, at, i)
  }

  /** c is a window index worth looking at: near enough, with a link of its own; and, unless the
      input is about to end, the start of an older string with the hash of the current one. */
  ghost predicate Candidate(c: nat, base: nat, input: seq<Byte>, ins: nat, at: nat, lookahead: nat) {
    && NIL < c && base + c <= at <= base + c + MAX_DIST
    && (base + c < ins || base >= WSIZE)
    && (lookahead >= MIN_MATCH ==> base + c < at && at + 2 < |input| && HashAt(input, base + c) == HashAt(input, at))
  }

  /** Strings are inserted up to the current one, or as far as there are three bytes. */
  ghost predicate Hashed(ins: nat, at: nat, end: nat, inserted: bool) {
    if at + MIN_MATCH <= end then ins == (if inserted then at + 1 else at) else ins <= at && end <= ins + 2
  }

  /** Following a link leads to a strictly older candidate, or out of reach. */
  lemma ChainNext(prev: seq<nat>, c: nat, base: nat, input: seq<Byte>, ins: nat, at: nat, end: nat)
    requires PrevOk(prev, base, input, ins) && base % WSIZE == 0 && base <= at < end <= |input|
             && Hashed(ins, at, end, true)
    requires Candidate(c, base, input, ins, at, end - at)
    ensures var v := prev[Slot(c)];
            v != NIL && at <= base + v + MAX_DIST ==>
              v < c && base + v < at && Candidate(v, base, input, ins, at, end - at)
  {
    hide HashAt, Slot;
    SlotOfIndex(base, c);
    var p: nat := if base + c < ins then base + c else base + c - WSIZE;
    assert p < ins <= p + WSIZE;
    assert Link(prev[Slot(p)], base, input, p);
  }

  /** The comparison loop: byte 2 is skipped, and the end is checked every eighth byte. */
  method Compare(window: array<Byte>, scan: nat, from: nat) returns (len: nat)
    requires scan + MAX_MATCH < window.Length && from + MAX_MATCH < window.Length
    ensures MIN_MATCH <= len <= MAX_MATCH
    ensures forall i {:trigger Agree(window[..], from, scan, i)} :: 3 <= i < len ==> Agree(window[..], from, scan, i)
    ensures len < MAX_MATCH ==> window[from + len] != window[scan + len]
  {
    var k, same := 2, true;
    ghost var w := window[..];
    while same && k < MAX_MATCH
      invariant 2 <= k <= MAX_MATCH && (same ==> (k - 2) % 8 == 0)
                && (!same ==> k >= 3 && window[from + k] != window[scan + k])
      invariant forall i {:trigger Agree(w, from, scan, i)} :: 3 <= i < k ==> Agree(w, from, scan, i)
      invariant same && k > 2 ==> Agree(w, from, scan, k)
      decreases MAX_MATCH - k, same
    {
      ghost var k0 := k;
      var j := 0;
      while j < 8 && same
        invariant 0 <= j <= 8 && k == k0 + j && (!same ==> j > 0 && window[from + k] != window[scan + k])
        invariant forall i {:trigger Agree(w, from, scan, i)} :: 3 <= i < k ==> Agree(w, from, scan, i)
        invariant same && k > 2 ==> Agree(w, from, scan, k)
        decreases 8 - j
      {
        k, j := k + 1, j + 1;
        same := window[scan + k] == window[from + k];
      }
    }
    len := k;
  }

  function Min(a: nat, b: nat): nat {
    if a <= b then a else b
  }

  /** What the comparisons establish, cut to the bytes that are input. */
  lemma Found(win: seq<Byte>, c: nat, s: nat, base: nat, input: seq<Byte>, ins: nat, at: nat, end: nat, len: nat)
    requires Filled(win, base, input, end) && base + s == at < end && Candidate(c, base, input, ins, at, end - at)
    requires MIN_MATCH <= len && s + len <= |win| && c + len <= |win| && end - at >= MIN_MATCH
    requires win[c] == win[s] && win[c + 1] == win[s + 1]
    requires forall i {:trigger Agree(win, c, s, i)} :: 3 <= i < len ==> Agree(win, c, s, i)
    ensures MatchAt(input, base + c, at, Min(len, end - at))
  {
    hide HashAt;
    var m := base + c;
    assert win[s] == input[base + s] && win[s + 1] == input[base + (s + 1)] && win[c] == input[base + c]
           && win[c + 1] == input[base + (c + 1)];
    SameThird(input, m, at);
    forall i {:trigger Agree(input, m, at, i)} | 0 <= i < Min(len, end - at)
      ensures Agree(input, m, at, i)
    {
      if i >= 3 {
        assert Agree(win, c, s, i);
        assert win[c + i] == input[base + (c + i)] && win[s + i] == input[base + (s + i)];
      }
    }
  }

  /** What longest_match reports: nothing better than what is pending, or a true match. */
  ghost predicate Reported(start: nat, best: nat, prevLength: nat, base: nat, input: seq<Byte>, at: nat, end: nat) {
    best > prevLength && at + MIN_MATCH <= end ==> MatchAt(input, base + start, at, Min(best, end - at))
  }

  lemma NothingBetter(start: nat, prevLength: nat, base: nat, input: seq<Byte>, at: nat, end: nat)
    requires at < end
    ensures Reported(start, prevLength, prevLength, base, input, at, end)
  {
  }

  lemma BetterFound(start: nat, best: nat, prevLength: nat, base: nat, input: seq<Byte>, at: nat, end: nat)
    requires at < end && (at + MIN_MATCH <= end ==> MatchAt(input, base + start, at, Min(best, end - at)))
    ensures Reported(start, best, prevLength, base, input, at, end)
  {
  }

  /** One turn of the loop: the length of the match with the string at c, when its ends and its start agree. */
  method Examine(d: DeflateState, c: nat, bestLen: nat, scanEnd1: Byte, scanEnd: Byte) returns (len: nat)
    requires d.Valid() && 2 <= bestLen <= MAX_MATCH && d.strstart <= WINDOW_SIZE - MIN_LOOKAHEAD && d.lookahead > 0
    requires Candidate(c, d.base, d.reader.input, d.ins, d.At(), d.lookahead)
    ensures len <= MAX_MATCH
    ensures len > bestLen && d.At() + MIN_MATCH <= d.reader.pos ==>
              MatchAt(d.reader.input, d.base + c, d.At(), Min(len, d.reader.pos - d.At()))
  {
    hide Filled, HeadsOk, PrevOk, HeadsRecent, Candidate, MatchAt;
    var scan := d.strstart;
    ghost var win, base, input, ins, at, end := d.window[..], d.base, d.reader.input, d.ins, d.At(), d.reader.pos;
    FilledFacts(win, base, input, end);
    CandidateFacts(c, base, input, ins, at, d.lookahead);
    if d.window[c + bestLen] != scanEnd || d.window[c + bestLen - 1] != scanEnd1
       || d.window[c] != d.window[scan] || d.window[c + 1] != d.window[scan + 1]
    {
      return 0;
    }
    len := Compare(d.window, scan, c);
    assert d.window[..] == win;
    if d.lookahead >= MIN_MATCH {
      Found(win, c, scan, base, input, ins, at, end, len);
    }
  }

  /** longest_match. The only assertion of the source that can fail is "no future", when the
      chain starts at the current string itself. */
  method Search(d: DeflateState, curMatch: nat) returns (bestLen: nat)
    requires d.Valid() && 2 <= d.prevLength <= MAX_MATCH && d.strstart <= WINDOW_SIZE - MIN_LOOKAHEAD && d.lookahead > 0
    requires Candidate(curMatch, d.base, d.reader.input, d.ins, d.At(), d.lookahead)
    requires Hashed(d.ins, d.At(), d.reader.pos, true)
    modifies d`matchStart, d`err
    ensures d.Valid() && d.prevLength <= bestLen <= MAX_MATCH
    ensures Reported(d.matchStart, bestLen, d.prevLength, d.base, d.reader.input, d.At(), d.reader.pos)
    ensures bestLen > d.prevLength ==> 0 < d.matchStart <= d.strstart
    ensures d.err == (old(d.err) || curMatch == d.strstart)
  {
    hide Filled, HeadsOk, PrevOk, HeadsRecent, Candidate, MatchAt, Hashed, Reported;
    var start, err;
    bestLen, start, err := Walk(d, curMatch);
    d.matchStart, d.err := start, err;
  }

  /** The walk along the chain. */
  method Walk(d: DeflateState, curMatch: nat) returns (bestLen: nat, start: nat, err: bool)
    requires d.Valid() && 2 <= d.prevLength <= MAX_MATCH && d.strstart <= WINDOW_SIZE - MIN_LOOKAHEAD && d.lookahead > 0
    requires Candidate(curMatch, d.base, d.reader.input, d.ins, d.At(), d.lookahead)
    requires Hashed(d.ins, d.At(), d.reader.pos, true)
    ensures d.prevLength <= bestLen <= MAX_MATCH && start < U32
    ensures Reported(start, bestLen, d.prevLength, d.base, d.reader.input, d.At(), d.reader.pos)
    ensures bestLen > d.prevLength ==> 0 < start <= d.strstart
    ensures err == (d.err || curMatch == d.strstart)
  {
    hide Filled, HeadsOk, PrevOk, HeadsRecent, Candidate, MatchAt, Hashed, Slot, Min, Reported, DeflateState.Tables;
    TablesHold(d);
    ghost var win, base, input, ins, at, end := d.window[..], d.base, d.reader.input, d.ins, d.At(), d.reader.pos;
    FilledFacts(win, base, input, end);
    CandidateFacts(curMatch, base, input, ins, at, d.lookahead);
    NothingBetter(d.matchStart, d.prevLength, base, input, at, end);
    var chainLength := MAX_CHAIN;
    var scan := d.strstart;
    bestLen := d.prevLength;
    var limit := if d.strstart > MAX_DIST then d.strstart - MAX_DIST else NIL;
    var scanEnd1, scanEnd := d.window[scan + bestLen - 1], d.window[scan + bestLen];
    if d.prevLength >= GOOD_MATCH {
      chainLength := chainLength / 4;
    }
    var cur: nat, going := curMatch, true;
    start, err := d.matchStart, d.err;
    while going
      invariant d.prevLength <= bestLen <= MAX_MATCH
      invariant Reported(start, bestLen, d.prevLength, base, input, at, end)
      invariant start < U32 && (bestLen > d.prevLength ==> 0 < start <= scan)
      invariant going ==> Candidate(cur, base, input, ins, at, d.lookahead) && cur <= scan
      invariant if going && cur == curMatch then err == d.err else err == (d.err || curMatch == scan)
      invariant (going && cur != curMatch ==> cur < scan) && (going ==> chainLength >= 1)
      decreases going, cur
    {
      CandidateFacts(cur, base, input, ins, at, d.lookahead);
      if !(cur < scan) {
        err := true; // "no future"
      }
      var len := Examine(d, cur, bestLen, scanEnd1, scanEnd);
      if len > bestLen {
        BetterFound(cur, len, d.prevLength, base, input, at, end);
        start := cur;
        bestLen := len;
        if len >= d.niceMatch {
          break;
        }
        scanEnd1, scanEnd := d.window[scan + bestLen - 1], d.window[scan + bestLen];
      }
      ChainNext(d.prev[..], cur, base, input, ins, at, end);
      var next := d.prev[Slot(cur)];
      if next > limit {
        chainLength := chainLength - 1;
        going := chainLength != 0;
      } else {
        going := false;
      }
      cur := next;
    }
  }

  lemma TablesHold(d: DeflateState)
    requires d.Valid()
    ensures d.window.Length == WINDOW_SIZE && d.prev.Length == WSIZE && d.matchStart < U32
    ensures Filled(d.window[..], d.base, d.reader.input, d.reader.pos)
    ensures PrevOk(d.prev[..], d.base, d.reader.input, d.ins)
  {
  }

  lemma CandidateFacts(c: nat, base: nat, input: seq<Byte>, ins: nat, at: nat, lookahead: nat)
    requires Candidate(c, base, input, ins, at, lookahead)
    ensures NIL < c && base + c <= at <= base + c + MAX_DIST && (lookahead >= MIN_MATCH ==> base + c < at)
  {
  }
}
