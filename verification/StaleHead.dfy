/** When deflate raises its error flag although its output is right: at the end of the input the window slides after
    the last string was inserted, hash_head is not moved with it, and the chain seems to start at the current string
    itself. */
module StaleHead {
  import opened BitStrings
  import opened Hashing
  import opened Tokens
  import opened TokenBuffer
  import opened Window
  import opened LongestMatch

  /** Input lengths at which a slide can happen between the last insertion and the last byte. */
  predicate RiskyLength(n: nat) {
    n > WSIZE + MAX_DIST && MAX_DIST < n % WSIZE <= WSIZE - MIN_MATCH
  }

  /** The newest string before p with the hash of p starts at c. */
  ghost predicate SeenLast(input: seq<Byte>, c: int, p: int) {
    && 0 <= c < p && p + 2 < |input| && HashAt(input, c) == HashAt(input, p)
    && forall q: nat {:trigger HashAt(input, q)} :: c < q < p ==> HashAt(input, q) != HashAt(input, p)
  }

  /** Inputs of such a length whose last three bytes have a hash last seen exactly a window before the last byte;
      or before the last byte but one, unless the window cannot slide before the last. */
  ghost predicate AtRisk(input: seq<Byte>) {
    var n := |input|;
    RiskyLength(n)
    && (SeenLast(input, n - 1 - WSIZE, n - 3) || (n % WSIZE > MAX_DIST + 1 && SeenLast(input, n - 2 - WSIZE, n - 3)))
  }

  /** Inputs for which it is certain: the window slides before one of the last two bytes, and the last three bytes
      have a hash last seen exactly a window before the last byte. */
  ghost predicate Caught(input: seq<Byte>) {
    var n := |input|;
    n > WSIZE + MAX_DIST && MAX_DIST < n % WSIZE <= MAX_DIST + 2 && SeenLast(input, n - 1 - WSIZE, n - 3)
  }

  /** If the window slides before the last byte, there is nothing between. */
  lemma RiskDecided(input: seq<Byte>)
    requires |input| % WSIZE == MAX_DIST + 1
    ensures AtRisk(input) <==> Caught(input)
  {
  }

  lemma SameHash(input: seq<Byte>, m: nat, at: nat, len: nat)
    requires MatchAt(input, m, at, len) && len >= MIN_MATCH
    ensures HashAt(input, m + len - 3) == HashAt(input, at + len - 3)
  {
    hide Roll;
    assert Agree(input, m, at, len - 3) && Agree(input, m, at, len - 2) && Agree(input, m, at, len - 1);
  }

  /** No match reaches the end of such an input, since its last three bytes are too far from the place before. */
  lemma NoMatchToEnd(input: seq<Byte>, m: nat, at: nat, len: nat)
    requires Caught(input) && MatchAt(input, m, at, len) && len >= MIN_MATCH
    ensures at + len < |input|
  {
    hide HashAt;
    SameHash(input, m, at, len);
  }

  lemma SeenFrom(input: seq<Byte>, v: nat, base: nat)
    requires Caught(input) && base < |input| - 1 - WSIZE && Newest(v, base, input, |input| - 3)
    ensures base + v == |input| - 1 - WSIZE
  {
    hide HashAt;
  }

  /** A state of the run, as far as it matters here. */
  datatype Spot = Spot(at: nat, base: nat, lookahead: nat, hashHead: nat, matchLength: nat, m: nat, err: bool) {
    ghost predicate Possible(input: seq<Byte>) {
      && at + lookahead <= |input| && base % WSIZE == 0 && at <= base + WSIZE + MAX_DIST && matchLength <= MAX_MATCH
      && (matchLength >= MIN_MATCH ==> at >= 1 && MatchAt(input, m, at - 1, matchLength))
      && (lookahead < MIN_LOOKAHEAD ==> at + lookahead == |input| && at < base + WSIZE + MAX_DIST)
    }

    /** hash_head is about to go to longest_match, and is the current string. */
    predicate Alarm() {
      0 < lookahead < MIN_MATCH && hashHead != NIL && base + hashHead == at && matchLength < MAX_LAZY
    }
  }

  /** Where the window starts before its last slide. */
  function LastBase(n: nat): int {
    n - n % WSIZE - WSIZE
  }

  /** Wherever the run is, it is on its way to raising the flag. */
  ghost predicate Approaching(input: seq<Byte>, a: Spot) {
    var n, b := |input|, LastBase(|input|);
    a.err || (a.at <= n - 3 && a.base <= b)
    || (n - 2 <= a.at <= n - 1 && a.base == (if a.at < b + WSIZE + MAX_DIST then b else b + WSIZE)
        && b + a.hashHead == n - 1 - WSIZE)
  }

  lemma AllApproach(input: seq<Byte>, a: Spot)
    requires a.at == a.base == 0
    ensures Caught(input) ==> Approaching(input, a)
  {
    hide SeenLast;
  }

  /** One turn from a to b. */
  ghost predicate OneTurn(input: seq<Byte>, a: Spot, b: Spot) {
    && a.lookahead > 0
    && ((a.matchLength >= MIN_MATCH && b.at == a.at - 1 + a.matchLength)
        || (b.at == a.at + 1 && (a.lookahead < MIN_MATCH ==> b.hashHead == a.hashHead)))
    && (b.base == a.base || (b.base == a.base + WSIZE && b.at >= a.base + WSIZE + MAX_DIST))
    && (0 < b.lookahead < MIN_MATCH && |input| > a.base + WSIZE && |input| >= MIN_MATCH ==>
          Newest(b.hashHead, a.base, input, |input| - 3))
    && (a.err || a.Alarm() ==> b.err)
  }

  lemma StaleStep(input: seq<Byte>, a: Spot, b: Spot)
    requires Caught(input) && a.Possible(input) && b.Possible(input) && OneTurn(input, a, b) && Approaching(input, a)
    ensures Approaching(input, b)
  {
    hide MatchAt, Newest, SeenLast;
    var n, last := |input|, LastBase(|input|);
    if a.matchLength >= MIN_MATCH {
      NoMatchToEnd(input, a.m, a.at - 1, a.matchLength);
    }
    if b.matchLength >= MIN_MATCH {
      NoMatchToEnd(input, b.m, b.at - 1, b.matchLength);
    }
    if !a.err && a.at <= n - 3 && n - 2 <= b.at < n {
      assert a.base == last;
      SeenFrom(input, b.hashHead, a.base);
    }
  }

  // ----- such an input -----

  /** The last three bytes, and where they occurred before: 32766 bytes earlier. */
  const LAST: nat := 65272
  const BEFORE: nat := 32506

  function StaleByte(i: int): Byte {
    if i == BEFORE || i == LAST then 1
    else if i == BEFORE + 1 || i == LAST + 1 then 2
    else if i == BEFORE + 2 || i == LAST + 2 then 3
    else 0
  }

  function StaleInput(): (s: seq<Byte>)
    ensures |s| == LAST + 3
  {
    seq(LAST + 3, i => StaleByte(i))
  }

  lemma {:induction false} XorZero(h: nat)
    ensures Xor(h, 0) == h
  {
    if h > 0 {
      XorZero(h / 2);
    }
  }

  lemma RollSmall(h: nat, c: Byte)
    requires h < 1024 && c < 32
    ensures Roll(h, c) == 32 * h + c
  {
    hide Xor;
    XorShifted(h, c);
    XorZero(h);
  }

  /** Bytes below 32 do not collide. */
  lemma SmallHash(s: seq<Byte>, p: nat)
    requires p + 2 < |s| && s[p] < 32 && s[p + 1] < 32 && s[p + 2] < 32
    ensures HashAt(s, p) == 1024 * (s[p] as int) + 32 * (s[p + 1] as int) + s[p + 2] as int
  {
    hide Roll;
    RollSmall(0, s[p]);
    RollSmall(s[p], s[p + 1]);
    RollSmall(32 * (s[p] as int) + s[p + 1] as int, s[p + 2]);
  }

  lemma StaleHash(p: nat)
    requires p + 2 < LAST + 3
    ensures HashAt(StaleInput(), p)
            == 1024 * (StaleByte(p) as int) + 32 * (StaleByte(p + 1) as int) + StaleByte(p + 2) as int
  {
    SmallHash(StaleInput(), p);
  }

  /** The only earlier string with the hash of the last one is far away. */
  lemma OnlyBefore(p: nat)
    requires p < LAST && HashAt(StaleInput(), p) == HashAt(StaleInput(), LAST)
    ensures p == BEFORE
  {
    StaleHash(p);
    StaleHash(LAST);
  }

  /** There is such an input. */
  lemma StaleIsCaught()
    ensures Caught(StaleInput())
  {
    hide HashAt, StaleInput;
    StaleHash(BEFORE);
    StaleHash(LAST);
    forall q: nat {:trigger HashAt(StaleInput(), q)} | BEFORE < q < LAST
      ensures HashAt(StaleInput(), q) != HashAt(StaleInput(), LAST)
    {
      if HashAt(StaleInput(), q) == HashAt(StaleInput(), LAST) {
        OnlyBefore(q);
      }
    }
  }
}
