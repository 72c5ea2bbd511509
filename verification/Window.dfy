/** The sliding window, the hash chains over it, and fill_window. */
module Window {
  import opened BitStrings
  import opened Hashing
  import opened Tokens
  import opened TokenBuffer

  const WINDOW_SIZE: nat := 2 * WSIZE
  const NIL: nat := 0
  const U32: nat := 0x1_0000_0000

  // ----- in absolute positions of the input -----

  /** The window holds the input from base up to end. */
  ghost predicate Filled(win: seq<Byte>, base: nat, input: seq<Byte>, end: nat) {
    && |win| == WINDOW_SIZE && base % WSIZE == 0 && base <= end <= |input| && end - base <= WINDOW_SIZE
    && forall i {:trigger win[i]} :: 0 <= i < end - base ==> win[i] == input[base + i]
  }

  /** The first ins strings have been inserted; all of their bytes are known. */
  ghost predicate Inserted(input: seq<Byte>, ins: nat) {
    ins == 0 || ins + 2 <= |input|
  }

  /** Every head is NIL or an inserted string with that hash. */
  ghost predicate HeadsOk(head: seq<nat>, base: nat, input: seq<Byte>, ins: nat) {
    && |head| == HASH_SIZE && Inserted(input, ins)
    && forall h {:trigger head[h]} :: 0 <= h < HASH_SIZE && head[h] != NIL ==>
      base + head[h] < ins && HashAt(input, base + head[h]) == h
  }

  /** Every head is the most recent string with its hash, among those still in reach of an index. */
  ghost predicate HeadsRecent(head: seq<nat>, base: nat, input: seq<Byte>, ins: nat) {
    && |head| == HASH_SIZE && Inserted(input, ins)
    && forall p: nat {:trigger HashAt(input, p)} :: base < p < ins ==> base + head[HashAt(input, p)] >= p
  }

  /** v is the most recent string before p with the hash of p, if there is one. */
  ghost predicate Latest(v: nat, base: nat, input: seq<Byte>, p: nat) {
    && p + 2 < |input|
    && forall q: nat {:trigger HashAt(input, q)} ::
         base < q < p && HashAt(input, q) == HashAt(input, p) ==> base + v >= q
  }

  /** The link stored for position p is NIL or a strictly older string with the same hash. */
  ghost predicate Link(v: nat, base: nat, input: seq<Byte>, p: nat)
    requires p + 2 < |input|
  {
    v == NIL || (base + v < p && HashAt(input, base + v) == HashAt(input, p))
  }

  /** v is exactly the most recent string with the hash of p, or NIL. */
  ghost predicate Newest(v: nat, base: nat, input: seq<Byte>, p: nat) {
    Latest(v, base, input, p) && Link(v, base, input, p)
  }

  /** p & WMASK */
  function Slot(p: nat): (s: nat)
    ensures s < WSIZE
  {
    p % WSIZE
  }

  /** The links of the last WSIZE inserted strings are good; older ones are overwritten. */
  ghost predicate PrevOk(prev: seq<nat>, base: nat, input: seq<Byte>, ins: nat) {
    && |prev| == WSIZE && Inserted(input, ins)
    && forall p: nat {:trigger prev[Slot(p)]} :: p < ins <= p + WSIZE ==> Link(prev[Slot(p)], base, input, p)
  }

  lemma SlotsDiffer(p: nat, q: nat)
    requires p < q < p + WSIZE
    ensures Slot(p) != Slot(q)
  {
    MulStep(p / WSIZE, q / WSIZE, WSIZE);
    MulStep(q / WSIZE, p / WSIZE, WSIZE);
  }

  /** A window index and the absolute position it stands for share their slot. */
  lemma SlotOfIndex(base: nat, i: nat)
    requires base % WSIZE == 0
    ensures Slot(base + i) == Slot(i)
    ensures base + i >= WSIZE ==> Slot(base + i - WSIZE) == Slot(i)
  {
  }

  /** INSERT_STRING keeps all chains. */
  lemma InsertStep(head: seq<nat>, prev: seq<nat>, base: nat, input: seq<Byte>, ins: nat)
    requires HeadsOk(head, base, input, ins) && PrevOk(prev, base, input, ins) && base <= ins && ins + 2 < |input|
    ensures var h := HashAt(input, ins);
            && HeadsOk(head[h := ins - base], base, input, ins + 1)
            && PrevOk(prev[Slot(ins) := head[h]], base, input, ins + 1)
            && Link(head[h], base, input, ins)
  {
    hide HashAt, Slot;
    var h := HashAt(input, ins);
    var after := prev[Slot(ins) := head[h]];
    forall p: nat {:trigger after[Slot(p)]} | p < ins + 1 <= p + WSIZE
      ensures Link(after[Slot(p)], base, input, p)
    {
      if p < ins {
        SlotsDiffer(p, ins);
        assert Link(prev[Slot(p)], base, input, p);
      }
    }
  }

  lemma InsertRecent(head: seq<nat>, base: nat, input: seq<Byte>, ins: nat)
    requires HeadsRecent(head, base, input, ins) && base <= ins && ins + 2 < |input|
    ensures var h := HashAt(input, ins);
            Latest(head[h], base, input, ins) && HeadsRecent(head[h := ins - base], base, input, ins + 1)
  {
    hide HashAt;
  }

  lemma SlideRecent(head: seq<nat>, base: nat, input: seq<Byte>, ins: nat)
    requires HeadsRecent(head, base, input, ins)
    ensures HeadsRecent(SlideAll(head), base + WSIZE, input, ins)
  {
    hide HashAt;
  }

  /** m >= WSIZE ? m - WSIZE : NIL */
  function SlideIndex(m: nat): nat {
    if m >= WSIZE then m - WSIZE else NIL
  }

  ghost function SlideAll(v: seq<nat>): (r: seq<nat>)
    ensures |r| == |v|
  {
    seq(|v|, i requires 0 <= i < |v| => SlideIndex(v[i]))
  }

  /** After a slide every chain entry is the same absolute position, or has been dropped. */
  lemma SlideChains(head: seq<nat>, prev: seq<nat>, base: nat, input: seq<Byte>, ins: nat)
    requires HeadsOk(head, base, input, ins) && PrevOk(prev, base, input, ins)
    ensures HeadsOk(SlideAll(head), base + WSIZE, input, ins) && PrevOk(SlideAll(prev), base + WSIZE, input, ins)
  {
    hide HashAt, Slot;
    var after := SlideAll(prev);
    forall p: nat {:trigger after[Slot(p)]} | p < ins <= p + WSIZE
      ensures Link(after[Slot(p)], base + WSIZE, input, p)
    {
      assert Link(prev[Slot(p)], base, input, p);
    }
    var heads := SlideAll(head);
    forall h {:trigger heads[h]} | 0 <= h < HASH_SIZE && heads[h] != NIL
      ensures base + WSIZE + heads[h] < ins && HashAt(input, base + WSIZE + heads[h]) == h
    {
      assert head[h] == heads[h] + WSIZE;
    }
  }

  /** Copying the upper half down keeps every byte from WSIZE on. */
  lemma SlideWindow(win: seq<Byte>, after: seq<Byte>, base: nat, input: seq<Byte>, end: nat)
    requires Filled(win, base, input, end) && |after| == WINDOW_SIZE && base + WSIZE <= end
    requires forall i {:trigger after[i]} :: 0 <= i < WSIZE ==> after[i] == win[i + WSIZE]
    ensures Filled(after, base + WSIZE, input, end)
  {
    forall i {:trigger after[i]} | 0 <= i < end - (base + WSIZE)
      ensures after[i] == input[base + WSIZE + i]
    {
      assert win[i + WSIZE] == input[base + (i + WSIZE)];
    }
  }

  /** What readfunc delivers extends the window. */
  lemma ReadMore(win: seq<Byte>, after: seq<Byte>, base: nat, input: seq<Byte>, end: nat, n: nat)
    requires Filled(win, base, input, end) && |after| == WINDOW_SIZE && end + n <= |input|
             && end + n - base <= WINDOW_SIZE
    requires forall i {:trigger after[i]} :: 0 <= i < end - base ==> after[i] == win[i]
    requires forall i {:trigger after[i]} :: end - base <= i < end + n - base ==> after[i] == input[base + i]
    ensures Filled(after, base, input, end + n)
  {
    forall i {:trigger after[i]} | 0 <= i < end + n - base
      ensures after[i] == input[base + i]
    {
      if i < end - base {
        assert win[i] == input[base + i];
      }
    }
  }

  // ----- readfunc -----

  /** The caller's input, delivered in chunks of any sizes it likes; the number
      chunks(k) is the size it offers at call k. */
  class Reader {
    const input: seq<Byte>
    const chunks: nat -> nat
    var pos: nat
    var calls: nat

    constructor (input: seq<Byte>, chunks: nat -> nat)
      ensures this.input == input && this.chunks == chunks && pos == 0
    {
      this.input, this.chunks := input, chunks;
      pos, calls := 0, 0;
    }

    /** readfunc: at least one byte unless the input is exhausted. */
    method Read(buf: array<Byte>, at: nat, size: nat) returns (n: nat)
      requires pos <= |input| && at + size <= buf.Length && size > 0
      modifies this`pos, this`calls, buf
      ensures n <= size && pos == old(pos) + n <= |input| && (n == 0 <==> old(pos) == |input|)
      ensures forall i {:trigger buf[i]} :: 0 <= i < at ==> buf[i] == old(buf[i])
      ensures forall i {:trigger buf[i]} :: at <= i < at + n ==> buf[i] == input[old(pos) + (i - at)]
    {
      var left := |input| - pos;
      n := chunks(calls);
      n := if n == 0 then 1 else n;
      n := if n > left then left else n;
      n := if n > size then size else n;
      forall i | at <= i < at + n {
        buf[i] := input[pos + (i - at)];
      }
      pos, calls := pos + n, calls + 1;
    }
  }

  /** TDeflateState. `base` is where the window starts in the input, and `ins` how many
      strings have been inserted. */
  class DeflateState {
    const reader: Reader
    const window: array<Byte>
    const prev: array<nat>
    const head: array<nat>
    var blockStart: int
    var insH: nat
    var prevLength: nat
    var strstart: nat
    var matchStart: nat
    var eofile: bool
    var lookahead: nat
    var niceMatch: nat
    var err: bool
    ghost var base: nat
    ghost var ins: nat

    constructor (reader: Reader)
      ensures this.reader == reader && Shape() && fresh(window) && fresh(prev) && fresh(head) && matchStart == 0 && !err
    {
      this.reader := reader;
      window, prev, head := new Byte[WINDOW_SIZE], new nat[WSIZE], new nat[HASH_SIZE];
      blockStart, insH, prevLength, strstart, matchStart, lookahead, niceMatch := 0, 0, 0, 0, 0, 0, 0;
      eofile, err := false, false;
      base, ins := 0, 0;
    }

    ghost predicate Shape() {
      window.Length == WINDOW_SIZE && prev.Length == WSIZE && head.Length == HASH_SIZE && prev != head
    }

    /** The window and the chains agree with the input. */
    ghost predicate Tables()
      reads this, reader, window, prev, head
    {
      && Shape() && matchStart < U32
      && Filled(window[..], base, reader.input, reader.pos)
      && HeadsOk(head[..], base, reader.input, ins) && PrevOk(prev[..], base, reader.input, ins)
      && HeadsRecent(head[..], base, reader.input, ins)
      && (eofile ==> reader.pos == |reader.input|)
      && base + blockStart >= 0
    }

    /** What holds at every step: besides, the lookahead is what has been read and not yet processed. */
    ghost predicate Valid()
      reads this, reader, window, prev, head
    {
      Tables() && base + strstart + lookahead == reader.pos
    }

    /** The absolute position of the next byte to process. */
    ghost function At(): nat
      reads this
    {
      base + strstart
    }

    /** What fill_window may change: nothing but the window's place in the input. */
    twostate predicate Moved()
      reads this
    {
      && At() == old(At()) && ins == old(ins) && err == old(err) && insH == old(insH)
      && if base == old(base)
         then strstart == old(strstart) && blockStart == old(blockStart) && matchStart == old(matchStart)
         else base == old(base) + WSIZE && blockStart == old(blockStart) - WSIZE && old(strstart) >= WSIZE + MAX_DIST
              && matchStart == (old(matchStart) + U32 - WSIZE) % U32
    }

    /** The branch of fill_window that slides. */
    method Slide()
      requires Valid() && strstart >= WSIZE + MAX_DIST
      modifies this, window, prev, head
      ensures Valid() && Moved() && base == old(base) + WSIZE
      ensures lookahead == old(lookahead) && eofile == old(eofile) && niceMatch == old(niceMatch)
              && prevLength == old(prevLength)
    {
      hide Filled, HeadsOk, PrevOk, HeadsRecent;
      FilledFacts(window[..], base, reader.input, reader.pos);
      ghost var win, hs, ps := window[..], head[..], prev[..];
      SlideChains(hs, ps, base, reader.input, ins);
      SlideRecent(hs, base, reader.input, ins);
      forall i | 0 <= i < WSIZE {
        window[i] := window[i + WSIZE];
      }
      SlideWindow(win, window[..], base, reader.input, reader.pos);
      matchStart := (matchStart + U32 - WSIZE) % U32;
      strstart := strstart - WSIZE;
      blockStart := blockStart - WSIZE;
      assert head[..] == hs && prev[..] == ps;
      SlideTable(head);
      assert prev[..] == ps;
      SlideTable(prev);
      assert head[..] == SlideAll(hs) && prev[..] == SlideAll(ps);
      base := base + WSIZE;
    }

    /** fill_window. The slide keeps everything in place in terms of the input. */
    method FillWindow()
      requires Valid() && lookahead < MIN_LOOKAHEAD
      modifies this, window, prev, head, reader`pos, reader`calls
      ensures Valid() && Moved()
      ensures strstart < WSIZE + MAX_DIST && lookahead >= old(lookahead)
      ensures lookahead >= MIN_LOOKAHEAD || (eofile && reader.pos == |reader.input|)
      ensures base != old(base) ==> old(strstart) >= WSIZE + MAX_DIST
      ensures niceMatch == old(niceMatch) && prevLength == old(prevLength)
    {
      hide Filled, HeadsOk, PrevOk, HeadsRecent;
      var again := true;
      while again
        invariant Valid() && Moved() && lookahead >= old(lookahead)
        invariant niceMatch == old(niceMatch) && prevLength == old(prevLength)
        invariant base != old(base) ==> strstart <= WSIZE
        invariant if again then lookahead < MIN_LOOKAHEAD
                  else strstart < WSIZE + MAX_DIST && (lookahead >= MIN_LOOKAHEAD || eofile)
        decreases again, |reader.input| - reader.pos, !eofile
      {
        FilledFacts(window[..], base, reader.input, reader.pos);
        var more := WINDOW_SIZE - lookahead - strstart;
        if strstart >= WSIZE + MAX_DIST {
          Slide();
          more := more + WSIZE;
        }
        if eofile {
          break;
        }
        assert more >= 2; // "more < 2"
        ghost var win, end := window[..], reader.pos;
        var n := reader.Read(window, strstart + lookahead, more);
        ReadMore(win, window[..], base, reader.input, end, n);
        if n == 0 {
          eofile := true;
        } else {
          lookahead := lookahead + n;
        }
        again := lookahead < MIN_LOOKAHEAD && !eofile;
      }
    }
  }

  lemma FilledFacts(win: seq<Byte>, base: nat, input: seq<Byte>, end: nat)
    requires Filled(win, base, input, end)
    ensures |win| == WINDOW_SIZE && base % WSIZE == 0 && base <= end <= |input| && end - base <= WINDOW_SIZE
  {
  }

  /** A loop of fill_window over head or prev. */
  method SlideTable(t: array<nat>)
    modifies t
    ensures t[..] == SlideAll(old(t[..]))
  {
    var n := 0;
    while n < t.Length
      invariant 0 <= n <= t.Length
      invariant forall i {:trigger t[i]} ::
                  0 <= i < t.Length ==> t[i] == if i < n then SlideIndex(old(t[i])) else old(t[i])
    {
      var m := t[n];
      t[n] := if m >= WSIZE then m - WSIZE else NIL;
      n := n + 1;
    }
  }
}
