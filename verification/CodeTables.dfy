/** ct_init: the tables of length and distance codes and the static trees. */
module CodeTables {
  import opened BitStrings
  import opened Canonical
  import opened Inflate
  import opened HeapQueue
  import opened GenBitlen
  import opened LengthLimit
  import opened GenCodes
  import opened Tokens

  /** extra_lbits and extra_dbits */
  const EXTRA_LBITS: seq<nat> :=
    [0, 0, 0, 0, 0, 0, 0, 0, 1, 1, 1, 1, 2, 2, 2, 2, 3, 3, 3, 3, 4, 4, 4, 4, 5, 5, 5, 5, 0]

  const EXTRA_DBITS: seq<nat> :=
    [0, 0, 0, 0, 1, 1, 2, 2, 3, 3, 4, 4, 5, 5, 6, 6, 7, 7, 8, 8, 9, 9, 10, 10, 11, 11, 12, 12, 13, 13]

  function ExtraLbits(code: nat): nat
    requires code < LENGTH_CODES
  {
    EXTRA_LBITS[code]
  }

  function ExtraDbits(code: nat): nat
    requires code < D_CODES
  {
    EXTRA_DBITS[code]
  }

  lemma ExtraBitsAgree()
    ensures forall k {:trigger ExtraLbits(k)} :: 0 <= k < LENGTH_CODES ==> ExtraLbits(k) == LengthExtra(k)
    ensures forall k {:trigger ExtraDbits(k)} :: 0 <= k < D_CODES ==> ExtraDbits(k) == DistExtra(k)
  {
    assert EXTRA_LBITS == LENGTH_EXTRA;
    assert EXTRA_DBITS == DIST_EXTRA;
  }

  // ----- each code starts where the one before it ends -----

  function LengthStart(code: nat): (s: int)
    requires code < LENGTH_CODES
  {
    if code < 28 then LengthBase(code) - MIN_MATCH else 256
  }

  lemma LengthsContiguous(code: nat)
    requires code < 28
    ensures LengthStart(0) == 0 <= LengthStart(code)
    ensures LengthStart(code + 1) == LengthStart(code) + Pow2(LengthExtra(code)) <= 256
  {
    Pow2Values();
  }

  function DistStart(code: nat): int
    requires code <= D_CODES
  {
    if code < D_CODES then DistBase(code) - 1 else MAX_DISTANCE
  }

  lemma Pow2Zero()
    ensures Pow2(0) == 1
  {
  }

  lemma DistsContiguous(code: nat)
    requires code < D_CODES
    ensures DistStart(0) == 0 <= DistStart(code) && DistStart(16) == 256
    ensures DistStart(code + 1) == DistStart(code) + Pow2(DistExtra(code)) <= MAX_DISTANCE
    ensures code < 16 ==> DistStart(code + 1) <= 256
    ensures code >= 16 ==> DistExtra(code) >= 7
  {
    hide Pow2;
    NextDist(code);
  }

  lemma NextDist(code: nat)
    requires code < D_CODES
    ensures DistStart(code + 1) == DistStart(code) + Pow2(DistExtra(code))
  {
    hide Pow2;
    Pow2Values();
    Pow2Zero();
    if code < 10 {
    } else if code < 20 {
    } else {
    }
  }

  // ----- the loops of ct_init -----

  ghost predicate LengthsSet(lengthCode: seq<nat>, length: int) {
    && |lengthCode| == 256 && 0 <= length <= 256
    && forall k {:trigger lengthCode[k]} :: 0 <= k < length ==> LengthCodeOk(k + MIN_MATCH, lengthCode[k])
  }

  /** Code 285 alone stands for the longest match. */
  lemma LongestMatch(lengthCode: seq<nat>)
    requires LengthsSet(lengthCode, 256)
    ensures LengthsSet(lengthCode[255 := 28], 256)
  {
    assert LengthCodeOk(258, 28) by { Pow2Values(); }
  }

  /** base_length, in the decoder's terms; the last entry is never set or used. */
  ghost predicate LengthBases(baseLength: seq<nat>, n: nat) {
    |baseLength| == LENGTH_CODES && n <= 28
    && forall c {:trigger baseLength[c]} :: 0 <= c < n ==> baseLength[c] == LengthStart(c)
  }

  lemma LastStart()
    ensures LengthStart(28) == 256
  {
  }

  lemma LengthInRange(code: nat, length: int)
    requires code < 28 && LengthStart(code) <= length < LengthStart(code) + Pow2(LengthExtra(code))
    ensures LengthCodeOk(length + MIN_MATCH, code)
  {
  }

  method InitLengths(lengthCode: array<nat>, baseLength: array<nat>)
    requires lengthCode.Length == 256 && baseLength.Length == LENGTH_CODES && lengthCode != baseLength
    modifies lengthCode, baseLength
    ensures LengthsSet(lengthCode[..], 256) && LengthBases(baseLength[..], 28)
  {
    hide LengthBase, LengthExtra, Pow2, LengthStart, ExtraLbits;
    ExtraBitsAgree();
    LengthsContiguous(0);
    var length := 0;
    var code := 0;
    while code < LENGTH_CODES - 1
      invariant 0 <= code <= 28 && length == LengthStart(code)
      invariant LengthsSet(lengthCode[..], length) && LengthBases(baseLength[..], code)
    {
      LengthsContiguous(code);
      baseLength[code] := length;
      var n := 0;
      while n < Pow2(ExtraLbits(code))
        invariant 0 <= n <= Pow2(LengthExtra(code)) && length == LengthStart(code) + n
        invariant LengthsSet(lengthCode[..], length) && LengthBases(baseLength[..], code + 1)
      {
        LengthInRange(code, length);
        lengthCode[length] := code;
        length := length + 1;
        n := n + 1;
      }
      code := code + 1;
    }
    LastStart();
    assert length == 256; // "ct_init: length != 256"
    LongestMatch(lengthCode[..]);
    lengthCode[length - 1] := code;
  }

  // ----- distances: one entry each up to 256, then one for every 128 -----

  ghost predicate NearSet(distCode: seq<nat>, dist: int) {
    && |distCode| == 512 && 0 <= dist <= 256
    && forall d {:trigger distCode[d]} :: 0 <= d < dist ==> DistCodeOk(d + 1, distCode[d])
  }

  /** The distances 128 * j + 1 to 128 * (j + 1) all have this code. */
  predicate FarOk(j: nat, code: nat) {
    DistCodeOk(128 * j + 1, code) && DistCodeOk(128 * j + 128, code)
  }

  ghost predicate FarSet(distCode: seq<nat>, dist: int) {
    && NearSet(distCode, 256) && 2 <= dist <= 256
    && forall j: nat {:trigger distCode[256 + j]} :: 2 <= j < dist ==> FarOk(j, distCode[256 + j])
  }

  lemma DistsAllSet(distCode: seq<nat>)
    requires FarSet(distCode, 256)
    ensures |distCode| == 512
    ensures forall d: nat {:trigger DCode(distCode, d)} :: d < MAX_DISTANCE ==> DistCodeOk(d + 1, DCode(distCode, d))
  {
    hide DistBase, DistExtra, Pow2;
    forall d: nat {:trigger DCode(distCode, d)} | d < MAX_DISTANCE
      ensures DistCodeOk(d + 1, DCode(distCode, d))
    {
      if d >= 256 {
        assert FarOk(d / 128, distCode[256 + d / 128]);
      }
    }
  }

  ghost predicate DistBases(baseDist: seq<nat>, n: nat) {
    |baseDist| == D_CODES && n <= D_CODES
    && forall c {:trigger baseDist[c]} :: 0 <= c < n ==> baseDist[c] == DistStart(c)
  }

  lemma DistInRange(code: nat, dist: int)
    requires code < D_CODES && DistStart(code) <= dist < DistStart(code) + Pow2(DistExtra(code))
    ensures DistCodeOk(dist + 1, code)
  {
  }

  /** Far codes cover whole runs of 128. */
  lemma FarContiguous(code: nat)
    requires 16 <= code < D_CODES
    ensures DistExtra(code) >= 7 && DistStart(code) % 128 == 0
            && Pow2(DistExtra(code)) == 128 * Pow2(DistExtra(code) - 7)
    ensures DistStart(code + 1) / 128 == DistStart(code) / 128 + Pow2(DistExtra(code) - 7)
    ensures DistStart(code + 1) % 128 == 0 && 2 <= DistStart(code) / 128 && DistStart(code + 1) / 128 <= 256
    ensures DistStart(D_CODES) == MAX_DISTANCE
  {
    hide Pow2;
    DistsContiguous(code);
    var e := DistExtra(code);
    Pow2Add(7, e - 7);
    assert 7 + (e - 7) == e;
    Pow2Values();
    assert DistStart(code) >= 256 && DistStart(code) % 128 == 0;
  }

  lemma FarInRange(code: nat, dist: nat, n: nat)
    requires 16 <= code < D_CODES && DistExtra(code) >= 7
    requires dist == DistStart(code) / 128 + n && n < Pow2(DistExtra(code) - 7)
    ensures FarOk(dist, code)
  {
    hide DistBase, DistExtra, DistStart, Pow2, DistCodeOk;
    FarContiguous(code);
    DistInRange(code, 128 * dist);
    DistInRange(code, 128 * dist + 127);
  }

  method InitNearDistances(distCode: array<nat>, baseDist: array<nat>)
    requires distCode.Length == 512 && baseDist.Length == D_CODES && distCode != baseDist
    modifies distCode, baseDist
    ensures NearSet(distCode[..], 256) && DistBases(baseDist[..], 16)
  {
    hide DistBase, DistExtra, Pow2, DistStart, DistCodeOk, ExtraDbits;
    ExtraBitsAgree();
    DistsContiguous(0);
    var dist := 0;
    var code := 0;
    while code < 16
      invariant 0 <= code <= 16 && dist == DistStart(code)
      invariant NearSet(distCode[..], dist) && DistBases(baseDist[..], code)
    {
      DistsContiguous(code);
      baseDist[code] := dist;
      var n := 0;
      while n < Pow2(ExtraDbits(code))
        invariant 0 <= n <= Pow2(DistExtra(code)) && dist == DistStart(code) + n
        invariant NearSet(distCode[..], dist) && DistBases(baseDist[..], code + 1)
      {
        DistInRange(code, dist);
        distCode[dist] := code;
        dist := dist + 1;
        n := n + 1;
      }
      code := code + 1;
    }
    assert dist == 256; // "ct_init: dist != 256"
  }

  method InitFarDistances(distCode: array<nat>, baseDist: array<nat>)
    requires distCode.Length == 512 && baseDist.Length == D_CODES && distCode != baseDist
    requires NearSet(distCode[..], 256) && DistBases(baseDist[..], 16)
    modifies distCode, baseDist
    ensures FarSet(distCode[..], 256) && DistBases(baseDist[..], D_CODES)
  {
    hide DistBase, DistExtra, Pow2, DistStart, DistCodeOk, ExtraDbits, FarOk;
    ExtraBitsAgree();
    DistsContiguous(0);
    FarContiguous(16);
    var dist := 256 / 128;
    var code := 16;
    while code < D_CODES
      invariant 16 <= code <= D_CODES && dist == DistStart(code) / 128 && DistStart(code) % 128 == 0
      invariant FarSet(distCode[..], dist) && DistBases(baseDist[..], code)
    {
      FarContiguous(code);
      baseDist[code] := dist * 128;
      var n := 0;
      while n < Pow2(ExtraDbits(code) - 7)
        invariant 0 <= n <= Pow2(DistExtra(code) - 7) && dist == DistStart(code) / 128 + n
        invariant FarSet(distCode[..], dist) && DistBases(baseDist[..], code + 1)
      {
        FarInRange(code, dist, n);
        distCode[256 + dist] := code;
        dist := dist + 1;
        n := n + 1;
      }
      code := code + 1;
    }
    assert dist == 256; // "ct_init: 256+dist != 512"
  }

  // ----- the static trees -----

  const STATIC_CODES: nat := 288

  lemma CountsSnoc(t: Lengths, x: nat)
    requires 1 <= x <= MAX_BITS
    ensures CountsOf(t + [x]) == CountsOf(t)[x := CountsOf(t)[x] + 1]
  {
    assert (t + [x])[..|t|] == t;
  }

  /** One of the four loops that fill the lengths of the static literal tree. */
  method FillLengths(tree: array<CtData>, blCount: array<nat>, start: nat, last: nat, len: nat) returns (n: nat)
    requires start <= last < tree.Length && blCount.Length == MAX_BITS + 1 && 1 <= len <= MAX_BITS
    requires blCount[..] == CountsOf(LensOf(tree[..], start))
    modifies tree, blCount
    ensures n == last + 1 && blCount[..] == CountsOf(LensOf(tree[..], n))
    ensures blCount[..] == old(blCount[..])[len := old(blCount[len]) + (n - start)]
    ensures forall x {:trigger tree[x]} :: start <= x < n ==> tree[x].dl == len
    ensures forall x {:trigger tree[x]} :: 0 <= x < start ==> tree[x] == old(tree[x])
  {
    hide CountsOf;
    n := start;
    while n <= last
      invariant start <= n <= last + 1 && blCount[..] == CountsOf(LensOf(tree[..], n))
      invariant blCount[..] == old(blCount[..])[len := old(blCount[len]) + (n - start)]
      invariant forall x {:trigger tree[x]} :: start <= x < n ==> tree[x].dl == len
      invariant forall x {:trigger tree[x]} :: 0 <= x < start ==> tree[x] == old(tree[x])
    {
      ghost var lens, counts := LensOf(tree[..], n), blCount[..];
      tree[n] := tree[n].(dl := len);
      blCount[len] := blCount[len] + 1;
      n := n + 1;
      CountsSnoc(lens, len);
      assert LensOf(tree[..], n) == lens + [len];
      assert blCount[..] == counts[len := counts[len] + 1];
    }
  }

  /** 24 codes of 7 bits, 152 of 8 and 112 of 9 fill the code space. */
  lemma FixedKraft(lens: Lengths)
    requires Bounded(lens, MAX_BITS)
             && CountsOf(lens) == seq(16, b => if b == 7 then 24 else if b == 8 then 152 else if b == 9 then 112 else 0)
    ensures Kraft(lens, MAX_BITS) == Pow2(MAX_BITS)
  {
    hide Kraft, Count;
    var c := CountsOf(lens);
    assert forall b :: 1 <= b <= MAX_BITS ==> c[b] == Count(lens, b);
    KraftByCounts(lens, MAX_BITS);
    assert KraftUpTo(lens, MAX_BITS, 0) == 0;
    KraftStill(lens, 0, 6);
    Pow2Values();
    assert KraftUpTo(lens, MAX_BITS, 7) == 24 * 256;
    assert KraftUpTo(lens, MAX_BITS, 8) == 24 * 256 + 152 * 128;
    assert KraftUpTo(lens, MAX_BITS, 9) == 24 * 256 + 152 * 128 + 112 * 64;
    KraftStill(lens, 9, MAX_BITS);
  }

  lemma {:induction false} KraftStill(lens: Lengths, a: nat, b: nat)
    requires a <= b <= MAX_BITS && forall k :: a < k <= b ==> Count(lens, k) == 0
    ensures KraftUpTo(lens, MAX_BITS, b) == KraftUpTo(lens, MAX_BITS, a)
  {
    if a < b {
      KraftStill(lens, a, b - 1);
    }
  }

  method InitStaticLiterals(tree: array<CtData>, blCount: array<nat>)
    requires tree.Length == STATIC_CODES && blCount.Length == MAX_BITS + 1
    modifies tree, blCount
    ensures LensOf(tree[..], STATIC_CODES) == FixedLiterals()
    ensures Coded(tree[..], FixedLiterals()) && Usable(FixedLiterals())
  {
    hide CountsOf, Kraft, Pow2, Coded;
    var bits := 0;
    while bits <= MAX_BITS
      invariant 0 <= bits <= MAX_BITS + 1 && forall b :: 0 <= b < bits ==> blCount[b] == 0
    {
      blCount[bits] := 0;
      bits := bits + 1;
    }
    NoCounts(blCount[..], LensOf(tree[..], 0));
    var n := FillLengths(tree, blCount, 0, 143, 8);
    n := FillLengths(tree, blCount, n, 255, 9);
    n := FillLengths(tree, blCount, n, 279, 7);
    n := FillLengths(tree, blCount, n, 287, 8);
    ghost var lens := LensOf(tree[..], STATIC_CODES);
    assert blCount[..] == seq(16, b => if b == 7 then 24 else if b == 8 then 152 else if b == 9 then 112 else 0);
    assert lens == FixedLiterals();
    FixedKraft(lens);
    GenerateCodes(tree, blCount, L_CODES + 1, STATIC_CODES);
  }

  lemma NoCounts(counts: seq<nat>, lens: Lengths)
    requires |counts| == MAX_BITS + 1 && (forall b :: 0 <= b <= MAX_BITS ==> counts[b] == 0) && lens == []
    ensures counts == CountsOf(lens)
  {
  }

  // ----- the static distance tree -----

  /** All codes of five bits: symbol n is sent as the number n. */
  lemma FixedDistanceCode(n: nat)
    requires n < 32
    ensures |FixedDistances()| == 32 && FixedDistances()[n] == 5 && Code(FixedDistances(), n) == n
    ensures Usable(FixedDistances())
  {
    var t := FixedDistances();
    forall b, k: nat | b < 5 && k <= 32
      ensures Count(t[..k], b) == 0
    {
      FivesCount(k, b);
    }
    FivesCount(n, 5);
    FivesCount(32, 5);
    assert t[..32] == t;
    assert t[..n] == Repeat(5, 32)[..n];
    assert FirstCode(t, 5) == 0;
    FivesKraft(32);
  }

  lemma {:induction false} FivesCount(k: nat, b: nat)
    requires k <= 32
    ensures Count(FixedDistances()[..k], b) == if b == 5 then k else 0
  {
    var t := FixedDistances()[..k];
    if k > 0 {
      FivesCount(k - 1, b);
      assert t[..k - 1] == FixedDistances()[..k - 1];
    }
  }

  lemma {:induction false} FivesKraft(k: nat)
    requires k <= 32
    ensures Kraft(FixedDistances()[..k], MAX_BITS) == k * 1024
    ensures k == 32 ==> Kraft(FixedDistances(), MAX_BITS) == Pow2(MAX_BITS)
  {
    var t := FixedDistances()[..k];
    Pow2Values();
    if k > 0 {
      FivesKraft(k - 1);
      assert t[..k - 1] == FixedDistances()[..k - 1];
      assert Weight(5, MAX_BITS) == Pow2(10);
    }
    assert FixedDistances()[..32] == FixedDistances();
  }

  /** The tree carries the codes of the symbols below limit that are used. */
  ghost predicate TreeCodes(tree: seq<CtData>, lens: Lengths, limit: nat) {
    forall x: nat {:trigger tree[x]} {:trigger lens[x]} :: x < limit && x < |lens| && lens[x] > 0 ==>
      x < |tree| && CodedAt(tree[x], lens, x)
  }

  lemma CodedTree(tree: seq<CtData>, lens: Lengths, limit: nat)
    requires |lens| <= |tree| && Coded(tree, lens)
    ensures TreeCodes(tree, lens, limit)
  {
    hide CodedAt;
  }

  /** Only the 30 distance codes that mean something are in the tree. */
  method InitStaticDistances(tree: array<CtData>)
    requires tree.Length == D_CODES
    modifies tree
    ensures TreeCodes(tree[..], FixedDistances(), D_CODES) && Usable(FixedDistances())
    ensures forall x {:trigger tree[x]} :: 0 <= x < D_CODES ==> tree[x].dl == 5
  {
    hide LsbBits, MsbBits, FixedDistances, Code, Usable, Pow2;
    var n := 0;
    FixedDistanceCode(0);
    while n < D_CODES
      invariant 0 <= n <= D_CODES && TreeCodes(tree[..], FixedDistances(), n)
      invariant forall x {:trigger tree[x]} :: 0 <= x < n ==> tree[x].dl == 5
    {
      FixedDistanceCode(n);
      var code := BiReverse(n, 5);
      tree[n] := CtData(code, 5);
      n := n + 1;
    }
  }

  /** The tables ct_init fills once and for all, and the static trees. */
  class Tables {
    const lengthCode: seq<nat>
    const distCode: seq<nat>
    const baseLength: seq<nat>
    const baseDist: seq<nat>
    const staticLtree: array<CtData>
    const staticDtree: array<CtData>

    ghost function Map(): Codes {
      Codes(lengthCode, distCode)
    }

    ghost predicate Valid()
      reads staticLtree, staticDtree
    {
      && CodesOk(Map()) && LengthBases(baseLength, 28) && DistBases(baseDist, D_CODES)
      && staticLtree != staticDtree && staticLtree.Length == STATIC_CODES && staticDtree.Length == D_CODES
      && LensOf(staticLtree[..], STATIC_CODES) == FixedLiterals()
      && TreeCodes(staticLtree[..], FixedLiterals(), L_CODES)
      && (forall x {:trigger staticDtree[x]} :: 0 <= x < D_CODES ==> staticDtree[x].dl == 5)
      && TreeCodes(staticDtree[..], FixedDistances(), D_CODES)
      && Usable(FixedLiterals()) && Usable(FixedDistances())
    }

    /** ct_init, up to the first block. */
    constructor (blCount: array<nat>)
      requires blCount.Length == MAX_BITS + 1
      modifies blCount
      ensures Valid() && fresh(staticLtree) && fresh(staticDtree)
    {
      hide NearSet, FarSet, LengthsSet, LengthBases, DistBases, Coded, FixedLiterals, FixedDistances, Usable, LensOf,
           CodesOk, TreeCodes;
      var lengths, dists := new nat[256], new nat[512];
      var lengthBase, distBase := new nat[LENGTH_CODES], new nat[D_CODES];
      InitLengths(lengths, lengthBase);
      InitNearDistances(dists, distBase);
      InitFarDistances(dists, distBase);
      var literals, distances := new CtData[STATIC_CODES], new CtData[D_CODES];
      InitStaticLiterals(literals, blCount);
      InitStaticDistances(distances);
      lengthCode, distCode, baseLength, baseDist := lengths[..], dists[..], lengthBase[..], distBase[..];
      staticLtree, staticDtree := literals, distances;
      new;
      TablesAgree(lengthCode, distCode);
      CodedTree(staticLtree[..], FixedLiterals(), L_CODES);
    }
  }

  lemma TablesAgree(lengthCode: seq<nat>, distCode: seq<nat>)
    requires LengthsSet(lengthCode, 256) && FarSet(distCode, 256)
    ensures CodesOk(Codes(lengthCode, distCode))
  {
    hide FarSet, LengthCodeOk, DistCodeOk;
    DistsAllSet(distCode);
  }
}
