/** CZipFile: saving an archive and parsing it again. */
module ZipArchive {
  import opened BitStrings
  import opened LittleEndian
  import opened Options

  // sizes of the packed records
  const LOCAL_HEADER: nat := 30
  const FILE_HEADER: nat := 46
  const END_RECORD: nat := 22
  const XZIP_COMMENT_LENGTH: nat := 32

  /** PKID( a, b ) */
  function PkId(a: Byte, b: Byte): Bytes {
    [0x50, 0x4b, a, b]
  }

  // ----- the comment that carries the configuration -----

  function Digits(n: nat): (d: Bytes)
    ensures |d| >= 1
  {
    if n < 10 then [48 + n] else Digits(n / 10) + [48 + n % 10]
  }

  /** sscanf( "%d" ): the number made of the digits from p on. */
  function ScanDigits(s: Bytes, p: nat, acc: nat): nat
    decreases |s| - p
  {
    if p < |s| && 48 <= s[p] <= 57 then ScanDigits(s, p + 1, 10 * acc + (s[p] - 48)) else acc
  }

  /** sscanf skips white space first. */
  function SkipSpaces(s: Bytes, p: nat): nat
    decreases |s| - p
  {
    if p < |s| && s[p] == 32 then SkipSpaces(s, p + 1) else p
  }

  predicate IsPowerOfTwo(n: nat) {
    n == 0 || n == 1 || (n % 2 == 0 && IsPowerOfTwo(n / 2))
  }

  lemma {:induction false} ScanStops(s: Bytes, p: nat, k: nat, acc: nat)
    requires p <= k <= |s| && (forall i :: p <= i < k ==> 48 <= s[i] <= 57) && (k < |s| ==> !(48 <= s[k] <= 57))
    ensures ScanDigits(s, p, acc) == ScanDigits(s[..k], p, acc)
    decreases k - p
  {
    if p < k {
      ScanStops(s, p + 1, k, 10 * acc + (s[p] - 48));
    }
  }

  lemma {:induction false} ScanSnoc(s: Bytes, p: nat, acc: nat, d: nat)
    requires p <= |s| && (forall i :: p <= i < |s| ==> 48 <= s[i] <= 57) && d < 10
    ensures ScanDigits(s + [48 + d], p, acc) == 10 * ScanDigits(s, p, acc) + d
    decreases |s| - p
  {
    var t := s + [48 + d];
    if p < |s| {
      ScanSnoc(s, p + 1, 10 * acc + (s[p] - 48), d);
      assert t[p] == s[p];
    } else {
      assert t[p] == 48 + d;
      assert ScanDigits(t, p + 1, 10 * acc + d) == 10 * acc + d;
    }
  }

  lemma {:induction false} ScanPrinted(pre: Bytes, n: nat)
    ensures forall i :: 0 <= i < |Digits(n)| ==> 48 <= Digits(n)[i] <= 57
    ensures ScanDigits(pre + Digits(n), |pre|, 0) == n
  {
    if n < 10 {
      assert (pre + [48 + n])[|pre|] == 48 + n;
      assert ScanDigits(pre + [48 + n], |pre| + 1, n) == n;
    } else {
      ScanPrinted(pre, n / 10);
      ScanSnoc(pre + Digits(n / 10), |pre|, 0, n % 10);
      assert pre + Digits(n) == pre + Digits(n / 10) + [48 + n % 10];
    }
  }

  /** The settings of a CZipFile; alignment is m_AlignmentSize, force is m_bForceAlignment. */
  datatype Config = Config(compatible: bool, update: bool, force: bool, alignment: nat)

  function FormatChar(z: Config): Byte {
    if z.compatible then 49 else if !z.update then 50 else 51
  }

  function Nulls(n: nat): (b: Bytes)
    ensures |b| == n
  {
    seq(n, _ => 0)
  }

  /** MakeXZipCommentString: "XZPc n", filled up with zeros. */
  function Comment(z: Config): (c: Bytes)
    requires |Digits(z.alignment)| <= 26
    ensures |c| == XZIP_COMMENT_LENGTH
  {
    [88, 90, 80, FormatChar(z), 32] + Digits(z.alignment) + Nulls(27 - |Digits(z.alignment)|)
  }

  predicate IsXzp(c: Bytes) {
    |c| >= 4 && c[0] in {88, 120} && c[1] in {90, 122} && c[2] in {80, 112}
  }

  /** ParseXZipCommentString */
  function ParseComment(z: Config, c: Bytes): Config {
    if !IsXzp(c) then z
    else
      var format := z.(compatible := c[3] != 50 && c[3] != 51, update := z.update || c[3] == 51);
      if z.force then format
      else
        var n := ScanDigits(c, SkipSpaces(c, 4), 0);
        format.(alignment := if IsPowerOfTwo(n) then n else 0)
  }

  lemma CommentLayout(z: Config)
    requires |Digits(z.alignment)| <= 26
    ensures var c, d := Comment(z), Digits(z.alignment);
            && c[0] == 88 && c[1] == 90 && c[2] == 80 && c[3] == FormatChar(z) && c[4] == 32
            && c[..5 + |d|] == [88, 90, 80, FormatChar(z), 32] + d && c[5 + |d|] == 0
            && forall i {:trigger c[i]} :: 5 <= i < 5 + |d| ==> 48 <= c[i] <= 57
  {
    var c, d := Comment(z), Digits(z.alignment);
    ScanPrinted([], z.alignment);
    assert c[5 + |d|..] == Nulls(27 - |d|);
    assert c[5 + |d|] == c[5 + |d|..][0];
    forall i {:trigger c[i]} | 5 <= i < 5 + |d|
      ensures 48 <= c[i] <= 57
    {
      assert c[i] == d[i - 5];
    }
  }

  /** The configuration comes back, except that the format alone does not switch updating off. */
  lemma CommentRoundTrip(z: Config, y: Config)
    requires |Digits(z.alignment)| <= 26 && IsPowerOfTwo(z.alignment) && (z.compatible || !z.update)
    ensures ParseComment(y, Comment(z))
         == Config(z.compatible, y.update, y.force, if y.force then y.alignment else z.alignment)
  {
    hide Comment, Digits, ScanDigits, IsPowerOfTwo;
    var d, c := Digits(z.alignment), Comment(z);
    CommentLayout(z);
    ScanPrinted([88, 90, 80, FormatChar(z), 32], z.alignment);
    assert SkipSpaces(c, 4) == SkipSpaces(c, 5) == 5;
    ScanStops(c, 5, 5 + |d|, 0);
  }

  // ----- the archive as a byte string -----

  datatype Entry = Entry(name: Bytes, data: Bytes)

  /** CalculatePadding, cut to 16 bits as its type cuts it. */
  function Padding(a: nat, nameLen: nat, pos: nat): (p: nat)
    ensures p < 0x10000
  {
    if a == 0 then 0 else (a - (pos + LOCAL_HEADER + nameLen) % a) % 0x10000
  }

  /** AlignValue( pos, a ) - pos */
  function AlignPad(a: nat, pos: nat): (p: nat)
    ensures a > 0 ==> p < a && (pos + p) % a == 0
    ensures a == 0 ==> p == 0
  {
    if a == 0 then 0 else
      assert (pos + (a - pos % a)) % a == 0 by { AlignUp(pos, a); }
      if pos % a == 0 then 0 else a - pos % a
  }

  lemma AlignUp(pos: nat, a: nat)
    requires a > 0
    ensures (pos + (a - pos % a)) % a == 0
  {
    DivMod(pos, a);
    MulDist(pos / a, 1, a);
    DivUnique(pos + (a - pos % a), a, pos / a + 1, 0);
  }

  function LocalHeader(crc: nat, size: nat, nameLen: nat, pad: nat): (h: Bytes)
    ensures |h| == LOCAL_HEADER
  {
    PkId(3, 4) + (Put16(10) + Nulls(8) + Put32(crc) + Put32(size) + Put32(size) + Put16(nameLen) + Put16(pad))
  }

  /** What SaveDirectory writes for an entry in its first loop. */
  function LocalRecord(crc: Bytes -> nat, a: nat, e: Entry, pos: nat): (r: Bytes)
    ensures |r| == LOCAL_HEADER + |e.name| + Padding(a, |e.name|, pos) + |e.data|
  {
    LocalHeader(crc(e.data), |e.data|, |e.name|, Padding(a, |e.name|, pos)) + e.name
    + Nulls(Padding(a, |e.name|, pos)) + e.data
  }

  function Locals(crc: Bytes -> nat, a: nat, es: seq<Entry>): Bytes {
    if es == [] then []
    else
      var before := Locals(crc, a, es[..|es| - 1]);
      before + LocalRecord(crc, a, es[|es| - 1], |before|)
  }

  /** The directory header, cut where the parser reads it. */
  function FileHeader(crc: nat, size: nat, nameLen: nat, pad: nat, offset: nat): (h: Bytes)
    ensures |h| == FILE_HEADER
  {
    PkId(1, 2) + ((Put16(20) + Put16(10) + Nulls(8) + Put32(crc))
    + (Put32(size) + (Put32(size) + (Put16(nameLen) + (Put16(pad) + (Put16(0) + (Nulls(8) + Put32(offset))))))))
  }

  function DirRecord(crc: Bytes -> nat, a: nat, compatible: bool, e: Entry, pos: nat): (r: Bytes)
    ensures |r| == FILE_HEADER + |e.name| + (if compatible then Padding(a, |e.name|, pos) else 0)
  {
    var pad := Padding(a, |e.name|, pos);
    FileHeader(crc(e.data), |e.data|, |e.name|, pad, pos) + e.name + (if compatible then Nulls(pad) else [])
  }

  /** The directory: each record tells where the entry's local record starts. */
  function Directory(crc: Bytes -> nat, a: nat, compatible: bool, es: seq<Entry>): Bytes {
    if es == [] then []
    else
      var k := |es| - 1;
      Directory(crc, a, compatible, es[..k]) + DirRecord(crc, a, compatible, es[k], |Locals(crc, a, es[..k])|)
  }

  function EndRecord(n: nat, size: nat, offset: nat): (r: Bytes)
    ensures |r| == END_RECORD
  {
    PkId(5, 6) + (Nulls(4) + (Put16(n) + (Put16(n) + (Put32(size) + (Put32(offset) + Put16(XZIP_COMMENT_LENGTH))))))
  }

  function DirStart(crc: Bytes -> nat, a: nat, es: seq<Entry>): nat {
    var n := |Locals(crc, a, es)|;
    n + AlignPad(a, n)
  }

  function DirEnd(crc: Bytes -> nat, z: Config, es: seq<Entry>): nat {
    var n := DirStart(crc, z.alignment, es) + |Directory(crc, z.alignment, z.compatible, es)|;
    n + AlignPad(z.alignment, n)
  }

  /** Everything before the end record. */
  function Body(crc: Bytes -> nat, z: Config, es: seq<Entry>): (b: Bytes)
    ensures |b| == DirEnd(crc, z, es)
  {
    var a, l, d := z.alignment, Locals(crc, z.alignment, es), Directory(crc, z.alignment, z.compatible, es);
    l + Nulls(AlignPad(a, |l|)) + d + Nulls(AlignPad(a, DirStart(crc, a, es) + |d|))
  }

  function Image(crc: Bytes -> nat, z: Config, es: seq<Entry>): (b: Bytes)
    requires |Digits(z.alignment)| <= 26
    ensures |b| == DirEnd(crc, z, es) + END_RECORD + XZIP_COMMENT_LENGTH
  {
    var start := DirStart(crc, z.alignment, es);
    Body(crc, z, es) + EndRecord(|es|, DirEnd(crc, z, es) - start, start) + Comment(z)
  }

  /** Only entries with data are stored. */
  function Kept(es: seq<Entry>): seq<Entry> {
    if es == [] then []
    else Kept(es[..|es| - 1]) + (if es[|es| - 1].data != [] then [es[|es| - 1]] else [])
  }

  // ----- parsing, as a function -----

  predicate IsSignature(buf: Bytes, p: nat, a: Byte, b: Byte)
    requires p + 4 <= |buf|
  {
    buf[p] == 0x50 && buf[p + 1] == 0x4b && buf[p + 2] == a && buf[p + 3] == b
  }

  /** The search for the end record, backwards from the last place where one fits. */
  function FindEnd(buf: Bytes, offset: int): (r: Option<nat>)
    requires offset + END_RECORD <= |buf|
    ensures r.Some? ==> r.value + END_RECORD <= |buf|
    decreases offset
  {
    if offset < 0 then None
    else if IsSignature(buf, offset, 5, 6) then Some(offset)
    else FindEnd(buf, offset - 1)
  }

  /** TmpFileInfo_t */
  datatype TmpFile = TmpFile(name: Bytes, filelen: nat, filepos: nat)

  function ParseHeader(buf: Bytes, p: nat): TmpFile
    requires p + FILE_HEADER <= |buf| && p + FILE_HEADER + Get16(buf, p + 28) <= |buf|
  {
    var nameLen, extra := Get16(buf, p + 28), Get16(buf, p + 30);
    TmpFile(Lower(buf[p + FILE_HEADER..p + FILE_HEADER + nameLen]), Get32(buf, p + 20),
            Get32(buf, p + 42) + LOCAL_HEADER + nameLen + extra)
  }

  function NextHeader(z: Config, buf: Bytes, p: nat): nat
    requires p + FILE_HEADER <= |buf|
  {
    p + FILE_HEADER + Get16(buf, p + 28) + (if z.compatible then Get16(buf, p + 30) + Get16(buf, p + 32) else 0)
  }

  /** n directory headers from p on. */
  function ParseDirectory(z: Config, buf: Bytes, p: nat, n: nat): Option<seq<TmpFile>>
    decreases n
  {
    if n == 0 then Some([])
    else if p + FILE_HEADER > |buf| || p + FILE_HEADER + Get16(buf, p + 28) > |buf| then None
    else match ParseDirectory(z, buf, NextHeader(z, buf, p), n - 1)
      case None => None
      case Some(more) => Some([ParseHeader(buf, p)] + more)
  }

  function ReadFile(buf: Bytes, f: TmpFile): Option<Entry> {
    if f.filelen == 0 then Some(Entry(f.name, []))
    else if f.filepos + f.filelen > |buf| then None
    else Some(Entry(f.name, buf[f.filepos..f.filepos + f.filelen]))
  }

  function ReadFiles(buf: Bytes, files: seq<TmpFile>): Option<seq<Entry>> {
    if files == [] then Some([])
    else match ReadFile(buf, files[0])
      case None => None
      case Some(e) => match ReadFiles(buf, files[1..])
        case None => None
        case Some(more) => Some([e] + more)
  }

  /** What ParseFromBuffer makes of a buffer: the settings and the entries, or nothing when it would
      read outside the buffer. */
  function Parse(y: Config, buf: Bytes): Option<(Config, seq<Entry>)> {
    if |buf| < END_RECORD then None
    else match FindEnd(buf, |buf| - END_RECORD)
      case None => None
      case Some(o) =>
        var commentLength := if Get16(buf, o + 20) < 128 then Get16(buf, o + 20) else 128;
        if o + END_RECORD + commentLength > |buf| then None
        else
          var z := if commentLength == 0 then y else ParseComment(y,
              buf[o + END_RECORD..o + END_RECORD + commentLength]);
          match ParseDirectory(z, buf, Get32(buf, o + 16), Get16(buf, o + 10))
          case None => None
          case Some(files) => match ReadFiles(buf, files)
            case None => None
            case Some(es) => Some((z, es))
  }

  // ----- parsing what was saved -----

  /** The limits of the format's fields, and what AddBufferToZip makes of names. */
  ghost predicate Storable(crc: Bytes -> nat, z: Config, es: seq<Entry>) {
    && |Digits(z.alignment)| <= 26 && IsPowerOfTwo(z.alignment) && (z.compatible || !z.update)
    && DirEnd(crc, z, es) < 0x1_0000_0000
    && forall i {:trigger es[i]} ::
         0 <= i < |es| ==> es[i].data != [] && |es[i].name| < 512 && Lower(es[i].name) == es[i].name
  }

  /** The count, the size and the offset in the end record do not look like its signature. */
  ghost predicate Unambiguous(n: nat, size: nat, offset: nat) {
    forall i: nat :: 8 <= i <= 16 ==> !IsSignature(EndRecord(n, size, offset), i, 5, 6)
  }

  lemma EndBytes(n: nat, size: nat, offset: nat)
    ensures var r := EndRecord(n, size, offset);
            && IsSignature(r, 0, 5, 6) && r[1] != 0x50 && r[2] != 0x50 && r[3] != 0x50
            && (forall i {:trigger r[i]} :: 4 <= i < 8 ==> r[i] == 0) && r[20] == XZIP_COMMENT_LENGTH && r[21] == 0
  {
    var r := EndRecord(n, size, offset);
    assert r[4..8] == Nulls(4);
    assert r[20..22] == Put16(XZIP_COMMENT_LENGTH);
    assert r[20] == r[20..22][0] && r[21] == r[20..22][1];
    forall i {:trigger r[i]} | 4 <= i < 8
      ensures r[i] == 0
    {
      assert r[i] == r[4..8][i - 4];
    }
  }

  lemma CommentBytes(z: Config)
    requires |Digits(z.alignment)| <= 26
    ensures var c := Comment(z);
            c[0] == 88 && c[1] == 90 && c[2] == 80 && c[3] != 0x4b && forall i {:trigger c[i]} ::
              3 <= i < |c| ==> c[i] != 0x50
  {
    ScanPrinted([], z.alignment);
  }

  /** No place after the end record's own start looks like its start. */
  lemma OnlyOneEnd(n: nat, size: nat, offset: nat, z: Config, k: nat)
    requires |Digits(z.alignment)| <= 26 && Unambiguous(n, size, offset) && 1 <= k <= XZIP_COMMENT_LENGTH
    ensures !IsSignature(EndRecord(n, size, offset) + Comment(z), k, 5, 6)
  {
    hide EndRecord, Comment;
    var r, c := EndRecord(n, size, offset), Comment(z);
    EndBytes(n, size, offset);
    CommentBytes(z);
    var tail := r + c;
    assert forall i {:trigger tail[i]} ::
             0 <= i < |tail| ==> tail[i] == if i < END_RECORD then r[i] else c[i - END_RECORD];
    if 8 <= k <= 16 {
      assert !IsSignature(r, k, 5, 6);
    }
  }

  lemma {:induction false} FindsEnd(buf: Bytes, o: nat, n: nat, size: nat, offset: nat, z: Config, at: nat)
    requires |Digits(z.alignment)| <= 26 && Unambiguous(n, size, offset)
    requires At(buf, o, EndRecord(n, size, offset) + Comment(z)) && |buf| == o + END_RECORD + XZIP_COMMENT_LENGTH
    requires o <= at <= o + XZIP_COMMENT_LENGTH
    ensures FindEnd(buf, at) == Some(o)
    decreases at
  {
    hide EndRecord, Comment;
    var tail := EndRecord(n, size, offset) + Comment(z);
    assert buf[o..o + |tail|] == tail;
    assert forall i {:trigger tail[i]} :: 0 <= i < |tail| ==> tail[i] == buf[o + i];
    if at == o {
      EndBytes(n, size, offset);
      assert tail[0] == EndRecord(n, size, offset)[0] && tail[1] == EndRecord(n, size, offset)[1]
             && tail[2] == EndRecord(n, size, offset)[2] && tail[3] == EndRecord(n, size, offset)[3];
    } else {
      OnlyOneEnd(n, size, offset, z, at - o);
      FindsEnd(buf, o, n, size, offset, z, at - 1);
    }
  }

  lemma SixteenBits(n: nat)
    ensures Put16(n) == Put16(n % 0x10000)
  {
    var q, r := n / 0x10000, n % 0x10000;
    assert n / 0x100 == 0x100 * q + r / 0x100;
  }

  lemma EndFields(buf: Bytes, o: nat, n: nat, size: nat, offset: nat)
    requires At(buf, o, EndRecord(n, size, offset)) && offset < 0x1_0000_0000
    ensures Get16(buf, o + 10) == n % 0x10000 && Get32(buf, o + 16) == offset
    ensures Get16(buf, o + 20) == XZIP_COMMENT_LENGTH
  {
    hide At, Get16, Get32, Put16, Put32, PkId, Nulls;
    var e := Put16(XZIP_COMMENT_LENGTH);
    var d := Put32(offset) + e;
    var c := Put32(size) + d;
    var b := Put16(n) + c;
    var a := Put16(n) + b;
    AtParts(buf, o, PkId(5, 6), Nulls(4) + a);
    AtParts(buf, o + 4, Nulls(4), a);
    AtParts(buf, o + 8, Put16(n), b);
    AtParts(buf, o + 10, Put16(n), c);
    AtParts(buf, o + 12, Put32(size), d);
    AtParts(buf, o + 16, Put32(offset), e);
    SixteenBits(n);
    Get16At(buf, o + 10, n % 0x10000);
    Get32At(buf, o + 16, offset);
    Get16At(buf, o + 20, XZIP_COMMENT_LENGTH);
  }

  lemma HeaderFields(buf: Bytes, p: nat, crc: nat, size: nat, nameLen: nat, pad: nat, offset: nat)
    requires At(buf, p, FileHeader(crc, size, nameLen, pad, offset))
    requires size < 0x1_0000_0000 && nameLen < 0x10000 && pad < 0x10000 && offset < 0x1_0000_0000
    ensures p + FILE_HEADER <= |buf|
    ensures Get32(buf, p + 20) == size && Get16(buf, p + 28) == nameLen && Get16(buf, p + 30) == pad
    ensures Get16(buf, p + 32) == 0 && Get32(buf, p + 42) == offset
  {
    hide Get16, Get32, Put16, Put32, PkId, Nulls;
    var g := Nulls(8) + Put32(offset);
    var f := Put16(0) + g;
    var e := Put16(pad) + f;
    var d := Put16(nameLen) + e;
    var c := Put32(size) + d;
    var b := Put32(size) + c;
    var front := Put16(20) + Put16(10) + Nulls(8) + Put32(crc);
    AtParts(buf, p, PkId(1, 2), front + b);
    AtParts(buf, p + 4, front, b);
    AtParts(buf, p + 20, Put32(size), c);
    AtParts(buf, p + 24, Put32(size), d);
    AtParts(buf, p + 28, Put16(nameLen), e);
    AtParts(buf, p + 30, Put16(pad), f);
    AtParts(buf, p + 32, Put16(0), g);
    AtParts(buf, p + 34, Nulls(8), Put32(offset));
    Get32At(buf, p + 20, size);
    Get16At(buf, p + 28, nameLen);
    Get16At(buf, p + 30, pad);
    Get16At(buf, p + 32, 0);
    Get32At(buf, p + 42, offset);
  }

  lemma AtFront(front: Bytes, back: Bytes, p: nat, part: Bytes)
    requires At(front, p, part)
    ensures At(front + back, p, part)
  {
    assert (front + back)[p..p + |part|] == front[p..p + |part|];
  }

  lemma AtBack(front: Bytes, back: Bytes)
    ensures At(front + back, |front|, back)
  {
  }

  lemma {:induction false} LocalsAt(crc: Bytes -> nat, a: nat, es: seq<Entry>, i: nat)
    requires i < |es|
    ensures At(Locals(crc, a, es), |Locals(crc, a, es[..i])|, LocalRecord(crc, a, es[i], |Locals(crc, a, es[..i])|))
    decreases |es|
  {
    hide LocalRecord, At;
    var k := |es| - 1;
    var front, last := Locals(crc, a, es[..k]), LocalRecord(crc, a, es[k], |Locals(crc, a, es[..k])|);
    if i < k {
      LocalsAt(crc, a, es[..k], i);
      assert es[..k][..i] == es[..i];
      AtFront(front, last, |Locals(crc, a, es[..i])|, LocalRecord(crc, a, es[i], |Locals(crc, a, es[..i])|));
    } else {
      AtBack(front, last);
    }
  }

  lemma {:induction false} DirectoryAt(crc: Bytes -> nat, a: nat, compatible: bool, es: seq<Entry>, i: nat)
    requires i < |es|
    ensures At(Directory(crc, a, compatible, es), |Directory(crc, a, compatible, es[..i])|,
               DirRecord(crc, a, compatible, es[i], |Locals(crc, a, es[..i])|))
    decreases |es|
  {
    hide DirRecord, Locals, At;
    var k := |es| - 1;
    var front := Directory(crc, a, compatible, es[..k]);
    var last := DirRecord(crc, a, compatible, es[k], |Locals(crc, a, es[..k])|);
    if i < k {
      DirectoryAt(crc, a, compatible, es[..k], i);
      assert es[..k][..i] == es[..i];
      AtFront(front, last, |Directory(crc, a, compatible, es[..i])|,
              DirRecord(crc, a, compatible, es[i], |Locals(crc, a, es[..i])|));
    } else {
      AtBack(front, last);
    }
  }

  /** A part of a part. */
  lemma AtWithin(buf: Bytes, p: nat, part: Bytes, q: nat, inner: Bytes)
    requires At(buf, p, part) && At(part, q, inner)
    ensures At(buf, p + q, inner)
  {
    var window := buf[p..p + |part|];
    forall i | 0 <= i < |inner|
      ensures buf[p + q..p + q + |inner|][i] == inner[i]
    {
      assert buf[p + q + i] == window[q + i] == window[q..q + |inner|][i];
    }
  }

  lemma HeaderParsed(buf: Bytes, p: nat, crc: Bytes -> nat, y: Config, z: Config, e: Entry, pos: nat)
    requires y.compatible == z.compatible && At(buf, p, DirRecord(crc, z.alignment, z.compatible, e, pos))
    requires |e.name| < 512 && |e.data| < 0x1_0000_0000 && pos < 0x1_0000_0000 && Lower(e.name) == e.name
    ensures p + FILE_HEADER <= |buf| && p + FILE_HEADER + Get16(buf, p + 28) <= |buf|
    ensures ParseHeader(buf, p)
            == TmpFile(e.name, |e.data|, pos + LOCAL_HEADER + |e.name| + Padding(z.alignment, |e.name|, pos))
    ensures NextHeader(y, buf, p) == p + |DirRecord(crc, z.alignment, z.compatible, e, pos)|
  {
    hide At, Get16, Get32, FileHeader, Padding, Lower;
    var pad := Padding(z.alignment, |e.name|, pos);
    var h := FileHeader(crc(e.data), |e.data|, |e.name|, pad, pos);
    var extra := if z.compatible then Nulls(pad) else [];
    AtParts(buf, p, h + e.name, extra);
    AtParts(buf, p, h, e.name);
    HeaderFields(buf, p, crc(e.data), |e.data|, |e.name|, pad, pos);
    AtSlice(buf, p + FILE_HEADER, e.name);
  }

  lemma AtSlice(buf: Bytes, p: nat, part: Bytes)
    requires At(buf, p, part)
    ensures p + |part| <= |buf| && buf[p..p + |part|] == part
  {
  }

  /** Where the parser expects an entry's data is where it was written. */
  lemma DataPlaced(buf: Bytes, pos: nat, crc: Bytes -> nat, a: nat, e: Entry)
    requires At(buf, pos, LocalRecord(crc, a, e, pos))
    ensures At(buf, pos + LOCAL_HEADER + |e.name| + Padding(a, |e.name|, pos), e.data)
  {
    hide At, LocalHeader, Padding;
    var pad := Padding(a, |e.name|, pos);
    AtParts(buf, pos, LocalHeader(crc(e.data), |e.data|, |e.name|, pad) + e.name + Nulls(pad), e.data);
  }

  /** The archive is in the buffer, whatever follows its body. */
  ghost predicate Holds(buf: Bytes, crc: Bytes -> nat, z: Config, es: seq<Entry>) {
    At(buf, 0, Locals(crc, z.alignment, es))
    && At(buf, DirStart(crc, z.alignment, es), Directory(crc, z.alignment, z.compatible, es))
  }

  ghost function TmpOf(crc: Bytes -> nat, z: Config, es: seq<Entry>, i: nat): TmpFile
    requires i < |es|
  {
    var pos := |Locals(crc, z.alignment, es[..i])|;
    TmpFile(es[i].name, |es[i].data|, pos + LOCAL_HEADER + |es[i].name| + Padding(z.alignment, |es[i].name|, pos))
  }

  /** n entries of the directory from number i on. */
  ghost function TmpsFrom(crc: Bytes -> nat, z: Config, es: seq<Entry>, i: nat, n: nat): (r: seq<TmpFile>)
    requires i + n <= |es|
    ensures |r| == n
    decreases n
  {
    if n == 0 then [] else [TmpOf(crc, z, es, i)] + TmpsFrom(crc, z, es, i + 1, n - 1)
  }

  lemma {:induction false} LocalsGrow(crc: Bytes -> nat, a: nat, es: seq<Entry>, i: nat)
    requires i <= |es|
    ensures |Locals(crc, a, es[..i])| <= |Locals(crc, a, es)|
    decreases |es|
  {
    hide LocalRecord;
    if i < |es| {
      LocalsGrow(crc, a, es[..|es| - 1], i);
      assert es[..|es| - 1][..i] == es[..i];
    } else {
      assert es[..i] == es;
    }
  }

  lemma DirectoryStep(crc: Bytes -> nat, a: nat, compatible: bool, es: seq<Entry>, i: nat)
    requires i < |es|
    ensures Directory(crc, a, compatible, es[..i + 1])
         == Directory(crc, a, compatible, es[..i]) + DirRecord(crc, a, compatible, es[i], |Locals(crc, a, es[..i])|)
  {
    hide DirRecord, Locals;
    assert es[..i + 1][..i] == es[..i] && es[..i + 1][i] == es[i];
  }

  lemma {:induction false} DirectoryParsed(buf: Bytes, crc: Bytes -> nat, y: Config, z: Config, es: seq<Entry>, i: nat,
                                           n: nat)
    requires Storable(crc, z, es) && Holds(buf, crc, z, es) && y.compatible == z.compatible && i + n <= |es|
    ensures ParseDirectory(y, buf, DirStart(crc, z.alignment, es)
                           + |Directory(crc, z.alignment, z.compatible, es[..i])|, n)
         == Some(TmpsFrom(crc, z, es, i, n))
    decreases n
  {
    hide At, DirRecord, ParseHeader, NextHeader, Padding, Storable, Locals, Directory, DirStart, Get16;
    if n > 0 {
      var start, d := DirStart(crc, z.alignment, es), Directory(crc, z.alignment, z.compatible, es);
      var p, pos := |Directory(crc, z.alignment, z.compatible, es[..i])|, |Locals(crc, z.alignment, es[..i])|;
      EntryFits(crc, z, es, i);
      DirectoryAt(crc, z.alignment, z.compatible, es, i);
      AtWithin(buf, start, d, p, DirRecord(crc, z.alignment, z.compatible, es[i], pos));
      HeaderParsed(buf, start + p, crc, y, z, es[i], pos);
      DirectoryStep(crc, z.alignment, z.compatible, es, i);
      DirectoryParsed(buf, crc, y, z, es, i + 1, n - 1);
    }
  }

  lemma EntryFits(crc: Bytes -> nat, z: Config, es: seq<Entry>, i: nat)
    requires Storable(crc, z, es) && i < |es|
    ensures |es[i].data| < 0x1_0000_0000 && |Locals(crc, z.alignment, es[..i])| < 0x1_0000_0000
    ensures |es[i].name| < 512 && Lower(es[i].name) == es[i].name && es[i].data != []
  {
    hide LocalHeader, Directory;
    var a := z.alignment;
    LocalsAt(crc, a, es, i);
    LocalsGrow(crc, a, es, i);
  }

  lemma FileRead(buf: Bytes, crc: Bytes -> nat, z: Config, es: seq<Entry>, i: nat)
    requires Storable(crc, z, es) && Holds(buf, crc, z, es) && i < |es|
    ensures ReadFile(buf, TmpOf(crc, z, es, i)) == Some(es[i])
  {
    hide At, LocalRecord, Padding, IsPowerOfTwo, Digits, Lower, Locals, Directory;
    var pos := |Locals(crc, z.alignment, es[..i])|;
    EntryFits(crc, z, es, i);
    LocalsAt(crc, z.alignment, es, i);
    AtWithin(buf, 0, Locals(crc, z.alignment, es), pos, LocalRecord(crc, z.alignment, es[i], pos));
    DataPlaced(buf, pos, crc, z.alignment, es[i]);
    AtSlice(buf, TmpOf(crc, z, es, i).filepos, es[i].data);
  }

  lemma {:induction false} FilesRead(buf: Bytes, crc: Bytes -> nat, z: Config, es: seq<Entry>, i: nat, n: nat)
    requires Storable(crc, z, es) && Holds(buf, crc, z, es) && i + n <= |es|
    ensures ReadFiles(buf, TmpsFrom(crc, z, es, i, n)) == Some(es[i..i + n])
    decreases n
  {
    hide Storable, Holds, TmpOf, ReadFile;
    if n > 0 {
      FileRead(buf, crc, z, es, i);
      FilesRead(buf, crc, z, es, i + 1, n - 1);
      assert TmpsFrom(crc, z, es, i, n)[1..] == TmpsFrom(crc, z, es, i + 1, n - 1);
      assert es[i..i + n] == [es[i]] + es[i + 1..i + n];
    } else {
      assert es[i..i + n] == [];
    }
  }

  /** The entries the end record counts: it has sixteen bits for their number. */
  function Declared(es: seq<Entry>): seq<Entry> {
    es[..|es| % 0x10000]
  }

  lemma DeclaredAll(es: seq<Entry>)
    ensures Declared(es) == es <==> |es| < 0x10000
  {
  }

  /** Parsing what was saved gives back the entries, in order, and the settings. */
  lemma RoundTrip(crc: Bytes -> nat, y: Config, z: Config, es: seq<Entry>)
    requires Storable(crc, z, es)
    requires Unambiguous(|es|, DirEnd(crc, z, es) - DirStart(crc, z.alignment, es), DirStart(crc, z.alignment, es))
    ensures Parse(y, Image(crc, z, es))
         == Some((Config(z.compatible, y.update, y.force, if y.force then y.alignment else z.alignment), Declared(es)))
  {
    hide At, IsPowerOfTwo, Digits, Lower, Directory, Locals, EndRecord, Comment, ParseComment, ParseDirectory,
         ReadFiles, FindEnd, Unambiguous, Get16, Get32, Body, Padding;
    var buf, o := Image(crc, z, es), DirEnd(crc, z, es);
    var start := DirStart(crc, z.alignment, es);
    var end := EndRecord(|es|, o - start, start);
    ImageParts(crc, z, es);
    FindsEnd(buf, o, |es|, o - start, start, z, o + XZIP_COMMENT_LENGTH);
    AtParts(buf, o, end, Comment(z));
    EndFields(buf, o, |es|, o - start, start);
    AtSlice(buf, o + END_RECORD, Comment(z));
    CommentRoundTrip(z, y);
    var y' := ParseComment(y, Comment(z));
    NoDirectory(crc, z, es);
    DirectoryParsed(buf, crc, y', z, es, 0, |Declared(es)|);
    FilesRead(buf, crc, z, es, 0, |Declared(es)|);
    assert es[0..|Declared(es)|] == Declared(es);
  }

  lemma NoDirectory(crc: Bytes -> nat, z: Config, es: seq<Entry>)
    ensures Directory(crc, z.alignment, z.compatible, es[..0]) == []
  {
  }

  lemma ImageParts(crc: Bytes -> nat, z: Config, es: seq<Entry>)
    requires |Digits(z.alignment)| <= 26
    ensures var buf, o, start := Image(crc, z, es), DirEnd(crc, z, es), DirStart(crc, z.alignment, es);
            && o >= start && Holds(buf, crc, z, es) && |buf| == o + END_RECORD + XZIP_COMMENT_LENGTH
            && At(buf, o, EndRecord(|es|, o - start, start) + Comment(z))
  {
    hide *;
    var l, p1, d, p2, tail := ImageIs(crc, z, es);
    var buf := Image(crc, z, es);
    AtWhole(buf);
    AtParts(buf, 0, l, p1 + (d + (p2 + tail)));
    AtParts(buf, |l|, p1, d + (p2 + tail));
    AtParts(buf, |l + p1|, d, p2 + tail);
    AtParts(buf, |l + p1| + |d|, p2, tail);
    HoldsNow(buf, crc, z, es);
  }

  lemma HoldsNow(buf: Bytes, crc: Bytes -> nat, z: Config, es: seq<Entry>)
    requires At(buf, 0, Locals(crc, z.alignment, es))
    requires At(buf, DirStart(crc, z.alignment, es), Directory(crc, z.alignment, z.compatible, es))
    ensures Holds(buf, crc, z, es)
  {
  }

  /** The five stretches of an archive. */
  lemma ImageIs(crc: Bytes -> nat, z: Config, es: seq<Entry>)
    returns (l: Bytes, p1: Bytes, d: Bytes, p2: Bytes, tail: Bytes)
    requires |Digits(z.alignment)| <= 26
    ensures Image(crc, z, es) == l + (p1 + (d + (p2 + tail)))
    ensures l == Locals(crc, z.alignment, es) && d == Directory(crc, z.alignment, z.compatible, es)
    ensures |l + p1| == DirStart(crc, z.alignment, es) && |l + p1| + |d| + |p2| == DirEnd(crc, z, es)
    ensures var start, end := DirStart(crc, z.alignment, es), DirEnd(crc, z, es);
            end >= start && tail == EndRecord(|es|, end - start, start) + Comment(z)
            && |tail| == END_RECORD + XZIP_COMMENT_LENGTH
  {
    hide Locals, Directory, EndRecord, Comment, Nulls, AlignPad;
    var a, start, end := z.alignment, DirStart(crc, z.alignment, es), DirEnd(crc, z, es);
    l, d := Locals(crc, a, es), Directory(crc, a, z.compatible, es);
    p1, p2 := Nulls(AlignPad(a, |l|)), Nulls(AlignPad(a, start + |d|));
    tail := EndRecord(|es|, end - start, start) + Comment(z);
    Regroup(l, p1, d, p2, EndRecord(|es|, end - start, start), Comment(z));
  }

  lemma Regroup(l: Bytes, p: Bytes, d: Bytes, q: Bytes, e: Bytes, c: Bytes)
    ensures l + p + d + q + e + c == l + (p + (d + (q + (e + c))))
  {
  }

  lemma AtWhole(buf: Bytes)
    ensures At(buf, 0, buf)
  {
  }

  lemma {:induction false} FindsAtLeast(buf: Bytes, at: nat, k: nat)
    requires at + END_RECORD <= |buf| && k <= at && IsSignature(buf, k, 5, 6)
    ensures FindEnd(buf, at).Some? && FindEnd(buf, at).value >= k
    decreases at
  {
    if !IsSignature(buf, at, 5, 6) {
      FindsAtLeast(buf, at - 1, k);
    }
  }

  /** The search stops at the real end record exactly when nothing in it looks like its start again. */
  lemma EndFoundIff(buf: Bytes, o: nat, n: nat, size: nat, offset: nat, z: Config)
    requires |Digits(z.alignment)| <= 26
    requires At(buf, o, EndRecord(n, size, offset) + Comment(z)) && |buf| == o + END_RECORD + XZIP_COMMENT_LENGTH
    ensures FindEnd(buf, o + XZIP_COMMENT_LENGTH) == Some(o) <==> Unambiguous(n, size, offset)
  {
    hide EndRecord, Comment, Digits;
    if Unambiguous(n, size, offset) {
      FindsEnd(buf, o, n, size, offset, z, o + XZIP_COMMENT_LENGTH);
    } else {
      var r := EndRecord(n, size, offset);
      var i: nat :| 8 <= i <= 16 && IsSignature(r, i, 5, 6);
      var tail := r + Comment(z);
      assert buf[o..o + |tail|] == tail;
      assert forall j {:trigger r[j]} :: 0 <= j < |r| ==> r[j] == tail[j] == buf[o + j];
      FindsAtLeast(buf, o + XZIP_COMMENT_LENGTH, o + i);
    }
  }

  // ----- an archive that is mistaken -----

  const SIGNATURE: nat := 0x06054b50

  /** One file of just the size that makes the directory start at the number the signature is. */
  function MistakenEntry(): Entry {
    Entry([97], seq(SIGNATURE - LOCAL_HEADER - 1, _ => 0))
  }

  lemma OneEntry(crc: Bytes -> nat, a: nat, compatible: bool, e: Entry)
    ensures Locals(crc, a, [e]) == LocalRecord(crc, a, e, 0)
    ensures Directory(crc, a, compatible, [e]) == DirRecord(crc, a, compatible, e, 0)
  {
    hide LocalRecord, DirRecord;
    assert [e][..0] == [];
    assert Locals(crc, a, []) == [] && Directory(crc, a, compatible, []) == [];
  }

  /** The archive of that file is storable, the search stops inside its end record, and whatever is parsed there
      is not the file. */
  lemma MistakenArchive(crc: Bytes -> nat, y: Config)
    ensures var z, es := Config(true, false, false, 0), [MistakenEntry()];
            var start, end := DirStart(crc, z.alignment, es), DirEnd(crc, z, es);
            && Storable(crc, z, es) && start == SIGNATURE && !Unambiguous(|es|, end - start, start)
            && FindEnd(Image(crc, z, es), |Image(crc, z, es)| - END_RECORD) == Some(end + 16)
            && forall c {:trigger Some((c, es))} :: Parse(y, Image(crc, z, es)) != Some((c, es))
  {
    hide Locals, Directory, LocalRecord, DirRecord, EndRecord, Comment, At, Image, Body, ParseDirectory, ReadFiles,
         ParseComment, Get32;
    var z, es := Config(true, false, false, 0), [MistakenEntry()];
    OneEntry(crc, 0, true, es[0]);
    assert es[0].name == [97] && Lower([97]) == [97];
    var start, end := DirStart(crc, 0, es), DirEnd(crc, z, es);
    assert Storable(crc, z, es);
    ImageParts(crc, z, es);
    var buf := Image(crc, z, es);
    var r, c := EndRecord(1, end - start, start), Comment(z);
    OffsetBytes(1, end - start);
    Ambiguous(1, end - start, start);
    var tail := r + c;
    AtSlice(buf, end, tail);
    assert forall j {:trigger tail[j]} :: 0 <= j < |tail| ==> tail[j] == buf[end + j];
    ZeroComment(z);
    LastPlace(buf, end, r, c);
    forall k {:trigger Some((k, es))}
      ensures Parse(y, buf) != Some((k, es))
    {
      ParsedCount(y, buf, end + 16);
      assert buf[end + 26] == c[4] && buf[end + 27] == c[5];
    }
  }

  lemma OffsetBytes(n: nat, size: nat)
    ensures IsSignature(EndRecord(n, size, SIGNATURE), 16, 5, 6)
    ensures EndRecord(n, size, SIGNATURE)[20] == XZIP_COMMENT_LENGTH && EndRecord(n, size, SIGNATURE)[21] == 0
  {
    EndBytes(n, size, SIGNATURE);
    var r := EndRecord(n, size, SIGNATURE);
    assert r[16..20] == Put32(SIGNATURE);
    assert Put32(SIGNATURE) == [0x50, 0x4b, 5, 6];
    assert r[16] == r[16..20][0] && r[17] == r[16..20][1] && r[18] == r[16..20][2] && r[19] == r[16..20][3];
  }

  lemma Ambiguous(n: nat, size: nat, offset: nat)
    requires IsSignature(EndRecord(n, size, offset), 16, 5, 6)
    ensures !Unambiguous(n, size, offset)
  {
    hide EndRecord, IsSignature;
  }

  lemma ZeroComment(z: Config)
    requires z.alignment == 0
    ensures |Digits(0)| == 1 && Comment(z)[4] == 32 && Comment(z)[5] == 48
    ensures forall i {:trigger Comment(z)[i]} :: 3 <= i < XZIP_COMMENT_LENGTH ==> Comment(z)[i] != 0x50
    ensures Comment(z)[2] == 80 && Comment(z)[3] != 0x4b && Comment(z)[1] == 90 && Comment(z)[0] == 88
  {
    CommentBytes(z);
  }

  /** Nothing behind the false signature looks like another. */
  lemma LastPlace(buf: Bytes, o: nat, r: Bytes, c: Bytes)
    requires |r| == END_RECORD && |c| == XZIP_COMMENT_LENGTH && |buf| == o + END_RECORD + XZIP_COMMENT_LENGTH
    requires forall j {:trigger (r + c)[j]} :: 0 <= j < |r + c| ==> (r + c)[j] == buf[o + j]
    requires IsSignature(r, 16, 5, 6) && r[20] == XZIP_COMMENT_LENGTH && r[21] == 0
    requires c[0] == 88 && c[1] == 90 && c[3] != 0x4b && forall i {:trigger c[i]} :: 3 <= i < |c| ==> c[i] != 0x50
    ensures FindEnd(buf, o + XZIP_COMMENT_LENGTH) == Some(o + 16)
  {
    var tail := r + c;
    forall j | 17 <= j <= XZIP_COMMENT_LENGTH
      ensures !IsSignature(tail, j, 5, 6)
    {
      assert tail[j] == if j < END_RECORD then r[j] else c[j - END_RECORD];
    }
    assert tail[16] == r[16] && tail[17] == r[17] && tail[18] == r[18] && tail[19] == r[19];
    FindsFrom(buf, o, o + XZIP_COMMENT_LENGTH, tail);
  }

  lemma {:induction false} FindsFrom(buf: Bytes, o: nat, at: nat, tail: Bytes)
    requires |tail| == END_RECORD + XZIP_COMMENT_LENGTH && |buf| == o + |tail|
             && o + 16 <= at <= o + XZIP_COMMENT_LENGTH
    requires forall j {:trigger tail[j]} :: 0 <= j < |tail| ==> tail[j] == buf[o + j]
    requires IsSignature(tail, 16, 5, 6) && forall j :: 17 <= j <= XZIP_COMMENT_LENGTH ==> !IsSignature(tail, j, 5, 6)
    ensures FindEnd(buf, at) == Some(o + 16)
    decreases at
  {
    var j := at - o;
    assert tail[j] == buf[at] && tail[j + 1] == buf[at + 1] && tail[j + 2] == buf[at + 2] && tail[j + 3] == buf[at + 3];
    if j > 16 {
      assert !IsSignature(tail, j, 5, 6);
      FindsFrom(buf, o, at - 1, tail);
    }
  }

  /** The parser returns as many entries as the record it found says. */
  lemma ParsedCount(y: Config, buf: Bytes, o: nat)
    requires |buf| >= END_RECORD && FindEnd(buf, |buf| - END_RECORD) == Some(o)
    ensures o + END_RECORD <= |buf| && (Parse(y, buf).Some? ==> |Parse(y, buf).value.1| == Get16(buf, o + 10))
  {
    hide ParseDirectory, ReadFiles, FindEnd, Get32, Get16, ParseComment;
    if Parse(y, buf).Some? {
      var length := if Get16(buf, o + 20) < 128 then Get16(buf, o + 20) else 128;
      var z := if length == 0 then y else ParseComment(y, buf[o + END_RECORD..o + END_RECORD + length]);
      DirectoryCount(z, buf, Get32(buf, o + 16), Get16(buf, o + 10));
      FilesCount(buf, ParseDirectory(z, buf, Get32(buf, o + 16), Get16(buf, o + 10)).value);
    }
  }

  lemma {:induction false} DirectoryCount(z: Config, buf: Bytes, p: nat, n: nat)
    ensures ParseDirectory(z, buf, p, n).Some? ==> |ParseDirectory(z, buf, p, n).value| == n
    decreases n
  {
    hide Get16, Get32, Lower;
    if n > 0 && p + FILE_HEADER <= |buf| {
      DirectoryCount(z, buf, NextHeader(z, buf, p), n - 1);
    }
  }

  lemma {:induction false} FilesCount(buf: Bytes, files: seq<TmpFile>)
    ensures ReadFiles(buf, files).Some? ==> |ReadFiles(buf, files).value| == |files|
  {
    if files != [] {
      FilesCount(buf, files[1..]);
    }
  }

  // ----- alignment and size -----

  /** An alignment that divides 0x10000 is only cut where the cut is a multiple of it. */
  lemma PaddingUncut(a: nat, x: nat)
    requires 0 < a && 0x10000 % a == 0
    ensures (x + (a - x % a) % 0x10000) % a == 0
  {
    DivMod(0x10000, a);
    MulStep(0x10000 / a, 1, a);
    assert a <= 0x10000;
    AlignUp(x, a);
    if a - x % a == 0x10000 {
      assert x % a == 0;
    }
  }

  /** In the whole archive every file's data stands where its directory record leads, at a multiple of the alignment. */
  lemma FilesAligned(crc: Bytes -> nat, z: Config, es: seq<Entry>, i: nat) returns (p: nat)
    requires |Digits(z.alignment)| <= 26 && 0 < z.alignment && 0x10000 % z.alignment == 0 && i < |es|
    ensures p == TmpOf(crc, z, es, i).filepos && p % z.alignment == 0 && At(Image(crc, z, es), p, es[i].data)
  {
    hide At, Locals, Directory, LocalRecord, Padding, Image;
    var e, pos := es[i], |Locals(crc, z.alignment, es[..i])|;
    ImageParts(crc, z, es);
    LocalsAt(crc, z.alignment, es, i);
    AtWithin(Image(crc, z, es), 0, Locals(crc, z.alignment, es), pos, LocalRecord(crc, z.alignment, e, pos));
    DataPlaced(Image(crc, z, es), pos, crc, z.alignment, e);
    DataAligned(z.alignment, |e.name|, pos);
    p := pos + LOCAL_HEADER + |e.name| + Padding(z.alignment, |e.name|, pos);
  }

  /** The padding brings the data to a multiple of the alignment. */
  lemma DataAligned(a: nat, nameLen: nat, pos: nat)
    requires 0 < a && 0x10000 % a == 0
    ensures (pos + LOCAL_HEADER + nameLen + Padding(a, nameLen, pos)) % a == 0
  {
    PaddingUncut(a, pos + LOCAL_HEADER + nameLen);
  }

  /** CalculateSize's own account of the local part: round up to the next boundary, always by at least one. */
  function NextBoundary(a: nat, size: nat): nat {
    if a == 0 then size else (size / a + 1) * a
  }

  lemma BoundaryIsPadding(a: nat, nameLen: nat, pos: nat)
    requires a < 0x10000
    ensures NextBoundary(a, pos + LOCAL_HEADER + nameLen) == pos + LOCAL_HEADER + nameLen + Padding(a, nameLen, pos)
  {
    if a > 0 {
      var x := pos + LOCAL_HEADER + nameLen;
      DivMod(x, a);
      MulDist(x / a, 1, a);
    }
  }

  // ----- the table of files, by name -----

  predicate HasName(es: seq<Entry>, name: Bytes) {
    exists i :: 0 <= i < |es| && es[i].name == name
  }

  /** Names are lower case and occur once. */
  ghost predicate Keyed(es: seq<Entry>) {
    && (forall i {:trigger es[i]} :: 0 <= i < |es| ==> Lower(es[i].name) == es[i].name && |es[i].name| < 512)
    && forall i, j {:trigger es[i], es[j]} :: 0 <= i < j < |es| ==> es[i].name != es[j].name
  }

  /** The name-to-bytes map. */
  ghost function Table(es: seq<Entry>): map<Bytes, Bytes> {
    if es == [] then map[] else Table(es[..|es| - 1])[es[|es| - 1].name := es[|es| - 1].data]
  }

  lemma {:induction false} TableHas(es: seq<Entry>, name: Bytes)
    ensures name in Table(es) <==> HasName(es, name)
  {
    if es != [] {
      var k := |es| - 1;
      TableHas(es[..k], name);
      if HasName(es, name) && es[k].name != name {
        var i :| 0 <= i < |es| && es[i].name == name;
        assert es[..k][i].name == name;
      }
      if HasName(es[..k], name) {
        var i :| 0 <= i < k && es[..k][i].name == name;
        assert es[i].name == name;
      }
    }
  }

  lemma {:induction false} TableAt(es: seq<Entry>, i: nat)
    requires Keyed(es) && i < |es|
    ensures es[i].name in Table(es) && Table(es)[es[i].name] == es[i].data
  {
    var k := |es| - 1;
    if i < k {
      TableAt(es[..k], i);
      assert es[..k][i] == es[i];
    }
  }

  /** Two lists of entries with the same entries make the same table. */
  lemma SameTable(es: seq<Entry>, t: map<Bytes, Bytes>)
    requires Keyed(es)
             && (forall i {:trigger es[i]} :: 0 <= i < |es| ==> es[i].name in t && t[es[i].name] == es[i].data)
    requires forall name {:trigger name in t} :: name in t ==> HasName(es, name)
    ensures Table(es) == t
  {
    forall name: Bytes
      ensures name in Table(es) <==> name in t
      ensures name in t && name in Table(es) ==> Table(es)[name] == t[name]
    {
      TableHas(es, name);
      if HasName(es, name) {
        var i :| 0 <= i < |es| && es[i].name == name;
        TableAt(es, i);
      }
    }
  }

  lemma LowerTwice(name: Bytes)
    ensures Lower(Lower(name)) == Lower(name)
  {
  }

  lemma ReplaceEntry(es: seq<Entry>, i: nat, data: Bytes)
    requires Keyed(es) && i < |es|
    ensures var after := es[i := Entry(es[i].name, data)];
            Keyed(after) && Table(after) == Table(es)[es[i].name := data]
  {
    hide Table;
    var after := es[i := Entry(es[i].name, data)];
    var t := Table(es)[es[i].name := data];
    forall j {:trigger after[j]} | 0 <= j < |after|
      ensures after[j].name in t && t[after[j].name] == after[j].data
    {
      TableAt(es, j);
    }
    forall name {:trigger name in t} | name in t
      ensures HasName(after, name)
    {
      TableHas(es, name);
      if name == es[i].name {
        assert after[i].name == name;
      } else {
        var j :| 0 <= j < |es| && es[j].name == name;
        assert after[j].name == name;
      }
    }
    SameTable(after, t);
  }

  function Inserted(es: seq<Entry>, at: nat, e: Entry): seq<Entry>
    requires at <= |es|
  {
    es[..at] + [e] + es[at..]
  }

  lemma InsertKeyed(es: seq<Entry>, at: nat, e: Entry)
    requires Keyed(es) && at <= |es| && !HasName(es, e.name) && Lower(e.name) == e.name && |e.name| < 512
    ensures Keyed(Inserted(es, at, e))
  {
    hide Lower;
    var after := Inserted(es, at, e);
    forall j {:trigger after[j]} | 0 <= j < |after|
      ensures after[j] == if j < at then es[j] else if j == at then e else es[j - 1]
      ensures Lower(after[j].name) == after[j].name && |after[j].name| < 512
    {
    }
    forall i, j {:trigger after[i], after[j]} | 0 <= i < j < |after|
      ensures after[i].name != after[j].name
    {
      if i == at {
        assert es[j - 1].name != e.name;
      } else if j == at {
        assert es[i].name != e.name;
      }
    }
  }

  lemma InsertEntry(es: seq<Entry>, at: nat, e: Entry)
    requires Keyed(es) && at <= |es| && !HasName(es, e.name) && Lower(e.name) == e.name && |e.name| < 512
    ensures Keyed(Inserted(es, at, e)) && Table(Inserted(es, at, e)) == Table(es)[e.name := e.data]
  {
    hide Table, Lower, HasName, Keyed;
    var after, t := Inserted(es, at, e), Table(es)[e.name := e.data];
    InsertKeyed(es, at, e);
    forall j {:trigger after[j]} | 0 <= j < |after|
      ensures after[j].name in t && t[after[j].name] == after[j].data
    {
      if j != at {
        var k := if j < at then j else j - 1;
        TableAt(es, k);
        Named(es, k);
      }
    }
    forall name {:trigger name in t} | name in t
      ensures HasName(after, name)
    {
      TableHas(es, name);
      if name == e.name {
        Named(after, at);
      } else {
        var j := NamedAt(es, name);
        Named(after, if j < at then j else j + 1);
      }
    }
    SameTable(after, t);
  }

  lemma Named(es: seq<Entry>, i: nat)
    requires i < |es|
    ensures HasName(es, es[i].name)
  {
  }

  lemma NamedAt(es: seq<Entry>, name: Bytes) returns (i: nat)
    requires HasName(es, name)
    ensures i < |es| && es[i].name == name
  {
    i :| i < |es| && es[i].name == name;
  }

  lemma RemoveEntry(es: seq<Entry>, i: nat)
    requires Keyed(es) && i < |es|
    ensures var after := es[..i] + es[i + 1..];
            Keyed(after) && Table(after) == Table(es) - {es[i].name}
  {
    hide Table, Lower;
    var after := es[..i] + es[i + 1..];
    var t := Table(es) - {es[i].name};
    assert forall j {:trigger after[j]} :: 0 <= j < |after| ==> after[j] == if j < i then es[j] else es[j + 1];
    forall j {:trigger after[j]} | 0 <= j < |after|
      ensures after[j].name in t && t[after[j].name] == after[j].data
    {
      TableAt(es, if j < i then j else j + 1);
    }
    forall name {:trigger name in t} | name in t
      ensures HasName(after, name)
    {
      TableHas(es, name);
      var j :| 0 <= j < |es| && es[j].name == name;
      assert after[if j < i then j else j - 1].name == name;
    }
    assert Keyed(after);
    SameTable(after, t);
  }

  ghost function NonEmpty(t: map<Bytes, Bytes>): map<Bytes, Bytes> {
    map name | name in t && t[name] != [] :: t[name]
  }

  /** What is saved are the entries with data, each once. */
  lemma {:induction false} KeptIs(es: seq<Entry>)
    requires Keyed(es)
    ensures Keyed(Kept(es))
    ensures forall e {:trigger e in Kept(es)} {:trigger e in es} :: e in Kept(es) <==> e in es && e.data != []
  {
    hide Lower;
    if es != [] {
      var k := |es| - 1;
      KeptIs(es[..k]);
      assert es == es[..k] + [es[k]];
      var before := Kept(es[..k]);
      forall i | 0 <= i < |before|
        ensures before[i].name != es[k].name
      {
        assert before[i] in es[..k];
      }
    }
  }

  /** What is saved is the table without its empty files. */
  lemma KeptTable(es: seq<Entry>)
    requires Keyed(es)
    ensures Keyed(Kept(es)) && Table(Kept(es)) == NonEmpty(Table(es))
  {
    hide Table, Kept, Lower, HasName, Keyed;
    KeptIs(es);
    var kept, t := Kept(es), NonEmpty(Table(es));
    forall i {:trigger kept[i]} | 0 <= i < |kept|
      ensures kept[i].name in t && t[kept[i].name] == kept[i].data
    {
      assert kept[i] in kept;
      var j :| 0 <= j < |es| && es[j] == kept[i];
      TableAt(es, j);
    }
    forall name {:trigger name in t} | name in t
      ensures HasName(kept, name)
    {
      TableHas(es, name);
      var j := NamedAt(es, name);
      TableAt(es, j);
      assert es[j] in es;
      var i :| 0 <= i < |kept| && kept[i] == es[j];
      Named(kept, i);
    }
    SameTable(kept, t);
  }

  // ----- the methods -----

  /** What is left of a name copied into a buffer. */
  function Cut(name: Bytes, limit: nat): Bytes {
    if |name| <= limit then name else name[..limit]
  }

  /** The size without the padding around the directory. */
  function Predicted(crc: Bytes -> nat, a: nat, es: seq<Entry>): nat {
    |Locals(crc, a, es)| + |Directory(crc, a, true, es)| + END_RECORD + XZIP_COMMENT_LENGTH
  }

  class ZipFile {
    var config: Config
    var files: seq<Entry>
    const sortByName: bool

    constructor (config: Config, sortByName: bool)
      ensures this.config == config && files == [] && this.sortByName == sortByName
    {
      this.config, files, this.sortByName := config, [], sortByName;
    }

    /** Where an entry with this name is, if there is one. */
    method Find(name: Bytes) returns (index: Option<nat>)
      ensures match index case None => !HasName(files, name) case Some(i) => i < |files| && files[i].name == name
    {
      for i := 0 to |files|
        invariant !HasName(files[..i], name)
      {
        if files[i].name == name {
          return Some(i);
        }
        assert files[..i + 1] == files[..i] + [files[i]];
      }
      assert files[..|files|] == files;
      index := None;
    }

    /** AddBufferToZip: the data of a name already there is replaced; a new one goes wherever the order of the tree
        puts it. */
    method AddBufferToZip(relativename: Bytes, data: Bytes, textMode: bool)
      requires Keyed(files) && |relativename| < 512
      modifies this`files
      ensures Keyed(files)
      ensures Table(files) == old(Table(files))[Lower(relativename) := if textMode then CopyText(data) else data]
    {
      hide CopyText;
      var name := Lower(relativename);
      LowerTwice(relativename);
      var stored := data;
      if textMode {
        stored := CopyTextData(data);
      }
      var index := Find(name);
      if index.Some? {
        ReplaceEntry(files, index.value, stored);
        files := files[index.value := Entry(name, stored)];
      } else {
        var at: nat := |files|;
        at :| 0 <= at <= |files|;
        InsertEntry(files, at, Entry(name, stored));
        files := Inserted(files, at, Entry(name, stored));
      }
    }

    /** RemoveFileFromZip, which does not make the name lower case; only a tree sorted by name ignores the case. */
    method RemoveFileFromZip(relativename: Bytes)
      requires Keyed(files)
      modifies this`files
      ensures Keyed(files)
      ensures Table(files) == old(Table(files)) - {if sortByName then Lower(relativename) else relativename}
    {
      var name := if sortByName then Lower(relativename) else relativename;
      var index := Find(name);
      if index.Some? {
        RemoveEntry(files, index.value);
        files := files[..index.value] + files[index.value + 1..];
      } else {
        TableHas(files, name);
      }
    }

    /** ReadFileFromZip from memory. past is the byte behind the data in memory. */
    method ReadFileFromZip(relativename: Bytes, textMode: bool, past: Byte) returns (r: Option<Bytes>)
      requires Keyed(files)
      ensures var name := Lower(Cut(relativename, 511));
              r == if name !in Table(files) then None
                   else Some(if textMode then ReadText(Table(files)[name], past) + [0] else Table(files)[name])
    {
      hide ReadText;
      var name := Lower(Cut(relativename, 511));
      var index := Find(name);
      TableHas(files, name);
      if index.None? {
        return None;
      }
      TableAt(files, index.value);
      var data := files[index.value].data;
      if textMode {
        data := ReadTextData(data, past);
      }
      r := Some(data);
    }

    /** The first loop of SaveDirectory: the files, and where each of them starts. */
    method WriteFiles(crc: Bytes -> nat) returns (stream: Bytes, zipOffset: seq<nat>)
      ensures stream == Locals(crc, config.alignment, Kept(files)) && |zipOffset| == |files|
      ensures forall j {:trigger zipOffset[j]} ::
                0 <= j < |files| ==> zipOffset[j] == |Locals(crc, config.alignment, Kept(files[..j]))|
    {
      hide LocalRecord, Locals, Kept;
      var a := config.alignment;
      stream, zipOffset := [], [];
      NothingKept(crc, a, config.compatible, files);
      var i := 0;
      while i < |files|
        invariant 0 <= i <= |files| && stream == Locals(crc, a, Kept(files[..i]))
        invariant |zipOffset| == i && forall j {:trigger zipOffset[j]} ::
                    0 <= j < i ==> zipOffset[j] == |Locals(crc, a, Kept(files[..j]))|
      {
        var e := files[i];
        KeptStep(crc, a, config.compatible, files, i);
        zipOffset := zipOffset + [|stream|];
        if |e.data| > 0 {
          stream := stream + LocalRecord(crc, a, e, zipOffset[i]);
        }
        i := i + 1;
      }
      assert files[..i] == files;
    }

    /** The second loop: the directory. */
    method WriteDirectory(crc: Bytes -> nat, zipOffset: seq<nat>, front: Bytes)
      returns (stream: Bytes, realNumFiles: nat)
      requires |zipOffset| == |files|
      requires forall j {:trigger zipOffset[j]} ::
                 0 <= j < |files| ==> zipOffset[j] == |Locals(crc, config.alignment, Kept(files[..j]))|
      ensures stream == front + Directory(crc, config.alignment, config.compatible, Kept(files))
              && realNumFiles == |Kept(files)|
    {
      hide DirRecord, Directory, Locals, Kept;
      var a := config.alignment;
      stream, realNumFiles := front, 0;
      NothingKept(crc, a, config.compatible, files);
      var i := 0;
      while i < |files|
        invariant 0 <= i <= |files| && realNumFiles == |Kept(files[..i])|
        invariant stream == front + Directory(crc, a, config.compatible, Kept(files[..i]))
      {
        var e := files[i];
        KeptStep(crc, a, config.compatible, files, i);
        if |e.data| > 0 {
          Append(front, Directory(crc, a, config.compatible, Kept(files[..i])),
                 DirRecord(crc, a, config.compatible, e, zipOffset[i]));
          stream := stream + DirRecord(crc, a, config.compatible, e, zipOffset[i]);
          realNumFiles := realNumFiles + 1;
        }
        i := i + 1;
      }
      assert files[..i] == files;
    }

    /** SaveDirectory, in the formats that store every file. */
    method SaveDirectory(crc: Bytes -> nat) returns (stream: Bytes)
      requires |Digits(config.alignment)| <= 26 && (config.compatible || !config.update)
      ensures stream == Image(crc, config, Kept(files))
    {
      hide Locals, Directory, EndRecord, Comment, AlignPad, Digits, Kept;
      var a := config.alignment;
      var zipOffset, realNumFiles;
      stream, zipOffset := WriteFiles(crc);
      stream := stream + Nulls(AlignPad(a, |stream|));
      var centralDirStart := |stream|;
      stream, realNumFiles := WriteDirectory(crc, zipOffset, stream);
      stream := stream + Nulls(AlignPad(a, |stream|));
      var centralDirEnd := |stream|;
      stream := stream + EndRecord(realNumFiles, centralDirEnd - centralDirStart, centralDirStart);
      stream := stream + Comment(config);
    }

    /** ParseFromBuffer. False when the buffer is not an archive: the source would read outside it. */
    method ParseFromBuffer(buf: Bytes) returns (ok: bool)
      modifies this
      ensures ok == Parse(old(config), buf).Some?
      ensures ok ==> (config, files) == Parse(old(config), buf).value
    {
      hide ParseComment, ParseDirectory, ReadFiles, FindEnd, Get16, Get32;
      files := [];
      if |buf| < END_RECORD {
        return false;
      }
      var found, offset := SearchEnd(buf);
      if !found {
        return false;
      }
      var commentLength := Get16(buf, offset + 20);
      if commentLength >= 128 {
        commentLength := 128;
      }
      if offset + END_RECORD + commentLength > |buf| {
        return false;
      }
      ghost var y := config;
      if commentLength != 0 {
        config := ParseComment(config, buf[offset + END_RECORD..offset + END_RECORD + commentLength]);
      }
      var newfiles;
      ok, newfiles := ReadDirectory(buf, Get32(buf, offset + 16), Get16(buf, offset + 10));
      if ok {
        ok := InsertFiles(buf, newfiles);
        NoneBefore(ReadFiles(buf, newfiles));
      }
    }

    /** The loop over the directory headers. */
    method ReadDirectory(buf: Bytes, start: nat, n: nat) returns (ok: bool, newfiles: seq<TmpFile>)
      ensures ok == ParseDirectory(config, buf, start, n).Some?
      ensures ok ==> newfiles == ParseDirectory(config, buf, start, n).value
    {
      hide ParseHeader, NextHeader, Get16;
      ok, newfiles := true, [];
      var p: nat, i := start, 0;
      NoneBefore(ParseDirectory(config, buf, start, n));
      while i < n
        invariant 0 <= i <= n
        invariant match ParseDirectory(config, buf, p, n - i)
                  case None => ParseDirectory(config, buf, start, n) == None
                  case Some(more) => ParseDirectory(config, buf, start, n) == Some(newfiles + more)
      {
        if p + FILE_HEADER > |buf| || p + FILE_HEADER + Get16(buf, p + 28) > |buf| {
          return false, newfiles;
        }
        ghost var rest := ParseDirectory(config, buf, NextHeader(config, buf, p), n - i - 1);
        if rest.Some? {
          Assoc(newfiles, ParseHeader(buf, p), rest.value);
        }
        newfiles := newfiles + [ParseHeader(buf, p)];
        p := NextHeader(config, buf, p);
        i := i + 1;
      }
      assert newfiles + [] == newfiles;
    }

    /** The loop that puts the files into the table. */
    method InsertFiles(buf: Bytes, newfiles: seq<TmpFile>) returns (ok: bool)
      modifies this`files
      ensures ok == ReadFiles(buf, newfiles).Some?
      ensures ok ==> files == old(files) + ReadFiles(buf, newfiles).value
    {
      hide ReadFile;
      var i := 0;
      assert newfiles[0..] == newfiles;
      while i < |newfiles|
        invariant 0 <= i <= |newfiles|
        invariant match ReadFiles(buf, newfiles[i..])
                  case None => ReadFiles(buf, newfiles) == None
                  case Some(more) => ReadFiles(buf, newfiles).Some?
                                     && old(files) + ReadFiles(buf, newfiles).value == files + more
      {
        var e := ReadFile(buf, newfiles[i]);
        assert newfiles[i..][0] == newfiles[i] && newfiles[i..][1..] == newfiles[i + 1..];
        if e.None? {
          return false;
        }
        ghost var rest := ReadFiles(buf, newfiles[i + 1..]);
        if rest.Some? {
          Assoc(files, e.value, rest.value);
        }
        files := files + [e.value];
        i := i + 1;
      }
      assert newfiles[i..] == [];
      assert files + [] == files;
      ok := true;
    }

    /** CalculateSize */
    method CalculateSize(ghost crc: Bytes -> nat) returns (size: nat)
      requires config.alignment < 0x10000
      ensures size == Predicted(crc, config.alignment, Kept(files))
    {
      hide LocalRecord, DirRecord, Locals, Directory, Kept, Digits, NextBoundary, Padding;
      var a := config.alignment;
      NothingKept(crc, a, true, files);
      size := 0;
      var dirHeaders := 0;
      var i := 0;
      while i < |files|
        invariant 0 <= i <= |files|
        invariant size == |Locals(crc, a, Kept(files[..i]))|
                  && dirHeaders == |Directory(crc, a, true, Kept(files[..i]))|
      {
        var e := files[i];
        KeptStep(crc, a, true, files, i);
        RecordSizes(crc, a, e, size);
        i := i + 1;
        if |e.data| == 0 {
          continue;
        }
        var pos := size;
        size := size + LOCAL_HEADER;
        size := size + |e.name|;
        dirHeaders := dirHeaders + FILE_HEADER + |e.name|;
        if a != 0 {
          var nextBoundary := NextBoundary(a, size);
          dirHeaders := dirHeaders + (nextBoundary - size);
          size := nextBoundary;
        }
        size := size + |e.data|;
      }
      assert files[..i] == files;
      size := size + dirHeaders;
      size := size + END_RECORD + XZIP_COMMENT_LENGTH;
    }
  }

  /** The loop that looks for the end record. */
  method SearchEnd(buf: Bytes) returns (found: bool, offset: nat)
    requires |buf| >= END_RECORD
    ensures found == FindEnd(buf, |buf| - END_RECORD).Some?
    ensures found ==> Some(offset) == FindEnd(buf, |buf| - END_RECORD)
    ensures found ==> offset + END_RECORD <= |buf|
  {
    hide IsSignature;
    var at := |buf| - END_RECORD;
    while at >= 0
      invariant -1 <= at <= |buf| - END_RECORD && FindEnd(buf, at) == FindEnd(buf, |buf| - END_RECORD)
    {
      if IsSignature(buf, at, 5, 6) {
        return true, at;
      }
      at := at - 1;
    }
    found, offset := false, 0;
  }

  lemma NoneBefore<T>(r: Option<seq<T>>)
    ensures r.Some? ==> [] + r.value == r.value
  {
  }

  lemma Assoc<T>(a: seq<T>, x: T, b: seq<T>)
    ensures a + ([x] + b) == a + [x] + b
  {
  }

  lemma Append(a: Bytes, b: Bytes, c: Bytes)
    ensures a + b + c == a + (b + c)
  {
  }

  lemma NothingKept(crc: Bytes -> nat, a: nat, compatible: bool, files: seq<Entry>)
    ensures Kept(files[..0]) == [] && Locals(crc, a, []) == [] && Directory(crc, a, compatible, []) == []
  {
  }

  lemma RecordSizes(crc: Bytes -> nat, a: nat, e: Entry, pos: nat)
    requires a < 0x10000
    ensures |LocalRecord(crc, a, e, pos)| == LOCAL_HEADER + |e.name| + Padding(a, |e.name|, pos) + |e.data|
    ensures |DirRecord(crc, a, true, e, pos)| == FILE_HEADER + |e.name| + Padding(a, |e.name|, pos)
    ensures NextBoundary(a, pos + LOCAL_HEADER + |e.name|) == pos + LOCAL_HEADER + |e.name| + Padding(a, |e.name|, pos)
    ensures a == 0 ==> Padding(a, |e.name|, pos) == 0
  {
    BoundaryIsPadding(a, |e.name|, pos);
  }

  lemma KeptStep(crc: Bytes -> nat, a: nat, compatible: bool, files: seq<Entry>, i: nat)
    requires i < |files|
    ensures var before, after, e := Kept(files[..i]), Kept(files[..i + 1]), files[i];
            if e.data == [] then after == before
            else after == before + [e]
                 && Locals(crc, a, after) == Locals(crc, a, before) + LocalRecord(crc, a, e, |Locals(crc, a, before)|)
                 && Directory(crc, a, compatible, after)
                    == Directory(crc, a, compatible, before)
                       + DirRecord(crc, a, compatible, e, |Locals(crc, a, before)|)
  {
    hide LocalRecord, DirRecord;
    assert files[..i + 1][..i] == files[..i];
    var before, e := Kept(files[..i]), files[i];
    assert (before + [e])[..|before|] == before;
  }

  /** What the directory of the incompatible format leaves out. */
  function LeftOut(crc: Bytes -> nat, a: nat, es: seq<Entry>): nat {
    if es == [] then 0
    else
      var k := |es| - 1;
      LeftOut(crc, a, es[..k]) + Padding(a, |es[k].name|, |Locals(crc, a, es[..k])|)
  }

  lemma {:induction false} DirectorySizes(crc: Bytes -> nat, a: nat, es: seq<Entry>)
    ensures |Directory(crc, a, true, es)| == |Directory(crc, a, false, es)| + LeftOut(crc, a, es)
    ensures a == 0 ==> LeftOut(crc, a, es) == 0
  {
    hide Locals, DirRecord;
    if es != [] {
      DirectorySizes(crc, a, es[..|es| - 1]);
    }
  }

  lemma NoPad(a: nat, pos: nat, n: nat)
    requires a > 0 && pos % a == 0
    ensures AlignPad(a, pos + n) == 0 <==> n % a == 0
  {
    DivMod(pos, a);
    DivMod(n, a);
    MulDist(pos / a, n / a, a);
    DivUnique(pos + n, a, pos / a + n / a, n % a);
  }

  /** How far the prediction is off: by the padding before and behind the directory, less what the incompatible
      format leaves out of it. */
  lemma SizePredicted(crc: Bytes -> nat, z: Config, es: seq<Entry>)
    requires |Digits(z.alignment)| <= 26
    ensures var a, l, d := z.alignment, Locals(crc, z.alignment, es), Directory(crc, z.alignment, z.compatible, es);
            |Image(crc, z, es)| + (if z.compatible then 0 else LeftOut(crc, a, es))
            == Predicted(crc, a, es) + AlignPad(a, |l|) + AlignPad(a, DirStart(crc, a, es) + |d|)
    ensures z.alignment == 0 ==> |Image(crc, z, es)| == Predicted(crc, z.alignment, es)
    ensures z.alignment > 0 ==> |Image(crc, z, es)| <= Predicted(crc, z.alignment, es) + 2 * (z.alignment - 1)
  {
    hide Locals, Directory, Body, Digits, AlignPad;
    DirectorySizes(crc, z.alignment, es);
  }

  /** In the compatible format it is right when the local records and the directory end at a multiple of the
      alignment by themselves. */
  lemma SizeRight(crc: Bytes -> nat, z: Config, es: seq<Entry>)
    requires |Digits(z.alignment)| <= 26 && z.compatible && z.alignment > 0
    ensures |Image(crc, z, es)| == Predicted(crc, z.alignment, es) <==>
            |Locals(crc, z.alignment, es)| % z.alignment == 0
            && |Directory(crc, z.alignment, true, es)| % z.alignment == 0
  {
    hide Locals, Directory, Image, Digits, AlignPad, Predicted;
    var a := z.alignment;
    SizePredicted(crc, z, es);
    NoPad(a, 0, |Locals(crc, a, es)|);
    NoPad(a, DirStart(crc, a, es), |Directory(crc, a, true, es)|);
  }

  lemma StorableFormat(crc: Bytes -> nat, z: Config, es: seq<Entry>)
    requires Storable(crc, z, es)
    ensures |Digits(z.alignment)| <= 26 && (z.compatible || !z.update)
  {
  }

  /** Saving and parsing again, the whole way: the files with data come back in order. */
  method SaveAndParse(z: ZipFile, y: ZipFile, crc: Bytes -> nat) returns (ok: bool)
    requires z != y && Storable(crc, z.config, Kept(z.files))
    requires var start, end := DirStart(crc, z.config.alignment, Kept(z.files)), DirEnd(crc, z.config, Kept(z.files));
             Unambiguous(|Kept(z.files)|, end - start, start)
    modifies y
    ensures ok && y.files == Declared(Kept(z.files)) && y.config.compatible == z.config.compatible
    ensures y.config.alignment == if old(y.config.force) then old(y.config.alignment) else z.config.alignment
    ensures Keyed(z.files) && |Kept(z.files)| < 0x10000 ==>
              Keyed(y.files) && Table(y.files) == NonEmpty(Table(z.files))
  {
    hide *;
    if Keyed(z.files) {
      KeptTable(z.files);
    }
    StorableFormat(crc, z.config, Kept(z.files));
    var stream := z.SaveDirectory(crc);
    RoundTrip(crc, y.config, z.config, Kept(z.files));
    DeclaredAll(Kept(z.files));
    ok := y.ParseFromBuffer(stream);
  }

  // ----- text mode -----

  /** CopyTextData */
  function CopyText(s: Bytes): Bytes {
    if s == [] then [] else (if s[0] == 10 then [13, 10] else [s[0]]) + CopyText(s[1..])
  }

  /** ReadTextData, without the final zero. It looks one byte past the data when that ends in a
      carriage return; past is what it finds there. */
  function ReadText(t: Bytes, past: Byte): Bytes {
    if t == [] then []
    else if t == [13] then (if past == 10 then [10] else [13])
    else if t[0] == 13 && t[1] == 10 then [10] + ReadText(t[2..], past)
    else [t[0]] + ReadText(t[1..], past)
  }

  /** GetLengthOfBinStringAsText: exactly the room CopyTextData needs. */
  method TextLength(src: Bytes) returns (numChars: nat)
    ensures numChars == |CopyText(src)|
  {
    numChars := 0;
    var scan := 0;
    while scan < |src|
      invariant 0 <= scan <= |src| && numChars + |CopyText(src[scan..])| == |CopyText(src)|
    {
      CopyUnfold(src, scan);
      numChars := numChars + (if src[scan] == 10 then 2 else 1);
      scan := scan + 1;
    }
  }

  /** CopyTextData, its loop. */
  method CopyTextData(src: Bytes) returns (dst: Bytes)
    ensures dst == CopyText(src)
  {
    hide CopyText;
    NoText(0);
    dst := [];
    var scan := 0;
    assert src[0..] == src;
    while scan < |src|
      invariant 0 <= scan <= |src| && dst + CopyText(src[scan..]) == CopyText(src)
    {
      CopyUnfold(src, scan);
      dst := dst + (if src[scan] == 10 then [13, 10] else [src[scan]]);
      scan := scan + 1;
    }
    assert src[scan..] == [];
  }

  lemma NoText(past: Byte)
    ensures CopyText([]) == [] && ReadText([], past) == []
  {
  }

  lemma CopyUnfold(src: Bytes, k: nat)
    requires k < |src|
    ensures CopyText(src[k..]) == (if src[k] == 10 then [13, 10] else [src[k]]) + CopyText(src[k + 1..])
  {
    assert src[k..][1..] == src[k + 1..];
  }

  /** ReadTextData, its loop; the text ends in a zero. */
  method ReadTextData(src: Bytes, past: Byte) returns (buf: Bytes)
    ensures buf == ReadText(src, past) + [0]
  {
    hide ReadText;
    NoText(past);
    buf := [];
    var scan := 0;
    assert src[0..] == src;
    while scan < |src|
      invariant 0 <= scan
      invariant buf + ReadText(if scan <= |src| then src[scan..] else [], past) == ReadText(src, past)
    {
      ReadUnfold(src, scan, past);
      var next := if scan + 1 < |src| then src[scan + 1] else past;
      if src[scan] == 13 && next == 10 {
        buf := buf + [10];
        scan := scan + 2;
      } else {
        buf := buf + [src[scan]];
        scan := scan + 1;
      }
    }
    assert scan <= |src| ==> src[scan..] == [];
    buf := buf + [0];
  }

  lemma ReadUnfold(src: Bytes, k: nat, past: Byte)
    requires k < |src|
    ensures var next := if k + 1 < |src| then src[k + 1] else past;
            ReadText(src[k..], past) ==
              if src[k] == 13 && next == 10 then [10] + ReadText(if k + 2 <= |src| then src[k + 2..] else [], past)
              else [src[k]] + ReadText(src[k + 1..], past)
  {
    var t := src[k..];
    assert t[1..] == src[k + 1..];
    if k + 2 <= |src| {
      assert t[2..] == src[k + 2..];
    } else {
      assert t == [src[k]];
    }
  }

  /** Text survives exactly unless it ends in a carriage return and a line feed happens to follow in memory. */
  lemma {:induction false} TextRoundTrip(s: Bytes, past: Byte)
    ensures ReadText(CopyText(s), past) == s <==> !(s != [] && s[|s| - 1] == 13 && past == 10)
  {
    if s != [] {
      TextRoundTrip(s[1..], past);
      var t, rest := CopyText(s), CopyText(s[1..]);
      if s[0] == 10 {
        assert t[2..] == rest;
        assert ReadText(t, past) == [10] + ReadText(rest, past);
      } else {
        assert t[1..] == rest && t[0] == s[0];
        NoLineFeedFirst(s[1..]);
        if |s| == 1 {
          assert rest == [];
        } else {
          assert ReadText(t, past) == [s[0]] + ReadText(rest, past);
        }
      }
    }
  }

  lemma NoLineFeedFirst(s: Bytes)
    ensures s != [] ==> CopyText(s) != [] && CopyText(s)[0] != 10
  {
  }

  /** The text a carriage return alone is, with a line feed behind it in memory. */
  lemma CarriageReturnLost()
    ensures ReadText(CopyText([13]), 10) == [10]
  {
    assert CopyText([13]) == [13] + CopyText([]);
  }
}
