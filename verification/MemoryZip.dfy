/** TZip on memory: local headers, data, central directory, and reading it all back. */
module MemoryZip {
  import opened BitStrings
  import opened LittleEndian
  import opened Options
  import opened Crc
  import opened Inflate
  import opened Deflate
  import opened StaleHead

  const MAX_PATH: nat := 260
  const LOCSIG: nat := 0x04034b50
  const CENSIG: nat := 0x02014b50
  const ENDSIG: nat := 0x06054b50
  const STORE: nat := 0
  const DEFLATE: nat := 8
  const SLOW: nat := 2
  const VERSION_MADE: nat := 0xB17
  const VERSION_NEEDED: nat := 20

  /** TZipFileInfo: the fields that are written. */
  datatype FileInfo = FileInfo(name: Bytes, lflg: nat, flg: nat, how: nat, tim: nat, crc: nat,
                               siz: nat, len: nat, atx: nat, off: nat, extra: Bytes, cextra: Bytes)

  datatype File = File(name: Bytes, data: Bytes)

  // ----- records -----

  function LocalFields(z: FileInfo): (b: Bytes)
    ensures |b| == 30
  {
    Put32(LOCSIG) + (Put16(VERSION_NEEDED) + (Put16(z.lflg) + (Put16(z.how) + (Put32(z.tim) + LocalTail(z)))))
  }

  function LocalTail(z: FileInfo): (b: Bytes)
    ensures |b| == 16
  {
    Put32(z.crc) + (Put32(z.siz) + (Put32(z.len) + (Put16(|z.name|) + Put16(|z.extra|))))
  }

  function LocalHeader(z: FileInfo): (b: Bytes)
    ensures |b| == 30 + |z.name| + |z.extra|
  {
    LocalFields(z) + z.name + z.extra
  }

  function CentralFields(z: FileInfo): (b: Bytes)
    ensures |b| == 46
  {
    Put32(CENSIG) + (Put16(VERSION_MADE) + (Put16(VERSION_NEEDED) + (Put16(z.flg) + (Put16(z.how)
    + (Put32(z.tim) + CentralTail(z))))))
  }

  function CentralTail(z: FileInfo): (b: Bytes)
    ensures |b| == 30
  {
    Put32(z.crc) + (Put32(z.siz) + (Put32(z.len) + (Put16(|z.name|) + (Put16(|z.cextra|) + (Put16(0)
    + (Put16(0) + (Put16(0) + (Put32(z.atx) + Put32(z.off)))))))))
  }

  function CentralHeader(z: FileInfo): (b: Bytes)
    ensures |b| == 46 + |z.name| + |z.cextra|
  {
    CentralFields(z) + z.name + z.cextra
  }

  function Central(zs: seq<FileInfo>): Bytes {
    if zs == [] then [] else Central(zs[..|zs| - 1]) + CentralHeader(zs[|zs| - 1])
  }

  function EndRecord(n: nat, s: nat, c: nat): (b: Bytes)
    ensures |b| == 22
  {
    Put32(ENDSIG) + (Put16(0) + (Put16(0) + (Put16(n) + (Put16(n) + (Put32(s) + (Put32(c) + Put16(0)))))))
  }

  // ----- reading an archive -----

  /** What the bytes kept under a method stand for. */
  function Content(how: nat, data: Bytes): Option<Bytes> {
    if how == STORE then Some(data) else if how == DEFLATE then Decompress(data) else None
  }

  /** The file at a local header. Both headers must agree on everything they share, and the
      content must have the length and the checksum they give. */
  function ReadFile(img: Bytes, off: nat, name: Bytes, how: nat, crc: nat, siz: nat, len: nat): Option<File> {
    if off + 30 > |img| || Get32(img, off) != LOCSIG then None
    else if Get16(img, off + 8) != how || Get32(img, off + 14) != crc || Get32(img, off + 18) != siz
            || Get32(img, off + 22) != len || Get16(img, off + 26) != |name| then None
    else
      var data := off + 30 + |name| + Get16(img, off + 28);
      if data + siz > |img| || !At(img, off + 30, name) then None
      else
        match Content(how, img[data..data + siz])
        case Some(c) => if |c| == len && Update(0, c) == crc then Some(File(name, c)) else None
        case None => None
  }

  /** n central headers from p on, which must end at `end`. */
  function ReadCentral(img: Bytes, p: nat, n: nat, end: nat): Option<seq<File>>
    decreases n
  {
    if n == 0 then (if p == end then Some([]) else None)
    else if p + 46 > |img| || Get32(img, p) != CENSIG then None
    else
      var nam := Get16(img, p + 28);
      var next := p + 46 + nam + Get16(img, p + 30) + Get16(img, p + 32);
      if next > |img| then None
      else
        var file := ReadFile(img, Get32(img, p + 42), img[p + 46..p + 46 + nam], Get16(img, p + 10),
                             Get32(img, p + 16), Get32(img, p + 20), Get32(img, p + 24));
        var rest := ReadCentral(img, next, n - 1, end);
        if file.Some? && rest.Some? then Some([file.value] + rest.value) else None
  }

  /** An archive without a comment ends in the end record. */
  function Extract(img: Bytes): Option<seq<File>> {
    if |img| < 22 || Get32(img, |img| - 22) != ENDSIG then None
    else
      var p := |img| - 22;
      var start := Get32(img, p + 16);
      if start + Get32(img, p + 12) != p then None
      else ReadCentral(img, start, Get16(img, p + 10), p)
  }

  // ----- reading what is written -----

  /** Every field fits its width. */
  predicate Fits(z: FileInfo) {
    && z.how < 0x10000 && z.crc < 0x1_0000_0000 && z.siz < 0x1_0000_0000 && z.len < 0x1_0000_0000
    && z.off < 0x1_0000_0000 && |z.name| < 0x10000 && |z.extra| < 0x10000 && |z.cextra| < 0x10000
  }

  /** The headers of z describe f. */
  predicate Describes(z: FileInfo, f: File) {
    Fits(z) && z.name == f.name && z.len == |f.data| && z.crc == Update(0, f.data)
  }

  function DataAt(z: FileInfo): nat {
    z.off + |LocalHeader(z)|
  }

  /** The file f stands in m as z says: its local header, then its bytes. */
  predicate Placed(m: Bytes, z: FileInfo, f: File) {
    && Describes(z, f) && At(m, z.off, LocalHeader(z)) && DataAt(z) + z.siz <= |m|
    && Content(z.how, m[DataAt(z)..DataAt(z) + z.siz]) == Some(f.data)
  }

  lemma LocalFieldsRead(m: Bytes, z: FileInfo)
    requires Fits(z) && At(m, z.off, LocalFields(z))
    ensures z.off + 30 <= |m| && Get32(m, z.off) == LOCSIG && Get16(m, z.off + 8) == z.how
    ensures Get32(m, z.off + 14) == z.crc && Get32(m, z.off + 18) == z.siz && Get32(m, z.off + 22) == z.len
    ensures Get16(m, z.off + 26) == |z.name| && Get16(m, z.off + 28) == |z.extra|
  {
    hide At, Get16, Get32, Put16, Put32, LocalTail;
    var p := z.off;
    var d := Put32(z.tim) + LocalTail(z);
    var c := Put16(z.how) + d;
    var b := Put16(z.lflg) + c;
    AtParts(m, p, Put32(LOCSIG), Put16(VERSION_NEEDED) + b);
    AtParts(m, p + 4, Put16(VERSION_NEEDED), b);
    AtParts(m, p + 6, Put16(z.lflg), c);
    AtParts(m, p + 8, Put16(z.how), d);
    AtParts(m, p + 10, Put32(z.tim), LocalTail(z));
    AtEnds(m, p, LocalFields(z));
    Get32At(m, p, LOCSIG);
    Get16At(m, p + 8, z.how);
    LocalTailRead(m, p + 14, z);
  }

  lemma AtEnds(m: Bytes, p: nat, part: Bytes)
    requires At(m, p, part)
    ensures p + |part| <= |m|
  {
  }

  lemma LocalTailRead(m: Bytes, p: nat, z: FileInfo)
    requires Fits(z) && At(m, p, LocalTail(z))
    ensures p + 16 <= |m| && Get32(m, p) == z.crc && Get32(m, p + 4) == z.siz && Get32(m, p + 8) == z.len
    ensures Get16(m, p + 12) == |z.name| && Get16(m, p + 14) == |z.extra|
  {
    hide At, Get16, Get32, Put16, Put32;
    var d := Put16(|z.name|) + Put16(|z.extra|);
    var c := Put32(z.len) + d;
    var b := Put32(z.siz) + c;
    AtEnds(m, p, LocalTail(z));
    AtParts(m, p, Put32(z.crc), b);
    AtParts(m, p + 4, Put32(z.siz), c);
    AtParts(m, p + 8, Put32(z.len), d);
    AtParts(m, p + 12, Put16(|z.name|), Put16(|z.extra|));
    Get32At(m, p, z.crc);
    Get32At(m, p + 4, z.siz);
    Get32At(m, p + 8, z.len);
    Get16At(m, p + 12, |z.name|);
    Get16At(m, p + 14, |z.extra|);
  }

  lemma CentralTailRead(m: Bytes, p: nat, z: FileInfo)
    requires Fits(z) && At(m, p, CentralTail(z))
    ensures p + 30 <= |m| && Get32(m, p) == z.crc && Get32(m, p + 4) == z.siz && Get32(m, p + 8) == z.len
    ensures Get16(m, p + 12) == |z.name| && Get16(m, p + 14) == |z.cextra| && Get16(m, p + 16) == 0
    ensures Get32(m, p + 26) == z.off
  {
    hide At, Get16, Get32, Put16, Put32;
    var i := Put32(z.atx) + Put32(z.off);
    var h := Put16(0) + i;
    var g := Put16(0) + h;
    var f := Put16(0) + g;
    var e := Put16(|z.cextra|) + f;
    var d := Put16(|z.name|) + e;
    var c := Put32(z.len) + d;
    var b := Put32(z.siz) + c;
    AtEnds(m, p, CentralTail(z));
    AtParts(m, p, Put32(z.crc), b);
    AtParts(m, p + 4, Put32(z.siz), c);
    AtParts(m, p + 8, Put32(z.len), d);
    AtParts(m, p + 12, Put16(|z.name|), e);
    AtParts(m, p + 14, Put16(|z.cextra|), f);
    AtParts(m, p + 16, Put16(0), g);
    AtParts(m, p + 18, Put16(0), h);
    AtParts(m, p + 20, Put16(0), i);
    AtParts(m, p + 22, Put32(z.atx), Put32(z.off));
    Get32At(m, p, z.crc);
    Get32At(m, p + 4, z.siz);
    Get32At(m, p + 8, z.len);
    Get16At(m, p + 12, |z.name|);
    Get16At(m, p + 14, |z.cextra|);
    Get16At(m, p + 16, 0);
    Get32At(m, p + 26, z.off);
  }

  lemma CentralFieldsRead(m: Bytes, p: nat, z: FileInfo)
    requires Fits(z) && At(m, p, CentralFields(z))
    ensures p + 46 <= |m| && Get32(m, p) == CENSIG && Get16(m, p + 10) == z.how
    ensures Get32(m, p + 16) == z.crc && Get32(m, p + 20) == z.siz && Get32(m, p + 24) == z.len
    ensures Get16(m, p + 28) == |z.name| && Get16(m, p + 30) == |z.cextra| && Get16(m, p + 32) == 0
    ensures Get32(m, p + 42) == z.off
  {
    hide At, Get16, Get32, Put16, Put32, CentralTail;
    var e := Put32(z.tim) + CentralTail(z);
    var d := Put16(z.how) + e;
    var c := Put16(z.flg) + d;
    var b := Put16(VERSION_NEEDED) + c;
    var a := Put16(VERSION_MADE) + b;
    AtParts(m, p, Put32(CENSIG), a);
    AtParts(m, p + 4, Put16(VERSION_MADE), b);
    AtParts(m, p + 6, Put16(VERSION_NEEDED), c);
    AtParts(m, p + 8, Put16(z.flg), d);
    AtParts(m, p + 10, Put16(z.how), e);
    AtParts(m, p + 12, Put32(z.tim), CentralTail(z));
    AtEnds(m, p, CentralFields(z));
    Get32At(m, p, CENSIG);
    Get16At(m, p + 10, z.how);
    CentralTailRead(m, p + 16, z);
  }

  lemma EndRead(m: Bytes, p: nat, n: nat, s: nat, c: nat)
    requires At(m, p, EndRecord(n, s, c)) && s < 0x1_0000_0000 && c < 0x1_0000_0000
    ensures p + 22 <= |m| && Get32(m, p) == ENDSIG && Get16(m, p + 10) == n % 0x10000
    ensures Get32(m, p + 12) == s && Get32(m, p + 16) == c
  {
    hide At, Get16, Get32, Put16, Put32;
    var g := Put32(c) + Put16(0);
    var f := Put32(s) + g;
    var e := Put16(n) + f;
    var d := Put16(n) + e;
    var b := Put16(0) + d;
    var a := Put16(0) + b;
    AtEnds(m, p, EndRecord(n, s, c));
    AtParts(m, p, Put32(ENDSIG), a);
    AtParts(m, p + 4, Put16(0), b);
    AtParts(m, p + 6, Put16(0), d);
    AtParts(m, p + 8, Put16(n), e);
    AtParts(m, p + 10, Put16(n), f);
    AtParts(m, p + 12, Put32(s), g);
    AtParts(m, p + 16, Put32(c), Put16(0));
    Get32At(m, p, ENDSIG);
    Put16Wraps(n);
    Get16At(m, p + 10, n % 0x10000);
    Get32At(m, p + 12, s);
    Get32At(m, p + 16, c);
  }

  /** Only the low 16 bits of the number of entries are written. */
  lemma Put16Wraps(n: nat)
    ensures Put16(n) == Put16(n % 0x10000)
  {
    var q, r := n / 0x10000, n % 0x10000;
    assert n == 0x100 * (0x100 * q) + r;
    assert n / 0x100 == 0x100 * q + r / 0x100;
  }

  /** A placed file is read back. */
  lemma PlacedReads(m: Bytes, z: FileInfo, f: File)
    requires Placed(m, z, f)
    ensures ReadFile(m, z.off, z.name, z.how, z.crc, z.siz, z.len) == Some(f)
  {
    hide At, Content, Update, Get16, Get32, LocalFields, Fits;
    AtParts(m, z.off, LocalFields(z) + z.name, z.extra);
    AtParts(m, z.off, LocalFields(z), z.name);
    LocalFieldsRead(m, z);
  }

  /** Bytes added at the end disturb no file. */
  lemma PlacedKept(m: Bytes, m': Bytes, z: FileInfo, f: File)
    requires Placed(m, z, f) && m <= m'
    ensures Placed(m', z, f)
  {
    hide Content, Describes, LocalHeader;
    assert m'[DataAt(z)..DataAt(z) + z.siz] == m[DataAt(z)..DataAt(z) + z.siz];
    assert m'[z.off..DataAt(z)] == m[z.off..DataAt(z)];
  }

  ghost predicate AllPlaced(m: Bytes, zs: seq<FileInfo>, fs: seq<File>) {
    |zs| == |fs| && forall i {:trigger zs[i]} {:trigger fs[i]} :: 0 <= i < |zs| ==> Placed(m, zs[i], fs[i])
  }

  lemma AllPlacedKept(m: Bytes, m': Bytes, zs: seq<FileInfo>, fs: seq<File>)
    requires AllPlaced(m, zs, fs) && m <= m'
    ensures AllPlaced(m', zs, fs)
  {
    hide Placed;
    forall i | 0 <= i < |zs|
      ensures Placed(m', zs[i], fs[i])
    {
      PlacedKept(m, m', zs[i], fs[i]);
    }
  }

  lemma {:induction false} CentralCons(zs: seq<FileInfo>)
    requires zs != []
    ensures Central(zs) == CentralHeader(zs[0]) + Central(zs[1..])
  {
    hide CentralHeader, Central;
    var n := |zs| - 1;
    CentralLast(zs);
    NoDirectory();
    if n == 0 {
      assert zs[..0] == [] && zs[1..] == [];
    } else {
      CentralCons(zs[..n]);
      CentralLast(zs[1..]);
      assert zs[..n][0] == zs[0] && zs[1..][n - 1] == zs[n];
      assert zs[..n][1..] == zs[1..][..n - 1];
      assert CentralHeader(zs[0]) + Central(zs[..n][1..]) + CentralHeader(zs[n])
          == CentralHeader(zs[0]) + (Central(zs[..n][1..]) + CentralHeader(zs[n]));
    }
  }

  lemma CentralLast(zs: seq<FileInfo>)
    requires zs != []
    ensures Central(zs) == Central(zs[..|zs| - 1]) + CentralHeader(zs[|zs| - 1])
  {
  }

  /** The first n of the central headers give the first n files; they must be all there are. */
  lemma {:induction false} CentralReads(m: Bytes, p: nat, zs: seq<FileInfo>, fs: seq<File>, n: nat)
    requires AllPlaced(m, zs, fs) && At(m, p, Central(zs)) && n <= |zs|
    ensures ReadCentral(m, p, n, p + |Central(zs)|) == if n == |zs| then Some(fs) else None
    decreases n
  {
    hide At, Placed, Get16, Get32, CentralFields, ReadFile, Central;
    NoDirectory();
    if n == 0 {
      if zs != [] {
        CentralCons(zs);
      }
    } else {
      var z := zs[0];
      CentralCons(zs);
      AtParts(m, p, CentralHeader(z), Central(zs[1..]));
      AtParts(m, p, CentralFields(z) + z.name, z.cextra);
      AtParts(m, p, CentralFields(z), z.name);
      AtEnds(m, p, CentralHeader(z));
      PlacedFits(m, z, fs[0]);
      CentralFieldsRead(m, p, z);
      NameIs(m, p + 46, z.name);
      PlacedReads(m, z, fs[0]);
      CentralReads(m, p + |CentralHeader(z)|, zs[1..], fs[1..], n - 1);
      assert fs == [fs[0]] + fs[1..];
    }
  }

  lemma PlacedFits(m: Bytes, z: FileInfo, f: File)
    requires Placed(m, z, f)
    ensures Fits(z)
  {
  }

  lemma NameIs(m: Bytes, p: nat, name: Bytes)
    requires At(m, p, name)
    ensures p + |name| <= |m| && m[p..p + |name|] == name
  {
  }

  function Image(m: Bytes, zs: seq<FileInfo>): Bytes {
    m + Central(zs) + EndRecord(|zs|, |Central(zs)|, |m|)
  }

  /** An archive gives back its files exactly when there are fewer than 65536 of them. */
  lemma ArchiveReads(m: Bytes, zs: seq<FileInfo>, fs: seq<File>)
    requires AllPlaced(m, zs, fs) && |Image(m, zs)| < 0x1_0000_0000
    ensures Extract(Image(m, zs)) == if |zs| < 0x10000 then Some(fs) else None
  {
    hide AllPlaced, Get16, Get32, EndRecord, Central, ReadCentral;
    var c, img := Central(zs), Image(m, zs);
    var e := EndRecord(|zs|, |c|, |m|);
    var p := |m| + |c|;
    assert At(img, |m|, c) && At(img, p, e) && m <= img && |img| == p + 22;
    EndRead(img, p, |zs|, |c|, |m|);
    AllPlacedKept(m, img, zs, fs);
    CountFits(zs, fs, m);
    CentralReads(img, |m|, zs, fs, |zs| % 0x10000);
  }

  lemma CountFits(zs: seq<FileInfo>, fs: seq<File>, m: Bytes)
    ensures |zs| % 0x10000 <= |zs| && (|zs| % 0x10000 == |zs| <==> |zs| < 0x10000)
  {
  }

  // ----- writing -----

  /** ZRESULT */
  datatype Code = Ok | Args | MemSize | Failed | Ended | WriteError | SeekError

  /** What a write can change: the memory, the position and oerr. */
  datatype Output = Output(mem: Bytes, pos: nat, err: Code)

  function Patch(m: Bytes, p: nat, b: Bytes): (r: Bytes)
    requires p + |b| <= |m|
    ensures |r| == |m|
  {
    m[..p] + b + m[p + |b|..]
  }

  /** b was written at the position, or else there was not enough room and the error is set.
      Room means one byte more than is written. */
  ghost predicate Appended(before: Output, after: Output, b: Bytes) {
    && |after.mem| == |before.mem| && before.pos <= after.pos < |after.mem|
    && after.mem[..before.pos] == before.mem[..before.pos]
    && if before.pos + |b| < |before.mem| then
         after == Output(Patch(before.mem, before.pos, b), before.pos + |b|, before.err)
       else after.err == MemSize
  }

  lemma AppendTwo(s0: Output, s1: Output, s2: Output, a: Bytes, b: Bytes)
    requires Appended(s0, s1, a) && Appended(s1, s2, b)
    ensures Appended(s0, s2, a + b)
  {
    if s0.pos + |a| + |b| < |s0.mem| {
      PatchTwo(s0.mem, s0.pos, a, b);
    }
    assert s2.mem[..s0.pos] == s2.mem[..s1.pos][..s0.pos];
    assert s1.mem[..s0.pos] == s1.mem[..s1.pos][..s0.pos];
  }

  lemma PatchTwo(m: Bytes, p: nat, a: Bytes, b: Bytes)
    requires p + |a| + |b| <= |m|
    ensures Patch(Patch(m, p, a), p + |a|, b) == Patch(m, p, a + b)
  {
    var n := Patch(m, p, a);
    assert n[..p + |a|] == m[..p] + a;
    assert n[p + |a| + |b|..] == m[p + |a| + |b|..];
  }

  lemma AppendNothing(s: Output)
    requires s.pos < |s.mem|
    ensures Appended(s, s, [])
  {
    assert Patch(s.mem, s.pos, []) == s.mem;
  }

  lemma PatchPrefix(m: Bytes, p: nat, b: Bytes)
    requires p + |b| <= |m|
    ensures Patch(m, p, b)[..p + |b|] == m[..p] + b
  {
  }

  /** Writing a header anew over one as long leaves the data after it alone. */
  lemma Rewritten(m: Bytes, p: nat, old_: Bytes, new_: Bytes, data: Bytes)
    requires |old_| == |new_| && p + |old_| + |data| <= |m|
    ensures Patch(Patch(m, p, old_ + data), p, new_) == Patch(m, p, new_ + data)
  {
    var n := Patch(m, p, old_ + data);
    assert n[..p] == m[..p];
    assert n[p + |new_|..] == data + m[p + |old_| + |data|..];
  }

  // ----- names -----

  function Ascii(s: string): Bytes {
    seq(|s|, i requires 0 <= i < |s| => s[i] as int % 256)
  }

  /** Backslashes become slashes. */
  function Slashes(name: Bytes): (r: Bytes)
    ensures |r| == |name|
  {
    seq(|name|, i requires 0 <= i < |name| => if name[i] == 92 then 47 else name[i])
  }

  /** From the last dot on, or nothing. */
  function Extension(fn: Bytes): Bytes {
    if fn == [] then [] else if fn[|fn| - 1] == 46 then [46]
    else
      var e := Extension(fn[..|fn| - 1]);
      if e == [] then [] else e + [fn[|fn| - 1]]
  }

  /** HasZipSuffix: names of files that are compressed already. */
  predicate HasZipSuffix(fn: Bytes) {
    Lower(Extension(fn)) in {Ascii(".z"), Ascii(".zip"), Ascii(".zoo"), Ascii(".arc"), Ascii(".lzh"),
                             Ascii(".arj"), Ascii(".gz"), Ascii(".tgz")}
  }

  /** What is added: bytes in memory, or a folder. */
  datatype Source = Memory(src: Bytes) | Folder

  function DataOf(source: Source): Bytes {
    if source.Memory? then source.src else []
  }

  /** The name an entry gets: slashes forward, and one at the end of a folder. */
  function NameFor(name: Bytes, source: Source): Bytes {
    var n := Slashes(name);
    if source.Folder? && n != [] && n[|n| - 1] != 47 then n + [47] else n
  }

  function MethodFor(name: Bytes, source: Source): nat {
    if source.Folder? || HasZipSuffix(Slashes(name)) then STORE else DEFLATE
  }

  /** The clock, as the open functions read it. */
  datatype Times = Times(timestamp: nat, mtime: nat, atime: nat, ctime: nat)

  /** The extended-timestamp extra field of a local header. */
  function LocalExtra(t: Times): (b: Bytes)
    ensures |b| == 17
  {
    [85, 84, 13, 0, 7] + Put32(t.mtime) + Put32(t.atime) + Put32(t.ctime)
  }

  /** Its shorter form in the central directory. */
  function CentralExtra(t: Times): (b: Bytes)
    ensures |b| == 9
  {
    LocalExtra(t)[..9][2 := 5]
  }

  class TZip {
    const obuf: array<Byte>
    var opos: nat
    var writ: nat
    var oerr: Code
    var hasputcen: bool
    var zfis: seq<FileInfo>
    ghost var files: seq<File>

    ghost function Out(): Output
      reads this, obuf
    {
      Output(obuf[..], opos, oerr)
    }

    ghost predicate Ready()
      reads this
    {
      opos < obuf.Length < 0x1_0000_0000
    }

    /** As long as no write has failed, everything added so far can be read back. */
    ghost predicate Valid()
      reads this, obuf
    {
      && Ready() && (forall i :: 0 <= i < |zfis| ==> zfis[i].name != [] && |zfis[i].cextra| == 9)
      && (oerr == Ok && !hasputcen ==> writ == opos && AllPlaced(obuf[..opos], zfis, files))
    }

    /** Create, on memory of the given size. */
    constructor (mapsize: nat)
      requires 0 < mapsize < 0x1_0000_0000
      ensures Valid() && oerr == Ok && !hasputcen && zfis == [] && files == [] && obuf.Length == mapsize && writ == 0
      ensures fresh(obuf)
    {
      obuf := new Byte[mapsize];
      opos, writ, oerr, hasputcen := 0, 0, Ok, false;
      zfis, files := [], [];
    }

    /** write: all of it, or nothing and an error. */
    method Write(b: Bytes) returns (n: nat)
      requires Ready()
      modifies this`opos, this`oerr, obuf
      ensures Ready() && Appended(old(Out()), Out(), b)
      ensures if old(opos) + |b| < obuf.Length then n == |b| else n == 0 && opos == old(opos)
    {
      if opos + |b| >= obuf.Length {
        oerr := MemSize;
        return 0;
      }
      forall i | 0 <= i < |b| {
        obuf[opos + i] := b[i];
      }
      assert obuf[..] == Patch(old(obuf[..]), opos, b);
      opos := opos + |b|;
      n := |b|;
    }

    /** PUTSH and PUTLG: a byte at a time, with no look at the result. */
    method Put(b: Bytes)
      requires Ready()
      modifies this`opos, this`oerr, obuf
      ensures Ready() && Appended(old(Out()), Out(), b)
      ensures old(opos) + |b| >= obuf.Length ==> opos == obuf.Length - 1
    {
      hide Appended;
      AppendNothing(Out());
      assert b[..0] == [];
      for i := 0 to |b|
        invariant Ready() && Appended(old(Out()), Out(), b[..i])
        invariant opos == if old(opos) + i < obuf.Length then old(opos) + i else obuf.Length - 1
      {
        ghost var mid := Out();
        var n := Write([b[i]]);
        AppendTwo(old(Out()), mid, Out(), b[..i], [b[i]]);
        assert b[..i] + [b[i]] == b[..i + 1];
        AppendedPos(mid, Out(), [b[i]]);
      }
      assert b[..|b|] == b;
    }

    /** putlocal: the name and the extra field are checked, so a lack of room is noticed. */
    method PutLocal(z: FileInfo) returns (ok: bool)
      requires Ready() && z.name != []
      modifies this`opos, this`oerr, obuf
      ensures Ready() && Appended(old(Out()), Out(), LocalHeader(z))
      ensures z.extra != [] ==> (ok <==> old(opos) + |LocalHeader(z)| < obuf.Length)
    {
      hide Appended, LocalFields;
      ghost var s0 := Out();
      Put(LocalFields(z));
      ghost var s1 := Out();
      AppendedPos(s0, s1, LocalFields(z));
      var n := Write(z.name);
      AppendTwo(s0, s1, Out(), LocalFields(z), z.name);
      AppendedPos(s0, Out(), LocalFields(z) + z.name);
      if n != |z.name| {
        NoRoom(s0, Out(), LocalFields(z) + z.name, z.extra);
        return false;
      }
      if |z.extra| > 0 {
        ghost var s2 := Out();
        n := Write(z.extra);
        AppendTwo(s0, s2, Out(), LocalFields(z) + z.name, z.extra);
        ok := n == |z.extra|;
      } else {
        assert LocalHeader(z) == LocalFields(z) + z.name;
        ok := true;
      }
    }

    /** putcentral: the name and the extra field are checked, so a lack of room is noticed. */
    method PutCentral(z: FileInfo) returns (ok: bool)
      requires Ready() && z.name != [] && z.cextra != []
      modifies this`opos, this`oerr, obuf
      ensures Ready() && Appended(old(Out()), Out(), CentralHeader(z))
      ensures ok <==> old(opos) + |CentralHeader(z)| < obuf.Length
    {
      hide Appended, CentralFields;
      ghost var s0 := Out();
      Put(CentralFields(z));
      ghost var s1 := Out();
      AppendedPos(s0, s1, CentralFields(z));
      var n := Write(z.name);
      AppendTwo(s0, s1, Out(), CentralFields(z), z.name);
      AppendedPos(s0, Out(), CentralFields(z) + z.name);
      if n != |z.name| {
        NoRoom(s0, Out(), CentralFields(z) + z.name, z.cextra);
        return false;
      }
      ghost var s2 := Out();
      n := Write(z.cextra);
      AppendTwo(s0, s2, Out(), CentralFields(z) + z.name, z.cextra);
      ok := n == |z.cextra|;
    }

    /** oseek */
    method Seek(pos: nat) returns (ok: bool)
      requires Ready()
      modifies this`opos, this`oerr
      ensures if pos < obuf.Length then ok && opos == pos && oerr == old(oerr)
              else !ok && opos == old(opos) && oerr == MemSize
    {
      if pos >= obuf.Length {
        oerr := MemSize;
        return false;
      }
      opos := pos;
      ok := true;
    }

    /** istore: the input goes out as it is, a bufferful at a time. */
    method IStore(src: Bytes) returns (r: Code, crc: Crc32, csize: nat)
      requires Ready()
      modifies this`opos, this`oerr, obuf
      ensures Ready() && Appended(old(Out()), Out(), src)
      ensures old(opos) + |src| < obuf.Length ==> r == Ok && csize == |src| && crc == Update(0, src)
    {
      hide Appended, Update;
      crc, csize := 0, 0;
      var posin, size := 0, 0;
      AppendNothing(Out());
      UpdateNothing(0);
      assert src[..0] == [];
      while posin < |src|
        invariant 0 <= posin <= |src| && size == posin && Ready()
        invariant Appended(old(Out()), Out(), src[..posin]) && opos == old(opos) + posin
        invariant crc == Update(0, src[..posin])
      {
        var red := if |src| - posin > 16384 then 16384 else |src| - posin;
        var chunk := src[posin..posin + red];
        ghost var mid := Out();
        crc := Checksum(crc, chunk);
        var cout := Write(chunk);
        AppendTwo(old(Out()), mid, Out(), src[..posin], chunk);
        assert src[..posin] + chunk == src[..posin + red];
        UpdateConcat(0, src[..posin], chunk);
        AppendedPos(mid, Out(), chunk);
        if cout != red {
          NoRoom(old(Out()), Out(), src[..posin + red], src[posin + red..]);
          assert src[..posin + red] + src[posin + red..] == src;
          return MemSize, crc, csize;
        }
        posin, size := posin + red, size + red;
      }
      assert src[..posin] == src;
      r, csize := Ok, size;
    }

    /** ideflate: the checksum is taken as the input is read. */
    method IDeflate(src: Bytes) returns (r: Code, crc: Crc32, csize: nat, ghost data: Bytes)
      requires Ready()
      modifies this`opos, this`oerr, obuf
      ensures Ready() && Appended(old(Out()), Out(), data)
      ensures Decompress(data) == Some(src) && csize == |data| <= MostBytes(|src|) && crc == Update(0, src)
      ensures r == Ok || (r == WriteError && AtRisk(src))
      ensures Caught(src) ==> r == WriteError
    {
      hide Appended, Decompress, Update, AtRisk, Caught;
      crc := Checksum(0, src);
      var chunks: nat -> nat := _ => |src|;
      var written, size, err := Compress(src, chunks, 16384);
      var n := Write(written);
      r, csize, data := if err then WriteError else Ok, size, written;
    }

    /** Step 2 of Add: the data, deflated or as it is; none for a folder. */
    method AddData(how: nat, source: Source) returns (r: Code, crc: Crc32, csize: nat, ghost data: Bytes)
      requires Ready() && (how == STORE || (how == DEFLATE && source.Memory?))
      modifies this`opos, this`oerr, obuf
      ensures Ready() && Appended(old(Out()), Out(), data) && Content(how, data) == Some(DataOf(source))
      ensures |data| <= MostBytes(|DataOf(source)|) && (how == STORE ==> |data| == |DataOf(source)|)
      ensures old(opos) + |data| < obuf.Length ==>
                csize == |data| && crc == Update(0, DataOf(source)) &&
                (r == Ok || (r == WriteError && how == DEFLATE && AtRisk(DataOf(source))))
      ensures how == DEFLATE && Caught(DataOf(source)) ==> r == WriteError
    {
      hide Appended, Update, AtRisk, Caught, Decompress, Content;
      if source.Folder? {
        AppendNothing(Out());
        UpdateNothing(0);
        StoredContent([]);
        r, crc, csize, data := Ok, 0, 0, [];
      } else if how == DEFLATE {
        r, crc, csize, data := IDeflate(source.src);
        DeflatedContent(data);
      } else {
        r, crc, csize := IStore(source.src);
        data := source.src;
        StoredContent(data);
      }
    }

    /** Step 3 of Add: the header again, now that everything in it is known. */
    method Rewrite(z: FileInfo, ghost s0: Output, ghost first: Bytes, ghost data: Bytes)
      requires Ready() && writ == opos && z.off == s0.pos && |first| == |LocalHeader(z)| && z.name != []
      requires s0.pos + |first + data| < |s0.mem| == obuf.Length
      requires Out() == Output(Patch(s0.mem, s0.pos, first + data), s0.pos + |first + data|, Ok)
      modifies this`opos, this`oerr, obuf
      ensures Ready() && opos == writ
      ensures Out() == Output(Patch(s0.mem, s0.pos, LocalHeader(z) + data), s0.pos + |first + data|, Ok)
    {
      hide Appended, LocalHeader, Patch;
      var ok := Seek(z.off);
      ghost var again := Out();
      ok := PutLocal(z);
      AppendedMem(again, Out(), LocalHeader(z));
      ok := Seek(writ);
      Rewritten(s0.mem, s0.pos, first, LocalHeader(z), data);
    }

    /** The rest of Add: the header is made right and a copy of z kept for the directory. */
    method Record(z: FileInfo, ghost f: File, ghost s0: Output, ghost first: Bytes, ghost data: Bytes)
      requires Ready() && writ == opos && z.off == s0.pos && |first| == |LocalHeader(z)| && z.name != []
      requires s0.pos + |first + data| < |s0.mem| == obuf.Length
      requires Out() == Output(Patch(s0.mem, s0.pos, first + data), s0.pos + |first + data|, Ok)
      requires Describes(z, f) && z.siz == |data| && Content(z.how, data) == Some(f.data)
      requires AllPlaced(s0.mem[..s0.pos], zfis, files)
      modifies this`opos, this`oerr, this`zfis, this`files, obuf
      ensures Ready() && opos == writ && oerr == Ok && AllPlaced(obuf[..opos], zfis, files)
      ensures zfis == old(zfis) + [z] && files == old(files) + [f]
    {
      hide Appended, LocalHeader, Content, AllPlaced, Patch, Placed, Describes;
      Rewrite(z, s0, first, data);
      ghost var m0 := s0.mem[..s0.pos];
      PatchPrefix(s0.mem, s0.pos, LocalHeader(z) + data);
      NewFile(m0, z, f, data);
      AllPlacedKept(m0, obuf[..opos], zfis, files);
      AllPlacedSnoc(obuf[..opos], zfis, files, z, f);
      zfis, files := zfis + [z], files + [f];
    }

    /** Not even the local header fits; then the result is ZR_WRITE rather than the error itself. */
    predicate HeaderLacksRoom(pos: nat, name: Bytes, source: Source)
    {
      pos + 47 + |NameFor(name, source)| >= obuf.Length
    }

    /** The part of Add after its checks. */
    method AddEntry(name: Bytes, source: Source, times: Times) returns (r: Code)
      requires Valid() && oerr == Ok && !hasputcen
      requires name != [] && |name| + 2 <= MAX_PATH && |DataOf(source)| < 0x8000_0000
      modifies this`opos, this`oerr, this`writ, this`zfis, this`files, obuf
      ensures Valid()
      ensures r == Ok ==> oerr == Ok && files == old(files) + [File(NameFor(name, source), DataOf(source))]
      ensures r == Ok ==> |zfis| == |old(zfis)| + 1 && zfis[..|old(zfis)|] == old(zfis)
      ensures r == Ok ==> zfis[|old(zfis)|].how == MethodFor(name, source) && zfis[|old(zfis)|].off == old(writ)
      ensures r == Ok ==> opos == old(opos) + 47 + |NameFor(name, source)| + zfis[|old(zfis)|].siz
      ensures r == Ok && MethodFor(name, source) == STORE ==> zfis[|old(zfis)|].siz == |DataOf(source)|
      ensures r != Ok ==> zfis == old(zfis) && files == old(files)
      ensures oerr == if r == MemSize || HeaderLacksRoom(old(opos), name, source) then MemSize else Ok
      ensures r == MemSize ==> !HeaderLacksRoom(old(opos), name, source)
      ensures r == WriteError ==> HeaderLacksRoom(old(opos), name, source)
                                  || (MethodFor(name, source) == DEFLATE && AtRisk(DataOf(source)))
      ensures old(opos) + 47 + |NameFor(name, source)| + MostBytes(|DataOf(source)|) < obuf.Length ==>
                r == Ok || (r == WriteError && AtRisk(DataOf(source)))
      ensures MethodFor(name, source) == DEFLATE && Caught(DataOf(source)) ==> r != Ok
      ensures r in {Ok, MemSize, WriteError} && (HeaderLacksRoom(old(opos), name, source) ==> r == WriteError)
      ensures MethodFor(name, source) == STORE ==>
                (r == Ok <==> old(opos) + 47 + |NameFor(name, source)| + |DataOf(source)| < obuf.Length)
    {
      hide Appended, LocalHeader, Content, Update, AtRisk, Caught, AllPlaced, Decompress, LocalExtra, CentralExtra,
           NameFor, MethodFor, Patch, Placed, Describes;
      var how := MethodFor(name, source);
      MethodIs(name, source);
      NameIsLong(name, source);
      ghost var s0, m0 := Out(), obuf[..opos];
      var z := FirstInfo(name, source, times, writ);
      ghost var first := LocalHeader(z);
      var ok := PutLocal(z);
      ghost var s1 := Out();
      AppendedPos(s0, s1, first);
      if !ok {
        return WriteError;
      }
      writ := writ + 30 + |z.name| + |z.extra|;
      if oerr != Ok {
        return oerr;
      }
      var writeres, crc, csize, data := AddData(how, source);
      AppendedPos(s1, Out(), data);
      AppendTwo(s0, s1, Out(), first, data);
      writ := writ + csize;
      if oerr != Ok {
        return oerr;
      }
      ghost var s2 := Out();
      AppendedMem(s0, s2, first + data);
      PatchPrefix(s0.mem, s0.pos, first + data);
      if writeres != Ok {
        AllPlacedKept(m0, obuf[..opos], zfis, files);
        return WriteError;
      }
      var flg := if how == DEFLATE then SLOW else 0;
      z := z.(crc := crc, siz := csize, flg := flg, lflg := flg);
      ghost var f := File(NameFor(name, source), DataOf(source));
      InfoDescribes(z, f);
      Record(z, f, s0, first, data);
      r := Ok;
    }

    /** Add: after a success the file is in the archive; after a failure without a write error
        the archive still reads as before. */
    method Add(name: Bytes, source: Source, times: Times) returns (r: Code)
      requires Valid() && |name| + 2 <= MAX_PATH && |DataOf(source)| < 0x8000_0000
      modifies this, obuf
      ensures Valid() && hasputcen == old(hasputcen)
      ensures r == Ok ==> old(oerr) == oerr == Ok && files == old(files) + [File(NameFor(name, source), DataOf(source))]
      ensures r == Ok ==> |zfis| == |old(zfis)| + 1 && zfis[..|old(zfis)|] == old(zfis)
      ensures r == Ok ==> zfis[|old(zfis)|].how == MethodFor(name, source) && zfis[|old(zfis)|].off == old(writ)
      ensures r == Ok ==> opos == old(opos) + 47 + |NameFor(name, source)| + zfis[|old(zfis)|].siz
      ensures r == Ok && MethodFor(name, source) == STORE ==> zfis[|old(zfis)|].siz == |DataOf(source)|
      ensures r != Ok ==> zfis == old(zfis) && files == old(files)
      ensures old(oerr) != Ok ==> r == Failed
      ensures old(oerr) == Ok && old(hasputcen) ==> r == Ended
      ensures old(oerr) == Ok && !old(hasputcen) && (name == [] || source == Memory([])) ==> r == Args && oerr == Ok
      ensures r == MemSize ==> oerr == MemSize
      ensures r == WriteError ==> (oerr == MemSize && HeaderLacksRoom(old(opos), name, source))
                                  || (oerr == Ok && MethodFor(name, source) == DEFLATE && AtRisk(DataOf(source)))
      ensures MethodFor(name, source) == DEFLATE && Caught(DataOf(source)) ==> r != Ok
      ensures r in {Ok, MemSize, WriteError, Failed, Ended, Args}
      ensures old(oerr) == Ok && !old(hasputcen) && name != [] && source != Memory([])
              && old(opos) + 47 + |NameFor(name, source)| + MostBytes(|DataOf(source)|) < obuf.Length ==>
                r == Ok || (r == WriteError && AtRisk(DataOf(source)))
      ensures old(oerr) == Ok && !old(hasputcen) && name != [] && source != Memory([])
              && MethodFor(name, source) == STORE ==>
                (r == Ok <==> old(opos) + 47 + |NameFor(name, source)| + |DataOf(source)| < obuf.Length)
    {
      hide *;
      if oerr != Ok {
        return Failed;
      }
      if hasputcen {
        return Ended;
      }
      if name == [] {
        return Args;
      }
      if source == Memory([]) {
        return Args;
      }
      r := AddEntry(name, source, times);
    }

    /** AddCentral. Only the central headers are checked as they are written: when they fit and the
        end record does not, the result is still Ok, and oerr alone tells. */
    method AddCentral() returns (r: Code)
      requires Valid() && !hasputcen
      modifies this`opos, this`oerr, this`writ, obuf
      ensures Ready()
      ensures r == Ok <==> old(opos) + |Central(zfis)| < obuf.Length
      ensures oerr == if old(opos) + |Central(zfis)| + 22 < obuf.Length then old(oerr) else MemSize
      ensures oerr == Ok ==> writ == opos && obuf[..writ] == Image(old(obuf[..opos]), zfis)
    {
      hide Appended, Central, CentralHeader, EndRecord, Patch, AllPlaced, Image;
      NoDirectory();
      var numentries, start := 0, writ;
      var okay := true;
      ghost var s0 := Out();
      AppendNothing(s0);
      assert zfis[..0] == [];
      while numentries < |zfis|
        invariant 0 <= numentries <= |zfis| && Ready() && unchanged(`zfis)
        invariant Appended(s0, Out(), Central(zfis[..numentries]))
        invariant writ == start + |Central(zfis[..numentries])|
        invariant okay <==> s0.pos + |Central(zfis[..numentries])| < obuf.Length
      {
        var z := zfis[numentries];
        ghost var mid := Out();
        CentralSnoc(zfis, numentries);
        AppendedPos(s0, mid, Central(zfis[..numentries]));
        if okay {
          okay := PutCentral(z);
          AppendTwo(s0, mid, Out(), Central(zfis[..numentries]), CentralHeader(z));
        } else {
          NoRoom(s0, mid, Central(zfis[..numentries]), CentralHeader(z));
        }
        writ := writ + 46 + |z.name| + |z.cextra|;
        numentries := numentries + 1;
      }
      assert zfis[..numentries] == zfis;
      ghost var s1 := Out();
      AppendedPos(s0, s1, Central(zfis));
      if okay {
        var size := writ - start;
        Put(EndRecord(numentries, size, start));
        AppendTwo(s0, s1, Out(), Central(zfis), EndRecord(numentries, size, start));
        AppendedPos(s0, Out(), Central(zfis) + EndRecord(numentries, size, start));
        writ := writ + 22;
        if oerr == Ok {
          AppendedMem(s0, Out(), Central(zfis) + EndRecord(numentries, size, start));
          PatchPrefix(s0.mem, s0.pos, Central(zfis) + EndRecord(numentries, size, start));
          ImageIs(s0.mem[..s0.pos], zfis);
        }
        r := Ok;
      } else {
        r := WriteError;
      }
    }

    /** GetMemory: the finished archive gives back every file that was added, exactly when there
        are fewer than 65536. */
    method GetMemory() returns (plen: nat)
      requires Valid()
      modifies this, obuf
      ensures hasputcen && files == old(files)
      ensures !old(hasputcen) ==>
                (oerr == Ok <==> old(oerr) == Ok && old(opos) + |Central(old(zfis))| + 22 < obuf.Length)
      ensures !old(hasputcen) && oerr == Ok ==>
                plen <= obuf.Length && Extract(obuf[..plen]) == if |files| < 0x10000 then Some(files) else None
    {
      hide AllPlaced, Image, Central, Extract;
      if !hasputcen {
        ghost var m := obuf[..opos];
        var r := AddCentral();
        if oerr == Ok {
          ArchiveReads(m, zfis, files);
          SameCount(m, zfis, files);
        }
      }
      hasputcen := true;
      plen := writ;
    }
  }

  // ----- two archives that go wrong -----

  const FOLDER_NAME: Bytes := [100]

  lemma FolderFacts()
    ensures MethodFor(FOLDER_NAME, Folder) == STORE && |NameFor(FOLDER_NAME, Folder)| == 2 && DataOf(Folder) == []
  {
  }

  /** What one more folder adds to the directory. */
  lemma FolderInDirectory(m: Bytes, zs: seq<FileInfo>, fs: seq<File>, before: seq<FileInfo>)
    requires AllPlaced(m, zs, fs) && |zs| == |before| + 1 && zs[..|before|] == before
    requires fs[|before|].name == NameFor(FOLDER_NAME, Folder) && |zs[|before|].cextra| == 9
    ensures |Central(zs)| == |Central(before)| + 57
  {
    hide LocalHeader, Content, Update, At;
    var z := zs[|before|];
    assert Placed(m, z, fs[|before|]);
    FolderFacts();
    assert zs[..|zs| - 1] == before;
  }

  /** A folder in 110 bytes: the directory just fits, the end record does not, and the result is Ok. */
  method CutShort(times: Times) returns (zip: TZip, r: Code)
    ensures r == Ok && zip.oerr == MemSize
  {
    hide Central, AllPlaced, NameFor, MethodFor;
    zip := new TZip(110);
    FolderFacts();
    var added := zip.Add(FOLDER_NAME, Folder, times);
    FolderInDirectory(zip.obuf[..zip.opos], zip.zfis, zip.files, []);
    NoDirectory();
    r := zip.AddCentral();
  }

  lemma NoDirectory()
    ensures Central([]) == []
  {
  }

  /** 65536 folders, all added without an error, and an image that gives none of them back. */
  method TooMany(times: Times) returns (zip: TZip, plen: nat)
    ensures |zip.files| == 0x10000 && zip.oerr == Ok && plen <= zip.obuf.Length && Extract(zip.obuf[..plen]) == None
  {
    hide Central, AllPlaced, NameFor, MethodFor, Extract;
    zip := new TZip(0x100_0000);
    FolderFacts();
    NoDirectory();
    for i := 0 to 0x10000
      invariant zip.Valid() && zip.oerr == Ok && !zip.hasputcen && fresh(zip) && fresh(zip.obuf)
                && zip.obuf.Length == 0x100_0000
      invariant |zip.files| == |zip.zfis| == i && zip.opos == 49 * i && |Central(zip.zfis)| == 57 * i
    {
      ghost var before := zip.zfis;
      var added := zip.Add(FOLDER_NAME, Folder, times);
      FolderInDirectory(zip.obuf[..zip.opos], zip.zfis, zip.files, before);
    }
    plen := zip.GetMemory();
  }

  lemma CentralSnoc(zs: seq<FileInfo>, n: nat)
    requires n < |zs|
    ensures Central(zs[..n + 1]) == Central(zs[..n]) + CentralHeader(zs[n])
  {
    assert zs[..n + 1][..n] == zs[..n];
  }

  lemma ImageIs(m: Bytes, zs: seq<FileInfo>)
    ensures m + (Central(zs) + EndRecord(|zs|, |Central(zs)|, |m|)) == Image(m, zs)
  {
    hide Central, EndRecord;
  }

  lemma SameCount(m: Bytes, zs: seq<FileInfo>, fs: seq<File>)
    requires AllPlaced(m, zs, fs)
    ensures |zs| == |fs|
  {
  }

  /** What is known before the data is written. */
  function FirstInfo(name: Bytes, source: Source, times: Times, off: nat): (z: FileInfo)
    ensures z.name == NameFor(name, source) && z.how == MethodFor(name, source) && z.len == |DataOf(source)|
    ensures z.off == off && |z.extra| == 17 && |z.cextra| == 9
  {
    var how, size := MethodFor(name, source), |DataOf(source)|;
    FileInfo(NameFor(name, source), 8, 8, how, times.timestamp, 0, if how == STORE then size else 0, size,
             if source.Folder? then 0x41C00010 else 0x80000000, off, LocalExtra(times), CentralExtra(times))
  }

  lemma MethodIs(name: Bytes, source: Source)
    ensures MethodFor(name, source) == STORE || (MethodFor(name, source) == DEFLATE && source.Memory?)
  {
  }

  lemma NameIsLong(name: Bytes, source: Source)
    ensures |name| <= |NameFor(name, source)| <= |name| + 1
  {
  }

  lemma InfoDescribes(z: FileInfo, f: File)
    requires z.how < 0x10000 && z.siz < 0x1_0000_0000 && z.len == |f.data| < 0x1_0000_0000 && z.off < 0x1_0000_0000
    requires |z.name| < 0x10000 && |z.extra| < 0x10000 && |z.cextra| < 0x10000 && z.name == f.name
    requires z.crc == Update(0, f.data)
    ensures Describes(z, f)
  {
  }

  lemma AppendedMem(s0: Output, s1: Output, b: Bytes)
    requires Appended(s0, s1, b) && s0.pos + |b| < |s0.mem|
    ensures s1 == Output(Patch(s0.mem, s0.pos, b), s0.pos + |b|, s0.err)
  {
  }

  lemma StoredContent(data: Bytes)
    ensures Content(STORE, data) == Some(data)
  {
  }

  lemma DeflatedContent(data: Bytes)
    ensures Content(DEFLATE, data) == Decompress(data)
  {
  }

  /** A header and the data it describes, added at the end. */
  lemma NewFile(m: Bytes, z: FileInfo, f: File, data: Bytes)
    requires Describes(z, f) && z.off == |m| && z.siz == |data| && Content(z.how, data) == Some(f.data)
    ensures Placed(m + (LocalHeader(z) + data), z, f)
  {
    hide Content, Describes, LocalHeader;
    var m' := m + (LocalHeader(z) + data);
    assert m'[DataAt(z)..DataAt(z) + z.siz] == data;
    assert m'[z.off..DataAt(z)] == LocalHeader(z);
  }

  lemma AllPlacedSnoc(m: Bytes, zs: seq<FileInfo>, fs: seq<File>, z: FileInfo, f: File)
    requires AllPlaced(m, zs, fs) && Placed(m, z, f)
    ensures AllPlaced(m, zs + [z], fs + [f])
  {
  }

  lemma AppendedPos(s0: Output, s1: Output, b: Bytes)
    requires Appended(s0, s1, b)
    ensures s0.pos <= s1.pos < |s1.mem| == |s0.mem|
    ensures s0.pos + |b| < |s0.mem| ==> s1.pos == s0.pos + |b| && s1.err == s0.err
    ensures s0.pos + |b| >= |s0.mem| ==> s1.err == MemSize
  {
  }

  /** A string that was not written for lack of room stays unwritten whatever follows it. */
  lemma NoRoom(s0: Output, s1: Output, a: Bytes, b: Bytes)
    requires Appended(s0, s1, a) && s0.pos + |a| >= |s0.mem|
    ensures Appended(s0, s1, a + b)
  {
  }
}
