/** Byte strings: little-endian numbers, records at known places, and lower-case letters. */
module LittleEndian {
  import opened BitStrings

  type Bytes = seq<Byte>

  function Put16(v: nat): (b: Bytes)
    ensures |b| == 2
  {
    [v % 0x100, v / 0x100 % 0x100]
  }

  function Put32(v: nat): (b: Bytes)
    ensures |b| == 4
  {
    Put16(v % 0x10000) + Put16(v / 0x10000 % 0x10000)
  }

  function Get16(buf: Bytes, p: nat): (v: nat)
    requires p + 2 <= |buf|
    ensures v < 0x10000
  {
    buf[p] as nat + 0x100 * (buf[p + 1] as nat)
  }

  function Get32(buf: Bytes, p: nat): (v: nat)
    requires p + 4 <= |buf|
    ensures v < 0x1_0000_0000
  {
    Get16(buf, p) + 0x10000 * Get16(buf, p + 2)
  }

  /** part stands at position p of buf. */
  predicate At(buf: Bytes, p: nat, part: Bytes) {
    p + |part| <= |buf| && buf[p..p + |part|] == part
  }

  lemma AtParts(buf: Bytes, p: nat, a: Bytes, b: Bytes)
    requires At(buf, p, a + b)
    ensures At(buf, p, a) && At(buf, p + |a|, b)
  {
    var whole := buf[p..p + |a + b|];
    assert whole[..|a|] == a && whole[|a|..] == b;
    assert buf[p..p + |a|] == whole[..|a|];
    assert buf[p + |a|..p + |a| + |b|] == whole[|a|..];
  }

  lemma Get16At(buf: Bytes, p: nat, v: nat)
    requires At(buf, p, Put16(v)) && v < 0x10000
    ensures Get16(buf, p) == v
  {
    var part := buf[p..p + 2];
    assert buf[p] == part[0] && buf[p + 1] == part[1];
  }

  lemma Get32At(buf: Bytes, p: nat, v: nat)
    requires At(buf, p, Put32(v)) && v < 0x1_0000_0000
    ensures Get32(buf, p) == v
  {
    AtParts(buf, p, Put16(v % 0x10000), Put16(v / 0x10000 % 0x10000));
    Get16At(buf, p, v % 0x10000);
    Get16At(buf, p + 2, v / 0x10000 % 0x10000);
  }

  function Lower(s: Bytes): (r: Bytes)
    ensures |r| == |s|
  {
    seq(|s|, i requires 0 <= i < |s| => if 65 <= s[i] <= 90 then s[i] + 32 else s[i])
  }
}
