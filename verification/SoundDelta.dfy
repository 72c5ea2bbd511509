/** SoundInfo_t::WriteDelta and ReadDelta: sounds coded against the one before. */
module SoundDelta {
  import opened BitStrings
  import opened Inflate

  const MAX_EDICT_BITS: nat := 11
  const MAX_SOUND_INDEX_BITS: nat := 13
  const SND_FLAG_BITS_ENCODE: nat := 9
  const SOUND_SEQNUMBER_BITS: nat := 10
  const MAX_SNDLVL_BITS: nat := 9
  const COORD_BITS: nat := 12
  const SND_STOP: nat := 4
  const SND_DELAY: nat := 16
  const PITCH_NORM: nat := 100

  /** The fields of SoundInfo_t that are sent. The delay is a 32-bit word, as WriteFloat sends it. */
  datatype Sound = Sound(entity: nat, soundNum: nat, flags: nat, channel: nat, isAmbient: bool, isSentence: bool,
                         seqNum: nat, volume: real, level: nat, pitch: nat, delay: nat, x: real, y: real, z: real,
                          speaker: int)

  /** ClearStopFields */
  function Cleared(s: Sound): Sound {
    s.(volume := 0.0, level := 0, pitch := PITCH_NORM, delay := 0, seqNum := 0, x := 0.0, y := 0.0,
       z := 0.0, speaker := -1)
  }

  /** What the writer's own record has become when it serves as the baseline of the next sound. */
  function Baseline(s: Sound): Sound {
    if s.flags == SND_STOP then Cleared(s) else s
  }

  predicate InRange(s: Sound) {
    && s.entity < Pow2(MAX_EDICT_BITS) && s.soundNum < Pow2(MAX_SOUND_INDEX_BITS)
    && s.flags < Pow2(SND_FLAG_BITS_ENCODE)
    && s.channel < Pow2(3) && s.seqNum < Pow2(SOUND_SEQNUMBER_BITS) && 0.0 <= s.volume <= 1.0
    && s.level < Pow2(MAX_SNDLVL_BITS) && s.pitch < Pow2(8) && s.delay < Pow2(32)
    && CoordInRange(s.x) && CoordInRange(s.y) && CoordInRange(s.z)
    && FitsSigned(s.speaker, MAX_EDICT_BITS + 1)
  }

  predicate CoordInRange(v: real) {
    FitsSigned(Eighth(v), COORD_BITS)
  }

  // ----- numbers -----

  /** (int)(v / 8.0f) */
  function Eighth(v: real): int {
    if v >= 0.0 then (v / 8.0).Floor else -(-v / 8.0).Floor
  }

  /** (unsigned int)(v * 127.0f), for v from 0 to 1. */
  function Volume7(v: real): (n: nat)
    requires 0.0 <= v <= 1.0
    ensures n <= 127
  {
    (v * 127.0).Floor
  }

  predicate FitsSigned(v: int, n: nat)
    requires n > 0
  {
    0 <= v + Pow2(n - 1) < Pow2(n)
  }

  /** WriteSBitLong: two's complement. */
  function SignedBits(v: int, n: nat): Bits
    requires n > 0 && FitsSigned(v, n)
  {
    LsbBits(if v >= 0 then v else v + Pow2(n), n)
  }

  function ReadSigned(n: nat, bits: Bits): Parse<int>
    requires n > 0
  {
    match ReadNumber(n, bits)
    case Fail => Fail
    case Done(v, rest) => Done(if v < Pow2(n - 1) then v else v - Pow2(n), rest)
  }

  lemma SignedBack(v: int, n: nat, rest: Bits)
    requires n > 0 && FitsSigned(v, n)
    ensures ReadSigned(n, SignedBits(v, n) + rest) == Done(v, rest)
  {
    ReadBack(if v >= 0 then v else v + Pow2(n), n, rest);
  }

  function ReadBit(bits: Bits): Parse<bool> {
    if bits == [] then Fail else Done(bits[0], bits[1..])
  }

  lemma BitBack(b: bool, rest: Bits)
    ensures ReadBit([b] + rest) == Done(b, rest)
  {
    assert ([b] + rest)[1..] == rest;
  }

  // ----- one field -----

  /** WRITE_DELTA_UINT and READ_DELTA_UINT */
  function WriteUint(v: nat, d: nat, n: nat): Bits {
    if v == d then [false] else [true] + LsbBits(v, n)
  }

  function ReadUint(d: nat, n: nat, bits: Bits): Parse<nat> {
    var (changed, b1) :- ReadBit(bits);
    if changed then ReadNumber(n, b1) else Done(d, b1)
  }

  lemma UintBack(v: nat, d: nat, n: nat, rest: Bits)
    requires v < Pow2(n)
    ensures ReadUint(d, n, WriteUint(v, d, n) + rest) == Done(v, rest)
  {
    if v == d {
      BitBack(false, rest);
    } else {
      BitBack(true, LsbBits(v, n) + rest);
      assert WriteUint(v, d, n) + rest == [true] + (LsbBits(v, n) + rest);
      ReadBack(v, n, rest);
    }
  }

  function WriteSint(v: int, d: int, n: nat): Bits
    requires n > 0 && FitsSigned(v, n)
  {
    if v == d then [false] else [true] + SignedBits(v, n)
  }

  function ReadSint(d: int, n: nat, bits: Bits): Parse<int>
    requires n > 0
  {
    var (changed, b1) :- ReadBit(bits);
    if changed then ReadSigned(n, b1) else Done(d, b1)
  }

  lemma SintBack(v: int, d: int, n: nat, rest: Bits)
    requires n > 0 && FitsSigned(v, n)
    ensures ReadSint(d, n, WriteSint(v, d, n) + rest) == Done(v, rest)
  {
    if v == d {
      BitBack(false, rest);
    } else {
      BitBack(true, SignedBits(v, n) + rest);
      assert WriteSint(v, d, n) + rest == [true] + (SignedBits(v, n) + rest);
      SignedBack(v, n, rest);
    }
  }

  /** What the reader may hold for a coordinate: the coordinate, or its multiple of eight. */
  predicate CoordMatches(r: real, v: real) {
    r == v || r == 8.0 * (Eighth(v) as real)
  }

  /** WRITE_DELTA_SINT_SCALE and READ_DELTA_SINT_SCALE, with scale 8 */
  function WriteCoord(v: real, d: real): Bits
    requires CoordInRange(v)
  {
    if v == d then [false] else [true] + SignedBits(Eighth(v), COORD_BITS)
  }

  function ReadCoord(d: real, bits: Bits): Parse<real> {
    var (changed, b1) :- ReadBit(bits);
    if changed then
      var (e, b2) :- ReadSigned(COORD_BITS, b1);
      Done(8.0 * (e as real), b2)
    else Done(d, b1)
  }

  /** The value the reader gets, given what it holds for the baseline. */
  function CoordSeen(v: real, d: real, held: real): real {
    if v == d then held else 8.0 * (Eighth(v) as real)
  }

  lemma CoordBack(v: real, d: real, held: real, rest: Bits)
    requires CoordInRange(v)
    ensures ReadCoord(held, WriteCoord(v, d) + rest) == Done(CoordSeen(v, d, held), rest)
    ensures CoordMatches(held, d) ==> CoordMatches(CoordSeen(v, d, held), v)
  {
    if v == d {
      BitBack(false, rest);
    } else {
      BitBack(true, SignedBits(Eighth(v), COORD_BITS) + rest);
      assert WriteCoord(v, d) + rest == [true] + (SignedBits(Eighth(v), COORD_BITS) + rest);
      SignedBack(Eighth(v), COORD_BITS, rest);
    }
  }

  lemma CoordError(r: real, v: real)
    requires CoordMatches(r, v)
    ensures -8.0 < r - v < 8.0
  {
    if v >= 0.0 {
      assert (v / 8.0).Floor as real <= v / 8.0 < (v / 8.0).Floor as real + 1.0;
    } else {
      assert (-v / 8.0).Floor as real <= -v / 8.0 < (-v / 8.0).Floor as real + 1.0;
    }
  }

  predicate VolumeMatches(r: real, v: real) {
    0.0 <= v <= 1.0 && (r == v || r == (Volume7(v) as real) / 127.0)
  }

  function WriteVolume(v: real, d: real): Bits
    requires 0.0 <= v <= 1.0
  {
    if v == d then [false] else [true] + LsbBits(Volume7(v), 7)
  }

  function ReadVolume(d: real, bits: Bits): Parse<real> {
    var (changed, b1) :- ReadBit(bits);
    if changed then
      var (n, b2) :- ReadNumber(7, b1);
      Done((n as real) / 127.0, b2)
    else Done(d, b1)
  }

  function VolumeSeen(v: real, d: real, held: real): real
    requires 0.0 <= v <= 1.0
  {
    if v == d then held else (Volume7(v) as real) / 127.0
  }

  lemma VolumeBack(v: real, d: real, held: real, rest: Bits)
    requires 0.0 <= v <= 1.0
    ensures ReadVolume(held, WriteVolume(v, d) + rest) == Done(VolumeSeen(v, d, held), rest)
    ensures VolumeMatches(held, d) ==> VolumeMatches(VolumeSeen(v, d, held), v)
  {
    if v == d {
      BitBack(false, rest);
    } else {
      BitBack(true, LsbBits(Volume7(v), 7) + rest);
      assert WriteVolume(v, d) + rest == [true] + (LsbBits(Volume7(v), 7) + rest);
      Pow2Values();
      ReadBack(Volume7(v), 7, rest);
    }
  }

  lemma VolumeError(r: real, v: real)
    requires VolumeMatches(r, v)
    ensures -1.0 / 127.0 < r - v < 1.0 / 127.0
  {
    assert (v * 127.0).Floor as real <= v * 127.0 < (v * 127.0).Floor as real + 1.0;
  }

  // ----- entity and sequence number -----

  function WriteEntity(v: nat, d: nat): Bits {
    if v == d then [false]
    else if v <= 31 then [true] + ([true] + LsbBits(v, 5))
    else [true] + ([false] + LsbBits(v, MAX_EDICT_BITS))
  }

  function ReadEntity(d: nat, bits: Bits): Parse<nat> {
    var (changed, b1) :- ReadBit(bits);
    if !changed then Done(d, b1)
    else
      var (short, b2) :- ReadBit(b1);
      ReadNumber(if short then 5 else MAX_EDICT_BITS, b2)
  }

  lemma EntityBack(v: nat, d: nat, rest: Bits)
    requires v < Pow2(MAX_EDICT_BITS)
    ensures ReadEntity(d, WriteEntity(v, d) + rest) == Done(v, rest)
  {
    hide Pow2, LsbBits;
    Pow2Values();
    if v == d {
      BitBack(false, rest);
    } else {
      var n := if v <= 31 then 5 else MAX_EDICT_BITS;
      var more := LsbBits(v, n) + rest;
      assert WriteEntity(v, d) + rest == [true] + ([v <= 31] + more);
      BitBack(true, [v <= 31] + more);
      BitBack(v <= 31, more);
      ReadBack(v, n, rest);
    }
  }

  function WriteSeq(v: nat, d: nat): Bits {
    if v == d then [true]
    else if v == d + 1 then [false] + [true]
    else LsbBits(0, 2) + LsbBits(v, SOUND_SEQNUMBER_BITS)
  }

  function ReadSeq(d: nat, bits: Bits): Parse<nat> {
    var (same, b1) :- ReadBit(bits);
    if same then Done(d, b1)
    else
      var (next, b2) :- ReadBit(b1);
      if next then Done(d + 1, b2) else ReadNumber(SOUND_SEQNUMBER_BITS, b2)
  }

  lemma TwoZeros()
    ensures LsbBits(0, 2) == [false] + [false]
  {
    assert LsbBits(0, 1) == [false];
  }

  lemma SeqBack(v: nat, d: nat, rest: Bits)
    requires v < Pow2(SOUND_SEQNUMBER_BITS)
    ensures ReadSeq(d, WriteSeq(v, d) + rest) == Done(v, rest)
  {
    hide Pow2, ReadBit, ReadNumber, LsbBits;
    if v == d {
      BitBack(true, rest);
    } else if v == d + 1 {
      assert [false] + [true] + rest == [false] + ([true] + rest);
      BitBack(false, [true] + rest);
      BitBack(true, rest);
    } else {
      var more := LsbBits(v, SOUND_SEQNUMBER_BITS) + rest;
      TwoZeros();
      assert WriteSeq(v, d) + rest == [false] + ([false] + more);
      BitBack(false, [false] + more);
      BitBack(false, more);
      ReadBack(v, SOUND_SEQNUMBER_BITS, rest);
    }
  }

  // ----- a whole sound -----

  /** Both parts of WriteDelta, last field first to be appended; delay is what the delay comes to
      once it is taken relative to the final tick. */
  function HeadBits(s: Sound, d: Sound): Bits {
    WriteEntity(s.entity, d.entity) + (WriteUint(s.soundNum, d.soundNum, MAX_SOUND_INDEX_BITS)
    + (WriteUint(s.flags, d.flags, SND_FLAG_BITS_ENCODE)
    + (WriteUint(s.channel, d.channel, 3) + ([s.isAmbient] + [s.isSentence]))))
  }

  function TailBits(s: Sound, d: Sound, delay: nat): Bits
    requires InRange(s)
  {
    WriteSeq(s.seqNum, d.seqNum) + (WriteVolume(s.volume, d.volume) + (WriteUint(s.level, d.level, MAX_SNDLVL_BITS)
    + (WriteUint(s.pitch, d.pitch, 8) + (WriteUint(delay, d.delay, 32)
    + (WriteCoord(s.x, d.x) + (WriteCoord(s.y, d.y) + (WriteCoord(s.z, d.z)
    + WriteSint(s.speaker, d.speaker, MAX_EDICT_BITS + 1))))))))
  }

  function SoundBits(s: Sound, d: Sound, delay: nat): Bits
    requires InRange(s)
  {
    HeadBits(s, d) + (if s.flags != SND_STOP then TailBits(s, d, delay) else [])
  }

  /** ReadDelta; held is the reader's record of the sound before. */
  function ReadSound(held: Sound, bits: Bits): Parse<Sound> {
    var (entity, b1) :- ReadEntity(held.entity, bits);
    var (soundNum, b2) :- ReadUint(held.soundNum, MAX_SOUND_INDEX_BITS, b1);
    var (flags, b3) :- ReadUint(held.flags, SND_FLAG_BITS_ENCODE, b2);
    var (channel, b4) :- ReadUint(held.channel, 3, b3);
    var (isAmbient, b5) :- ReadBit(b4);
    var (isSentence, b6) :- ReadBit(b5);
    var head := held.(entity := entity, soundNum := soundNum, flags := flags, channel := channel,
                      isAmbient := isAmbient, isSentence := isSentence);
    if flags != SND_STOP then ReadTail(head, held, b6) else Done(Cleared(head), b6)
  }

  function ReadTail(head: Sound, held: Sound, bits: Bits): Parse<Sound> {
    var (seqNum, b1) :- ReadSeq(held.seqNum, bits);
    var (volume, b2) :- ReadVolume(held.volume, b1);
    var (level, b3) :- ReadUint(held.level, MAX_SNDLVL_BITS, b2);
    var (pitch, b4) :- ReadUint(held.pitch, 8, b3);
    var (delay, b5) :- ReadUint(held.delay, 32, b4);
    var (x, b6) :- ReadCoord(held.x, b5);
    var (y, b7) :- ReadCoord(held.y, b6);
    var (z, b8) :- ReadCoord(held.z, b7);
    var (speaker, b9) :- ReadSint(held.speaker, MAX_EDICT_BITS + 1, b8);
    Done(head.(seqNum := seqNum, volume := volume, level := level, pitch := pitch, delay := delay, x := x, y := y,
               z := z, speaker := speaker), b9)
  }

  /** What the reader holds stands for what the writer's record says: exact but for volume and origin. */
  predicate Stands(r: Sound, s: Sound) {
    && r == s.(volume := r.volume, x := r.x, y := r.y, z := r.z)
    && VolumeMatches(r.volume, s.volume) && CoordMatches(r.x, s.x) && CoordMatches(r.y, s.y) && CoordMatches(r.z, s.z)
  }

  /** How far the reader can be off, however many sounds came before. */
  lemma StandsWithin(r: Sound, s: Sound)
    requires Stands(r, s)
    ensures -8.0 < r.x - s.x < 8.0 && -8.0 < r.y - s.y < 8.0 && -8.0 < r.z - s.z < 8.0
    ensures -1.0 / 127.0 < r.volume - s.volume < 1.0 / 127.0
  {
    CoordError(r.x, s.x);
    CoordError(r.y, s.y);
    CoordError(r.z, s.z);
    VolumeError(r.volume, s.volume);
  }

  /** The delay the reader gets when the writer compares it with its baseline. */
  function DelaySeen(delay: nat, d: nat, held: nat): nat {
    if delay == d then held else delay
  }

  lemma DelayBack(delay: nat, d: nat, held: nat, rest: Bits)
    requires delay < Pow2(32)
    ensures ReadUint(held, 32, WriteUint(delay, d, 32) + rest) == Done(DelaySeen(delay, d, held), rest)
  {
    hide Pow2;
    if delay == d {
      BitBack(false, rest);
    } else {
      BitBack(true, LsbBits(delay, 32) + rest);
      assert WriteUint(delay, d, 32) + rest == [true] + (LsbBits(delay, 32) + rest);
      ReadBack(delay, 32, rest);
    }
  }

  /** The two ends are in step but for the delay, which a tick adjustment can upset. */
  predicate InStep(r: Sound, s: Sound) {
    Stands(r.(delay := s.delay), s)
  }

  lemma HeadBack(s: Sound, d: Sound, held: Sound, rest: Bits)
    requires InRange(s) && InStep(held, d)
    ensures var r := ReadSound(held, HeadBits(s, d) + rest);
            var head := held.(entity := s.entity, soundNum := s.soundNum, flags := s.flags, channel := s.channel,
                              isAmbient := s.isAmbient, isSentence := s.isSentence);
            r == if s.flags != SND_STOP then ReadTail(head, held, rest) else Done(Cleared(head), rest)
  {
    hide WriteEntity, WriteUint, ReadEntity, ReadUint, ReadBit, Pow2, ReadTail, VolumeMatches, CoordMatches;
    var b5 := [s.isSentence] + rest;
    var b4 := [s.isAmbient] + b5;
    var b3 := WriteUint(s.channel, d.channel, 3) + b4;
    var b2 := WriteUint(s.flags, d.flags, SND_FLAG_BITS_ENCODE) + b3;
    var b1 := WriteUint(s.soundNum, d.soundNum, MAX_SOUND_INDEX_BITS) + b2;
    assert HeadBits(s, d) + rest == WriteEntity(s.entity, d.entity) + b1;
    EntityBack(s.entity, d.entity, b1);
    UintBack(s.soundNum, d.soundNum, MAX_SOUND_INDEX_BITS, b2);
    UintBack(s.flags, d.flags, SND_FLAG_BITS_ENCODE, b3);
    UintBack(s.channel, d.channel, 3, b4);
    BitBack(s.isAmbient, b5);
    BitBack(s.isSentence, rest);
  }

  lemma TailBack(s: Sound, d: Sound, delay: nat, head: Sound, held: Sound, rest: Bits)
    requires InRange(s) && InStep(held, d) && delay < Pow2(32)
    requires head == s.(seqNum := head.seqNum, volume := head.volume, level := head.level, pitch := head.pitch,
                        delay := head.delay, x := head.x, y := head.y, z := head.z, speaker := head.speaker)
    ensures var r := ReadTail(head, held, TailBits(s, d, delay) + rest);
            r.Done? && r.rest == rest && Stands(r.value, s.(delay := DelaySeen(delay, d.delay, held.delay)))
  {
    hide WriteSeq, ReadSeq, WriteUint, ReadUint, WriteVolume, ReadVolume, WriteCoord, ReadCoord, WriteSint, ReadSint,
         Pow2, VolumeMatches, CoordMatches, FitsSigned, CoordInRange, VolumeSeen, CoordSeen, DelaySeen;
    var b9 := WriteSint(s.speaker, d.speaker, MAX_EDICT_BITS + 1) + rest;
    var b8 := WriteCoord(s.z, d.z) + b9;
    var b7 := WriteCoord(s.y, d.y) + b8;
    var b6 := WriteCoord(s.x, d.x) + b7;
    var b5 := WriteUint(delay, d.delay, 32) + b6;
    var b4 := WriteUint(s.pitch, d.pitch, 8) + b5;
    var b3 := WriteUint(s.level, d.level, MAX_SNDLVL_BITS) + b4;
    var b2 := WriteVolume(s.volume, d.volume) + b3;
    TailGroups(s, d, delay, rest);
    SeqBack(s.seqNum, d.seqNum, b2);
    VolumeBack(s.volume, d.volume, held.volume, b3);
    UintBack(s.level, d.level, MAX_SNDLVL_BITS, b4);
    UintBack(s.pitch, d.pitch, 8, b5);
    DelayBack(delay, d.delay, held.delay, b6);
    CoordBack(s.x, d.x, held.x, b7);
    CoordBack(s.y, d.y, held.y, b8);
    CoordBack(s.z, d.z, held.z, b9);
    SintBack(s.speaker, d.speaker, MAX_EDICT_BITS + 1, rest);
  }

  lemma TailGroups(s: Sound, d: Sound, delay: nat, rest: Bits)
    requires InRange(s)
    ensures TailBits(s, d, delay) + rest
         == WriteSeq(s.seqNum, d.seqNum) + (WriteVolume(s.volume, d.volume)
            + (WriteUint(s.level, d.level, MAX_SNDLVL_BITS)
            + (WriteUint(s.pitch, d.pitch, 8) + (WriteUint(delay, d.delay, 32)
            + (WriteCoord(s.x, d.x) + (WriteCoord(s.y, d.y) + (WriteCoord(s.z, d.z)
            + (WriteSint(s.speaker, d.speaker, MAX_EDICT_BITS + 1) + rest))))))))
  {
    hide WriteSeq, WriteUint, WriteVolume, WriteCoord, WriteSint, Pow2, FitsSigned, CoordInRange;
    var a, b, c := WriteSeq(s.seqNum, d.seqNum), WriteVolume(s.volume, d.volume),
        WriteUint(s.level, d.level, MAX_SNDLVL_BITS);
    var e, f := WriteUint(s.pitch, d.pitch, 8), WriteUint(delay, d.delay, 32);
    var x, y, z, p := WriteCoord(s.x, d.x), WriteCoord(s.y, d.y), WriteCoord(s.z, d.z),
        WriteSint(s.speaker, d.speaker, MAX_EDICT_BITS + 1);
    Regroup(e + (f + (x + (y + (z + p)))), x, y, z, p, rest);
    assert (a + (b + (c + (e + (f + (x + (y + (z + p)))))))) + rest
           == a + ((b + (c + (e + (f + (x + (y + (z + p))))))) + rest);
    assert (b + (c + (e + (f + (x + (y + (z + p))))))) + rest == b + ((c + (e + (f + (x + (y + (z + p)))))) + rest);
    assert (c + (e + (f + (x + (y + (z + p)))))) + rest == c + ((e + (f + (x + (y + (z + p))))) + rest);
    assert (e + (f + (x + (y + (z + p))))) + rest == e + ((f + (x + (y + (z + p)))) + rest);
    assert (f + (x + (y + (z + p)))) + rest == f + ((x + (y + (z + p))) + rest);
  }

  lemma Regroup(all: Bits, x: Bits, y: Bits, z: Bits, p: Bits, rest: Bits)
    ensures (x + (y + (z + p))) + rest == x + (y + (z + (p + rest)))
  {
  }

  /** The record a sound should leave at both ends when its delay is sent as `delay`. */
  function Meant(s: Sound, delay: nat): Sound {
    Baseline(s.(delay := delay))
  }

  /** The delay the reader holds after a sound, d being the writer's baseline and held what the reader held. */
  function DelayAfter(s: Sound, delay: nat, d: nat, held: nat): nat {
    if s.flags == SND_STOP then 0 else DelaySeen(delay, d, held)
  }

  /** One sound, whatever its delay was adjusted to: the reader consumes exactly what was written, and what it
      then holds stands for the sound, with the delay it saw. */
  lemma SoundBack(s: Sound, d: Sound, delay: nat, held: Sound, rest: Bits)
    requires InRange(s) && InStep(held, d) && delay < Pow2(32)
    ensures var r := ReadSound(held, SoundBits(s, d, delay) + rest);
            && r.Done? && r.rest == rest && Stands(r.value, Meant(s, DelayAfter(s, delay, d.delay, held.delay)))
            && r.value.delay == DelayAfter(s, delay, d.delay, held.delay)
  {
    hide ReadSound, HeadBits, TailBits, ReadTail, InRange, Pow2, VolumeMatches, CoordMatches, DelaySeen;
    if s.flags != SND_STOP {
      assert SoundBits(s, d, delay) + rest == HeadBits(s, d) + (TailBits(s, d, delay) + rest);
      HeadBack(s, d, held, TailBits(s, d, delay) + rest);
      var head := held.(entity := s.entity, soundNum := s.soundNum, flags := s.flags, channel := s.channel,
                        isAmbient := s.isAmbient, isSentence := s.isSentence);
      TailBack(s, d, delay, head, held, rest);
    } else {
      assert SoundBits(s, d, delay) + rest == HeadBits(s, d) + rest;
      HeadBack(s, d, held, rest);
      ClearedStands(s, held, d);
    }
  }

  lemma ClearedStands(s: Sound, held: Sound, d: Sound)
    requires InStep(held, d)
    ensures var head := held.(entity := s.entity, soundNum := s.soundNum, flags := s.flags, channel := s.channel,
                              isAmbient := s.isAmbient, isSentence := s.isSentence);
            Stands(Cleared(head), Cleared(s))
  {
  }

  // ----- a list of sounds -----

  /** What WriteDelta may make of the delays: only a sound with a delay has it adjusted to the tick. */
  predicate Sendable(sounds: seq<Sound>, delays: seq<nat>) {
    && |delays| == |sounds|
    && forall i {:trigger sounds[i]} {:trigger delays[i]} :: 0 <= i < |sounds| ==>
      InRange(sounds[i]) && delays[i] < Pow2(32) && (sounds[i].flags / SND_DELAY % 2 == 0 ==>
         delays[i] == sounds[i].delay)
  }

  function ListBits(d: Sound, sounds: seq<Sound>, delays: seq<nat>): Bits
    requires Sendable(sounds, delays)
    decreases |sounds|
  {
    if sounds == [] then []
    else SoundBits(sounds[0], d, delays[0]) + ListBits(Baseline(sounds[0]), sounds[1..], delays[1..])
  }

  function ReadList(held: Sound, n: nat, bits: Bits): Parse<seq<Sound>>
    decreases n
  {
    if n == 0 then Done([], bits)
    else
      var (s, b1) :- ReadSound(held, bits);
      var (more, b2) :- ReadList(s, n - 1, b1);
      Done([s] + more, b2)
  }

  /** The delays the reader holds after each sound. */
  function DelaysAfter(sounds: seq<Sound>, delays: seq<nat>, d: nat, held: nat): (r: seq<nat>)
    requires |delays| == |sounds|
    ensures |r| == |sounds|
    decreases |sounds|
  {
    if sounds == [] then []
    else
      var first := DelayAfter(sounds[0], delays[0], d, held);
      [first] + DelaysAfter(sounds[1..], delays[1..], Baseline(sounds[0]).delay, first)
  }

  /** Over any list, each sound coded against the one before on both sides, the reader consumes exactly what was
      written and nothing accumulates; only delays can be wrong, and these do not spread to other fields. */
  lemma {:induction false} ListBack(sounds: seq<Sound>, delays: seq<nat>, d: Sound, held: Sound, rest: Bits)
    requires Sendable(sounds, delays) && InStep(held, d)
    ensures var r := ReadList(held, |sounds|, ListBits(d, sounds, delays) + rest);
            var seen := DelaysAfter(sounds, delays, d.delay, held.delay);
            && r.Done? && r.rest == rest && |r.value| == |sounds|
            && forall i {:trigger r.value[i]} :: 0 <= i < |sounds| ==>
              Stands(r.value[i], Meant(sounds[i], seen[i])) && r.value[i].delay == seen[i]
    decreases |sounds|
  {
    hide InRange, Stands, SoundBits, ReadSound, Baseline, InStep, Meant, DelayAfter, Pow2;
    if sounds == [] {
      assert ListBits(d, sounds, delays) + rest == rest;
    } else {
      var s, more := sounds[0], ListBits(Baseline(sounds[0]), sounds[1..], delays[1..]) + rest;
      assert ListBits(d, sounds, delays) + rest == SoundBits(s, d, delays[0]) + more;
      SoundBack(s, d, delays[0], held, more);
      var r := ReadSound(held, SoundBits(s, d, delays[0]) + more);
      MeantInStep(r.value, s, DelayAfter(s, delays[0], d.delay, held.delay));
      ListBack(sounds[1..], delays[1..], Baseline(s), r.value, rest);
    }
  }

  lemma MeantInStep(r: Sound, s: Sound, delay: nat)
    requires Stands(r, Meant(s, delay))
    ensures InStep(r, Baseline(s))
  {
  }

  /** No sound is sent with the unadjusted delay of the one before it, when that one was sent with another. */
  predicate Unconfused(sounds: seq<Sound>, delays: seq<nat>)
    requires |delays| == |sounds|
  {
    forall i {:trigger delays[i]} ::
      1 <= i < |sounds| && sounds[i].flags != SND_STOP && sounds[i - 1].flags != SND_STOP
      && delays[i] == sounds[i - 1].delay ==>
        delays[i - 1] == sounds[i - 1].delay
  }

  /** The delay a sound should leave. */
  function DelayMeant(s: Sound, delay: nat): nat {
    Meant(s, delay).delay
  }

  /** The delay after sound i, from what the reader held before it. */
  lemma {:induction false} DelayAt(sounds: seq<Sound>, delays: seq<nat>, d: nat, held: nat, i: nat)
    requires |delays| == |sounds| && i < |sounds|
    ensures var seen := DelaysAfter(sounds, delays, d, held);
            seen[i] == if i == 0 then DelayAfter(sounds[0], delays[0], d, held)
                       else DelayAfter(sounds[i], delays[i], Baseline(sounds[i - 1]).delay, seen[i - 1])
    decreases i
  {
    hide DelayAfter, Baseline;
    if i > 0 {
      var first := DelayAfter(sounds[0], delays[0], d, held);
      DelayAt(sounds[1..], delays[1..], Baseline(sounds[0]).delay, first, i - 1);
    }
  }

  /** Sound i's delay is read right exactly when it differs from the unadjusted delay of the sound before, or the
      reader holds it already. */
  lemma DelayRight(sounds: seq<Sound>, delays: seq<nat>, d: nat, held: nat, i: nat)
    requires |delays| == |sounds| && i < |sounds| && sounds[i].flags != SND_STOP
    ensures var seen := DelaysAfter(sounds, delays, d, held);
            var before, had := if i == 0 then d else Baseline(sounds[i - 1]).delay,
                if i == 0 then held else seen[i - 1];
            seen[i] == delays[i] <==> delays[i] != before || had == delays[i]
  {
    hide DelaysAfter, Baseline;
    DelayAt(sounds, delays, d, held, i);
  }

  /** Every delay up to n came out as it was meant. */
  ghost predicate SeenAsMeant(sounds: seq<Sound>, delays: seq<nat>, seen: seq<nat>, n: nat)
    requires |delays| == |sounds| == |seen|
  {
    forall i {:trigger seen[i]} :: 0 <= i < n && i < |sounds| ==> seen[i] == DelayMeant(sounds[i], delays[i])
  }

  /** From ends in step, every delay comes out as it was sent exactly when the list is unconfused. */
  lemma DelaysRight(sounds: seq<Sound>, delays: seq<nat>, d: nat)
    requires |delays| == |sounds|
    ensures SeenAsMeant(sounds, delays, DelaysAfter(sounds, delays, d, d), |sounds|) <==> Unconfused(sounds, delays)
  {
    hide DelaysAfter;
    var seen := DelaysAfter(sounds, delays, d, d);
    if Unconfused(sounds, delays) {
      UnconfusedSeen(sounds, delays, d, |sounds|);
    }
    if SeenAsMeant(sounds, delays, seen, |sounds|) {
      forall i {:trigger delays[i]}
        | 1 <= i < |sounds| && sounds[i].flags != SND_STOP && sounds[i - 1].flags != SND_STOP
          && delays[i] == sounds[i - 1].delay
        ensures delays[i - 1] == sounds[i - 1].delay
      {
        DelayAt(sounds, delays, d, d, i);
        assert seen[i] == DelayMeant(sounds[i], delays[i]) && seen[i - 1] == DelayMeant(sounds[i - 1], delays[i - 1]);
      }
    }
  }

  lemma {:induction false} UnconfusedSeen(sounds: seq<Sound>, delays: seq<nat>, d: nat, n: nat)
    requires |delays| == |sounds| && n <= |sounds| && Unconfused(sounds, delays)
    ensures SeenAsMeant(sounds, delays, DelaysAfter(sounds, delays, d, d), n)
  {
    hide DelaysAfter;
    if n > 0 {
      UnconfusedSeen(sounds, delays, d, n - 1);
      DelayAt(sounds, delays, d, d, n - 1);
    }
  }

  /** The whole list is read right, delays included, exactly when it is unconfused; always without adjusted delays. */
  lemma ListRight(sounds: seq<Sound>, delays: seq<nat>, d: Sound, held: Sound, rest: Bits)
    requires Sendable(sounds, delays) && Stands(held, d)
    ensures var r := ReadList(held, |sounds|, ListBits(d, sounds, delays) + rest);
            && r.Done? && r.rest == rest && |r.value| == |sounds|
            && ((forall i {:trigger r.value[i]} ::
                   0 <= i < |sounds| ==> Stands(r.value[i], Meant(sounds[i], delays[i])))
                <==> Unconfused(sounds, delays))
            && ((forall i {:trigger delays[i]} :: 0 <= i < |sounds| ==> delays[i] == sounds[i].delay) ==>
                  Unconfused(sounds, delays))
  {
    hide InRange, SoundBits, ReadSound, ReadList, ListBits, DelaysAfter, VolumeMatches, CoordMatches, Unconfused, Pow2,
         Stands, Meant;
    HeldInStep(held, d);
    ListBack(sounds, delays, d, held, rest);
    DelaysRight(sounds, delays, d.delay);
    var r := ReadList(held, |sounds|, ListBits(d, sounds, delays) + rest);
    var seen := DelaysAfter(sounds, delays, d.delay, held.delay);
    forall i {:trigger r.value[i]} {:trigger seen[i]} | 0 <= i < |sounds|
      ensures Stands(r.value[i], Meant(sounds[i], delays[i])) <==> seen[i] == DelayMeant(sounds[i], delays[i])
    {
      StandsByDelay(r.value[i], sounds[i], seen[i], delays[i]);
    }
    UnadjustedFine(sounds, delays);
  }

  lemma StandsByDelay(r: Sound, s: Sound, seen: nat, delay: nat)
    requires Stands(r, Meant(s, seen)) && r.delay == seen
    ensures Stands(r, Meant(s, delay)) <==> seen == DelayMeant(s, delay)
  {
    hide VolumeMatches, CoordMatches;
  }

  lemma UnadjustedFine(sounds: seq<Sound>, delays: seq<nat>)
    requires |delays| == |sounds|
    ensures (forall i {:trigger delays[i]} :: 0 <= i < |sounds| ==> delays[i] == sounds[i].delay) ==>
              Unconfused(sounds, delays)
  {
  }

  /** A sound sent twice: the delay is adjusted the first time and not the second, and the reader keeps the adjusted
      one. */
  lemma KeepsOldDelay(s: Sound, d: Sound, held: Sound, delay: nat, rest: Bits)
    requires InRange(s) && s.flags == SND_DELAY && s.delay == 0 && Stands(held, d) && d.delay == 0
    requires 0 < delay < Pow2(32)
    ensures Sendable([s, s], [delay, 0])
    ensures var r := ReadList(held, 2, ListBits(d, [s, s], [delay, 0]) + rest);
            r.Done? && |r.value| == 2 && r.value[1].delay == delay
  {
    hide InRange, Stands, SoundBits, ReadSound, ReadList, ListBits, Pow2, InStep, Meant;
    var sounds, delays := [s, s], [delay, 0];
    HeldInStep(held, d);
    ListBack(sounds, delays, d, held, rest);
    DelayAt(sounds, delays, 0, held.delay, 1);
    DelayAt(sounds, delays, 0, held.delay, 0);
  }

  lemma HeldInStep(held: Sound, d: Sound)
    requires Stands(held, d)
    ensures InStep(held, d) && held.delay == d.delay
  {
  }

  // ----- the methods -----

  /** bf_write and bf_read: the bits written so far, or those still to be read. */
  class BitBuffer {
    var bits: Bits

    constructor (bits: Bits)
      ensures this.bits == bits
    {
      this.bits := bits;
    }

    method WriteOneBit(b: bool)
      modifies this
      ensures bits == old(bits) + [b]
    {
      bits := bits + [b];
    }

    method WriteUBitLong(v: nat, n: nat)
      modifies this
      ensures bits == old(bits) + LsbBits(v, n)
    {
      bits := bits + LsbBits(v, n);
    }

    method WriteSBitLong(v: int, n: nat)
      requires n > 0 && FitsSigned(v, n)
      modifies this
      ensures bits == old(bits) + SignedBits(v, n)
    {
      WriteUBitLong(if v >= 0 then v else v + Pow2(n), n);
    }

    // the WRITE_DELTA macros; what is still to come makes up the whole

    method WriteDeltaUint(v: nat, d: nat, n: nat, ghost rest: Bits)
      modifies this
      ensures bits + rest == old(bits) + (WriteUint(v, d, n) + rest)
    {
      hide LsbBits;
      if v == d {
        Joined(bits, [false], rest);
        WriteOneBit(false);
      } else {
        JoinedTwo(bits, [true], LsbBits(v, n), rest);
        WriteOneBit(true);
        WriteUBitLong(v, n);
      }
    }

    method WriteDeltaSint(v: int, d: int, n: nat, ghost rest: Bits)
      requires n > 0 && FitsSigned(v, n)
      modifies this
      ensures bits + rest == old(bits) + (WriteSint(v, d, n) + rest)
    {
      hide SignedBits;
      if v == d {
        Joined(bits, [false], rest);
        WriteOneBit(false);
      } else {
        JoinedTwo(bits, [true], SignedBits(v, n), rest);
        WriteOneBit(true);
        WriteSBitLong(v, n);
      }
    }

    method WriteDeltaCoord(v: real, d: real, ghost rest: Bits)
      requires CoordInRange(v)
      modifies this
      ensures bits + rest == old(bits) + (WriteCoord(v, d) + rest)
    {
      hide SignedBits, Eighth;
      if v == d {
        Joined(bits, [false], rest);
        WriteOneBit(false);
      } else {
        JoinedTwo(bits, [true], SignedBits(Eighth(v), COORD_BITS), rest);
        WriteOneBit(true);
        WriteSBitLong(Eighth(v), COORD_BITS);
      }
    }

    method WriteDeltaEntity(v: nat, d: nat, ghost rest: Bits)
      modifies this
      ensures bits + rest == old(bits) + (WriteEntity(v, d) + rest)
    {
      hide LsbBits;
      if v == d {
        Joined(bits, [false], rest);
        WriteOneBit(false);
      } else {
        ghost var n := if v <= 31 then 5 else MAX_EDICT_BITS;
        JoinedTwo(bits, [true], [v <= 31] + LsbBits(v, n), rest);
        Joined(bits + [true], [v <= 31], LsbBits(v, n));
        WriteOneBit(true);
        if v <= 31 {
          WriteOneBit(true);
          WriteUBitLong(v, 5);
        } else {
          WriteOneBit(false);
          WriteUBitLong(v, MAX_EDICT_BITS);
        }
      }
    }

    method WriteDeltaSeq(v: nat, d: nat, ghost rest: Bits)
      modifies this
      ensures bits + rest == old(bits) + (WriteSeq(v, d) + rest)
    {
      hide LsbBits;
      if v == d {
        Joined(bits, [true], rest);
        WriteOneBit(true);
      } else if v == d + 1 {
        JoinedTwo(bits, [false], [true], rest);
        WriteOneBit(false);
        WriteOneBit(true);
      } else {
        JoinedTwo(bits, LsbBits(0, 2), LsbBits(v, SOUND_SEQNUMBER_BITS), rest);
        WriteUBitLong(0, 2);
        WriteUBitLong(v, SOUND_SEQNUMBER_BITS);
      }
    }

    method WriteDeltaVolume(v: real, d: real, ghost rest: Bits)
      requires 0.0 <= v <= 1.0
      modifies this
      ensures bits + rest == old(bits) + (WriteVolume(v, d) + rest)
    {
      hide LsbBits, Volume7;
      if v == d {
        Joined(bits, [false], rest);
        WriteOneBit(false);
      } else {
        JoinedTwo(bits, [true], LsbBits(Volume7(v), 7), rest);
        WriteOneBit(true);
        WriteUBitLong(Volume7(v), 7);
      }
    }

    // reading; nothing is read past the end

    method ReadOneBit() returns (b: bool)
      requires ReadBit(bits).Done?
      modifies this
      ensures ReadBit(old(bits)) == Done(b, bits)
    {
      b := bits[0];
      bits := bits[1..];
    }

    method ReadUBitLong(n: nat) returns (v: nat)
      requires ReadNumber(n, bits).Done?
      modifies this
      ensures ReadNumber(n, old(bits)) == Done(v, bits)
    {
      v := LsbValue(bits[..n]);
      bits := bits[n..];
    }

    method ReadSBitLong(n: nat) returns (v: int)
      requires n > 0 && ReadSigned(n, bits).Done?
      modifies this
      ensures ReadSigned(n, old(bits)) == Done(v, bits)
    {
      v := ReadUBitLong(n);
      if v >= Pow2(n - 1) {
        v := v - Pow2(n);
      }
    }

    method ReadDeltaUint(d: nat, n: nat) returns (v: nat)
      requires ReadUint(d, n, bits).Done?
      modifies this
      ensures ReadUint(d, n, old(bits)) == Done(v, bits)
    {
      hide ReadNumber;
      var changed := ReadOneBit();
      if changed {
        v := ReadUBitLong(n);
      } else {
        v := d;
      }
    }

    method ReadDeltaSint(d: int, n: nat) returns (v: int)
      requires n > 0 && ReadSint(d, n, bits).Done?
      modifies this
      ensures ReadSint(d, n, old(bits)) == Done(v, bits)
    {
      hide ReadSigned;
      var changed := ReadOneBit();
      if changed {
        v := ReadSBitLong(n);
      } else {
        v := d;
      }
    }

    method ReadDeltaCoord(d: real) returns (v: real)
      requires ReadCoord(d, bits).Done?
      modifies this
      ensures ReadCoord(d, old(bits)) == Done(v, bits)
    {
      hide ReadSigned;
      var changed := ReadOneBit();
      if changed {
        var e := ReadSBitLong(COORD_BITS);
        v := 8.0 * (e as real);
      } else {
        v := d;
      }
    }

    method ReadDeltaEntity(d: nat) returns (v: nat)
      requires ReadEntity(d, bits).Done?
      modifies this
      ensures ReadEntity(d, old(bits)) == Done(v, bits)
    {
      hide ReadNumber;
      var changed := ReadOneBit();
      if !changed {
        return d;
      }
      var short := ReadOneBit();
      v := ReadUBitLong(if short then 5 else MAX_EDICT_BITS);
    }

    method ReadDeltaSeq(d: nat) returns (v: nat)
      requires ReadSeq(d, bits).Done?
      modifies this
      ensures ReadSeq(d, old(bits)) == Done(v, bits)
    {
      hide ReadNumber;
      var same := ReadOneBit();
      if same {
        return d;
      }
      var next := ReadOneBit();
      if next {
        v := d + 1;
      } else {
        v := ReadUBitLong(SOUND_SEQNUMBER_BITS);
      }
    }

    method ReadDeltaVolume(d: real) returns (v: real)
      requires ReadVolume(d, bits).Done?
      modifies this
      ensures ReadVolume(d, old(bits)) == Done(v, bits)
    {
      hide ReadNumber;
      var changed := ReadOneBit();
      if changed {
        var n := ReadUBitLong(7);
        v := (n as real) / 127.0;
      } else {
        v := d;
      }
    }
  }

  class SoundInfo {
    var s: Sound

    constructor (s: Sound)
      ensures this.s == s
    {
      this.s := s;
    }

    /** WriteDelta. A stop clears the writer's own record, as it does the reader's. */
    method WriteDelta(delta: SoundInfo, buffer: BitBuffer, delayValue: nat)
      requires InRange(s) && delta != this
      modifies this, buffer
      ensures buffer.bits == old(buffer.bits) + SoundBits(old(s), delta.s, delayValue) && s == Baseline(old(s))
    {
      hide WriteEntity, WriteUint, TailBits, HeadBits, Pow2;
      WriteHead(delta, buffer);
      if s.flags != SND_STOP {
        WriteTail(delta, buffer, delayValue);
      } else {
        s := Cleared(s);
      }
      Joined(old(buffer.bits), HeadBits(old(s), delta.s),
             if old(s).flags != SND_STOP then TailBits(old(s), delta.s, delayValue) else []);
    }

    method WriteHead(delta: SoundInfo, buffer: BitBuffer)
      modifies buffer
      ensures buffer.bits == old(buffer.bits) + HeadBits(s, delta.s)
    {
      hide WriteEntity, WriteUint;
      ghost var d := delta.s;
      ghost var r4 := [s.isAmbient] + [s.isSentence];
      ghost var r3 := WriteUint(s.channel, d.channel, 3) + r4;
      ghost var r2 := WriteUint(s.flags, d.flags, SND_FLAG_BITS_ENCODE) + r3;
      ghost var r1 := WriteUint(s.soundNum, d.soundNum, MAX_SOUND_INDEX_BITS) + r2;
      buffer.WriteDeltaEntity(s.entity, delta.s.entity, r1);
      buffer.WriteDeltaUint(s.soundNum, delta.s.soundNum, MAX_SOUND_INDEX_BITS, r2);
      buffer.WriteDeltaUint(s.flags, delta.s.flags, SND_FLAG_BITS_ENCODE, r3);
      buffer.WriteDeltaUint(s.channel, delta.s.channel, 3, r4);
      Joined(buffer.bits, [s.isAmbient], [s.isSentence]);
      buffer.WriteOneBit(s.isAmbient);
      buffer.WriteOneBit(s.isSentence);
    }

    method WriteTail(delta: SoundInfo, buffer: BitBuffer, delayValue: nat)
      requires InRange(s)
      modifies buffer
      ensures buffer.bits == old(buffer.bits) + TailBits(s, delta.s, delayValue)
    {
      hide WriteSeq, WriteUint, WriteVolume, WriteCoord, WriteSint, Pow2, FitsSigned, CoordInRange;
      ghost var d := delta.s;
      ghost var r8 := WriteSint(s.speaker, d.speaker, MAX_EDICT_BITS + 1);
      ghost var r7 := WriteCoord(s.z, d.z) + r8;
      ghost var r6 := WriteCoord(s.y, d.y) + r7;
      ghost var r5 := WriteCoord(s.x, d.x) + r6;
      ghost var r4 := WriteUint(delayValue, d.delay, 32) + r5;
      ghost var r3 := WriteUint(s.pitch, d.pitch, 8) + r4;
      ghost var r2 := WriteUint(s.level, d.level, MAX_SNDLVL_BITS) + r3;
      ghost var r1 := WriteVolume(s.volume, d.volume) + r2;
      buffer.WriteDeltaSeq(s.seqNum, delta.s.seqNum, r1);
      buffer.WriteDeltaVolume(s.volume, delta.s.volume, r2);
      buffer.WriteDeltaUint(s.level, delta.s.level, MAX_SNDLVL_BITS, r3);
      buffer.WriteDeltaUint(s.pitch, delta.s.pitch, 8, r4);
      buffer.WriteDeltaUint(delayValue, delta.s.delay, 32, r5);
      buffer.WriteDeltaCoord(s.x, delta.s.x, r6);
      buffer.WriteDeltaCoord(s.y, delta.s.y, r7);
      buffer.WriteDeltaCoord(s.z, delta.s.z, r8);
      Empty(r8);
      buffer.WriteDeltaSint(s.speaker, delta.s.speaker, MAX_EDICT_BITS + 1, []);
      Empty(buffer.bits);
    }

    method ReadDelta(delta: SoundInfo, buffer: BitBuffer)
      requires delta != this && ReadSound(delta.s, buffer.bits).Done?
      modifies this, buffer
      ensures ReadSound(delta.s, old(buffer.bits)) == Done(s, buffer.bits)
    {
      hide ReadEntity, ReadUint, ReadBit, ReadTail;
      var d := delta.s;
      var entity := buffer.ReadDeltaEntity(d.entity);
      var soundNum := buffer.ReadDeltaUint(d.soundNum, MAX_SOUND_INDEX_BITS);
      var flags := buffer.ReadDeltaUint(d.flags, SND_FLAG_BITS_ENCODE);
      var channel := buffer.ReadDeltaUint(d.channel, 3);
      var isAmbient := buffer.ReadOneBit();
      var isSentence := buffer.ReadOneBit();
      s := d.(entity := entity, soundNum := soundNum, flags := flags, channel := channel, isAmbient := isAmbient,
          isSentence := isSentence);
      if s.flags != SND_STOP {
        ReadRest(d, buffer);
      } else {
        s := Cleared(s);
      }
    }

    method ReadRest(d: Sound, buffer: BitBuffer)
      requires ReadTail(s, d, buffer.bits).Done?
      modifies this, buffer
      ensures ReadTail(old(s), d, old(buffer.bits)) == Done(s, buffer.bits)
    {
      hide ReadSeq, ReadUint, ReadVolume, ReadCoord, ReadSint;
      var seqNum := buffer.ReadDeltaSeq(d.seqNum);
      var volume := buffer.ReadDeltaVolume(d.volume);
      var level := buffer.ReadDeltaUint(d.level, MAX_SNDLVL_BITS);
      var pitch := buffer.ReadDeltaUint(d.pitch, 8);
      var delay := buffer.ReadDeltaUint(d.delay, 32);
      var x := buffer.ReadDeltaCoord(d.x);
      var y := buffer.ReadDeltaCoord(d.y);
      var z := buffer.ReadDeltaCoord(d.z);
      var speaker := buffer.ReadDeltaSint(d.speaker, MAX_EDICT_BITS + 1);
      s := s.(seqNum := seqNum, volume := volume, level := level, pitch := pitch, delay := delay, x := x, y := y,
          z := z, speaker := speaker);
    }
  }

  lemma JoinedTwo(a: Bits, b: Bits, c: Bits, rest: Bits)
    ensures a + b + c + rest == a + (b + c + rest)
  {
  }

  lemma Joined(a: Bits, b: Bits, c: Bits)
    ensures a + b + c == a + (b + c)
    ensures c == [] ==> a + b == a + (b + c)
  {
  }

  lemma Empty(a: Bits)
    ensures a + [] == a
  {
  }
}
