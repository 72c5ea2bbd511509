/** The bit packer of the compressor (TBitState and its routines). */
module BitPacking {
  import opened BitStrings

  /** TBitState. `written` is what the flush callback has been handed so far, and
      `bits` is the abstract value: every bit sent, in order. */
  class BitWriter {
    var biBuf: nat
    var biValid: nat
    const outBuf: array<Byte>
    var outOffset: nat
    var bitsSent: nat
    var written: seq<Byte>
    ghost var bits: Bits

    ghost predicate Valid()
      reads this, outBuf
    {
      && 2 <= outBuf.Length && outOffset <= outBuf.Length
      && biValid <= 16 && biBuf < Pow2(biValid)
      && bits == Stream(written + outBuf[..outOffset], biBuf, biValid)
      && bitsSent == |bits|
    }

    /** bi_init */
    constructor (size: nat)
      requires size >= 2
      ensures Valid() && fresh(outBuf) && bits == [] && written == [] && biValid == 0 && bitsSent == 0
    {
      outBuf := new Byte[size];
      biBuf, biValid, outOffset, bitsSent := 0, 0, 0, 0;
      written, bits := [], [];
    }

    /** flush_outbuf, when the write succeeds. */
    method FlushOut()
      requires outOffset <= outBuf.Length
      modifies this`outOffset, this`written
      ensures outOffset == 0 && written == old(written + outBuf[..outOffset])
    {
      written := written + outBuf[..outOffset];
      outOffset := 0;
    }

    /** The PUTBYTE macro. */
    method PutByte(b: nat)
      requires 2 <= outBuf.Length && outOffset <= outBuf.Length
      modifies this`outOffset, this`written, outBuf
      ensures outOffset <= outBuf.Length
      ensures written + outBuf[..outOffset] == old(written + outBuf[..outOffset]) + [b % 256]
    {
      if outOffset >= outBuf.Length {
        FlushOut();
      }
      if outOffset < outBuf.Length {
        outBuf[outOffset] := b % 256;
        outOffset := outOffset + 1;
      }
    }

    /** The PUTSHORT macro: the low 16 bits of w, low byte first. */
    method PutShort(w: nat)
      requires 2 <= outBuf.Length && outOffset <= outBuf.Length
      modifies this`outOffset, this`written, outBuf
      ensures outOffset <= outBuf.Length
      ensures written + outBuf[..outOffset]
           == old(written + outBuf[..outOffset]) + Word(w)
    {
      if outOffset >= outBuf.Length - 1 {
        FlushOut();
      }
      if outOffset < outBuf.Length - 1 {
        outBuf[outOffset] := w % 256;
        outOffset := outOffset + 1;
        outBuf[outOffset] := (w % 0x10000) / 256;
        outOffset := outOffset + 1;
      }
    }

    /** send_bits. What is asserted is that bi_buf, an unsigned 32-bit field, loses nothing. */
    method SendBits(value: nat, length: nat)
      requires Valid() && 1 <= length <= 15 && value < Pow2(length)
      modifies this, outBuf
      ensures Valid()
      ensures bits == old(bits) + LsbBits(value, length)
    {
      hide BytesBits, LsbBits, Stream, Pow2, Or, Shl, Shr;
      ghost var bytes := written + outBuf[..outOffset];
      ghost var held, room := biBuf, biValid;
      Combine(bytes, held, room, value, length);
      bitsSent := bitsSent + length;
      biBuf := Or(biBuf, Shl(value, biValid));
      BufferFits(biValid, length);
      assert biBuf < 0x1_0000_0000;
      biValid := biValid + length;
      if biValid > 16 {
        PutShort(biBuf);
        biValid := biValid - 16;
        biBuf := Shr(value, length - biValid);
        Spill(bytes, held, room, value, length);
      }
      bits := bits + LsbBits(value, length);
    }

    /** bi_windup: zero bits up to the next byte boundary, and everything handed over. */
    method Windup()
      requires Valid()
      modifies this, outBuf
      ensures Valid() && biValid == 0 && outOffset == 0 && BytesBits(written) == bits
      ensures bits == old(bits) + Zeros(Padding(|old(bits)|))
    {
      hide LsbBits, BytesBits, Word, Pow2, Zeros, Padding;
      ghost var bytes := written + outBuf[..outOffset];
      Pad(bytes, biBuf, biValid);
      if biValid > 8 {
        PutShort(biBuf);
      } else if biValid > 0 {
        PutByte(biBuf);
      }
      FlushOut();
      assert written == written + outBuf[..outOffset];
      biBuf := 0;
      biValid := 0;
      assert LsbBits(0, 0) == [];
      bitsSent := (bitsSent + 7) / 8 * 8;
      bits := bits + Zeros(Padding(|bits|));
    }

    /** copy_block, with its header. */
    method CopyBlock(block: array<Byte>, start: nat, len: nat)
      requires Valid() && start + len <= block.Length && len <= 0xffff && block != outBuf
      modifies this, outBuf
      ensures Valid()
      ensures bits == old(bits) + Zeros(Padding(|old(bits)|))
                    + (LsbBits(len, 16) + LsbBits(0xffff - len, 16) + BytesBits(block[start..start + len]))
    {
      hide BytesBits, LsbBits, Pow2, Word;
      ghost var data := block[start..start + len];
      Windup();
      ghost var bytes := written;
      PutShort(len);
      PutShort(0xffff - len);
      bitsSent := bitsSent + 32;
      FlushOut();
      assert written == bytes + Word(len) + Word(0xffff - len);
      written := written + block[start..start + len];
      bitsSent := bitsSent + 8 * len;
      StoredBits(bytes, len, data);
      bits := bits + (LsbBits(len, 16) + LsbBits(0xffff - len, 16) + BytesBits(data));
      assert written + outBuf[..outOffset] == (bytes + Word(len) + Word(0xffff - len)) + data;
    }
  }

  /** How many bits are missing to a byte boundary. */
  function Padding(n: nat): (r: nat)
    ensures r < 8 && (n + r) % 8 == 0
  {
    (8 - n % 8) % 8
  }

  lemma ByteBits(w: nat)
    ensures BytesBits([w % 256]) == LsbBits(w, 8)
  {
    LowBits(w, 8);
    Pow2Values();
    assert BytesBits([w % 256]) == LsbBits(w % 256, 8) + BytesBits([]);
  }

  lemma {:induction false} LowBits(w: nat, n: nat)
    ensures LsbBits(w % Pow2(n), n) == LsbBits(w, n)
  {
    if n > 0 {
      LowBits(w / 2, n - 1);
      ModHalf(w, Pow2(n - 1));
    }
  }

  lemma ModHalf(w: nat, p: nat)
    requires p > 0
    ensures (w % (2 * p)) / 2 == (w / 2) % p
    ensures (w % (2 * p)) % 2 == w % 2
  {
    var q, r := (w / 2) / p, (w / 2) % p;
    assert w == q * (2 * p) + (2 * r + w % 2) by {
      assert w / 2 == q * p + r;
      MulAssoc(q, 2, p);
      MulAssoc(2, q, p);
    }
    DivUnique(w, 2 * p, q, 2 * r + w % 2);
  }

  /** The two bytes PUTSHORT writes. */
  function Word(w: nat): seq<Byte> {
    [w % 256, (w % 0x10000) / 256]
  }

  lemma HighByte(w: nat)
    ensures w % 0x10000 / 256 == w / 256 % 256
  {
    var q, r := w / 0x10000, w % 0x10000;
    assert w / 256 == 256 * q + r / 256;
  }

  lemma WordBits(w: nat)
    ensures BytesBits(Word(w)) == LsbBits(w, 16)
  {
    hide LsbBits, BytesBits, Shr;
    var lo, hi := w % 256, (w % 0x10000) / 256;
    HighByte(w);
    ByteBits(w);
    ByteBits(w / 256);
    ShrByte(w);
    LsbBitsSplit(w, 8, 8);
    assert Word(w) == [lo] + [hi];
    BytesBitsConcat([lo], [hi]);
  }

  lemma ShrByte(w: nat)
    ensures Shr(w, 8) == w / 256
  {
    var v := w / 16;
    assert Shr(w, 8) == Shr(w / 2, 7) == Shr(w / 4, 6) == Shr(w / 8, 5) == Shr(v, 4);
    assert Shr(v, 4) == Shr(v / 2, 3) == Shr(v / 4, 2) == Shr(v / 8, 1) == v / 16;
  }

  /** Whole bytes followed by the bits still held in the buffer. */
  ghost function Stream(bytes: seq<Byte>, held: nat, room: nat): Bits {
    BytesBits(bytes) + LsbBits(held, room)
  }

  lemma BufferFits(room: nat, length: nat)
    requires room <= 16 && length <= 15
    ensures Pow2(room + length) <= 0x8000_0000
  {
    Pow2Monotone(room + length, 31);
    Pow2Values();
    Pow2Add(16, 15);
  }

  /** Or-ing a fitting value above the held bits appends its bits. */
  lemma Combine(bytes: seq<Byte>, held: nat, room: nat, value: nat, length: nat)
    requires held < Pow2(room) && value < Pow2(length)
    ensures Or(held, Shl(value, room)) == held + Shl(value, room) < Pow2(room + length)
    ensures Stream(bytes, held + Shl(value, room), room + length) == Stream(bytes, held, room) + LsbBits(value, length)
  {
    OrDisjoint(held, value, room);
    ShlFits(value, room, length);
    LsbBitsAppend(held, room, value, length);
  }

  /** When the 16 bits overflow, the word written and the bits kept are those held and sent. */
  lemma Spill(bytes: seq<Byte>, held: nat, room: nat, value: nat, length: nat)
    requires room <= 16 < room + length && held < Pow2(room) && value < Pow2(length)
    ensures Shr(value, 16 - room) < Pow2(room + length - 16)
    ensures Stream(bytes + Word(held + Shl(value, room)), Shr(value, 16 - room), room + length - 16)
         == Stream(bytes, held, room) + LsbBits(value, length)
  {
    var low: nat := 16 - room;
    var kept: nat := room + length - 16;
    var word := held + Shl(value, room);
    LsbBitsAppend(held, room, value, low);
    LsbBitsSplit(value, low, kept);
    assert low + kept == length;
    ShrFits(value, low, kept);
    WordBits(word);
    BytesBitsConcat(bytes, Word(word));
    Regroup(BytesBits(bytes), LsbBits(held, room), LsbBits(value, low), LsbBits(Shr(value, low), kept));
  }

  lemma Regroup(a: Bits, b: Bits, c: Bits, d: Bits)
    ensures a + (b + c) + d == a + b + (c + d)
  {
  }

  /** What bi_windup writes is the held bits and zeros up to the byte boundary. */
  lemma Pad(bytes: seq<Byte>, held: nat, room: nat)
    requires room <= 16 && held < Pow2(room)
    ensures Padding(|Stream(bytes, held, room)|) == Padding(room)
    ensures BytesBits(bytes + (if room > 8 then Word(held) else if room > 0 then [held % 256] else []))
         == Stream(bytes, held, room) + Zeros(Padding(room))
  {
    hide LsbBits, BytesBits, Word, Pow2;
    var pad := Padding(room);
    HeldPadded(held, room, pad);
    assert |Stream(bytes, held, room)| == 8 * |bytes| + room;
    if room > 8 {
      assert room + pad == 16;
      WordBits(held);
      BytesBitsConcat(bytes, Word(held));
    } else if room > 0 {
      assert room + pad == 8;
      ByteBits(held);
      BytesBitsConcat(bytes, [held % 256]);
    } else {
      assert bytes + [] == bytes;
    }
  }

  lemma HeldPadded(held: nat, room: nat, pad: nat)
    requires held < Pow2(room)
    ensures LsbBits(held, room + pad) == LsbBits(held, room) + Zeros(pad)
  {
    LsbBitsZero(pad);
    ShlZero(room);
    LsbBitsAppend(held, room, 0, pad);
  }

  lemma StoredBits(bytes: seq<Byte>, len: nat, data: seq<Byte>)
    requires len <= 0xffff
    ensures BytesBits(bytes + Word(len) + Word(0xffff - len) + data)
         == BytesBits(bytes) + (LsbBits(len, 16) + LsbBits(0xffff - len, 16) + BytesBits(data))
  {
    hide BytesBits, LsbBits, Word;
    WordBits(len);
    WordBits(0xffff - len);
    BytesBitsConcat(bytes, Word(len));
    BytesBitsConcat(bytes + Word(len), Word(0xffff - len));
    BytesBitsConcat(bytes + Word(len) + Word(0xffff - len), data);
  }
}
