/** Bit strings, and the two ways numbers are laid out in them: least
    significant bit first (RFC 1951 section 3.1.1, data elements) and most
    significant bit first (Huffman codes). */
module BitStrings {

  type Bits = seq<bool>

  type Byte = b: int | 0 <= b < 256

  function Pow2(n: nat): (r: nat)
    ensures r >= 1
  {
    if n == 0 then 1 else 2 * Pow2(n - 1)
  }

  lemma {:induction false} Pow2Add(a: nat, b: nat)
    ensures Pow2(a + b) == Pow2(a) * Pow2(b)
  {
    if b == 0 {
    } else {
      Pow2Add(a, b - 1);
      assert a + b - 1 == a + (b - 1);
      assert Pow2(a) * (2 * Pow2(b - 1)) == 2 * (Pow2(a) * Pow2(b - 1));
    }
  }

  lemma {:induction false} Pow2Monotone(a: nat, b: nat)
    requires a <= b
    ensures Pow2(a) <= Pow2(b)
  {
    if a < b {
      Pow2Monotone(a, b - 1);
    }
  }

  lemma Pow2Values()
    ensures Pow2(1) == 2 && Pow2(2) == 4 && Pow2(3) == 8 && Pow2(4) == 16 && Pow2(5) == 32
    ensures Pow2(6) == 64 && Pow2(7) == 128 && Pow2(8) == 256 && Pow2(9) == 512
    ensures Pow2(10) == 1024 && Pow2(11) == 2048 && Pow2(12) == 4096 && Pow2(13) == 8192
    ensures Pow2(14) == 16384 && Pow2(15) == 32768 && Pow2(16) == 65536
  {
    assert Pow2(4) == 16;
    assert Pow2(8) == 256;
    assert Pow2(12) == 4096;
  }

  function Bit(v: nat): bool { v % 2 == 1 }

  function BitVal(b: bool): (r: nat) { if b then 1 else 0 }

  /** The n low bits of v, least significant first. */
  function LsbBits(v: nat, n: nat): (r: Bits)
    ensures |r| == n
  {
    if n == 0 then [] else [Bit(v)] + LsbBits(v / 2, n - 1)
  }

  /** The n low bits of v, most significant first. */
  function MsbBits(v: nat, n: nat): (r: Bits)
    ensures |r| == n
  {
    if n == 0 then [] else MsbBits(v / 2, n - 1) + [Bit(v)]
  }

  /** The number whose bits, least significant first, are b. */
  function LsbValue(b: Bits): nat {
    if b == [] then 0 else BitVal(b[0]) + 2 * LsbValue(b[1..])
  }

  lemma {:induction false} LsbValueOfBits(v: nat, n: nat)
    requires v < Pow2(n)
    ensures LsbValue(LsbBits(v, n)) == v
  {
    if n == 0 {
    } else {
      LsbValueOfBits(v / 2, n - 1);
      assert LsbBits(v, n)[1..] == LsbBits(v / 2, n - 1);
    }
  }

  /** v << n */
  function Shl(v: nat, n: nat): nat {
    if n == 0 then v else 2 * Shl(v, n - 1)
  }

  /** v >> d */
  function Shr(v: nat, d: nat): nat {
    if d == 0 then v else Shr(v / 2, d - 1)
  }

  /** Appending w above the n bits of v appends its bits. */
  lemma {:induction false} LsbBitsAppend(v: nat, n: nat, w: nat, m: nat)
    requires v < Pow2(n)
    ensures LsbBits(v + Shl(w, n), n + m) == LsbBits(v, n) + LsbBits(w, m)
  {
    if n > 0 {
      var x := Shl(w, n - 1);
      assert (v + 2 * x) / 2 == v / 2 + x && Bit(v + 2 * x) == Bit(v);
      LsbBitsAppend(v / 2, n - 1, w, m);
      assert n - 1 + m == n + m - 1;
    }
  }

  /** Cutting the bits of v at position n shifts v right by n. */
  lemma {:induction false} LsbBitsSplit(v: nat, n: nat, m: nat)
    ensures LsbBits(v, n + m) == LsbBits(v, n) + LsbBits(Shr(v, n), m)
  {
    if n > 0 {
      LsbBitsSplit(v / 2, n - 1, m);
      assert n - 1 + m == n + m - 1;
    }
  }

  lemma {:induction false} ShrFits(v: nat, d: nat, k: nat)
    requires v < Pow2(d + k)
    ensures Shr(v, d) < Pow2(k)
  {
    if d > 0 {
      ShrFits(v / 2, d - 1, k);
    }
  }

  lemma {:induction false} ShlFits(v: nat, n: nat, k: nat)
    requires v < Pow2(k)
    ensures Shl(v, n) + Pow2(n) <= Pow2(n + k)
  {
    if n == 0 {
    } else {
      ShlFits(v, n - 1, k);
      assert n - 1 + k == n + k - 1;
    }
  }

  lemma MulDist(a: int, b: int, c: int)
    ensures (a + b) * c == a * c + b * c
  {
  }

  lemma MulAssoc(a: int, b: int, c: int)
    ensures a * (b * c) == (a * b) * c
  {
  }

  lemma MulStep(a: int, b: int, p: nat)
    ensures a < b ==> a * p + p <= b * p
  {
    if a < b {
      var d: nat := b - a - 1;
      assert b * p == (a + 1 + d) * p == a * p + p + d * p;
    }
  }

  /** Quotient and remainder are unique. */
  lemma DivUnique(x: nat, p: nat, q: nat, r: nat)
    requires x == q * p + r && r < p
    ensures x / p == q && x % p == r
  {
    MulStep(x / p, q, p);
    MulStep(q, x / p, p);
    assert x == (x / p) * p + x % p;
  }

  lemma DivMod(v: nat, p: nat)
    requires p > 0
    ensures v == v % p + (v / p) * p && v % p < p
  {
  }

  function Zeros(n: nat): (r: Bits)
    ensures |r| == n
  {
    seq(n, _ => false)
  }

  lemma {:induction false} LsbBitsZero(n: nat)
    ensures LsbBits(0, n) == Zeros(n)
  {
    if n > 0 {
      LsbBitsZero(n - 1);
    }
  }

  /** a | b */
  function Or(a: nat, b: nat): nat
    decreases a + b
  {
    if a == 0 && b == 0 then 0
    else BitVal(Bit(a) || Bit(b)) + 2 * Or(a / 2, b / 2)
  }

  lemma {:induction false} OrZero(b: nat)
    ensures Or(0, b) == b
  {
    if b > 0 {
      OrZero(b / 2);
    }
  }

  /** Or with a number shifted clear of a's bits is addition. */
  lemma {:induction false} OrDisjoint(a: nat, b: nat, n: nat)
    requires a < Pow2(n)
    ensures Or(a, Shl(b, n)) == a + Shl(b, n)
  {
    if n == 0 {
      OrZero(b);
    } else if a == 0 && b == 0 {
      ShlZero(n);
    } else {
      var x := Shl(b, n - 1);
      OrDisjoint(a / 2, b, n - 1);
      assert !Bit(2 * x) && (2 * x) / 2 == x;
      OrZero(0);
    }
  }

  lemma {:induction false} ShlZero(n: nat)
    ensures Shl(0, n) == 0
  {
    if n > 0 {
      ShlZero(n - 1);
    }
  }

  /** The bits of a byte string: bytes in order, each least significant bit first. */
  function BytesBits(s: seq<Byte>): (r: Bits)
    ensures |r| == 8 * |s|
  {
    if s == [] then [] else LsbBits(s[0], 8) + BytesBits(s[1..])
  }

  lemma {:induction false} BytesBitsConcat(a: seq<Byte>, b: seq<Byte>)
    ensures BytesBits(a + b) == BytesBits(a) + BytesBits(b)
  {
    hide LsbBits;
    if a == [] {
      assert a + b == b;
    } else {
      BytesBitsConcat(a[1..], b);
      assert (a + b)[1..] == a[1..] + b;
    }
  }

  function Reverse(b: Bits): (r: Bits)
    ensures |r| == |b|
  {
    if b == [] then [] else Reverse(b[1..]) + [b[0]]
  }

  lemma {:induction false} ReverseLsb(v: nat, n: nat)
    ensures Reverse(LsbBits(v, n)) == MsbBits(v, n)
  {
    if n > 0 {
      ReverseLsb(v / 2, n - 1);
      assert LsbBits(v, n)[1..] == LsbBits(v / 2, n - 1);
    }
  }

  /** The prefix of an MSB-first number is that number shifted right. */
  lemma {:induction false} MsbBitsPrefix(v: nat, n: nat, d: nat)
    requires d <= n
    ensures MsbBits(v, n)[..n - d] == MsbBits(Shr(v, d), n - d)
  {
    if d > 0 {
      MsbBitsPrefix(v / 2, n - 1, d - 1);
      assert MsbBits(v, n)[..n - d] == MsbBits(v / 2, n - 1)[..n - d];
    }
  }
}
