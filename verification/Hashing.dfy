/** UPDATE_HASH: the rolling hash of three bytes, and why byte 2 need not be compared. */
module Hashing {
  import opened BitStrings

  const HASH_SIZE: nat := 32768

  /** a ^ b */
  function Xor(a: nat, b: nat): nat
    decreases a + b
  {
    if a == 0 && b == 0 then 0
    else BitVal(Bit(a) != Bit(b)) + 2 * Xor(a / 2, b / 2)
  }

  lemma XorHalves(a: nat, b: nat)
    ensures Xor(a, b) % 2 == BitVal(Bit(a) != Bit(b)) && Xor(a, b) / 2 == Xor(a / 2, b / 2)
  {
  }

  /** The UPDATE_HASH macro. */
  function Roll(h: nat, c: Byte): (r: nat)
    ensures r < HASH_SIZE
  {
    Xor(32 * h, c) % HASH_SIZE
  }

  lemma XorDouble(x: nat, c: nat)
    ensures Xor(2 * x, c) == 2 * Xor(x, c / 2) + c % 2
  {
    XorHalves(2 * x, c);
    assert (2 * x) / 2 == x && !Bit(2 * x);
  }

  lemma XorByFour(x: nat, c: nat)
    ensures Xor(4 * x, c) == 4 * Xor(x, c / 4) + c % 4
  {
    hide Xor;
    XorDouble(2 * x, c);
    XorDouble(x, c / 2);
    assert c / 2 / 2 == c / 4;
  }

  lemma XorBySixteen(x: nat, c: nat)
    ensures Xor(16 * x, c) == 16 * Xor(x, c / 16) + c % 16
  {
    hide Xor;
    XorByFour(4 * x, c);
    XorByFour(x, c / 4);
    assert c / 4 / 4 == c / 16;
  }

  /** The five low bits come from the new byte alone. */
  lemma XorShifted(h: nat, c: nat)
    ensures Xor(32 * h, c) == 32 * Xor(h, c / 32) + c % 32
  {
    hide Xor;
    XorBySixteen(2 * h, c);
    XorDouble(h, c / 16);
    assert c / 16 / 2 == c / 32;
  }

  /** The low n bits of an exclusive or come from the low n bits. */
  lemma {:induction false} XorLow(h: nat, g: nat, k: nat, n: nat)
    requires h % Pow2(n) == g % Pow2(n)
    ensures Xor(h, k) % Pow2(n) == Xor(g, k) % Pow2(n)
  {
    if n > 0 {
      var p := Pow2(n - 1);
      LowHalf(h, p);
      LowHalf(g, p);
      XorLow(h / 2, g / 2, k / 2, n - 1);
      XorHalves(h, k);
      XorHalves(g, k);
      LowHalf(Xor(h, k), p);
      LowHalf(Xor(g, k), p);
    }
  }

  lemma LowHalf(v: nat, p: nat)
    requires p > 0
    ensures v % (2 * p) == 2 * (v / 2 % p) + v % 2
  {
    var q, r := v / 2 / p, v / 2 % p;
    assert v / 2 == q * p + r by { DivMod(v / 2, p); }
    MulAssoc(q, 2, p);
    MulAssoc(2, q, p);
    DivUnique(v, 2 * p, q, 2 * r + v % 2);
  }

  /** The low n bits determine the other operand's. */
  lemma {:induction false} XorCancels(h: nat, k: nat, l: nat, n: nat)
    requires k < Pow2(n) && l < Pow2(n) && Xor(h, k) % Pow2(n) == Xor(h, l) % Pow2(n)
    ensures k == l
  {
    if n > 0 {
      var p := Pow2(n - 1);
      LowHalf(Xor(h, k), p);
      LowHalf(Xor(h, l), p);
      XorHalves(h, k);
      XorHalves(h, l);
      XorCancels(h / 2, k / 2, l / 2, n - 1);
    }
  }

  /** How much of the old key survives one more byte: its low ten bits, and of those only the
      low five reach the low ten bits of the new key. */
  lemma RollKeeps(h: nat, g: nat, c: Byte)
    ensures Roll(h, c) % 32 == c % 32
    ensures h % 32 == g % 32 ==> Roll(h, c) % 1024 == Roll(g, c) % 1024
    ensures h % 1024 == g % 1024 ==> Roll(h, c) == Roll(g, c)
  {
    Pow2Values();
    XorShifted(h, c);
    XorShifted(g, c);
    var x, y := Xor(h, c / 32), Xor(g, c / 32);
    assert Roll(h, c) == (32 * x + c % 32) % 32768 && Roll(g, c) == (32 * y + c % 32) % 32768;
    Scaled(x, c % 32);
    Scaled(y, c % 32);
    if h % 32 == g % 32 {
      XorLow(h, g, c / 32, 5);
    }
    if h % 1024 == g % 1024 {
      XorLow(h, g, c / 32, 10);
    }
  }

  lemma Scaled(x: nat, r: nat)
    requires r < 32
    ensures (32 * x + r) % 32768 == 32 * (x % 1024) + r
    ensures (32 * (x % 1024) + r) % 1024 == 32 * (x % 32) + r
    ensures (32 * (x % 1024) + r) % 32 == r
  {
    Scale(x, 1024, r);
    Scale(x % 1024, 32, r);
    assert x % 1024 % 32 == x % 32;
  }

  lemma Scale(x: nat, m: nat, r: nat)
    requires r < 32 && m > 0
    ensures (32 * x + r) % (32 * m) == 32 * (x % m) + r
  {
    DivMod(x, m);
    MulAssoc(32, x / m, m);
    MulAssoc(x / m, 32, m);
    assert 32 * (x % m) + r < 32 * m;
    DivUnique(32 * x + r, 32 * m, x / m, 32 * (x % m) + r);
  }

  lemma LowThree(x: nat)
    ensures x % 1024 % 8 == x % 8
  {
  }

  lemma TopPart(x: nat, y: nat, r: nat, q: nat)
    requires r < 32 && q < 32 && 32 * x + r == 32 * y + q
    ensures x == y && r == q
  {
  }

  /** With the same key before it, the last byte is determined by the key after it. */
  lemma RollInjective(h: nat, c: Byte, d: Byte)
    requires Roll(h, c) == Roll(h, d)
    ensures c == d
  {
    hide Xor, Pow2;
    Pow2Values();
    XorShifted(h, c);
    XorShifted(h, d);
    var x, y := Xor(h, c / 32), Xor(h, d / 32);
    Scaled(x, c % 32);
    Scaled(y, d % 32);
    TopPart(x % 1024, y % 1024, c % 32, d % 32);
    LowThree(x);
    LowThree(y);
    XorCancels(h, c / 32, d / 32, 3);
  }

  /** The hash key of the three bytes at p. */
  function HashAt(s: seq<Byte>, p: nat): (r: nat)
    requires p + 2 < |s|
    ensures r < HASH_SIZE
  {
    Roll(Roll(Roll(0, s[p]), s[p + 1]), s[p + 2])
  }

  /** Equal keys and equal first two bytes: the third bytes are equal too. */
  lemma SameThird(s: seq<Byte>, p: nat, q: nat)
    requires p + 2 < |s| && q + 2 < |s| && HashAt(s, p) == HashAt(s, q)
    requires s[p] == s[q] && s[p + 1] == s[q + 1]
    ensures s[p + 2] == s[q + 2]
  {
    RollInjective(Roll(Roll(0, s[p]), s[p + 1]), s[p + 2], s[q + 2]);
  }

  /** The running key holds the two bytes at p, as far as it matters. */
  ghost predicate KeyReady(insH: nat, s: seq<Byte>, p: nat) {
    p + 1 < |s| && insH % 1024 == Roll(Roll(0, s[p]), s[p + 1]) % 1024
  }

  /** Two bytes into any key make it ready. */
  lemma KeyStarts(h: nat, s: seq<Byte>, p: nat)
    requires p + 1 < |s|
    ensures KeyReady(Roll(Roll(h, s[p]), s[p + 1]), s, p)
  {
    RollKeeps(h, 0, s[p]);
    RollKeeps(0, 0, s[p]);
    RollKeeps(Roll(h, s[p]), Roll(0, s[p]), s[p + 1]);
  }

  /** The next byte makes the running key the hash of three bytes, and readies it for the next. */
  lemma KeyRolls(insH: nat, s: seq<Byte>, p: nat)
    requires KeyReady(insH, s, p) && p + 2 < |s|
    ensures Roll(insH, s[p + 2]) == HashAt(s, p) && KeyReady(HashAt(s, p), s, p + 1)
  {
    RollKeeps(insH, Roll(Roll(0, s[p]), s[p + 1]), s[p + 2]);
    KeyStarts(Roll(0, s[p]), s, p + 1);
  }
}
