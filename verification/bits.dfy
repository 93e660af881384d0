/**
 Bit-level arithmetic the encoder relies on, modelled on unbounded naturals:
 - `Byte`, an output byte read as its unsigned value 0..255;
 - `Trunc8`, Kotlin's `Int.toByte()` (keep the low eight bits);
 - `BitOr` and `Pow2`, Kotlin's `a or b` and `1 shl n` on non-negative values;
 - `ToNat` and `ToBits`, packing a most-significant-first bit list into a number
   and unpacking it again.
 */
module Bits {

  /** One byte of the command stream, as the unsigned value of its eight bits. */
  type Byte = b: int | 0 <= b < 256

  function Pow2(n: nat): (p: nat)
    ensures p >= 1
  {
    if n == 0 then 1 else 2 * Pow2(n - 1)
  }

  /** Kotlin's `toByte()`: the low eight bits of `v`, read back as 0..255. */
  function Trunc8(v: int): (b: Byte)
    ensures 0 <= v < 256 ==> b == v
    ensures (v - b) % 256 == 0
  {
    v % 256
  }

  /** Bit `i` of `v`, counting from the least significant bit. */
  predicate TestBit(v: nat, i: nat)
  {
    if i == 0 then v % 2 == 1 else TestBit(v / 2, i - 1)
  }

  /** Bitwise `or` of two non-negative numbers, one binary digit at a time. */
  function BitOr(a: nat, b: nat): nat
    decreases a + b
  {
    if a == 0 && b == 0 then 0
    else 2 * BitOr(a / 2, b / 2) + (if a % 2 == 1 || b % 2 == 1 then 1 else 0)
  }

  /** A most-significant-first bit list read as a binary number. */
  function ToNat(bits: seq<bool>): (v: nat)
    ensures v < Pow2(|bits|)
  {
    if |bits| == 0 then 0
    else 2 * ToNat(bits[..|bits| - 1]) + (if bits[|bits| - 1] then 1 else 0)
  }

  /** The low `n` bits of `v`, most significant first: the inverse of `ToNat`. */
  function ToBits(v: nat, n: nat): (s: seq<bool>)
    ensures |s| == n
  {
    if n == 0 then [] else ToBits(v / 2, n - 1) + [v % 2 == 1]
  }

  lemma {:induction false} TestBitOfZero(i: nat)
    ensures !TestBit(0, i)
  {
    if i > 0 {
      TestBitOfZero(i - 1);
    }
  }

  /** `BitOr` is the bitwise or: bit `i` of the result is set iff it is set in either operand. */
  lemma {:induction false} BitOrIsBitwise(a: nat, b: nat, i: nat)
    ensures TestBit(BitOr(a, b), i) <==> TestBit(a, i) || TestBit(b, i)
  {
    if a == 0 && b == 0 {
      TestBitOfZero(i);
    } else if i > 0 {
      BitOrIsBitwise(a / 2, b / 2, i - 1);
    }
  }

  lemma {:induction false} BitOrZero(a: nat)
    ensures BitOr(a, 0) == a
    decreases a
  {
    if a > 0 {
      BitOrZero(a / 2);
    }
  }

  /**
   Setting bit `i` of a multiple of `2^(i+1)` (a number whose bits `i..0` are
   all clear) adds `2^i`: this is what `byte or (1 shl n)` does to the
   encoder's accumulator.
   */
  lemma {:induction false} BitOrSetsClearBit(m: nat, i: nat)
    ensures BitOr(m * Pow2(i + 1), Pow2(i)) == m * Pow2(i + 1) + Pow2(i)
  {
    var a := m * Pow2(i + 1);
    assert a == 2 * (m * Pow2(i));
    assert a % 2 == 0 && a / 2 == m * Pow2(i);
    if i == 0 {
      BitOrZero(a / 2);
    } else {
      BitOrSetsClearBit(m, i - 1);
      assert Pow2(i) / 2 == Pow2(i - 1) && Pow2(i) % 2 == 0;
    }
  }

  /** Unpacking a packed bit list gives the list back. */
  lemma {:induction false} UnpackPack(bits: seq<bool>)
    ensures ToBits(ToNat(bits), |bits|) == bits
  {
    if |bits| > 0 {
      var init := bits[..|bits| - 1];
      UnpackPack(init);
      assert bits == init + [bits[|bits| - 1]];
    }
  }

  /** Packing the low `n` bits of a number below `2^n` gives the number back. */
  lemma {:induction false} PackUnpack(v: nat, n: nat)
    requires v < Pow2(n)
    ensures ToNat(ToBits(v, n)) == v
  {
    if n > 0 {
      PackUnpack(v / 2, n - 1);
      assert ToBits(v, n)[..n - 1] == ToBits(v / 2, n - 1);
    }
  }

  /** Position `j` of an `n`-bit unpacking is bit `n - 1 - j` of the number. */
  lemma {:induction false} BitsAgreeWithTestBit(v: nat, n: nat, j: nat)
    requires j < n
    ensures ToBits(v, n)[j] == TestBit(v, n - 1 - j)
  {
    if j < n - 1 {
      BitsAgreeWithTestBit(v / 2, n - 1, j);
    }
  }

  lemma DoubleFactor(v: int, p: int)
    ensures 2 * (v * p) == v * (2 * p)
  {
  }

  /** Appending clear bits to a bit list shifts its value left. */
  lemma {:induction false} ToNatPadded(s: seq<bool>, t: seq<bool>)
    requires forall i :: 0 <= i < |t| ==> !t[i]
    ensures ToNat(s + t) == ToNat(s) * Pow2(|t|)
  {
    if |t| > 0 {
      var u := t[..|t| - 1];
      var w := s + t;
      assert w[..|w| - 1] == s + u;
      assert !w[|w| - 1];
      assert ToNat(w) == 2 * ToNat(s + u);
      ToNatPadded(s, u);
      var v, p := ToNat(s), Pow2(|u|);
      assert Pow2(|t|) == 2 * p;
      DoubleFactor(v, p);
    } else {
      assert s + t == s;
    }
  }
}
