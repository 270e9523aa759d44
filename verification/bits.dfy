/** Python's bitwise `&`, `|`, `<<` and `>>` on non-negative integers, and the mask facts the codecs rely on. */
module Bits {
  import opened Arith

  function Pow2(k: nat): (p: nat)
    ensures p >= 1
  {
    if k == 0 then 1 else 2 * Pow2(k - 1)
  }

  /** `a & b`, bit by bit from the least significant end. */
  function And(a: nat, b: nat): nat
    decreases a
  {
    if a == 0 || b == 0 then 0
    else 2 * And(a / 2, b / 2) + (if a % 2 == 1 && b % 2 == 1 then 1 else 0)
  }

  /** `a | b`. */
  function Or(a: nat, b: nat): nat
    decreases a + b
  {
    if a == 0 then b
    else if b == 0 then a
    else 2 * Or(a / 2, b / 2) + (if a % 2 == 1 || b % 2 == 1 then 1 else 0)
  }

  /** `a << k`. */
  function Shl(a: nat, k: nat): nat
  {
    a * Pow2(k)
  }

  /** `a >> k`. */
  function Shr(a: nat, k: nat): nat
  {
    DivNonNeg(a, Pow2(k));
    a / Pow2(k)
  }

  lemma Pow2Values()
    ensures Pow2(4) == 16 && Pow2(7) == 128 && Pow2(8) == 256 && Pow2(14) == 16384 && Pow2(16) == 65536
  {
    assert Pow2(4) == 16 by {
      assert Pow2(1) == 2;
      assert Pow2(2) == 4;
      assert Pow2(3) == 8;
    }
    assert Pow2(7) == 128 by {
      assert Pow2(5) == 32;
      assert Pow2(6) == 64;
    }
    assert Pow2(8) == 256;
    assert Pow2(14) == 16384 by {
      assert Pow2(9) == 512;
      assert Pow2(10) == 1024;
      assert Pow2(11) == 2048;
      assert Pow2(12) == 4096;
      assert Pow2(13) == 8192;
    }
    assert Pow2(16) == 65536 by {
      assert Pow2(15) == 32768;
    }
  }

  lemma HalveMod(a: nat, p: nat)
    requires p > 0
    ensures a % (2 * p) == 2 * ((a / 2) % p) + a % 2
  {
    var h := a / 2;
    assert a == 2 * h + a % 2;
    assert h == p * (h / p) + h % p;
    assert a == (2 * p) * (h / p) + (2 * (h % p) + a % 2);
    ModUnique(a, h / p, 2 * (h % p) + a % 2, 2 * p);
  }

  /** One step of masking with an odd mask `2p - 1`. */
  lemma AndOddMask(a: nat, p: nat)
    requires p >= 1
    ensures And(a, 2 * p - 1) == 2 * And(a / 2, p - 1) + a % 2
  {
    if a > 0 {
      var m := 2 * p - 1;
      assert m / 2 == p - 1 && m % 2 == 1;
    }
  }

  /** Masking with k low one-bits keeps the remainder modulo 2^k. */
  lemma {:induction false} AndLowMask(a: nat, k: nat)
    ensures And(a, Pow2(k) - 1) == a % Pow2(k)
  {
    if k > 0 {
      var p := Pow2(k - 1);
      assert Pow2(k) == 2 * p;
      AndOddMask(a, p);
      AndLowMask(a / 2, k - 1);
      HalveMod(a, p);
    }
  }

  /** Masking with an even mask drops the lowest bit: `a & 2b == (a >> 1 & b) << 1`. */
  lemma AndDouble(a: nat, b: nat)
    ensures And(a, 2 * b) == 2 * And(a / 2, b)
  {
    if a > 0 && b > 0 {
      assert (2 * b) / 2 == b && (2 * b) % 2 == 0;
    }
  }

  /** `a & 0b11110000 == (a >> 4 & 0b1111) << 4`. */
  lemma AndHighNibble(a: nat)
    ensures And(a, 0xF0) == 16 * And(a / 16, 0xF)
  {
    AndDouble(a, 0x78);
    AndDouble(a / 2, 0x3C);
    AndDouble(a / 4, 0x1E);
    AndDouble(a / 8, 0xF);
    assert a / 2 / 2 == a / 4 && a / 4 / 2 == a / 8 && a / 8 / 2 == a / 16;
  }

  /** `a & 0b11111110000000 == (a >> 7 & 0b1111111) << 7`. */
  lemma AndHighSeven(a: nat)
    ensures And(a, 0x3F80) == 128 * And(a / 128, 0x7F)
  {
    AndDouble(a, 0x1FC0);
    AndDouble(a / 2, 0xFE0);
    AndDouble(a / 4, 0x7F0);
    AndDouble(a / 8, 0x3F8);
    AndDouble(a / 16, 0x1FC);
    AndDouble(a / 32, 0xFE);
    AndDouble(a / 64, 0x7F);
    assert a / 2 / 2 == a / 4 && a / 4 / 2 == a / 8 && a / 8 / 2 == a / 16;
    assert a / 16 / 2 == a / 32 && a / 32 / 2 == a / 64 && a / 64 / 2 == a / 128;
  }

  /** Or-ing a value below 2^k into a value shifted up by k is addition. */
  lemma {:induction false} OrShifted(a: nat, b: nat, k: nat)
    requires b < Pow2(k)
    ensures Or(a * Pow2(k), b) == a * Pow2(k) + b
  {
    if k > 0 && a > 0 && b > 0 {
      var p := Pow2(k - 1);
      assert a * Pow2(k) == 2 * (a * p);
      assert (a * Pow2(k)) / 2 == a * p && (a * Pow2(k)) % 2 == 0;
      OrShifted(a, b / 2, k - 1);
    }
  }

  /** The two nibbles of a byte as `byte_segment_to_space` extracts them. */
  lemma NibbleSplit(a: nat)
    ensures Shr(And(a, 0xF0), 4) == (a / 16) % 16
    ensures And(a, 0xF) == a % 16
  {
    Pow2Values();
    AndHighNibble(a);
    AndLowMask(a, 4);
    AndLowMask(a / 16, 4);
  }

  /** The two 7-bit fields of a word as `get_player_scores` extracts them. */
  lemma SevenSplit(a: nat)
    ensures Shr(And(a, 0x3F80), 7) == (a / 128) % 128
    ensures And(a, 0x7F) == a % 128
  {
    Pow2Values();
    AndHighSeven(a);
    AndLowMask(a, 7);
    AndLowMask(a / 128, 7);
  }
}
