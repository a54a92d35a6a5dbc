/**
 The base 64 text of a string of bytes, character by character: the bytes are read as one
 string of bits, the highest of each byte first, and cut into groups of six.
 */
module Base64Text {
  import opened Common

  function Characters(): string {
    "ABCDEFGHIJKLMNOPQRSTUVWXYZ" + "abcdefghijklmnopqrstuvwxyz" + "0123456789" + "+/"
  }

  function Shl(b: Byte, j: nat): Byte {
    if j == 0 then b else Shl(b, j - 1) << 1
  }

  // The j-th bit of a byte, from the highest.
  predicate BitOf(b: Byte, j: nat) { Shl(b, j) & 0x80 != 0 }

  // The k-th bit of the string, filled up with zeros.
  predicate Bit(s: Bytes, k: nat) {
    k < 8 * |s| && BitOf(s[k / 8], k % 8)
  }

  function Six(a: bool, b: bool, c: bool, d: bool, e: bool, f: bool): (n: nat)
    ensures n < 64
  {
    (if a then 32 else 0) + (if b then 16 else 0) + (if c then 8 else 0) +
    (if d then 4 else 0) + (if e then 2 else 0) + (if f then 1 else 0)
  }

  // The i-th group of six bits.
  function Digit(s: Bytes, i: nat): (n: nat)
    ensures n < 64
  {
    Six(Bit(s, 6 * i), Bit(s, 6 * i + 1), Bit(s, 6 * i + 2), Bit(s, 6 * i + 3), Bit(s, 6 * i + 4), Bit(s, 6 * i + 5))
  }

  // A character for each group with a bit of the string in it, and '=' up to a multiple of
  // four.
  function TextAt(s: Bytes, i: nat): char
    requires |Characters()| == 64
  {
    if 6 * i < 8 * |s| then Characters()[Digit(s, i)] else '='
  }

  lemma CharactersCount()
    ensures |Characters()| == 64
  {}

  ghost predicate IsText(s: Bytes, e: Bytes) {
    && |Characters()| == 64
    && |e| == (|s| + 2) / 3 * 4
    && forall i :: 0 <= i < |e| ==> Idx(e[i]) == TextAt(s, i) as int
  }

  lemma BitsOfByte(b: Byte)
    ensures BitOf(b, 0) <==> b & 0x80 != 0
    ensures BitOf(b, 1) <==> b & 0x40 != 0
    ensures BitOf(b, 2) <==> b & 0x20 != 0
    ensures BitOf(b, 3) <==> b & 0x10 != 0
    ensures BitOf(b, 4) <==> b & 0x08 != 0
    ensures BitOf(b, 5) <==> b & 0x04 != 0
    ensures BitOf(b, 6) <==> b & 0x02 != 0
    ensures BitOf(b, 7) <==> b & 0x01 != 0
  {
    assert Shl(b, 1) == b << 1;
    assert Shl(b, 2) == b << 1 << 1;
    assert Shl(b, 3) == Shl(b, 2) << 1;
    assert Shl(b, 4) == Shl(b, 3) << 1;
    assert Shl(b, 5) == Shl(b, 4) << 1;
    assert Shl(b, 6) == Shl(b, 5) << 1;
    assert Shl(b, 7) == Shl(b, 6) << 1;
  }

  // ----- Cutting a string in two -----------------------------------------------------

  // Three bytes are four groups.
  lemma DigitSplit(s: Bytes, i: nat)
    requires |s| >= 3
    ensures i < 4 ==> Digit(s, i) == Digit(s[..3], i)
    ensures i >= 4 ==> Digit(s, i) == Digit(s[3..], i - 4)
  {
    hide Bit, Six;
    BitSplit(s, 6 * i);
    BitSplit(s, 6 * i + 1);
    BitSplit(s, 6 * i + 2);
    BitSplit(s, 6 * i + 3);
    BitSplit(s, 6 * i + 4);
    BitSplit(s, 6 * i + 5);
  }

  lemma BitSplit(s: Bytes, k: nat)
    requires |s| >= 3
    ensures k < 24 ==> Bit(s, k) == Bit(s[..3], k)
    ensures k >= 24 ==> Bit(s, k) == Bit(s[3..], k - 24)
  {
    if k >= 24 {
      assert (k - 24) / 8 == k / 8 - 3 && (k - 24) % 8 == k % 8;
    }
  }

  // Bytes of zero bits behind the end do not matter.
  lemma DigitFilled(s: Bytes, z: Bytes, i: nat)
    requires forall k :: 0 <= k < |z| ==> z[k] == 0
    ensures Digit(s + z, i) == Digit(s, i)
  {
    hide BitOf, Six;
    forall k: nat ensures Bit(s + z, k) == Bit(s, k) {
      if 8 * |s| <= k < 8 * |s + z| {
        NoBitInZero(k % 8);
        assert (s + z)[k / 8] == 0;
      }
    }
  }

  lemma {:induction false} NoBitInZero(j: nat)
    ensures Shl(0, j) == 0 && !BitOf(0, j)
    decreases j
  {
    if j > 0 {
      NoBitInZero(j - 1);
    }
  }

  // ----- The characters --------------------------------------------------------------

  lemma UpperCase(k: nat)
    requires k < 26
    ensures |Characters()| == 64 && Characters()[k] as int == k + 65
  {
    assert Characters()[k] == "ABCDEFGHIJKLMNOPQRSTUVWXYZ"[k];
  }

  lemma LowerCase(k: nat)
    requires k < 26
    ensures |Characters()| == 64 && Characters()[26 + k] as int == k + 97
  {
    assert Characters()[26 + k] == "abcdefghijklmnopqrstuvwxyz"[k];
  }

  lemma Decimal(k: nat)
    requires k < 10
    ensures |Characters()| == 64 && Characters()[52 + k] as int == k + 48
  {
    assert Characters()[52 + k] == "0123456789"[k];
  }

  lemma LastTwo()
    ensures |Characters()| == 64 && Characters()[62] == '+' && Characters()[63] == '/'
  {}
}
