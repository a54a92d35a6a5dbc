/**
 The reflected CRC-32 of section 8 of RFC 1952, one bit at a time, and the linear
 algebra over GF(2) that its fast forms rest on.

 A `Word` is an unsigned 32-bit integer, read as a polynomial of degree below 32 over
 GF(2): `Xor` adds two of them, `BitStep` clocks the shift register once.  It is a
 datatype, not a bare `bv32`, so that proofs about many steps reason by congruence and
 only the one-step facts look at bits.
 */
module CrcSpec {
  import opened Common

  datatype Word = Word(bits: bv32)

  const POLY := Word(0xEDB8_8320)
  const ONES := Word(0xFFFF_FFFF)
  const ZERO := Word(0)

  function Xor(a: Word, b: Word): Word { Word(a.bits ^ b.bits) }

  function FromByte(b: Byte): Word { Word(b as bv32) }

  function LowByte(c: Word): Byte { (c.bits & 0xFF) as bv8 }

  function Shr8(c: Word): Word { Word(c.bits >> 8) }

  function Shl8(c: Word): Word { Word(c.bits << 8) }

  function Shl1(c: Word): Word { Word(c.bits << 1) }

  function Shr1(c: Word): Word { Word(c.bits >> 1) }

  predicate Odd(c: Word) { c.bits & 1 == 1 }

  function BitStep(c: Word): Word {
    if Odd(c) then Xor(POLY, Shr1(c)) else Shr1(c)
  }

  function BitSteps(c: Word, n: nat): Word
    decreases n
  {
    if n == 0 then c else BitSteps(BitStep(c), n - 1)
  }

  function ByteStep(c: Word, b: Byte): Word {
    BitSteps(Xor(c, FromByte(b)), 8)
  }

  // The register after the bytes of `s` have been shifted in.
  function Register(c: Word, s: Bytes): Word
    decreases |s|
  {
    if s == [] then c else Register(ByteStep(c, s[0]), s[1..])
  }

  // The checksum of `s`, continuing from the checksum `crc` (ZERO to start).
  function Crc32(crc: Word, s: Bytes): Word {
    Xor(Register(Xor(crc, ONES), s), ONES)
  }

  function Zeros(n: nat): (s: Bytes)
    ensures |s| == n
  {
    seq(n, _ => 0)
  }

  function XorBytes(a: Bytes, b: Bytes): (s: Bytes)
    requires |a| == |b|
    ensures |s| == |a|
  {
    seq(|a|, i requires 0 <= i < |a| => a[i] ^ b[i])
  }

  // ----- Addition --------------------------------------------------------------------

  lemma XorZero(a: Word)
    ensures Xor(a, ZERO) == a && Xor(ZERO, a) == a
  {}

  lemma XorTwice(a: Word, x: Word)
    ensures Xor(Xor(a, x), x) == a
  {}

  lemma XorAssoc(a: Word, b: Word, c: Word)
    ensures Xor(Xor(a, b), c) == Xor(a, Xor(b, c))
  {}

  lemma XorComm(a: Word, b: Word)
    ensures Xor(a, b) == Xor(b, a)
  {}

  lemma XorPairs(a: Word, b: Word, c: Word, d: Word)
    ensures Xor(Xor(a, b), Xor(c, d)) == Xor(Xor(a, c), Xor(b, d))
  {
    XorAssoc(a, b, Xor(c, d));
    XorAssoc(b, c, d);
    XorComm(b, c);
    XorAssoc(c, b, d);
    XorAssoc(a, c, Xor(b, d));
  }

  lemma XorCancel(a: Word, b: Word, x: Word)
    requires Xor(a, x) == Xor(b, x)
    ensures a == b
  {
    XorTwice(a, x);
    XorTwice(b, x);
  }

  lemma XorOfBytes(a: Byte, b: Byte)
    ensures FromByte(a ^ b) == Xor(FromByte(a), FromByte(b))
  {}

  lemma ByteOfZero()
    ensures FromByte(0) == ZERO
  {}

  // ----- One bit and many bits -------------------------------------------------------

  lemma BitStepLinear(a: Word, b: Word)
    ensures BitStep(Xor(a, b)) == Xor(BitStep(a), BitStep(b))
  {
    Shr1Linear(a, b);
    OddLinear(a, b);
    XorMoves(Shr1(a), Shr1(b), POLY);
  }

  lemma Shr1Linear(a: Word, b: Word)
    ensures Shr1(Xor(a, b)) == Xor(Shr1(a), Shr1(b))
  {}

  lemma OddLinear(a: Word, b: Word)
    ensures Odd(Xor(a, b)) <==> Odd(a) != Odd(b)
  {}

  lemma XorMoves(a: Word, b: Word, p: Word)
    ensures Xor(Xor(p, a), b) == Xor(p, Xor(a, b))
    ensures Xor(a, Xor(p, b)) == Xor(p, Xor(a, b))
    ensures Xor(Xor(p, a), Xor(p, b)) == Xor(a, b)
  {
    XorAssoc(p, a, b);
    XorAssoc(a, p, b);
    XorComm(a, p);
    XorComm(Xor(p, a), Xor(p, b));
    XorAssoc(p, b, Xor(p, a));
    XorAssoc(b, p, a);
    XorComm(b, p);
    XorComm(p, Xor(p, Xor(b, a)));
    XorComm(p, Xor(b, a));
    XorAssoc(p, b, a);
    XorTwice(Xor(b, a), p);
    XorComm(b, a);
  }

  // The top coefficient of the polynomial is set, so a step shows which bit fell out
  // and can be undone.
  lemma BitStepInjective(a: Word, b: Word)
    requires BitStep(a) == BitStep(b)
    ensures a == b
  {
    TopBit(Shr1(a), a);
    TopBit(Shr1(b), b);
    if Odd(a) {
      XorComm(POLY, Shr1(a));
      XorComm(POLY, Shr1(b));
      XorCancel(Shr1(a), Shr1(b), POLY);
    }
    HalvesDetermine(a, b);
  }

  predicate Top(c: Word) { c.bits >= 0x8000_0000 }

  lemma TopBit(h: Word, c: Word)
    requires h == Shr1(c)
    ensures !Top(h) && Top(Xor(POLY, h))
  {}

  lemma HalvesDetermine(a: Word, b: Word)
    requires Shr1(a) == Shr1(b) && (Odd(a) <==> Odd(b))
    ensures a == b
  {}

  lemma {:induction false} BitStepsLinear(a: Word, b: Word, n: nat)
    ensures BitSteps(Xor(a, b), n) == Xor(BitSteps(a, n), BitSteps(b, n))
    decreases n
  {
    if n > 0 {
      BitStepLinear(a, b);
      BitStepsLinear(BitStep(a), BitStep(b), n - 1);
    }
  }

  lemma {:induction false} BitStepsInjective(a: Word, b: Word, n: nat)
    requires BitSteps(a, n) == BitSteps(b, n)
    ensures a == b
    decreases n
  {
    if n > 0 {
      BitStepsInjective(BitStep(a), BitStep(b), n - 1);
      BitStepInjective(a, b);
    }
  }

  lemma {:induction false} BitStepsAdd(c: Word, m: nat, n: nat)
    ensures BitSteps(c, m + n) == BitSteps(BitSteps(c, m), n)
    decreases m
  {
    if m > 0 {
      BitStepsAdd(BitStep(c), m - 1, n);
    }
  }

  lemma BitStepsOfZero(n: nat)
    ensures BitSteps(ZERO, n) == ZERO
  {
    BitStepsLinear(ZERO, ZERO, n);
    XorZero(ZERO);
    var z := BitSteps(ZERO, n);
    XorTwice(z, z);
    XorComm(ZERO, z);
    XorZero(z);
  }

  // One clock undoes one doubling, so eight clocks undo a shift by a byte.
  lemma StepUndoesShl1(w: Word)
    requires !Top(w)
    ensures BitStep(Shl1(w)) == w
  {
    Shl1IsEven(w);
  }

  lemma Shl1IsEven(w: Word)
    requires !Top(w)
    ensures !Odd(Shl1(w)) && Shr1(Shl1(w)) == w
  {}

  function Doubled(w: Word, n: nat): Word {
    if n == 0 then w else Shl1(Doubled(w, n - 1))
  }

  lemma {:induction false} StepsUndoDoubling(w: Word, n: nat)
    requires forall k: nat :: k < n ==> !Top(Doubled(w, k))
    ensures BitSteps(Doubled(w, n), n) == w
  {
    if n > 0 {
      StepUndoesShl1(Doubled(w, n - 1));
      StepsUndoDoubling(w, n - 1);
    }
  }

  lemma DoublingBound(w: Word, m: bv32)
    requires w.bits <= m && m < 0x8000_0000
    ensures Shl1(w).bits <= (m << 1) | 1
  {}

  lemma ThreeBytesDoubleEightTimes(w: Word)
    requires FitsIn(w, 3)
    ensures forall k: nat :: k < 8 ==> !Top(Doubled(w, k))
  {
    var w1 := Shl1(w);
    var w2 := Shl1(w1);
    var w3 := Shl1(w2);
    var w4 := Shl1(w3);
    DoubledUpToFour(w);
    DoubledUpToFour(w4);
    DoubledAdd(w, 4, 1);
    DoubledAdd(w, 4, 2);
    DoubledAdd(w, 4, 3);
    DoublingBound(w, 0xFF_FFFF);
    DoublingBound(w1, 0x1FF_FFFF);
    DoublingBound(w2, 0x3FF_FFFF);
    DoublingBound(w3, 0x7FF_FFFF);
    DoublingBound(w4, 0xFFF_FFFF);
    DoublingBound(Shl1(w4), 0x1FFF_FFFF);
    DoublingBound(Shl1(Shl1(w4)), 0x3FFF_FFFF);
  }

  lemma DoubledUpToFour(w: Word)
    ensures Doubled(w, 0) == w
    ensures Doubled(w, 1) == Shl1(w)
    ensures Doubled(w, 2) == Shl1(Shl1(w))
    ensures Doubled(w, 3) == Shl1(Shl1(Shl1(w)))
    ensures Doubled(w, 4) == Shl1(Shl1(Shl1(Shl1(w))))
  {
    assert Doubled(w, 2) == Shl1(Doubled(w, 1));
  }

  lemma DoubledEight(w: Word)
    ensures Doubled(w, 8) == Shl8(w)
  {
    DoubledAdd(w, 4, 4);
    DoubledUpToFour(w);
    DoubledUpToFour(Shl1(Shl1(Shl1(Shl1(w)))));
    ShiftedByByte(w.bits);
  }

  lemma ShiftedByByte(b: bv32)
    ensures Shl1(Shl1(Shl1(Shl1(Shl1(Shl1(Shl1(Shl1(Word(b)))))))) ) == Shl8(Word(b))
  {
    EightShl1(b);
    assert Shl8(Word(b)) == Word(b << 8);
  }

  lemma EightShl1(b: bv32)
    ensures Shl1(Shl1(Shl1(Shl1(Shl1(Shl1(Shl1(Shl1(Word(b)))))))) ) == Word(b << 8)
  {}

  lemma {:induction false} DoubledAdd(w: Word, m: nat, n: nat)
    ensures Doubled(w, m + n) == Doubled(Doubled(w, m), n)
  {
    if n > 0 {
      DoubledAdd(w, m, n - 1);
    }
  }

  lemma EightStepsUndoShl8(w: Word)
    requires FitsIn(w, 3)
    ensures BitSteps(Shl8(w), 8) == w
  {
    ThreeBytesDoubleEightTimes(w);
    StepsUndoDoubling(w, 8);
    DoubledEight(w);
  }

  // ----- Bytes -----------------------------------------------------------------------

  lemma {:induction false} RegisterAppend(c: Word, a: Bytes, b: Bytes)
    ensures Register(c, a + b) == Register(Register(c, a), b)
    decreases |a|
  {
    if a == [] {
      assert a + b == b;
    } else {
      assert (a + b)[1..] == a[1..] + b;
      RegisterAppend(ByteStep(c, a[0]), a[1..], b);
    }
  }

  // The checksum chains: continuing over `b` from the checksum of `a` gives that of `a + b`.
  lemma Chaining(crc: Word, a: Bytes, b: Bytes)
    ensures Crc32(Crc32(crc, a), b) == Crc32(crc, a + b)
  {
    RegisterAppend(Xor(crc, ONES), a, b);
    XorTwice(Register(Xor(crc, ONES), a), ONES);
  }

  lemma ByteStepLinear(c: Word, d: Word, x: Byte, y: Byte)
    ensures ByteStep(Xor(c, d), x ^ y) == Xor(ByteStep(c, x), ByteStep(d, y))
  {
    XorOfBytes(x, y);
    XorPairs(c, d, FromByte(x), FromByte(y));
    BitStepsLinear(Xor(c, FromByte(x)), Xor(d, FromByte(y)), 8);
  }

  lemma {:induction false} RegisterLinear(c: Word, d: Word, a: Bytes, b: Bytes)
    requires |a| == |b|
    ensures Register(Xor(c, d), XorBytes(a, b)) == Xor(Register(c, a), Register(d, b))
    decreases |a|
  {
    if a != [] {
      ByteStepLinear(c, d, a[0], b[0]);
      assert XorBytes(a, b)[1..] == XorBytes(a[1..], b[1..]);
      RegisterLinear(ByteStep(c, a[0]), ByteStep(d, b[0]), a[1..], b[1..]);
    }
  }

  lemma {:induction false} RegisterOfZeros(c: Word, n: nat)
    ensures Register(c, Zeros(n)) == BitSteps(c, 8 * n)
    decreases n
  {
    if n > 0 {
      assert Zeros(n)[1..] == Zeros(n - 1);
      ByteOfZero();
      XorZero(c);
      RegisterOfZeros(BitSteps(c, 8), n - 1);
      BitStepsAdd(c, 8, 8 * (n - 1));
    }
  }

  // Shifting `s` in from `c` is clocking `c` on its own and adding `s` shifted in from 0.
  lemma RegisterSplit(c: Word, s: Bytes)
    ensures Register(c, s) == Xor(BitSteps(c, 8 * |s|), Register(ZERO, s))
  {
    RegisterOfZeros(c, |s|);
    RegisterLinear(c, ZERO, Zeros(|s|), s);
    XorWithZeros(s);
    XorZero(c);
  }

  lemma XorWithZeros(s: Bytes)
    ensures XorBytes(Zeros(|s|), s) == s
  {
    forall i | 0 <= i < |s| ensures XorBytes(Zeros(|s|), s)[i] == s[i] {
      ZeroByte(s[i]);
    }
  }

  lemma ZeroByte(b: Byte)
    ensures 0 ^ b == b
  {}

  // ----- Words of up to four bytes ---------------------------------------------------

  // The little-endian value of the bytes (the first four of them, if there are more).
  function LittleEndian(s: Bytes): Word
    decreases |s|
  {
    if s == [] then ZERO else Xor(FromByte(s[0]), Shl8(LittleEndian(s[1..])))
  }

  // `w` has at most `n` significant bytes.
  predicate FitsIn(w: Word, n: nat) {
    if n == 0 then w.bits == 0
    else if n == 1 then w.bits <= 0xFF
    else if n == 2 then w.bits <= 0xFFFF
    else if n == 3 then w.bits <= 0xFF_FFFF
    else true
  }

  lemma FitsInStep(b: Byte, w: Word, n: nat)
    requires FitsIn(w, n)
    ensures FitsIn(Xor(FromByte(b), Shl8(w)), n + 1)
  {}

  lemma {:induction false} LittleEndianFits(s: Bytes)
    ensures FitsIn(LittleEndian(s), |s|)
    decreases |s|
  {
    if s != [] {
      LittleEndianFits(s[1..]);
      FitsInStep(s[0], LittleEndian(s[1..]), |s| - 1);
    }
  }

  lemma SplitLowByte(a: Byte, v: Word, b: Byte, w: Word)
    requires FitsIn(v, 3) && FitsIn(w, 3)
    requires Xor(FromByte(a), Shl8(v)) == Xor(FromByte(b), Shl8(w))
    ensures a == b && v == w
  {}

  lemma FitsInMore(w: Word, n: nat)
    requires n <= 3 && FitsIn(w, n)
    ensures FitsIn(w, 3)
  {}

  lemma {:induction false} LittleEndianInjective(s: Bytes, t: Bytes)
    requires |s| == |t| <= 4
    requires LittleEndian(s) == LittleEndian(t)
    ensures s == t
    decreases |s|
  {
    if s != [] {
      var v, w := LittleEndian(s[1..]), LittleEndian(t[1..]);
      LittleEndianFits(s[1..]);
      LittleEndianFits(t[1..]);
      FitsInMore(v, |s| - 1);
      FitsInMore(w, |s| - 1);
      SplitLowByte(s[0], v, t[0], w);
      LittleEndianInjective(s[1..], t[1..]);
      assert s == [s[0]] + s[1..] && t == [t[0]] + t[1..];
    }
  }

  // Up to four bytes can be added to the register all at once, before any clocking.
  lemma {:induction false} RegisterOfWord(c: Word, s: Bytes)
    requires |s| <= 4
    ensures Register(c, s) == BitSteps(Xor(c, LittleEndian(s)), 8 * |s|)
    decreases |s|
  {
    if s == [] {
      XorZero(c);
    } else {
      var x, w := Xor(c, FromByte(s[0])), LittleEndian(s[1..]);
      RegisterOfWord(ByteStep(c, s[0]), s[1..]);
      LittleEndianFits(s[1..]);
      FitsInMore(w, |s| - 1);
      ClockInHighBytes(x, w);
      XorAssoc(c, FromByte(s[0]), Shl8(w));
      BitStepsAdd(Xor(x, Shl8(w)), 8, 8 * (|s| - 1));
    }
  }

  lemma ClockInHighBytes(x: Word, w: Word)
    requires FitsIn(w, 3)
    ensures BitSteps(Xor(x, Shl8(w)), 8) == Xor(BitSteps(x, 8), w)
  {
    BitStepsLinear(x, Shl8(w), 8);
    EightStepsUndoShl8(w);
  }

  // ----- Detecting damage ------------------------------------------------------------

  lemma {:induction false} RegisterInjective(c: Word, d: Word, s: Bytes)
    requires Register(c, s) == Register(d, s)
    ensures c == d
    decreases |s|
  {
    if s != [] {
      RegisterInjective(ByteStep(c, s[0]), ByteStep(d, s[0]), s[1..]);
      BitStepsInjective(Xor(c, FromByte(s[0])), Xor(d, FromByte(s[0])), 8);
      XorCancel(c, d, FromByte(s[0]));
    }
  }

  lemma {:induction false} RegisterSeparates(c: Word, s: Bytes, t: Bytes)
    requires |s| == |t| <= 4
    requires Register(c, s) == Register(c, t)
    ensures s == t
  {
    RegisterOfWord(c, s);
    RegisterOfWord(c, t);
    var v, w := LittleEndian(s), LittleEndian(t);
    BitStepsInjective(Xor(c, v), Xor(c, w), 8 * |s|);
    XorComm(c, v);
    XorComm(c, w);
    XorCancel(v, w, c);
    LittleEndianInjective(s, t);
  }

  // Two different bodies that agree outside a window of four consecutive bytes never
  // share a checksum.
  lemma WindowDetected(crc: Word, a: Bytes, b: Bytes, at: nat)
    requires |a| == |b| && a != b
    requires forall i :: 0 <= i < |a| && !(at <= i < at + 4) ==> a[i] == b[i]
    ensures Crc32(crc, a) != Crc32(crc, b)
  {
    var lo := if at <= |a| then at else |a|;
    var hi := if at + 4 <= |a| then at + 4 else |a|;
    var start := Xor(crc, ONES);
    var p, x, y, q := a[..lo], a[lo..hi], b[lo..hi], a[hi..];
    assert p == b[..lo] && q == b[hi..];
    assert a == p + (x + q) && b == p + (y + q);
    var c := Register(start, p);
    RegisterAppend(start, p, x + q);
    RegisterAppend(start, p, y + q);
    RegisterAppend(c, x, q);
    RegisterAppend(c, y, q);
    if Crc32(crc, a) == Crc32(crc, b) {
      XorCancel(Register(start, a), Register(start, b), ONES);
      RegisterInjective(Register(c, x), Register(c, y), q);
      RegisterSeparates(c, x, y);
      assert false;
    }
  }
}
