/**
 The tables behind the fast checksum: four tables of 256 words for eating a word at a
 time, and thirty-two operators for appending 2^i zero bytes, each obtained by squaring
 the one before it.  What every entry means is said in terms of `BitSteps`.
 */
module CrcTables {
  import opened Common
  import opened CrcSpec

  // Bytes 1 to 3 of a word; byte 0 is LowByte.
  function Byte1(c: Word): Byte { ((c.bits >> 8) & 0xFF) as bv8 }

  function Byte2(c: Word): Byte { ((c.bits >> 16) & 0xFF) as bv8 }

  function Byte3(c: Word): Byte { (c.bits >> 24) as bv8 }

  lemma BytesBySteps(c: Word)
    ensures Byte1(c) == LowByte(Shr8(c))
    ensures Byte2(c) == LowByte(Shr8(Shr8(c)))
    ensures Byte3(c) == LowByte(Shr8(Shr8(Shr8(c))))
    ensures Shr8(Shr8(Shr8(Shr8(c)))) == ZERO
  {
    BytesOfBits(c.bits);
  }

  lemma BytesOfBits(c: bv32)
    ensures ((c >> 8) & 0xFF) as bv8 == LowByte(Shr8(Word(c)))
    ensures ((c >> 16) & 0xFF) as bv8 == LowByte(Shr8(Shr8(Word(c))))
    ensures (c >> 24) as bv8 == LowByte(Shr8(Shr8(Shr8(Word(c)))))
    ensures Shr8(Shr8(Shr8(Shr8(Word(c))))) == Word(0)
  {}

  // ----- Peeling a byte off the bottom of a word -------------------------------------

  lemma SplitWord(c: Word)
    ensures c == Xor(FromByte(LowByte(c)), Shl8(Shr8(c))) && FitsIn(Shr8(c), 3)
  {}

  lemma PeelByte(c: Word, n: nat)
    requires n >= 8
    ensures BitSteps(c, n) == Xor(BitSteps(FromByte(LowByte(c)), n), BitSteps(Shr8(c), n - 8))
  {
    SplitWord(c);
    BitStepsLinear(FromByte(LowByte(c)), Shl8(Shr8(c)), n);
    BitStepsAdd(Shl8(Shr8(c)), 8, n - 8);
    EightStepsUndoShl8(Shr8(c));
  }

  // Four bytes at once: each byte is clocked for as many bits as lie above its bottom.
  lemma PeelWord(c: Word, n: nat)
    requires n >= 32
    ensures BitSteps(c, n) ==
            Xor(Xor(Xor(BitSteps(FromByte(LowByte(c)), n), BitSteps(FromByte(Byte1(c)), n - 8)),
                    BitSteps(FromByte(Byte2(c)), n - 16)),
                BitSteps(FromByte(Byte3(c)), n - 24))
  {
    BytesBySteps(c);
    var c1 := Shr8(c);
    var c2 := Shr8(c1);
    var c3 := Shr8(c2);
    PeelByte(c, n);
    PeelByte(c1, n - 8);
    PeelByte(c2, n - 16);
    PeelByte(c3, n - 24);
    BitStepsOfZero(n - 32);
    var t0, t1 := BitSteps(FromByte(LowByte(c)), n), BitSteps(FromByte(Byte1(c)), n - 8);
    var t2, t3 := BitSteps(FromByte(Byte2(c)), n - 16), BitSteps(FromByte(Byte3(c)), n - 24);
    XorZero(t3);
    XorAssoc(t0, t1, Xor(t2, t3));
    XorAssoc(Xor(t0, t1), t2, t3);
  }

  // ----- What the tables mean --------------------------------------------------------

  ghost predicate MainTableIs(t: array2<Word>)
    requires t.Length0 == 4 && t.Length1 == 256
    reads t
  {
    && (forall b: Byte :: t[0, Idx(b)] == BitSteps(FromByte(b), 8))
    && (forall b: Byte :: t[1, Idx(b)] == BitSteps(FromByte(b), 16))
    && (forall b: Byte :: t[2, Idx(b)] == BitSteps(FromByte(b), 24))
    && (forall b: Byte :: t[3, Idx(b)] == BitSteps(FromByte(b), 32))
  }

  function Pow2(i: nat): nat {
    if i == 0 then 1 else 2 * Pow2(i - 1)
  }

  // Byte `b` as byte number `j` of a word.
  function ByteAt(b: Byte, j: nat): Word {
    if j == 0 then FromByte(b) else Shl8(ByteAt(b, j - 1))
  }

  ghost predicate CombineRowIs(t: array3<Word>, i: nat, j: nat)
    requires t.Length0 == 32 && t.Length1 == 4 && t.Length2 == 256
    requires i < 32 && j < 4
    reads t
  {
    forall b: Byte :: t[i, j, Idx(b)] == BitSteps(ByteAt(b, j), 8 * Pow2(i))
  }

  ghost predicate CombineTableIs(t: array3<Word>)
    requires t.Length0 == 32 && t.Length1 == 4 && t.Length2 == 256
    reads t
  {
    forall i: nat, j: nat :: i < 32 && j < 4 ==> CombineRowIs(t, i, j)
  }

  // ----- Matrices over GF(2) ---------------------------------------------------------

  // Column i of a matrix is the image of the i-th unit vector; this is the image of `v`.
  function Apply(m: seq<Word>, v: Word): Word
    decreases |m|
  {
    if m == [] then ZERO
    else Xor(if Odd(v) then m[0] else ZERO, Apply(m[1..], Shr1(v)))
  }

  lemma {:induction false} ApplyToZero(m: seq<Word>)
    ensures Apply(m, ZERO) == ZERO
    decreases |m|
  {
    if m != [] {
      ApplyToZero(m[1..]);
      ZeroFacts();
    }
  }

  lemma ZeroFacts()
    ensures Shr1(ZERO) == ZERO && !Odd(ZERO) && Xor(ZERO, ZERO) == ZERO && Shl1(ZERO) == ZERO
  {}

  // `m` is the matrix of `k` clocks of the register.
  ghost predicate IsStepMatrix(m: seq<Word>, k: nat) {
    |m| == 32 && forall i: nat :: i < 32 ==> m[i] == BitSteps(Doubled(Word(1), i), k)
  }

  // The largest value that still fits after `i` doublings.
  function Limit(i: nat): Word {
    if i == 0 then ONES else Shr1(Limit(i - 1))
  }

  predicate Within(v: Word, i: nat) { v.bits <= Limit(i).bits }

  lemma LimitValues()
    ensures Limit(8) == Word(0xFF_FFFF) && Limit(16) == Word(0xFFFF)
    ensures Limit(24) == Word(0xFF) && Limit(32) == ZERO
  {
    LimitFour(0, 0xFFFF_FFFF);
    LimitFour(4, 0xFFF_FFFF);
    LimitFour(8, 0xFF_FFFF);
    LimitFour(12, 0xF_FFFF);
    LimitFour(16, 0xFFFF);
    LimitFour(20, 0xFFF);
    LimitFour(24, 0xFF);
    LimitFour(28, 0xF);
  }

  lemma LimitFour(i: nat, x: bv32)
    requires Limit(i) == Word(x)
    ensures Limit(i + 4) == Word(x >> 4)
  {
    assert Limit(i + 4) == Shr1(Limit(i + 3));
    assert Limit(i + 3) == Shr1(Limit(i + 2));
    assert Limit(i + 2) == Shr1(Limit(i + 1));
    FourShr1(x);
  }

  lemma FourShr1(x: bv32)
    ensures Shr1(Shr1(Shr1(Shr1(Word(x))))) == Word(x >> 4)
  {}

  lemma HalvingKeepsLimit(v: Word, i: nat)
    requires Within(v, i)
    ensures Within(Shr1(v), i + 1)
  {
    HalvingIsMonotone(v, Limit(i));
  }

  lemma HalvingIsMonotone(a: Word, b: Word)
    requires a.bits <= b.bits
    ensures Shr1(a).bits <= Shr1(b).bits
  {}

  lemma SplitLowBit(v: Word)
    ensures v == Xor(if Odd(v) then Word(1) else ZERO, Shl1(Shr1(v)))
  {}

  lemma {:induction false} DoubledLinear(a: Word, b: Word, n: nat)
    ensures Doubled(Xor(a, b), n) == Xor(Doubled(a, n), Doubled(b, n))
  {
    if n > 0 {
      DoubledLinear(a, b, n - 1);
      Shl1Linear(Doubled(a, n - 1), Doubled(b, n - 1));
    }
  }

  lemma Shl1Linear(a: Word, b: Word)
    ensures Shl1(Xor(a, b)) == Xor(Shl1(a), Shl1(b))
  {}

  lemma {:induction false} DoubledZero(n: nat)
    ensures Doubled(ZERO, n) == ZERO
  {
    if n > 0 {
      DoubledZero(n - 1);
      ZeroFacts();
    }
  }

  // One column: the image of `v` is that of its low bit plus that of the rest.
  lemma ApplyOneColumn(v: Word, k: nat, i: nat)
    ensures BitSteps(Doubled(v, i), k) ==
            Xor(if Odd(v) then BitSteps(Doubled(Word(1), i), k) else ZERO,
                BitSteps(Doubled(Shr1(v), i + 1), k))
  {
    var low := if Odd(v) then Word(1) else ZERO;
    var rest := Shr1(v);
    SplitLowBit(v);
    DoubledLinear(low, Shl1(rest), i);
    DoubledAdd(rest, 1, i);
    assert Doubled(rest, 1) == Shl1(Doubled(rest, 0));
    BitStepsLinear(Doubled(low, i), Doubled(Shl1(rest), i), k);
    DoubledZero(i);
    BitStepsOfZero(k);
  }

  // The columns from `i` on send `v` to the image of `v` doubled `i` times.
  lemma {:induction false} ApplyColumns(m: seq<Word>, k: nat, i: nat, v: Word)
    requires IsStepMatrix(m, k) && i <= 32 && Within(v, i)
    ensures Apply(m[i..], v) == BitSteps(Doubled(v, i), k)
    decreases 32 - i
  {
    if i == 32 {
      LimitValues();
      OnlyZero(v);
      DoubledZero(i);
      BitStepsOfZero(k);
    } else {
      HalvingKeepsLimit(v, i);
      ApplyColumns(m, k, i + 1, Shr1(v));
      assert m[i..][1..] == m[i + 1..];
      ApplyOneColumn(v, k, i);
    }
  }

  lemma OnlyZero(v: Word)
    requires v.bits <= ZERO.bits
    ensures v == ZERO
  {}

  lemma StepMatrixActs(m: seq<Word>, k: nat, v: Word)
    requires IsStepMatrix(m, k)
    ensures Apply(m, v) == BitSteps(v, k)
  {
    EveryWordFits(v);
    ApplyColumns(m, k, 0, v);
    assert m[0..] == m;
  }

  lemma EveryWordFits(v: Word)
    ensures v.bits <= ONES.bits
  {}
}
