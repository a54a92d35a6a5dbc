/**
 The checksum as it is computed: table generation, the word-at-a-time loop with its
 alignment prologue, and the combination of two checksums.  Every method is proved
 against the bit-at-a-time definition.
 */
module Crc {
  import opened Common
  import opened CrcSpec
  import opened CrcTables
  import CrcPolynomial

  // The next table column from this one: eight more clocks.
  lemma NextColumn(c: Word)
    ensures BitSteps(c, 8) == Xor(BitSteps(FromByte(LowByte(c)), 8), Shr8(c))
  {
    PeelByte(c, 8);
  }

  lemma EightSingleSteps(c: Word)
    ensures BitStep(BitStep(BitStep(BitStep(BitStep(BitStep(BitStep(BitStep(c)))))))) == BitSteps(c, 8)
  {
    var d := BitStep(BitStep(BitStep(BitStep(c))));
    assert d == BitSteps(c, 4) by {
      assert BitSteps(BitStep(c), 3) == BitSteps(BitStep(BitStep(c)), 2);
    }
    assert BitSteps(d, 4) == BitSteps(BitStep(d), 3);
    assert BitSteps(BitStep(d), 3) == BitSteps(BitStep(BitStep(d)), 2);
    BitStepsAdd(c, 4, 4);
  }

  // A byte shifted in through the first table.
  lemma OneByteByTable(c: Word, b: Byte)
    ensures ByteStep(c, b) == Xor(BitSteps(FromByte(LowByte(Xor(c, FromByte(b)))), 8), Shr8(c))
  {
    PeelByte(Xor(c, FromByte(b)), 8);
    HighBytesUnchanged(c, b);
  }

  lemma HighBytesUnchanged(c: Word, b: Byte)
    ensures Shr8(Xor(c, FromByte(b))) == Shr8(c)
  {}

  lemma RegisterExtend(start: Word, s: Bytes, p: nat, q: nat)
    requires p <= q <= |s|
    ensures Register(start, s[..q]) == Register(Register(start, s[..p]), s[p..q])
  {
    assert s[..q] == s[..p] + s[p..q];
    RegisterAppend(start, s[..p], s[p..q]);
  }

  lemma RegisterOfByte(c: Word, s: Bytes)
    requires |s| == 1
    ensures Register(c, s) == ByteStep(c, s[0])
  {
    assert s[1..] == [];
  }

  // `crc_matrix_square` computes the columns of the square.
  lemma SquareOfSteps(m: seq<Word>, sqr: seq<Word>, k: nat)
    requires IsStepMatrix(m, k)
    requires |sqr| == 32 && forall i: nat :: i < 32 ==> sqr[i] == Apply(m, m[i])
    ensures IsStepMatrix(sqr, 2 * k)
  {
    forall i: nat | i < 32 ensures sqr[i] == BitSteps(Doubled(Word(1), i), 2 * k) {
      StepMatrixActs(m, k, m[i]);
      BitStepsAdd(Doubled(Word(1), i), k, k);
    }
  }

  method CrcMatrixSquare(sqr: array<Word>, m: array<Word>)
    requires sqr != m && sqr.Length == 32 && m.Length == 32
    modifies sqr
    ensures forall i: nat :: i < 32 ==> sqr[i] == Apply(m[..], m[i])
  {
    for i := 0 to 32
      invariant forall k: nat :: k < i ==> sqr[k] == Apply(m[..], m[k])
    {
      var s := SumOfColumns(m, 0, m[i]);
      sqr[i] := s;
    }
  }

  // The sum of the columns from `first` on that the bits of `v` pick out.
  method SumOfColumns(m: array<Word>, first: nat, v0: Word) returns (s: Word)
    requires m.Length == 32 && first <= 32
    ensures s == Apply(m[first..], v0)
    ensures first == 0 ==> s == Apply(m[..], v0)
  {
    var j, v := first, v0;
    s := ZERO;
    XorZero(Apply(m[j..], v));
    assert m[0..] == m[..];
    while v != ZERO && j < 32
      invariant first <= j <= 32
      invariant Xor(s, Apply(m[j..], v)) == Apply(m[first..], v0)
      decreases 32 - j
    {
      assert m[j..][1..] == m[j + 1..];
      AddColumn(s, if Odd(v) then m[j] else ZERO, Apply(m[j + 1..], Shr1(v)));
      if Odd(v) {
        s := Xor(s, m[j]);
      }
      j, v := j + 1, Shr1(v);
    }
    if v == ZERO {
      ApplyToZero(m[j..]);
    }
    XorZero(s);
  }

  lemma AddColumn(s: Word, x: Word, y: Word)
    ensures Xor(s, Xor(x, y)) == Xor(Xor(s, x), y)
    ensures Xor(s, ZERO) == s
  {
    XorAssoc(s, x, y);
    XorZero(s);
  }

  // The sum of the columns that the bits of byte `k` pick out, from column 8 * j on.
  lemma ColumnsOfByte(m: seq<Word>, k: nat, b: Byte, j: nat)
    requires IsStepMatrix(m, k) && j < 4
    ensures Apply(m[8 * j..], FromByte(b)) == BitSteps(ByteAt(b, j), k)
  {
    ByteWithin(b, j);
    ApplyColumns(m, k, 8 * j, FromByte(b));
    DoubledByte(b, j);
  }

  lemma ByteWithin(b: Byte, j: nat)
    requires j < 4
    ensures Within(FromByte(b), 8 * j)
  {
    LimitValues();
    assert Limit(0) == ONES;
    ByteBelow(b);
  }

  lemma ByteBelow(b: Byte)
    ensures FromByte(b).bits <= 0xFF
  {}

  lemma {:induction false} DoubledByte(b: Byte, j: nat)
    ensures Doubled(FromByte(b), 8 * j) == ByteAt(b, j)
  {
    if j > 0 {
      DoubledByte(b, j - 1);
      DoubledAdd(FromByte(b), 8 * (j - 1), 8);
      DoubledEight(ByteAt(b, j - 1));
    }
  }

  lemma {:induction false} WithinNext(v: Word, i: nat)
    requires Within(v, i) && i < 32 && v != ZERO
    ensures Within(Shr1(v), i + 1)
  {
    HalvingKeepsLimit(v, i);
  }

  lemma NothingWithin32(v: Word)
    requires Within(v, 32)
    ensures v == ZERO
  {
    LimitValues();
    OnlyZero(v);
  }

  class Checksums {
    const crcTable: array2<Word>
    const crcCombineTable: array3<Word>

    ghost predicate Shape() {
      && crcTable.Length0 == 4 && crcTable.Length1 == 256
      && crcCombineTable.Length0 == 32 && crcCombineTable.Length1 == 4 && crcCombineTable.Length2 == 256
    }

    ghost predicate Valid()
      reads crcTable, crcCombineTable
    {
      Shape() && MainTableIs(crcTable) && CombineTableIs(crcCombineTable)
    }

    // mycrc32_init
    constructor ()
      ensures Valid() && fresh(crcTable) && fresh(crcCombineTable)
    {
      crcTable := new Word[4, 256]((_, _) => ZERO);
      crcCombineTable := new Word[32, 4, 256]((_, _, _) => ZERO);
      new;
      CrcGenerateMainTables();
      CrcGenerateCombineTables();
    }

    method CrcGenerateMainTables()
      requires Shape()
      modifies crcTable
      ensures MainTableIs(crcTable)
    {
      GenerateFirstTable();
      for i := 0 to 256
        invariant forall b: Byte :: crcTable[0, Idx(b)] == BitSteps(FromByte(b), 8)
        invariant forall b: Byte :: Idx(b) < i ==> EntriesOf(crcTable, b)
      {
        GenerateEntries(i);
        forall b: Byte | Idx(b) == i ensures b == ToByte(i) {
          IdxInjective(b, ToByte(i));
        }
      }
      assert forall b: Byte :: EntriesOf(crcTable, b);
    }

    method GenerateFirstTable()
      requires Shape()
      modifies crcTable
      ensures forall b: Byte :: crcTable[0, Idx(b)] == BitSteps(FromByte(b), 8)
    {
      for i := 0 to 256
        invariant forall b: Byte :: Idx(b) < i ==> crcTable[0, Idx(b)] == BitSteps(FromByte(b), 8)
      {
        var c := FromByte(ToByte(i));
        EightSingleSteps(c);
        c := BitStep(c);
        c := BitStep(c);
        c := BitStep(c);
        c := BitStep(c);
        c := BitStep(c);
        c := BitStep(c);
        c := BitStep(c);
        c := BitStep(c);
        crcTable[0, i] := c;
        forall b: Byte | Idx(b) == i ensures b == ToByte(i) {
          IdxInjective(b, ToByte(i));
        }
      }
    }

    // One turn of the second loop: columns 1 to 3 of row `i`.
    method GenerateEntries(i: nat)
      requires Shape() && i < 256
      requires forall b: Byte :: crcTable[0, Idx(b)] == BitSteps(FromByte(b), 8)
      modifies crcTable
      ensures EntriesOf(crcTable, ToByte(i))
      ensures forall j: nat, k: nat :: j < 4 && k < 256 && (j == 0 || k != i) ==>
                crcTable[j, k] == old(crcTable[j, k])
    {
      ghost var x := FromByte(ToByte(i));
      var c := crcTable[0, Idx(ToByte(i))];
      c := NextEntry(c, x, 8);
      crcTable[1, i] := c;
      c := NextEntry(c, x, 16);
      crcTable[2, i] := c;
      c := NextEntry(c, x, 24);
      crcTable[3, i] := c;
    }

    method NextEntry(c: Word, ghost x: Word, ghost n: nat) returns (d: Word)
      requires Shape()
      requires forall b: Byte :: crcTable[0, Idx(b)] == BitSteps(FromByte(b), 8)
      requires c == BitSteps(x, n)
      ensures d == BitSteps(x, n + 8)
    {
      NextColumn(c);
      BitStepsAdd(x, n, 8);
      d := Xor(crcTable[0, Idx(LowByte(c))], Shr8(c));
    }

    // CRC_ONE_BYTE
    method CrcOneByte(crc: Word, block: Bytes, p: nat, ghost start: Word) returns (r: Word)
      requires Valid() && p < |block|
      requires crc == Register(start, block[..p])
      ensures r == Register(start, block[..p + 1])
    {
      RegisterExtend(start, block, p, p + 1);
      RegisterOfByte(crc, block[p..p + 1]);
      OneByteByTable(crc, block[p]);
      r := Xor(crcTable[0, Idx(LowByte(Xor(crc, FromByte(block[p]))))], Shr8(crc));
    }

    // CRC_FOUR_BYTES, on a machine that stores a word low byte first
    method CrcFourBytes(crc: Word, block: Bytes, p: nat, ghost start: Word) returns (r: Word)
      requires Valid() && p + 4 <= |block|
      requires crc == Register(start, block[..p])
      ensures r == Register(start, block[..p + 4])
    {
      RegisterExtend(start, block, p, p + 4);
      RegisterOfWord(crc, block[p..p + 4]);
      var c := Xor(crc, LittleEndian(block[p..p + 4]));
      PeelWord(c, 32);
      r := Xor(Xor(Xor(crcTable[3, Idx(LowByte(c))],
                       crcTable[2, Idx(Byte1(c))]),
                   crcTable[1, Idx(Byte2(c))]),
               crcTable[0, Idx(Byte3(c))]);
    }

    // The unrolled body of the middle loop.
    method CrcEightWords(crc: Word, block: Bytes, p: nat, ghost start: Word) returns (r: Word)
      requires Valid() && p + 32 <= |block|
      requires crc == Register(start, block[..p])
      ensures r == Register(start, block[..p + 32])
    {
      r := CrcFourBytes(crc, block, p, start);
      r := CrcFourBytes(r, block, p + 4, start);
      r := CrcFourBytes(r, block, p + 8, start);
      r := CrcFourBytes(r, block, p + 12, start);
      r := CrcFourBytes(r, block, p + 16, start);
      r := CrcFourBytes(r, block, p + 20, start);
      r := CrcFourBytes(r, block, p + 24, start);
      r := CrcFourBytes(r, block, p + 28, start);
    }

    // `address` is where `block` lies in memory; only its alignment matters.
    method MyCrc32(crc: Word, block: Bytes, address: nat) returns (r: Word)
      requires Valid() && |block| < UINT32
      ensures r == Crc32(crc, block) && CrcPolynomial.IsChecksum(crc, block, r)
    {
      r := Xor(crc, ONES);
      r := ShiftIn(r, block, address);
      r := Xor(r, ONES);
      CrcPolynomial.ChecksumIsRemainder(crc, block, r);
    }

    method ShiftIn(start: Word, block: Bytes, address: nat) returns (r: Word)
      requires Valid() && |block| < UINT32
      ensures r == Register(start, block)
    {
      hide BitSteps, MainTableIs, CombineTableIs;
      var p, leng := 0, |block|;
      r := start;
      while leng > 0 && (address + p) % 4 != 0
        invariant 0 <= p <= |block| && leng == |block| - p
        invariant r == Register(start, block[..p])
      {
        r := CrcOneByte(r, block, p, start);
        p, leng := p + 1, leng - 1;
      }
      r, p := ShiftInWords(r, block, p, start);
      leng := |block| - p;
      while leng > 0
        invariant 0 <= p <= |block| && leng == |block| - p
        invariant r == Register(start, block[..p])
      {
        r := CrcOneByte(r, block, p, start);
        p, leng := p + 1, leng - 1;
      }
      assert block[..p] == block;
    }

    // The two loops that advance word by word.
    method ShiftInWords(crc: Word, block: Bytes, p0: nat, ghost start: Word) returns (r: Word, p: nat)
      requires Valid() && p0 <= |block|
      requires crc == Register(start, block[..p0])
      ensures p <= |block| && r == Register(start, block[..p])
      ensures |block| - p < 4
    {
      hide BitSteps, MainTableIs, CombineTableIs;
      var leng := |block| - p0;
      r, p := crc, p0;
      while leng >= 32
        invariant 0 <= p <= |block| && leng == |block| - p
        invariant r == Register(start, block[..p])
      {
        r := CrcEightWords(r, block, p, start);
        p, leng := p + 32, leng - 32;
      }
      while leng >= 4
        invariant 0 <= p <= |block| && leng == |block| - p
        invariant r == Register(start, block[..p])
      {
        r := CrcFourBytes(r, block, p, start);
        p, leng := p + 4, leng - 4;
      }
    }

    method CrcGenerateCombineTables()
      requires Shape()
      modifies crcCombineTable
      ensures CombineTableIs(crcCombineTable)
    {
      hide IsStepMatrix, CombineRowIs, BitSteps;
      var m1, m2 := new Word[32](_ => ZERO), new Word[32](_ => ZERO);
      FirstMatrix(m1);
      Square(m2, m1, 1);
      Square(m1, m2, 2);
      for i := 0 to 32
        invariant IsStepMatrix(if i % 2 == 0 then m1[..] else m2[..], 4 * Pow2(i))
        invariant forall a: nat, b: nat :: a < i && b < 4 ==> CombineRowIs(crcCombineTable, a, b)
      {
        if i % 2 == 1 {
          SquareAndFill(i, m1, m2);
        } else {
          SquareAndFill(i, m2, m1);
        }
      }
    }

    method SquareAndFill(i: nat, sqr: array<Word>, m: array<Word>)
      requires Shape() && i < 32 && sqr != m && sqr.Length == 32 && m.Length == 32
      requires IsStepMatrix(m[..], 4 * Pow2(i))
      modifies sqr, crcCombineTable
      ensures IsStepMatrix(sqr[..], 4 * Pow2(i + 1))
      ensures forall b: nat :: b < 4 ==> CombineRowIs(crcCombineTable, i, b)
      ensures forall a: nat, b: nat :: a < 32 && a != i && b < 4 && old(CombineRowIs(crcCombineTable, a, b)) ==>
                CombineRowIs(crcCombineTable, a, b)
    {
      hide IsStepMatrix, CombineRowIs;
      assert 2 * (4 * Pow2(i)) == 4 * Pow2(i + 1) == 8 * Pow2(i);
      Square(sqr, m, 4 * Pow2(i));
      FillRows(i, sqr);
    }

    method FillRows(i: nat, mc: array<Word>)
      requires Shape() && i < 32 && mc.Length == 32
      requires IsStepMatrix(mc[..], 8 * Pow2(i))
      modifies crcCombineTable
      ensures forall b: nat :: b < 4 ==> CombineRowIs(crcCombineTable, i, b)
      ensures forall a: nat, b: nat :: a < 32 && a != i && b < 4 && old(CombineRowIs(crcCombineTable, a, b)) ==>
                CombineRowIs(crcCombineTable, a, b)
    {
      for j := 0 to 4
        invariant forall b: nat :: b < j ==> CombineRowIs(crcCombineTable, i, b)
        invariant forall a: nat, b: nat :: a < 32 && a != i && b < 4 && old(CombineRowIs(crcCombineTable, a, b)) ==>
                    CombineRowIs(crcCombineTable, a, b)
      {
        FillRow(i, j, mc);
      }
    }

    method FillRow(i: nat, j: nat, mc: array<Word>)
      requires Shape() && i < 32 && j < 4 && mc.Length == 32
      requires IsStepMatrix(mc[..], 8 * Pow2(i))
      modifies crcCombineTable
      ensures CombineRowIs(crcCombineTable, i, j)
      ensures forall a: nat, b: nat ::
                a < 32 && b < 4 && (a != i || b != j) && old(CombineRowIs(crcCombineTable, a, b)) ==>
                CombineRowIs(crcCombineTable, a, b)
    {
      for k := 0 to 256
        invariant forall b: Byte :: Idx(b) < k ==>
                    crcCombineTable[i, j, Idx(b)] == BitSteps(ByteAt(b, j), 8 * Pow2(i))
        invariant forall a: nat, b: nat, c: nat :: a < 32 && b < 4 && c < 256 && (a != i || b != j) ==>
                    crcCombineTable[a, b, c] == old(crcCombineTable[a, b, c])
      {
        var sum := SumColumns(mc, j, ToByte(k));
        ColumnsOfByte(mc[..], 8 * Pow2(i), ToByte(k), j);
        crcCombineTable[i, j, k] := sum;
        forall b: Byte | Idx(b) == k ensures b == ToByte(k) {
          IdxInjective(b, ToByte(k));
        }
      }
    }

    method SumColumns(mc: array<Word>, j: nat, k: Byte) returns (sum: Word)
      requires mc.Length == 32 && j < 4
      ensures sum == Apply(mc[8 * j..], FromByte(k))
    {
      sum := ZERO;
      var l, m := FromByte(k), 8 * j;
      ghost var steps := 24;
      LimitValues();
      ByteBelow(k);
      XorZero(Apply(mc[m..], l));
      while l != ZERO
        invariant 24 <= steps <= 32 && m == 8 * j + (steps - 24) && Within(l, steps)
        invariant Xor(sum, Apply(mc[m..], l)) == Apply(mc[8 * j..], FromByte(k))
        decreases 32 - steps
      {
        if steps == 32 {
          NothingWithin32(l);
          assert false;
        }
        assert mc[m..][1..] == mc[m + 1..];
        AddColumn(sum, if Odd(l) then mc[m] else ZERO, Apply(mc[m + 1..], Shr1(l)));
        WithinNext(l, steps);
        if Odd(l) {
          sum := Xor(sum, mc[m]);
        }
        l, m, steps := Shr1(l), m + 1, steps + 1;
      }
      ApplyToZero(mc[m..]);
      XorZero(sum);
    }

    // The checksum of two blocks from the checksums of each and the length of the second.
    method MyCrc32Combine(crc1: Word, crc2: Word, leng2: nat) returns (r: Word)
      requires Valid() && leng2 < UINT32
      ensures r == Combine(crc1, crc2, leng2)
      ensures forall a, b ::
                crc1 == Crc32(ZERO, a) && crc2 == Crc32(ZERO, b) && leng2 == |b| ==> r == Crc32(ZERO, a + b)
    {
      hide Crc32, BitSteps;
      r := AppendManyZeros(crc1, leng2);
      r := Xor(r, crc2);
      forall a, b | crc1 == Crc32(ZERO, a) && crc2 == Crc32(ZERO, b) && leng2 == |b| ensures r == Crc32(ZERO, a + b) {
        CombineConcatenates(a, b);
      }
    }

    // The loop over the bits of the length.
    method AppendManyZeros(crc1: Word, leng2: nat) returns (c: Word)
      requires Valid() && leng2 < UINT32
      ensures c == BitSteps(crc1, 8 * leng2)
    {
      hide BitSteps;
      c := crc1;
      var n: nat, i: nat := leng2, 0;
      ghost var left := leng2;
      while n > 0
        invariant left == n * Pow2(i) && left <= leng2
        invariant BitSteps(c, 8 * left) == BitSteps(crc1, 8 * leng2)
        decreases n
      {
        IndexInRange(n, i);
        HalveLength(n, i);
        ghost var rest := (n / 2) * Pow2(i + 1);
        if n % 2 == 1 {
          OddLength(c, rest, left, i);
          c := AppendZeros(c, i);
        }
        n, i, left := n / 2, i + 1, rest;
      }
      NoSteps(c);
    }

    method AppendZeros(c: Word, i: nat) returns (d: Word)
      requires Valid() && i < 32
      ensures d == BitSteps(c, 8 * Pow2(i))
    {
      SumOfBytes(c, 8 * Pow2(i));
      var e3 := CombineEntry(i, 3, Byte3(c));
      var e2 := CombineEntry(i, 2, Byte2(c));
      var e1 := CombineEntry(i, 1, Byte1(c));
      var e0 := CombineEntry(i, 0, LowByte(c));
      d := Xor(Xor(Xor(e3, e2), e1), e0);
    }

    method CombineEntry(i: nat, j: nat, b: Byte) returns (e: Word)
      requires Valid() && i < 32 && j < 4
      ensures e == BitSteps(ByteAt(b, j), 8 * Pow2(i))
    {
      assert CombineRowIs(crcCombineTable, i, j);
      e := crcCombineTable[i, j, Idx(b)];
    }
  }

  // ----- Facts the methods use -------------------------------------------------------

  ghost predicate EntriesOf(t: array2<Word>, b: Byte)
    requires t.Length0 == 4 && t.Length1 == 256
    reads t
  {
    && t[1, Idx(b)] == BitSteps(FromByte(b), 16)
    && t[2, Idx(b)] == BitSteps(FromByte(b), 24)
    && t[3, Idx(b)] == BitSteps(FromByte(b), 32)
  }

  // A word is the sum of its four bytes, each in its place, so its image is the sum of theirs.
  lemma SumOfBytes(c: Word, n: nat)
    ensures BitSteps(c, n) ==
            Xor(Xor(Xor(BitSteps(ByteAt(Byte3(c), 3), n), BitSteps(ByteAt(Byte2(c), 2), n)),
                    BitSteps(ByteAt(Byte1(c), 1), n)),
                BitSteps(ByteAt(LowByte(c), 0), n))
  {
    var b0, b1 := ByteAt(LowByte(c), 0), ByteAt(Byte1(c), 1);
    var b2, b3 := ByteAt(Byte2(c), 2), ByteAt(Byte3(c), 3);
    WordOfBytes(c);
    BitStepsLinear(Xor(Xor(b3, b2), b1), b0, n);
    BitStepsLinear(Xor(b3, b2), b1, n);
    BitStepsLinear(b3, b2, n);
  }

  lemma WordOfBytes(c: Word)
    ensures c == Xor(Xor(Xor(ByteAt(Byte3(c), 3), ByteAt(Byte2(c), 2)), ByteAt(Byte1(c), 1)),
                     ByteAt(LowByte(c), 0))
  {
    var c1 := Shr8(c);
    var c2 := Shr8(c1);
    var c3 := Shr8(c2);
    BytesBySteps(c);
    SplitWord(c);
    SplitWord(c1);
    SplitWord(c2);
    SplitWord(c3);
    var b0, b1, b2, b3 := FromByte(LowByte(c)), FromByte(Byte1(c)), FromByte(Byte2(c)), FromByte(Byte3(c));
    Shl8Zero();
    XorZero(b3);
    Shl8Linear(b2, Shl8(b3));
    Shl8Linear(b1, Shl8(c2));
    Shl8Linear(Shl8(b2), Shl8(Shl8(b3)));
    ReverseSum(b0, Shl8(b1), Shl8(Shl8(b2)), Shl8(Shl8(Shl8(b3))));
    InPlace(Byte1(c));
    InPlace(Byte2(c));
    InPlace(Byte3(c));
  }

  lemma InPlace(b: Byte)
    ensures ByteAt(b, 0) == FromByte(b)
    ensures ByteAt(b, 1) == Shl8(FromByte(b))
    ensures ByteAt(b, 2) == Shl8(Shl8(FromByte(b)))
    ensures ByteAt(b, 3) == Shl8(Shl8(Shl8(FromByte(b))))
  {
    assert ByteAt(b, 2) == Shl8(ByteAt(b, 1));
  }

  lemma Shl8Zero()
    ensures Shl8(ZERO) == ZERO
  {}

  lemma Shl8Linear(a: Word, b: Word)
    ensures Shl8(Xor(a, b)) == Xor(Shl8(a), Shl8(b))
  {}

  lemma ReverseSum(a: Word, b: Word, c: Word, d: Word)
    ensures Xor(a, Xor(b, Xor(c, d))) == Xor(Xor(Xor(d, c), b), a)
  {
    XorComm(c, d);
    XorComm(b, Xor(d, c));
    XorComm(a, Xor(Xor(d, c), b));
  }

  lemma Pow2Add(m: nat, n: nat)
    ensures Pow2(m + n) == Pow2(m) * Pow2(n)
  {
    if n > 0 {
      Pow2Add(m, n - 1);
      assert Pow2(m + n) == 2 * (Pow2(m) * Pow2(n - 1)) == Pow2(m) * (2 * Pow2(n - 1));
    }
  }

  lemma Pow2Of32()
    ensures Pow2(32) == UINT32
  {
    assert Pow2(4) == 16;
    Pow2Add(4, 4);
    Pow2Add(8, 8);
    Pow2Add(16, 16);
  }

  lemma IndexInRange(n: nat, i: nat)
    requires n > 0 && n * Pow2(i) < UINT32
    ensures i < 32
  {
    if i >= 32 {
      LargePow2(i);
      AtLeast(n, Pow2(i));
    }
  }

  lemma LargePow2(i: nat)
    requires i >= 32
    ensures Pow2(i) >= UINT32
  {
    Pow2Of32();
    Pow2Add(32, i - 32);
    Pow2Positive(i - 32);
    AtLeast(Pow2(i - 32), Pow2(32));
  }

  lemma AtLeast(n: nat, x: nat)
    requires n > 0
    ensures n * x >= x
  {}

  lemma Pow2Positive(i: nat)
    ensures Pow2(i) >= 1
  {}

  lemma HalveLength(n: nat, i: nat)
    ensures n * Pow2(i) == (n / 2) * Pow2(i + 1) + (if n % 2 == 1 then Pow2(i) else 0)
  {
    assert n == 2 * (n / 2) + n % 2;
  }

  lemma NoSteps(c: Word)
    ensures BitSteps(c, 0) == c
  {}

  lemma OddLength(c: Word, rest: nat, left: nat, i: nat)
    requires left == rest + Pow2(i)
    ensures BitSteps(BitSteps(c, 8 * Pow2(i)), 8 * rest) == BitSteps(c, 8 * left)
  {
    BitStepsAdd(c, 8 * Pow2(i), 8 * rest);
  }

  lemma OneStepMatrix(m: seq<Word>)
    requires |m| == 32 && m[0] == POLY
    requires forall k: nat :: 1 <= k < 32 ==> m[k] == Doubled(Word(1), k - 1)
    ensures IsStepMatrix(m, 1)
  {
    forall i: nat | i < 32 ensures m[i] == BitSteps(Doubled(Word(1), i), 1) {
      var u := Doubled(Word(1), i);
      assert BitSteps(u, 1) == BitSteps(BitStep(u), 0);
      if i == 0 {
        StepOfOne();
      } else {
        UnitBelowTop(i - 1);
        StepUndoesShl1(Doubled(Word(1), i - 1));
      }
    }
  }

  lemma StepOfOne()
    ensures BitStep(Word(1)) == POLY
  {}

  lemma {:induction false} UnitWithin(i: nat)
    requires i <= 31
    ensures Within(Doubled(Word(1), i), 31 - i)
  {
    if i == 0 {
      LastLimit();
    } else {
      UnitWithin(i - 1);
      DoublingWithin(Doubled(Word(1), i - 1), 31 - i);
    }
  }

  lemma LastLimit()
    ensures Limit(31) == Word(1)
  {
    LimitValues();
    LimitFour(24, 0xFF);
    assert Limit(31) == Shr1(Limit(30));
    assert Limit(30) == Shr1(Limit(29));
    assert Limit(29) == Shr1(Limit(28));
    ThreeShr1(0xF);
  }

  lemma ThreeShr1(x: bv32)
    ensures Shr1(Shr1(Shr1(Word(x)))) == Word(x >> 3)
  {}

  lemma DoublingWithin(a: Word, n: nat)
    requires Within(a, n + 1)
    ensures Within(Shl1(a), n) && !Top(a)
  {
    DoublingBelow(a, Limit(n));
  }

  lemma DoublingBelow(a: Word, b: Word)
    requires a.bits <= Shr1(b).bits
    ensures Shl1(a).bits <= b.bits && !Top(a)
  {}

  lemma UnitBelowTop(i: nat)
    requires i <= 30
    ensures !Top(Doubled(Word(1), i))
  {
    UnitWithin(i);
    DoublingWithin(Doubled(Word(1), i), 30 - i);
  }

  method FirstMatrix(m1: array<Word>)
    requires m1.Length == 32
    modifies m1
    ensures IsStepMatrix(m1[..], 1)
  {
    m1[0] := POLY;
    var j := Word(1);
    for i := 1 to 32
      invariant m1[0] == POLY && j == Doubled(Word(1), i - 1)
      invariant forall k: nat :: 1 <= k < i ==> m1[k] == Doubled(Word(1), k - 1)
    {
      m1[i] := j;
      j := Shl1(j);
    }
    OneStepMatrix(m1[..]);
  }

  method Square(sqr: array<Word>, m: array<Word>, ghost k: nat)
    requires sqr != m && sqr.Length == 32 && m.Length == 32
    requires IsStepMatrix(m[..], k)
    modifies sqr
    ensures IsStepMatrix(sqr[..], 2 * k)
  {
    CrcMatrixSquare(sqr, m);
    SquareOfSteps(m[..], sqr[..], k);
  }

  // ----- What the combination and the macros around it are for -----------------------

  // What `MyCrc32Combine` returns.
  function Combine(crc1: Word, crc2: Word, leng2: nat): Word {
    Xor(BitSteps(crc1, 8 * leng2), crc2)
  }

  // mycrc32_zeroblock
  function ZeroBlock(crc: Word, zeros: nat): Word {
    Combine(Xor(crc, ONES), ONES, zeros)
  }

  // mycrc32_zeroexpanded
  function ZeroExpanded(crc: Word, block: Bytes, zeros: nat): Word {
    ZeroBlock(Crc32(crc, block), zeros)
  }

  // mycrc32_xorblocks
  function XorBlocks(crc: Word, crcBlock1: Word, crcBlock2: Word, leng: nat): Word {
    Xor(Xor(crcBlock1, crcBlock2), ZeroBlock(crc, leng))
  }

  lemma CombineConcatenates(a: Bytes, b: Bytes)
    ensures Combine(Crc32(ZERO, a), Crc32(ZERO, b), |b|) == Crc32(ZERO, a + b)
  {
    var i := Xor(ZERO, ONES);
    XorZero(ONES);
    var ra := Register(i, a);
    var n := 8 * |b|;
    RegisterAppend(i, a, b);
    RegisterSplit(ra, b);
    RegisterSplit(i, b);
    BitStepsLinear(ra, ONES, n);
    var za, zi, r := BitSteps(ra, n), BitSteps(ONES, n), Register(ZERO, b);
    CancelMiddle(za, zi, r, ONES);
  }

  lemma CancelMiddle(a: Word, m: Word, r: Word, o: Word)
    ensures Xor(Xor(a, m), Xor(Xor(m, r), o)) == Xor(Xor(a, r), o)
  {
    XorAssoc(Xor(a, m), Xor(m, r), o);
    XorAssoc(Xor(a, m), m, r);
    XorTwice(a, m);
  }

  lemma ZeroExpandedAppendsZeros(crc: Word, block: Bytes, zeros: nat)
    ensures ZeroExpanded(crc, block, zeros) == Crc32(crc, block + Zeros(zeros))
  {
    var r := Register(Xor(crc, ONES), block);
    RegisterAppend(Xor(crc, ONES), block, Zeros(zeros));
    RegisterOfZeros(r, zeros);
    XorTwice(r, ONES);
  }

  lemma XorBlocksXors(crc: Word, b1: Bytes, b2: Bytes)
    requires |b1| == |b2|
    ensures XorBlocks(crc, Crc32(crc, b1), Crc32(crc, b2), |b1|) == Crc32(crc, XorBytes(b1, b2))
  {
    var i := Xor(crc, ONES);
    var n := 8 * |b1|;
    var r1, r2, z := Register(i, b1), Register(i, b2), BitSteps(i, n);
    XorTwice(i, i);
    RegisterLinear(i, i, b1, b2);
    XorSelf(i);
    RegisterSplit(i, XorBytes(b1, b2));
    XorPairs(r1, ONES, r2, ONES);
    XorSelf(ONES);
    XorZero(Xor(r1, r2));
    XorComm(z, Register(ZERO, XorBytes(b1, b2)));
    XorAssoc(Xor(r1, r2), z, ONES);
    XorComm(Xor(r1, r2), z);
  }

  lemma XorSelf(a: Word)
    ensures Xor(a, a) == ZERO
  {}
}
