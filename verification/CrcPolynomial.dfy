/**
 What the checksum is: the remainder of the message, read as a polynomial over GF(2), on
 division by the generator of section 8 of RFC 1952.  A polynomial is the set of the exponents
 whose coefficient is one.
 */
module CrcPolynomial {
  import opened Common
  import opened CrcSpec

  type Poly = set<nat>

  function Generator(): Poly {
    {32, 26, 23, 22, 16, 12, 11, 10, 8, 7, 5, 4, 2, 1, 0}
  }

  function Sum(a: Poly, b: Poly): Poly { (a - b) + (b - a) }

  // Times x to the n.
  function Shifted(a: Poly, n: nat): Poly { set e | e in a :: e + n }

  // The pairs of exponents of `q` and of the generator that add up to `n`, by the former.
  ghost function Pairs(q: Poly, n: nat): set<nat> {
    set e | e in q && e <= n && n - e in Generator()
  }

  // `a` is the product of `q` and the generator, coefficient by coefficient.
  ghost predicate IsProduct(a: Poly, q: Poly) {
    forall n: nat :: n in a <==> |Pairs(q, n)| % 2 == 1
  }

  ghost predicate Multiple(a: Poly) { exists q :: IsProduct(a, q) }

  // ----- Bits and coefficients -------------------------------------------------------

  function Half(w: Word): Word { Word(w.bits >> 1) }

  predicate LowBit(w: Word) { w.bits & 1 == 1 }

  function Shr(w: Word, j: nat): Word {
    if j == 0 then w else Half(Shr(w, j - 1))
  }

  function ByteShr(b: Byte, j: nat): Byte {
    if j == 0 then b else ByteShr(b, j - 1) >> 1
  }

  predicate Bit(w: Word, j: nat) { LowBit(Shr(w, j)) }

  predicate ByteBit(b: Byte, j: nat) { ByteShr(b, j) & 1 == 1 }

  // The register is reflected: its lowest bit has the greatest exponent.
  predicate Coefficient(w: Word, n: nat) { n < 32 && Bit(w, 31 - n) }

  function PolyOf(w: Word): Poly { set n | 0 <= n < 32 && Coefficient(w, n) }

  function Complement(w: Word): Poly { set n | 0 <= n < 32 && !Coefficient(w, n) }

  // The message: byte by byte, the lowest bit of each first, the exponents going down to 0.
  predicate MessageBit(s: Bytes, n: nat) {
    n < 8 * |s| &&
    var k := 8 * |s| - 1 - n;
    ByteBit(s[k / 8], k % 8)
  }

  function Message(s: Bytes): Poly {
    set n | 0 <= n < 8 * |s| && MessageBit(s, n)
  }

  // ----- Sums and shifts -------------------------------------------------------------

  lemma SumAssoc(a: Poly, b: Poly, c: Poly)
    ensures Sum(Sum(a, b), c) == Sum(a, Sum(b, c))
  {}

  lemma SumComm(a: Poly, b: Poly)
    ensures Sum(a, b) == Sum(b, a)
  {}

  lemma SumSelf(a: Poly)
    ensures Sum(a, a) == {} && Sum(a, {}) == a && Sum({}, a) == a
  {}

  lemma InShifted(a: Poly, n: nat, e: nat)
    ensures e in Shifted(a, n) <==> e >= n && e - n in a
  {
    if e >= n && e - n in a {
      assert (e - n) + n in Shifted(a, n);
    }
  }

  lemma ShiftedSum(a: Poly, b: Poly, n: nat)
    ensures Shifted(Sum(a, b), n) == Sum(Shifted(a, n), Shifted(b, n))
  {}

  lemma ShiftedTwice(a: Poly, m: nat, n: nat)
    ensures Shifted(Shifted(a, m), n) == Shifted(a, m + n)
  {
    hide Shifted;
    forall e: nat ensures e in Shifted(Shifted(a, m), n) <==> e in Shifted(a, m + n) {
      InShifted(Shifted(a, m), n, e);
      InShifted(a, m + n, e);
      if e >= n {
        InShifted(a, m, e - n);
      }
    }
  }

  lemma ShiftedByNone(a: Poly)
    ensures Shifted(a, 0) == a && Shifted({}, 0) == {}
  {
    hide Shifted;
    forall e: nat ensures e in Shifted(a, 0) <==> e in a {
      InShifted(a, 0, e);
    }
    forall e: nat ensures e !in Shifted({}, 0) {
      InShifted({}, 0, e);
    }
  }

  lemma SumCount(a: set<nat>, b: set<nat>)
    ensures |Sum(a, b)| % 2 == (|a| + |b|) % 2
  {
    assert a == (a - b) + (a * b) && b == (b - a) + (a * b);
    assert |a| == |a - b| + |a * b| && |b| == |b - a| + |a * b|;
    assert |Sum(a, b)| == |a - b| + |b - a|;
  }

  // ----- Multiples of the generator --------------------------------------------------

  lemma MultipleSum(a: Poly, b: Poly)
    requires Multiple(a) && Multiple(b)
    ensures Multiple(Sum(a, b))
  {
    hide Pairs, Sum, IsProduct;
    var p :| IsProduct(a, p);
    var q :| IsProduct(b, q);
    forall n: nat ensures n in Sum(a, b) <==> |Pairs(Sum(p, q), n)| % 2 == 1 {
      ProductAt(a, p, n);
      ProductAt(b, q, n);
      PairsSum(p, q, n);
      SumCount(Pairs(p, n), Pairs(q, n));
      InSum(a, b, n);
    }
    ProductWhen(Sum(a, b), Sum(p, q));
  }

  lemma ProductAt(a: Poly, q: Poly, n: nat)
    requires IsProduct(a, q)
    ensures n in a <==> |Pairs(q, n)| % 2 == 1
  {
    hide Pairs;
  }

  lemma ProductWhen(a: Poly, q: Poly)
    requires forall n: nat :: n in a <==> |Pairs(q, n)| % 2 == 1
    ensures IsProduct(a, q)
  {
    hide Pairs;
  }

  lemma InSum(a: Poly, b: Poly, n: nat)
    ensures n in Sum(a, b) <==> (n in a) != (n in b)
  {}

  lemma PairsSum(p: Poly, q: Poly, n: nat)
    ensures Pairs(Sum(p, q), n) == Sum(Pairs(p, n), Pairs(q, n))
  {
    hide Generator;
  }

  lemma MultipleShifted(a: Poly, k: nat)
    requires Multiple(a)
    ensures Multiple(Shifted(a, k))
  {
    hide Pairs, Shifted;
    var q :| IsProduct(a, q);
    forall n: nat ensures n in Shifted(a, k) <==> |Pairs(Shifted(q, k), n)| % 2 == 1 {
      InShifted(a, k, n);
      if n >= k {
        PairsShifted(q, n - k, k);
      } else {
        NoPairs(q, k, n);
      }
    }
    assert IsProduct(Shifted(a, k), Shifted(q, k));
  }

  lemma NoPairs(q: Poly, k: nat, n: nat)
    requires n < k
    ensures Pairs(Shifted(q, k), n) == {}
  {
    hide Generator;
  }

  lemma PairsShifted(q: Poly, n: nat, k: nat)
    ensures |Pairs(Shifted(q, k), n + k)| == |Pairs(q, n)|
  {
    hide Generator, Shifted;
    var a, b := Pairs(Shifted(q, k), n + k), Shifted(Pairs(q, n), k);
    forall e: nat ensures e in a <==> e in b {
      InShifted(q, k, e);
      InShifted(Pairs(q, n), k, e);
      if e >= k {
        assert (n + k) - e == n - (e - k);
      }
    }
    assert a == b;
    ShiftedCount(Pairs(q, n), k);
  }

  lemma {:induction false} ShiftedCount(a: set<nat>, k: nat)
    ensures |Shifted(a, k)| == |a|
    decreases |a|
  {
    hide Shifted;
    if a == {} {
      forall e: nat ensures e !in Shifted(a, k) {
        InShifted(a, k, e);
      }
      assert Shifted(a, k) == {};
    } else {
      var x :| x in a;
      ShiftedCount(a - {x}, k);
      forall e: nat ensures e in Shifted(a, k) <==> e in Shifted(a - {x}, k) + {x + k} {
        InShifted(a, k, e);
        InShifted(a - {x}, k, e);
      }
      InShifted(a - {x}, k, x + k);
      assert Shifted(a, k) == Shifted(a - {x}, k) + {x + k};
    }
  }

  lemma GeneratorIsMultiple()
    ensures Multiple(Generator()) && Multiple({})
  {
    hide Generator;
    forall n: nat ensures n in Generator() <==> |Pairs({0}, n)| % 2 == 1 {
      assert Pairs({0}, n) == if n in Generator() then {0} else {};
    }
    assert IsProduct(Generator(), {0});
    forall n: nat ensures |Pairs({}, n)| == 0 {
      assert Pairs({}, n) == {};
    }
    assert IsProduct({}, {});
  }

  // A multiple of the generator other than zero has an exponent from 32 on.
  lemma SmallMultiple(a: Poly)
    requires Multiple(a) && a != {}
    ensures exists n :: n in a && n >= 32
  {
    hide Generator;
    var q :| IsProduct(a, q);
    if q == {} {
      NoProduct(a);
    } else {
      var m := Leading(q);
      LeadingPair(q, m);
      assert m + 32 in a;
    }
  }

  lemma NoProduct(a: Poly)
    requires IsProduct(a, {})
    ensures a == {}
  {
    forall n: nat ensures n !in a {
      assert Pairs({}, n) == {};
    }
  }

  lemma LeadingPair(q: Poly, m: nat)
    requires m in q && forall e :: e in q ==> e <= m
    ensures Pairs(q, m + 32) == {m}
  {
    GeneratorDegree();
    hide Generator;
    assert m + 32 - m == 32;
    forall e | e in q && e <= m + 32 && m + 32 - e in Generator() ensures e == m {
      assert m + 32 - e <= 32;
    }
  }

  lemma GeneratorDegree()
    ensures 32 in Generator() && forall e :: e in Generator() ==> e <= 32
  {}

  lemma {:induction false} Leading(q: Poly) returns (m: nat)
    requires q != {}
    ensures m in q && forall e :: e in q ==> e <= m
    decreases |q|
  {
    m :| m in q;
    if q != {m} {
      assert q - {m} != {};
      var k := Leading(q - {m});
      assert q == (q - {m}) + {m};
      if k > m {
        m := k;
      }
    }
  }

  // ----- One step of the register ----------------------------------------------------

  lemma {:induction false} ShrFirst(w: Word, j: nat)
    ensures Shr(Half(w), j) == Shr(w, j + 1)
    decreases j
  {
    hide Half;
    if j > 0 {
      ShrFirst(w, j - 1);
    }
  }

  lemma {:induction false} ShrXor(a: Word, b: Word, j: nat)
    ensures Shr(Xor(a, b), j) == Xor(Shr(a, j), Shr(b, j))
    decreases j
  {
    hide Half, Xor;
    if j > 0 {
      ShrXor(a, b, j - 1);
      HalfXor(Shr(a, j - 1), Shr(b, j - 1));
    }
  }

  lemma HalfXor(a: Word, b: Word)
    ensures Half(Xor(a, b)) == Xor(Half(a), Half(b))
    ensures LowBit(Xor(a, b)) <==> LowBit(a) != LowBit(b)
  {}

  lemma BitXor(a: Word, b: Word, j: nat)
    ensures Bit(Xor(a, b), j) <==> Bit(a, j) != Bit(b, j)
  {
    hide Half, LowBit, Xor, Shr;
    ShrXor(a, b, j);
    HalfXor(Shr(a, j), Shr(b, j));
  }

  predicate AtMost(w: Word, bound: Word) { w.bits <= bound.bits }

  lemma {:induction false} ShrBound(w: Word, bound: Word, j: nat)
    requires AtMost(w, bound)
    ensures AtMost(Shr(w, j), Shr(bound, j))
    decreases j
  {
    hide Half, AtMost;
    if j > 0 {
      ShrBound(w, bound, j - 1);
      HalfBound(Shr(w, j - 1), Shr(bound, j - 1));
    }
  }

  lemma HalfBound(a: Word, b: Word)
    requires AtMost(a, b)
    ensures AtMost(Half(a), Half(b))
  {}

  // No bit of a word is beyond the 32 there are.
  lemma NoBit(w: Word)
    ensures !Bit(w, 32)
  {
    hide Half, Shr, AtMost, LowBit;
    AnyWord(w);
    ShrBound(w, Word(0xFFFF_FFFF), 32);
    AllShiftedOut();
    NothingLeft(Shr(w, 32));
  }

  lemma AnyWord(w: Word)
    ensures AtMost(w, Word(0xFFFF_FFFF))
  {}

  lemma NothingLeft(w: Word)
    requires AtMost(w, Word(0))
    ensures !LowBit(w)
  {}

  lemma AllShiftedOut()
    ensures Shr(Word(0xFFFF_FFFF), 32) == Word(0)
  {
    assert Shr(Word(0xFFFF_FFFF), 1) == Word(0x7FFFFFFF);
    assert Shr(Word(0xFFFF_FFFF), 2) == Word(0x3FFFFFFF);
    assert Shr(Word(0xFFFF_FFFF), 3) == Word(0x1FFFFFFF);
    assert Shr(Word(0xFFFF_FFFF), 4) == Word(0xFFFFFFF);
    assert Shr(Word(0xFFFF_FFFF), 5) == Word(0x7FFFFFF);
    assert Shr(Word(0xFFFF_FFFF), 6) == Word(0x3FFFFFF);
    assert Shr(Word(0xFFFF_FFFF), 7) == Word(0x1FFFFFF);
    assert Shr(Word(0xFFFF_FFFF), 8) == Word(0xFFFFFF);
    assert Shr(Word(0xFFFF_FFFF), 9) == Word(0x7FFFFF);
    assert Shr(Word(0xFFFF_FFFF), 10) == Word(0x3FFFFF);
    assert Shr(Word(0xFFFF_FFFF), 11) == Word(0x1FFFFF);
    assert Shr(Word(0xFFFF_FFFF), 12) == Word(0xFFFFF);
    assert Shr(Word(0xFFFF_FFFF), 13) == Word(0x7FFFF);
    assert Shr(Word(0xFFFF_FFFF), 14) == Word(0x3FFFF);
    assert Shr(Word(0xFFFF_FFFF), 15) == Word(0x1FFFF);
    assert Shr(Word(0xFFFF_FFFF), 16) == Word(0xFFFF);
    assert Shr(Word(0xFFFF_FFFF), 17) == Word(0x7FFF);
    assert Shr(Word(0xFFFF_FFFF), 18) == Word(0x3FFF);
    assert Shr(Word(0xFFFF_FFFF), 19) == Word(0x1FFF);
    assert Shr(Word(0xFFFF_FFFF), 20) == Word(0xFFF);
    assert Shr(Word(0xFFFF_FFFF), 21) == Word(0x7FF);
    assert Shr(Word(0xFFFF_FFFF), 22) == Word(0x3FF);
    assert Shr(Word(0xFFFF_FFFF), 23) == Word(0x1FF);
    assert Shr(Word(0xFFFF_FFFF), 24) == Word(0xFF);
    assert Shr(Word(0xFFFF_FFFF), 25) == Word(0x7F);
    assert Shr(Word(0xFFFF_FFFF), 26) == Word(0x3F);
    assert Shr(Word(0xFFFF_FFFF), 27) == Word(0x1F);
    assert Shr(Word(0xFFFF_FFFF), 28) == Word(0xF);
    assert Shr(Word(0xFFFF_FFFF), 29) == Word(0x7);
    assert Shr(Word(0xFFFF_FFFF), 30) == Word(0x3);
    assert Shr(Word(0xFFFF_FFFF), 31) == Word(0x1);
  }

  // The bits of the program's constant are the exponents of the generator below 32.
  lemma ConstantBits()
    ensures forall n :: 0 <= n < 32 ==> (Coefficient(POLY, n) <==> n in Generator())
  {
    assert Shr(POLY, 0) == Word(0xEDB8_8320);
    assert Shr(POLY, 0) == Word(0xEDB8_8320);
    assert Shr(POLY, 1) == Word(0x76DC4190);
    assert Shr(POLY, 2) == Word(0x3B6E20C8);
    assert Shr(POLY, 3) == Word(0x1DB71064);
    assert Shr(POLY, 4) == Word(0xEDB8832);
    assert Shr(POLY, 5) == Word(0x76DC419);
    assert Shr(POLY, 6) == Word(0x3B6E20C);
    assert Shr(POLY, 7) == Word(0x1DB7106);
    assert Shr(POLY, 8) == Word(0xEDB883);
    assert Shr(POLY, 9) == Word(0x76DC41);
    assert Shr(POLY, 10) == Word(0x3B6E20);
    assert Shr(POLY, 11) == Word(0x1DB710);
    assert Shr(POLY, 12) == Word(0xEDB88);
    assert Shr(POLY, 13) == Word(0x76DC4);
    assert Shr(POLY, 14) == Word(0x3B6E2);
    assert Shr(POLY, 15) == Word(0x1DB71);
    assert Shr(POLY, 16) == Word(0xEDB8);
    assert Shr(POLY, 17) == Word(0x76DC);
    assert Shr(POLY, 18) == Word(0x3B6E);
    assert Shr(POLY, 19) == Word(0x1DB7);
    assert Shr(POLY, 20) == Word(0xEDB);
    assert Shr(POLY, 21) == Word(0x76D);
    assert Shr(POLY, 22) == Word(0x3B6);
    assert Shr(POLY, 23) == Word(0x1DB);
    assert Shr(POLY, 24) == Word(0xED);
    assert Shr(POLY, 25) == Word(0x76);
    assert Shr(POLY, 26) == Word(0x3B);
    assert Shr(POLY, 27) == Word(0x1D);
    assert Shr(POLY, 28) == Word(0xE);
    assert Shr(POLY, 29) == Word(0x7);
    assert Shr(POLY, 30) == Word(0x3);
    assert Shr(POLY, 31) == Word(0x1);
  }

  lemma InPoly(w: Word, n: nat)
    ensures n in PolyOf(w) <==> Coefficient(w, n)
  {}

  lemma PolyXor(a: Word, b: Word)
    ensures PolyOf(Xor(a, b)) == Sum(PolyOf(a), PolyOf(b))
  {
    hide Bit, Xor;
    forall n: nat ensures n in PolyOf(Xor(a, b)) <==> n in Sum(PolyOf(a), PolyOf(b)) {
      if n < 32 {
        BitXor(a, b, 31 - n);
      }
    }
  }

  // A step is a multiplication by x, less the generator if that makes for an x to the 32.
  lemma StepPoly(c: Word)
    ensures PolyOf(BitStep(c)) == Sum(Shifted(PolyOf(c), 1), if Coefficient(c, 31) then Generator() else {})
  {
    hide Generator, Shifted, Coefficient, BitStep;
    ConstantBits();
    GeneratorDegree();
    var right := Sum(Shifted(PolyOf(c), 1), if Coefficient(c, 31) then Generator() else {});
    forall n: nat ensures n in PolyOf(BitStep(c)) <==> n in right {
      InShifted(PolyOf(c), 1, n);
      InPoly(BitStep(c), n);
      if n > 0 {
        InPoly(c, n - 1);
      }
      if n < 32 {
        StepCoefficient(c, n);
      } else {
        NoCoefficient(BitStep(c), n);
        NoCoefficient(c, n - 1);
      }
    }
  }

  lemma NoCoefficient(w: Word, n: nat)
    ensures n >= 32 ==> !Coefficient(w, n)
  {}

  lemma StepCoefficient(c: Word, n: nat)
    requires n < 32
    ensures Coefficient(BitStep(c), n) <==>
            (n > 0 && Coefficient(c, n - 1)) != (Coefficient(c, 31) && Coefficient(POLY, n))
  {
    hide Half, Xor, Shr1, Shr, LowBit, Odd;
    ShiftIsHalf(c);
    ShrFirst(c, 31 - n);
    BitXor(POLY, Half(c), 31 - n);
    NoBit(c);
    LowestBit(c);
  }

  lemma ShiftIsHalf(c: Word)
    ensures Shr1(c) == Half(c)
  {}

  lemma LowestBit(c: Word)
    ensures Bit(c, 0) <==> Odd(c)
  {}

  // ----- Congruence ------------------------------------------------------------------

  ghost predicate Congruent(a: Poly, b: Poly) { Multiple(Sum(a, b)) }

  lemma Same(a: Poly)
    ensures Congruent(a, a)
  {
    SumSelf(a);
    GeneratorIsMultiple();
  }

  lemma Chain(a: Poly, b: Poly, c: Poly)
    requires Congruent(a, b) && Congruent(b, c)
    ensures Congruent(a, c)
  {
    hide Multiple, Sum;
    MultipleSum(Sum(a, b), Sum(b, c));
    SumAssoc(Sum(a, b), b, c);
    SumAssoc(a, b, b);
    SumSelf(b);
    SumSelf(a);
  }

  lemma Added(a: Poly, b: Poly, c: Poly, d: Poly)
    requires Congruent(a, b) && Congruent(c, d)
    ensures Congruent(Sum(a, c), Sum(b, d))
  {
    hide Multiple;
    MultipleSum(Sum(a, b), Sum(c, d));
    assert Sum(Sum(a, b), Sum(c, d)) == Sum(Sum(a, c), Sum(b, d));
  }

  lemma TimesX(a: Poly, b: Poly, n: nat)
    requires Congruent(a, b)
    ensures Congruent(Shifted(a, n), Shifted(b, n))
  {
    hide Multiple, Sum, Shifted;
    MultipleShifted(Sum(a, b), n);
    ShiftedSum(a, b, n);
  }

  // ----- The register ----------------------------------------------------------------

  lemma StepCongruent(c: Word)
    ensures Congruent(PolyOf(BitStep(c)), Shifted(PolyOf(c), 1))
  {
    hide Multiple, Generator, Shifted, BitStep, PolyOf, Coefficient;
    StepPoly(c);
    var x, g := Shifted(PolyOf(c), 1), if Coefficient(c, 31) then Generator() else {};
    assert Sum(Sum(x, g), x) == g;
    GeneratorIsMultiple();
  }

  lemma {:induction false} StepsCongruent(c: Word, n: nat)
    ensures Congruent(PolyOf(BitSteps(c, n)), Shifted(PolyOf(c), n))
    decreases n
  {
    hide Congruent, Shifted, PolyOf, BitStep;
    if n == 0 {
      ShiftedByNone(PolyOf(c));
      Same(PolyOf(c));
    } else {
      StepsCongruent(BitStep(c), n - 1);
      StepCongruent(c);
      TimesX(PolyOf(BitStep(c)), Shifted(PolyOf(c), 1), n - 1);
      ShiftedTwice(PolyOf(c), 1, n - 1);
      Chain(PolyOf(BitSteps(c, n)), Shifted(PolyOf(BitStep(c)), n - 1), Shifted(PolyOf(c), n));
    }
  }

  lemma {:induction false} ByteBits(b: Byte, j: nat)
    ensures Shr(FromByte(b), j) == FromByte(ByteShr(b, j))
    ensures Bit(FromByte(b), j) <==> ByteBit(b, j)
    decreases j
  {
    hide Half, FromByte, LowBit;
    if j > 0 {
      ByteBits(b, j - 1);
      HalfOfByte(ByteShr(b, j - 1));
    }
    LowBitOfByte(ByteShr(b, j));
  }

  lemma HalfOfByte(b: Byte)
    ensures Half(FromByte(b)) == FromByte(b >> 1)
  {}

  lemma LowBitOfByte(b: Byte)
    ensures LowBit(FromByte(b)) <==> b & 1 == 1
  {}

  lemma {:induction false} NoByteBit(b: Byte, j: nat)
    requires j >= 8
    ensures ByteShr(b, j) == 0 && !ByteBit(b, j)
    decreases j
  {
    if j == 8 {
      EightShifts(b);
      assert ByteShr(b, 2) == ByteShr(b, 1) >> 1 == b >> 1 >> 1;
      assert ByteShr(b, 4) == ByteShr(b, 3) >> 1 == ByteShr(b, 2) >> 1 >> 1;
      assert ByteShr(b, 6) == ByteShr(b, 5) >> 1 == ByteShr(b, 4) >> 1 >> 1;
      assert ByteShr(b, 8) == ByteShr(b, 7) >> 1 == ByteShr(b, 6) >> 1 >> 1;
    } else {
      NoByteBit(b, j - 1);
    }
  }

  lemma EightShifts(b: Byte)
    ensures b >> 1 >> 1 >> 1 >> 1 >> 1 >> 1 >> 1 >> 1 == 0
  {}

  lemma MessageSplit(s: Bytes, e: nat)
    requires s != []
    ensures var n := 8 * |s|;
            e in Message(s) <==>
            if e < n - 8 then e in Message(s[1..]) else e < n && ByteBit(s[0], n - 1 - e)
  {
    var n := 8 * |s|;
    if e < n - 8 {
      var k := n - 8 - 1 - e;
      assert n - 1 - e == k + 8 && (k + 8) / 8 == k / 8 + 1 && (k + 8) % 8 == k % 8;
      assert s[1..][k / 8] == s[k / 8 + 1];
    } else if e < n {
      assert (n - 1 - e) / 8 == 0;
    }
  }

  // The first byte stands at the upper end of the message.
  lemma MessageParts(s: Bytes)
    requires s != []
    ensures Shifted(Message(s), 32) ==
            Sum(Shifted(PolyOf(FromByte(s[0])), 8 * |s|), Shifted(Message(s[1..]), 32))
  {
    hide Shifted, Message, PolyOf, FromByte, ByteBit, Bit;
    var n := 8 * |s|;
    var head, rest := PolyOf(FromByte(s[0])), Message(s[1..]);
    forall x: nat ensures x in Shifted(Message(s), 32) <==> x in Sum(Shifted(head, n), Shifted(rest, 32)) {
      InShifted(Message(s), 32, x);
      InShifted(head, n, x);
      InShifted(rest, 32, x);
      InSum(Shifted(head, n), Shifted(rest, 32), x);
      if x >= n {
        ByteCoefficient(s[0], x - n);
      }
      if x >= 32 {
        MessageSplit(s, x - 32);
      }
      MessageBound(s[1..]);
    }
  }

  lemma MessageBound(s: Bytes)
    ensures forall e :: e in Message(s) ==> e < 8 * |s|
  {}

  lemma ByteCoefficient(b: Byte, m: nat)
    ensures m in PolyOf(FromByte(b)) <==> 24 <= m < 32 && ByteBit(b, 31 - m)
  {
    hide FromByte, Bit, ByteBit;
    if m < 32 {
      ByteBits(b, 31 - m);
      if m < 24 {
        NoByteBit(b, 31 - m);
      }
    }
  }

  lemma ByteStepCongruent(c: Word, b: Byte)
    ensures Congruent(PolyOf(ByteStep(c, b)), Shifted(Sum(PolyOf(c), PolyOf(FromByte(b))), 8))
  {
    hide Congruent, Shifted, PolyOf, Sum, FromByte, BitSteps;
    StepsCongruent(Xor(c, FromByte(b)), 8);
    PolyXor(c, FromByte(b));
  }

  lemma {:induction false} RegisterCongruent(c: Word, s: Bytes)
    ensures Congruent(PolyOf(Register(c, s)), Sum(Shifted(PolyOf(c), 8 * |s|), Shifted(Message(s), 32)))
    decreases |s|
  {
    hide Congruent, Shifted, PolyOf, Sum, FromByte, ByteStep, Message;
    if s == [] {
      NoMessage();
      ShiftedByNone(PolyOf(c));
      SumSelf(PolyOf(c));
      Same(PolyOf(c));
    } else {
      var n := 8 * |s|;
      var d, b := ByteStep(c, s[0]), PolyOf(FromByte(s[0]));
      var rest := Shifted(Message(s[1..]), 32);
      RegisterCongruent(d, s[1..]);
      ByteStepCongruent(c, s[0]);
      TimesX(PolyOf(d), Shifted(Sum(PolyOf(c), b), 8), n - 8);
      ShiftedTwice(Sum(PolyOf(c), b), 8, n - 8);
      ShiftedSum(PolyOf(c), b, n);
      Same(rest);
      Added(Shifted(PolyOf(d), n - 8), Sum(Shifted(PolyOf(c), n), Shifted(b, n)), rest, rest);
      SumAssoc(Shifted(PolyOf(c), n), Shifted(b, n), rest);
      MessageParts(s);
      Chain(PolyOf(Register(c, s)), Sum(Shifted(PolyOf(d), n - 8), rest),
            Sum(Shifted(PolyOf(c), n), Shifted(Message(s), 32)));
    }
  }

  lemma NoMessage()
    ensures Shifted(Message([]), 32) == {}
  {
    assert Message([]) == {};
    ShiftedByNone({});
    forall x: nat ensures x !in Shifted({}, 32) {
      InShifted({}, 32, x);
    }
  }

  // ----- The checksum ----------------------------------------------------------------

  // The message followed by 32 zero bits, with the complement of the starting value added to
  // its first 32 bits.
  function Dividend(crc: Word, s: Bytes): Poly {
    Sum(Shifted(Complement(crc), 8 * |s|), Shifted(Message(s), 32))
  }

  // The complement of `r` is what the dividend leaves when it is divided by the generator.
  ghost predicate IsChecksum(crc: Word, s: Bytes, r: Word) {
    Multiple(Sum(Dividend(crc, s), Complement(r)))
  }

  lemma {:induction false} OnesBit(j: nat)
    requires j < 32
    ensures Bit(ONES, j)
  {
    assert Shr(ONES, 0) == Word(0xFFFF_FFFF);
    assert Shr(ONES, 1) == Word(0x7FFFFFFF);
    assert Shr(ONES, 2) == Word(0x3FFFFFFF);
    assert Shr(ONES, 3) == Word(0x1FFFFFFF);
    assert Shr(ONES, 4) == Word(0xFFFFFFF);
    assert Shr(ONES, 5) == Word(0x7FFFFFF);
    assert Shr(ONES, 6) == Word(0x3FFFFFF);
    assert Shr(ONES, 7) == Word(0x1FFFFFF);
    assert Shr(ONES, 8) == Word(0xFFFFFF);
    assert Shr(ONES, 9) == Word(0x7FFFFF);
    assert Shr(ONES, 10) == Word(0x3FFFFF);
    assert Shr(ONES, 11) == Word(0x1FFFFF);
    assert Shr(ONES, 12) == Word(0xFFFFF);
    assert Shr(ONES, 13) == Word(0x7FFFF);
    assert Shr(ONES, 14) == Word(0x3FFFF);
    assert Shr(ONES, 15) == Word(0x1FFFF);
    assert Shr(ONES, 16) == Word(0xFFFF);
    assert Shr(ONES, 17) == Word(0x7FFF);
    assert Shr(ONES, 18) == Word(0x3FFF);
    assert Shr(ONES, 19) == Word(0x1FFF);
    assert Shr(ONES, 20) == Word(0xFFF);
    assert Shr(ONES, 21) == Word(0x7FF);
    assert Shr(ONES, 22) == Word(0x3FF);
    assert Shr(ONES, 23) == Word(0x1FF);
    assert Shr(ONES, 24) == Word(0xFF);
    assert Shr(ONES, 25) == Word(0x7F);
    assert Shr(ONES, 26) == Word(0x3F);
    assert Shr(ONES, 27) == Word(0x1F);
    assert Shr(ONES, 28) == Word(0xF);
    assert Shr(ONES, 29) == Word(0x7);
    assert Shr(ONES, 30) == Word(0x3);
    assert Shr(ONES, 31) == Word(0x1);
  }

  lemma PolyOfComplement(w: Word)
    ensures PolyOf(Xor(w, ONES)) == Complement(w)
  {
    hide Bit, Xor;
    forall n: nat ensures n in PolyOf(Xor(w, ONES)) <==> n in Complement(w) {
      if n < 32 {
        BitXor(w, ONES, 31 - n);
        OnesBit(31 - n);
      }
    }
  }

  // The checksum is that remainder, and nothing else is.
  lemma ChecksumIsRemainder(crc: Word, s: Bytes, r: Word)
    ensures IsChecksum(crc, s, r) <==> r == Crc32(crc, s)
  {
    hide Congruent, Multiple, Complement, Shifted, PolyOf, Sum, Message, Register, Xor;
    var c := Register(Xor(crc, ONES), s);
    RegisterCongruent(Xor(crc, ONES), s);
    PolyOfComplement(crc);
    PolyOfComplement(Crc32(crc, s));
    XorTwice(c, ONES);
    Turned(PolyOf(c), Dividend(crc, s));
    if IsChecksum(crc, s, r) {
      OneRemainder(Dividend(crc, s), r, Crc32(crc, s));
    }
  }

  lemma Turned(a: Poly, b: Poly)
    requires Congruent(a, b)
    ensures Multiple(Sum(b, a))
  {
    SumComm(a, b);
  }

  lemma OneRemainder(a: Poly, r: Word, t: Word)
    requires Multiple(Sum(a, Complement(r))) && Multiple(Sum(a, Complement(t)))
    ensures r == t
  {
    hide Multiple;
    var x, y := Complement(r), Complement(t);
    MultipleSum(Sum(a, x), Sum(a, y));
    assert Sum(Sum(a, x), Sum(a, y)) == Sum(x, y);
    if Sum(x, y) != {} {
      SmallMultiple(Sum(x, y));
    }
    SameComplement(r, t);
  }

  lemma SameComplement(r: Word, t: Word)
    requires Sum(Complement(r), Complement(t)) == {}
    ensures r == t
  {
    hide Bit, Xor;
    forall j: nat | j < 32 ensures !Bit(Xor(r, t), j) {
      BitXor(r, t, j);
      assert 31 - (31 - j) == j;
      assert Coefficient(r, 31 - j) <==> 31 - j !in Complement(r);
      assert Coefficient(t, 31 - j) <==> 31 - j !in Complement(t);
    }
    NoBitsLeft(Xor(r, t), 0);
    NothingAdded(r, t);
  }

  lemma {:induction false} NoBitsLeft(w: Word, j: nat)
    requires j <= 32 && forall k: nat :: j <= k < 32 ==> !Bit(w, k)
    ensures Shr(w, j) == ZERO
    decreases 32 - j
  {
    if j == 32 {
      AnyWord(w);
      ShrBound(w, Word(0xFFFF_FFFF), 32);
      AllShiftedOut();
    } else {
      NoBitsLeft(w, j + 1);
      assert !Bit(w, j);
      ZeroHalf(Shr(w, j));
    }
  }

  lemma ZeroHalf(w: Word)
    requires Half(w) == ZERO && !LowBit(w)
    ensures w == ZERO
  {}

  lemma NothingAdded(a: Word, b: Word)
    requires Xor(a, b) == ZERO
    ensures a == b
  {}
}
