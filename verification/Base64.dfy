/**
 The base 64 encoding of section 4 of RFC 4648, and the stateful encoder and decoder
 that store a character at a time, in their string and their buffer forms.
 */
module Base64 {
  import opened Common
  import Base64Text

  const PAD: Byte := 61  // '='

  // ----- The encoding as the RFC describes it ----------------------------------------

  // Twenty-four bits as three octets, or as four groups of six.
  function Group(b0: Byte, b1: Byte, b2: Byte): bv24 {
    ((b0 as bv24) << 16) | ((b1 as bv24) << 8) | (b2 as bv24)
  }

  function Sextet0(g: bv24): Byte { ((g >> 18) & 0x3F) as bv8 }
  function Sextet1(g: bv24): Byte { ((g >> 12) & 0x3F) as bv8 }
  function Sextet2(g: bv24): Byte { ((g >> 6) & 0x3F) as bv8 }
  function Sextet3(g: bv24): Byte { (g & 0x3F) as bv8 }

  // kBase64Alphabet[i]
  function Alphabet(i: Byte): Byte {
    if i < 26 then i + 65         // 'A'..'Z'
    else if i < 52 then i + 71    // 'a'..'z'
    else if i < 62 then i - 4     // '0'..'9'
    else if i == 62 then 43       // '+'
    else 47                       // '/'
  }

  function EncodedGroup(b0: Byte, b1: Byte, b2: Byte): (r: Bytes)
    ensures |r| == 4
  {
    var g := Group(b0, b1, b2);
    [Alphabet(Sextet0(g)), Alphabet(Sextet1(g)), Alphabet(Sextet2(g)), Alphabet(Sextet3(g))]
  }

  // A final group of one or two octets is filled up with zero bits and padded with '='.
  function EncodedTail(s: Bytes): (r: Bytes)
    requires |s| < 3
    ensures |r| == if s == [] then 0 else 4
  {
    if |s| == 0 then []
    else if |s| == 1 then EncodedGroup(s[0], 0, 0)[..2] + [PAD, PAD]
    else EncodedGroup(s[0], s[1], 0)[..3] + [PAD]
  }

  function Encoded(s: Bytes): Bytes
    decreases |s|
  {
    if |s| < 3 then EncodedTail(s)
    else EncodedGroup(s[0], s[1], s[2]) + Encoded(s[3..])
  }

  // ----- What the decoder makes of any string ----------------------------------------

  // b64_lookup
  function Lookup(c: Byte): Byte {
    if 65 <= c <= 90 then c - 65
    else if 97 <= c <= 122 then c - 71
    else if 48 <= c <= 57 then c + 4
    else if c == 43 then 62
    else if c == 47 then 63
    else 255
  }

  // a4_to_a3
  function Octet0(a0: Byte, a1: Byte): Byte { (a0 << 2) + ((a1 & 0x30) >> 4) }
  function Octet1(a1: Byte, a2: Byte): Byte { ((a1 & 0xF) << 4) + ((a2 & 0x3C) >> 2) }
  function Octet2(a2: Byte, a3: Byte): Byte { ((a2 & 0x3) << 6) + a3 }

  function DecodedGroup(c0: Byte, c1: Byte, c2: Byte, c3: Byte): (r: Bytes)
    ensures |r| == 3
  {
    var a0, a1, a2, a3 := Lookup(c0), Lookup(c1), Lookup(c2), Lookup(c3);
    [Octet0(a0, a1), Octet1(a1, a2), Octet2(a2, a3)]
  }

  // A final group of i characters yields i - 1 octets; the missing ones are looked up as
  // NUL, which is not in the alphabet.
  function DecodedTail(s: Bytes): (r: Bytes)
    requires |s| < 4
  {
    if |s| <= 1 then []
    else if |s| == 2 then DecodedGroup(s[0], s[1], 0, 0)[..1]
    else DecodedGroup(s[0], s[1], s[2], 0)[..2]
  }

  function DecodedChars(s: Bytes): Bytes
    decreases |s|
  {
    if |s| < 4 then DecodedTail(s)
    else DecodedGroup(s[0], s[1], s[2], s[3]) + DecodedChars(s[4..])
  }

  // The characters before the first '='.
  function Unpadded(s: Bytes): (r: Bytes)
    ensures |r| <= |s| && r == s[..|r|]
    ensures forall i :: 0 <= i < |r| ==> r[i] != PAD
    ensures |r| < |s| ==> s[|r|] == PAD
    decreases |s|
  {
    if s == [] || s[0] == PAD then [] else [s[0]] + Unpadded(s[1..])
  }

  function TrailingPads(s: Bytes): (n: nat)
    ensures n <= |s|
    ensures forall i :: |s| - n <= i < |s| ==> s[i] == PAD
    ensures n < |s| ==> s[|s| - n - 1] != PAD
    decreases |s|
  {
    if s == [] || s[|s| - 1] != PAD then 0 else 1 + TrailingPads(s[..|s| - 1])
  }

  function DecodedLengthOf(s: Bytes): int {
    6 * |s| / 8 - TrailingPads(s)
  }

  function EncodedLengthOf(n: nat): (r: nat)
    ensures r % 4 == 0
  {
    (n + 2 - (n + 2) % 3) / 3 * 4
  }

  // ----- Round trip ------------------------------------------------------------------

  lemma LookupInverts(i: Byte)
    requires i < 64
    ensures Lookup(Alphabet(i)) == i && Alphabet(i) != PAD
  {}

  lemma SextetsSmall(g: bv24)
    ensures Sextet0(g) < 64 && Sextet1(g) < 64 && Sextet2(g) < 64 && Sextet3(g) < 64
  {}

  lemma OctetsOfSextets(b0: Byte, b1: Byte, b2: Byte)
    ensures var g := Group(b0, b1, b2);
            && Octet0(Sextet0(g), Sextet1(g)) == b0
            && Octet1(Sextet1(g), Sextet2(g)) == b1
            && Octet2(Sextet2(g), Sextet3(g)) == b2
  {}

  // What `a3_to_a4` computes with masks is the division into groups of six.
  lemma SextetsOfOctets(b0: Byte, b1: Byte, b2: Byte)
    ensures var g := Group(b0, b1, b2);
            && Sextet0(g) == (b0 & 0xFC) >> 2
            && Sextet1(g) == ((b0 & 0x03) << 4) + ((b1 & 0xF0) >> 4)
            && Sextet2(g) == ((b1 & 0x0F) << 2) + ((b2 & 0xC0) >> 6)
            && Sextet3(g) == b2 & 0x3F
  {}

  lemma GroupRoundTrip(b0: Byte, b1: Byte, b2: Byte)
    ensures var r := EncodedGroup(b0, b1, b2);
            && r[0] != PAD && r[1] != PAD && r[2] != PAD && r[3] != PAD
            && DecodedGroup(r[0], r[1], r[2], r[3]) == [b0, b1, b2]
            && (forall x: Byte :: DecodedGroup(r[0], r[1], r[2], x)[..2] == [b0, b1])
            && (forall x: Byte, y: Byte :: DecodedGroup(r[0], r[1], x, y)[..1] == [b0])
  {
    hide Alphabet, Lookup, Octet0, Octet1, Octet2, Sextet0, Sextet1, Sextet2, Sextet3, Group;
    var g := Group(b0, b1, b2);
    SextetsSmall(g);
    LookupInverts(Sextet0(g));
    LookupInverts(Sextet1(g));
    LookupInverts(Sextet2(g));
    LookupInverts(Sextet3(g));
    OctetsOfSextets(b0, b1, b2);
  }

  function PadsFor(n: nat): (p: nat)
    ensures p <= 2
  {
    (3 - n % 3) % 3
  }

  lemma {:induction false} EncodedHasLength(s: Bytes)
    ensures |Encoded(s)| == EncodedLengthOf(|s|)
    decreases |s|
  {
    hide EncodedTail, EncodedGroup;
    if |s| >= 3 {
      EncodedHasLength(s[3..]);
    }
  }

  // The '=' characters of `e` are exactly its last `n`.
  ghost predicate PadsExactly(e: Bytes, n: nat) {
    n <= |e| && forall i :: 0 <= i < |e| ==> (e[i] == PAD <==> i >= |e| - n)
  }

  lemma PadsExactlyAppend(g: Bytes, f: Bytes, n: nat)
    requires PAD !in g && PadsExactly(f, n)
    ensures PadsExactly(g + f, n)
  {
    var e := g + f;
    forall i | 0 <= i < |e| ensures e[i] == PAD <==> i >= |e| - n {
      if i < |g| {
        assert e[i] in g;
      } else {
        assert e[i] == f[i - |g|];
      }
    }
  }

  lemma {:induction false} EncodedPads(s: Bytes)
    ensures PadsExactly(Encoded(s), PadsFor(|s|))
    decreases |s|
  {
    hide EncodedGroup, PadsExactly, Encoded, PadsFor;
    EncodedUnfold(s);
    AllPads();
    PadsForThreeMore(if |s| >= 3 then |s| - 3 else 0);
    if |s| >= 3 {
      EncodedPads(s[3..]);
      NoPadInGroup(s[0], s[1], s[2]);
      PadsExactlyAppend(EncodedGroup(s[0], s[1], s[2]), Encoded(s[3..]), PadsFor(|s|));
    } else if |s| == 2 {
      NoPadInGroup(s[0], s[1], 0);
      PadsExactlyAppend(EncodedGroup(s[0], s[1], 0)[..3], [PAD], 1);
    } else if |s| == 1 {
      NoPadInGroup(s[0], 0, 0);
      PadsExactlyAppend(EncodedGroup(s[0], 0, 0)[..2], [PAD, PAD], 2);
    }
  }

  lemma EncodedUnfold(s: Bytes)
    ensures |s| < 3 ==> Encoded(s) == EncodedTail(s)
    ensures |s| >= 3 ==> Encoded(s) == EncodedGroup(s[0], s[1], s[2]) + Encoded(s[3..])
  {
    hide EncodedGroup, EncodedTail;
  }

  lemma PadsForThreeMore(n: nat)
    ensures PadsFor(n + 3) == PadsFor(n)
    ensures PadsFor(0) == 0 && PadsFor(1) == 2 && PadsFor(2) == 1
  {
    assert (n + 3) % 3 == n % 3;
  }

  lemma AllPads()
    ensures PadsExactly([], 0) && PadsExactly([PAD], 1) && PadsExactly([PAD, PAD], 2)
  {}

  lemma NoPadInGroup(b0: Byte, b1: Byte, b2: Byte)
    ensures PAD !in EncodedGroup(b0, b1, b2)
  {
    GroupRoundTrip(b0, b1, b2);
  }

  lemma PadsAtEnd(s: Bytes, n: nat)
    requires PadsExactly(s, n)
    ensures TrailingPads(s) == n && Unpadded(s) == s[..|s| - n]
  {
    TrailingPadsIs(s, n);
    UnpaddedIs(s, |s| - n);
  }

  lemma {:induction false} TrailingPadsIs(s: Bytes, n: nat)
    requires n <= |s| && forall i :: |s| - n <= i < |s| ==> s[i] == PAD
    requires n < |s| ==> s[|s| - n - 1] != PAD
    ensures TrailingPads(s) == n
    decreases n
  {
    if n > 0 {
      TrailingPadsIs(s[..|s| - 1], n - 1);
    }
  }

  lemma {:induction false} UnpaddedIs(s: Bytes, k: nat)
    requires k <= |s| && forall i :: 0 <= i < k ==> s[i] != PAD
    requires k < |s| ==> s[k] == PAD
    ensures Unpadded(s) == s[..k]
    decreases k
  {
    if k > 0 {
      UnpaddedIs(s[1..], k - 1);
    }
  }

  // The data characters of an encoding.
  function DataChars(s: Bytes): (u: Bytes)
    decreases |s|
  {
    if |s| == 0 then []
    else if |s| == 1 then EncodedGroup(s[0], 0, 0)[..2]
    else if |s| == 2 then EncodedGroup(s[0], s[1], 0)[..3]
    else EncodedGroup(s[0], s[1], s[2]) + DataChars(s[3..])
  }

  lemma {:induction false} EncodedIsDataAndPads(s: Bytes)
    ensures Encoded(s) == DataChars(s) + seq(PadsFor(|s|), _ => PAD)
    decreases |s|
  {
    hide EncodedGroup;
    if |s| >= 3 {
      EncodedIsDataAndPads(s[3..]);
    }
  }

  lemma {:induction false} DataDecodes(s: Bytes)
    ensures DecodedChars(DataChars(s)) == s
    decreases |s|
  {
    hide EncodedGroup, DecodedGroup;
    if |s| == 0 {
    } else if |s| == 1 {
      GroupRoundTrip(s[0], 0, 0);
    } else if |s| == 2 {
      GroupRoundTrip(s[0], s[1], 0);
    } else {
      GroupRoundTrip(s[0], s[1], s[2]);
      DataDecodes(s[3..]);
      DecodeOneGroup(EncodedGroup(s[0], s[1], s[2]), DataChars(s[3..]));
      assert s == [s[0], s[1], s[2]] + s[3..];
    }
  }

  lemma DecodeOneGroup(g: Bytes, u: Bytes)
    requires |g| == 4
    ensures DecodedChars(g + u) == DecodedGroup(g[0], g[1], g[2], g[3]) + DecodedChars(u)
  {
    hide DecodedGroup;
    assert (g + u)[4..] == u;
  }

  // Decoding an encoding gives the input back, and the length computed in advance is right.
  lemma RoundTrip(s: Bytes)
    ensures DecodedChars(Unpadded(Encoded(s))) == s
    ensures DecodedLengthOf(Encoded(s)) == |s|
  {
    hide Encoded, EncodedLengthOf, DecodedChars, TrailingPads, Unpadded;
    EncodedPads(s);
    PadsAtEnd(Encoded(s), PadsFor(|s|));
    EncodedIsDataAndPads(s);
    var e, u, n := Encoded(s), DataChars(s), PadsFor(|s|);
    assert e[..|e| - n] == u;
    DataDecodes(s);
    EncodedHasLength(s);
    LengthsAgree(|s|);
  }

  lemma LengthsAgree(n: nat)
    ensures 6 * EncodedLengthOf(n) / 8 - PadsFor(n) == n
  {
    var q, r := n / 3, n % 3;
    assert n == 3 * q + r;
    if r == 0 {
      assert EncodedLengthOf(n) == 4 * q;
    } else {
      assert EncodedLengthOf(n) == 4 * q + 4;
    }
  }

  // ----- The text --------------------------------------------------------------------

  lemma AlphabetText(x: Byte)
    requires x < 64
    ensures |Base64Text.Characters()| == 64
    ensures Idx(Alphabet(x)) == Base64Text.Characters()[Idx(x)] as int
  {
    hide Base64Text.Characters;
    Base64Text.CharactersCount();
    AlphabetValues(x);
    if x < 26 {
      Base64Text.UpperCase(Idx(x));
    } else if x < 52 {
      Base64Text.LowerCase(Idx(x) - 26);
    } else if x < 62 {
      Base64Text.Decimal(Idx(x) - 52);
    } else {
      Base64Text.LastTwo();
    }
  }

  lemma AlphabetValues(x: Byte)
    requires x < 64
    ensures x < 26 ==> Idx(Alphabet(x)) == Idx(x) + 65 && Idx(x) < 26
    ensures 26 <= x < 52 ==> Idx(Alphabet(x)) == Idx(x) + 71 && 26 <= Idx(x) < 52
    ensures 52 <= x < 62 ==> Idx(Alphabet(x)) == Idx(x) - 4 && 52 <= Idx(x) < 62
    ensures x >= 62 ==> Idx(x) == if x == 62 then 62 else 63
  {}

  lemma SextetDigits(b0: Byte, b1: Byte, b2: Byte)
    ensures var g, s := Group(b0, b1, b2), [b0, b1, b2];
            && Idx(Sextet0(g)) == Base64Text.Digit(s, 0) && Idx(Sextet1(g)) == Base64Text.Digit(s, 1)
            && Idx(Sextet2(g)) == Base64Text.Digit(s, 2) && Idx(Sextet3(g)) == Base64Text.Digit(s, 3)
  {
    FirstDigit(b0, b1, b2);
    SecondDigit(b0, b1, b2);
    ThirdDigit(b0, b1, b2);
    FourthDigit(b0, b1, b2);
  }

  lemma FirstDigit(b0: Byte, b1: Byte, b2: Byte)
    ensures Idx(Sextet0(Group(b0, b1, b2))) == Base64Text.Digit([b0, b1, b2], 0)
  {
    hide Base64Text.BitOf;
    Base64Text.BitsOfByte(b0);
  }

  lemma SecondDigit(b0: Byte, b1: Byte, b2: Byte)
    ensures Idx(Sextet1(Group(b0, b1, b2))) == Base64Text.Digit([b0, b1, b2], 1)
  {
    hide Base64Text.BitOf;
    Base64Text.BitsOfByte(b0);
    Base64Text.BitsOfByte(b1);
  }

  lemma ThirdDigit(b0: Byte, b1: Byte, b2: Byte)
    ensures Idx(Sextet2(Group(b0, b1, b2))) == Base64Text.Digit([b0, b1, b2], 2)
  {
    hide Base64Text.BitOf;
    Base64Text.BitsOfByte(b1);
    Base64Text.BitsOfByte(b2);
  }

  lemma FourthDigit(b0: Byte, b1: Byte, b2: Byte)
    ensures Idx(Sextet3(Group(b0, b1, b2))) == Base64Text.Digit([b0, b1, b2], 3)
  {
    hide Base64Text.BitOf;
    Base64Text.BitsOfByte(b2);
  }

  lemma GroupText(b0: Byte, b1: Byte, b2: Byte, i: nat)
    requires i < 4
    ensures |Base64Text.Characters()| == 64
    ensures Idx(EncodedGroup(b0, b1, b2)[i]) ==
            Base64Text.Characters()[Base64Text.Digit([b0, b1, b2], i)] as int
  {
    hide Base64Text.Characters, Base64Text.Digit, Sextet0, Sextet1, Sextet2, Sextet3, Group, Alphabet;
    var g := Group(b0, b1, b2);
    SextetDigits(b0, b1, b2);
    SextetsSmall(g);
    AlphabetText(Sextet0(g));
    AlphabetText(Sextet1(g));
    AlphabetText(Sextet2(g));
    AlphabetText(Sextet3(g));
  }

  // Character by character, the encoding is what the RFC says.
  lemma {:induction false} EncodedIsText(s: Bytes)
    ensures Base64Text.IsText(s, Encoded(s))
    decreases |s|
  {
    hide Base64Text.Characters, Base64Text.Digit, EncodedGroup;
    Base64Text.CharactersCount();
    EncodedHasLength(s);
    TextLength(|s|);
    var e := Encoded(s);
    if |s| < 3 {
      forall i | 0 <= i < |e| ensures Idx(e[i]) == Base64Text.TextAt(s, i) as int {
        TailText(s, i);
      }
    } else {
      EncodedIsText(s[3..]);
      EncodedHasLength(s[3..]);
      assert s[..3] == [s[0], s[1], s[2]];
      forall i | 0 <= i < |e| ensures Idx(e[i]) == Base64Text.TextAt(s, i) as int {
        Base64Text.DigitSplit(s, i);
        if i < 4 {
          GroupText(s[0], s[1], s[2], i);
        } else {
          assert e[i] == Encoded(s[3..])[i - 4];
        }
      }
    }
  }

  lemma TextLength(n: nat)
    ensures EncodedLengthOf(n) == (n + 2) / 3 * 4
  {}

  lemma TailText(s: Bytes, i: nat)
    requires 0 < |s| < 3 && i < 4
    ensures |Base64Text.Characters()| == 64 && Idx(EncodedTail(s)[i]) == Base64Text.TextAt(s, i) as int
  {
    hide Base64Text.Characters, Base64Text.Digit, EncodedGroup;
    var z: Bytes := if |s| == 1 then [0, 0] else [0];
    var b1 := if |s| == 1 then 0 else s[1];
    assert s + z == [s[0], b1, 0];
    GroupText(s[0], b1, 0, i);
    Base64Text.DigitFilled(s, z, i);
  }

  // A character's value is its place among the characters, or 255 if it has none.
  lemma LookupText(c: Byte)
    ensures |Base64Text.Characters()| == 64
    ensures Lookup(c) == 255 || (Lookup(c) < 64 && Idx(c) == Base64Text.Characters()[Idx(Lookup(c))] as int)
    ensures Lookup(c) == 255 ==> forall k :: 0 <= k < 64 ==> Base64Text.Characters()[k] as int != Idx(c)
  {
    hide Base64Text.Characters;
    Base64Text.CharactersCount();
    LookupInverse(c);
    if Lookup(c) < 64 {
      AlphabetText(Lookup(c));
    } else {
      forall k | 0 <= k < 64 ensures Base64Text.Characters()[k] as int != Idx(c) {
        NotInText(c, k);
      }
    }
  }

  lemma LookupInverse(c: Byte)
    ensures Lookup(c) < 64 ==> Alphabet(Lookup(c)) == c
    ensures Lookup(c) >= 64 ==> Lookup(c) == 255
  {}

  lemma NotInText(c: Byte, k: nat)
    requires Lookup(c) == 255 && k < 64
    ensures |Base64Text.Characters()| == 64 && Base64Text.Characters()[k] as int != Idx(c)
  {
    hide Base64Text.Characters, Alphabet, Lookup, ToByte;
    var x := ToByte(k);
    SmallByte(x);
    AlphabetText(x);
    LookupInverts(x);
    if Idx(Alphabet(x)) == Idx(c) {
      IdxInjective(Alphabet(x), c);
    }
  }

  lemma SmallByte(x: Byte)
    ensures Idx(x) < 64 <==> x < 64
  {}

  // The k-th bit of the values of the characters, six bits each.
  predicate SixBit(t: Bytes, k: nat) {
    k < 6 * |t| && Base64Text.BitOf(Lookup(t[k / 6]), 2 + k % 6)
  }

  ghost predicate AllKnown(t: Bytes) {
    forall i :: 0 <= i < |t| ==> Lookup(t[i]) < 64
  }

  // Characters of the alphabet decode to as many whole bytes as they have bits for, and those
  // are the bits.
  lemma {:induction false} DecodedBits(t: Bytes)
    requires AllKnown(t)
    ensures |DecodedChars(t)| == 6 * |t| / 8
    ensures forall k: nat :: k < 8 * |DecodedChars(t)| ==> Base64Text.Bit(DecodedChars(t), k) == SixBit(t, k)
    decreases |t|
  {
    hide Lookup, DecodedGroup, Base64Text.BitOf;
    var d := DecodedChars(t);
    if |t| >= 4 {
      DecodedBits(t[4..]);
      assert d == DecodedGroup(t[0], t[1], t[2], t[3]) + DecodedChars(t[4..]);
      forall k: nat | k < 8 * |d| ensures Base64Text.Bit(d, k) == SixBit(t, k) {
        Base64Text.BitSplit(d, k);
        SixSplit(t, k);
        if k < 24 {
          GroupBits(t[0], t[1], t[2], t[3], k);
          assert t[..4] == [t[0], t[1], t[2], t[3]] && d[..3] == DecodedGroup(t[0], t[1], t[2], t[3]);
        } else {
          assert d[3..] == DecodedChars(t[4..]);
        }
      }
    } else {
      forall k: nat | k < 8 * |d| ensures Base64Text.Bit(d, k) == SixBit(t, k) {
        TailBits(t, k);
      }
    }
  }

  lemma SixSplit(t: Bytes, k: nat)
    requires |t| >= 4
    ensures k < 24 ==> SixBit(t, k) == SixBit(t[..4], k)
    ensures k >= 24 ==> SixBit(t, k) == SixBit(t[4..], k - 24)
  {
    if k >= 24 {
      assert (k - 24) / 6 == k / 6 - 4 && (k - 24) % 6 == k % 6;
    }
  }

  lemma TailBits(t: Bytes, k: nat)
    requires |t| < 4 && AllKnown(t) && k < 8 * |DecodedTail(t)|
    ensures Base64Text.Bit(DecodedTail(t), k) == SixBit(t, k)
  {
    hide Lookup, DecodedGroup, Base64Text.BitOf;
    if |t| == 2 {
      GroupBits(t[0], t[1], 0, 0, k);
    } else {
      GroupBits(t[0], t[1], t[2], 0, k);
    }
  }

  // In a group whose last characters are unknown, the bits of the others are right.
  lemma GroupBits(c0: Byte, c1: Byte, c2: Byte, c3: Byte, k: nat)
    requires Lookup(c0) < 64 && Lookup(c1) < 64
    requires k < 8 || (k < 16 && Lookup(c2) < 64) || (k < 24 && Lookup(c2) < 64 && Lookup(c3) < 64)
    ensures Base64Text.Bit(DecodedGroup(c0, c1, c2, c3), k) == SixBit([c0, c1, c2, c3], k)
  {
    hide Lookup, Base64Text.BitOf, Octet0, Octet1, Octet2;
    var a0, a1, a2, a3 := Lookup(c0), Lookup(c1), Lookup(c2), Lookup(c3);
    if k < 8 {
      Octet0Bits(a0, a1);
    } else if k < 16 {
      Octet1Bits(a1, a2);
    } else {
      Octet2Bits(a2, a3);
    }
  }

  lemma Octet0Bits(a0: Byte, a1: Byte)
    requires a0 < 64 && a1 < 64
    ensures forall j :: 0 <= j < 6 ==> (Base64Text.BitOf(Octet0(a0, a1), j) <==> Base64Text.BitOf(a0, 2 + j))
    ensures forall j :: 6 <= j < 8 ==> (Base64Text.BitOf(Octet0(a0, a1), j) <==> Base64Text.BitOf(a1, j - 4))
  {
    hide Base64Text.BitOf;
    Base64Text.BitsOfByte(Octet0(a0, a1));
    Base64Text.BitsOfByte(a0);
    Base64Text.BitsOfByte(a1);
  }

  lemma Octet1Bits(a1: Byte, a2: Byte)
    requires a1 < 64 && a2 < 64
    ensures forall j :: 0 <= j < 4 ==> (Base64Text.BitOf(Octet1(a1, a2), j) <==> Base64Text.BitOf(a1, 4 + j))
    ensures forall j :: 4 <= j < 8 ==> (Base64Text.BitOf(Octet1(a1, a2), j) <==> Base64Text.BitOf(a2, j - 2))
  {
    hide Base64Text.BitOf;
    Base64Text.BitsOfByte(Octet1(a1, a2));
    Base64Text.BitsOfByte(a1);
    Base64Text.BitsOfByte(a2);
  }

  lemma Octet2Bits(a2: Byte, a3: Byte)
    requires a2 < 64 && a3 < 64
    ensures forall j :: 0 <= j < 2 ==> (Base64Text.BitOf(Octet2(a2, a3), j) <==> Base64Text.BitOf(a2, 6 + j))
    ensures forall j :: 2 <= j < 8 ==> (Base64Text.BitOf(Octet2(a2, a3), j) <==> Base64Text.BitOf(a3, j))
  {
    hide Base64Text.BitOf;
    Base64Text.BitsOfByte(Octet2(a2, a3));
    Base64Text.BitsOfByte(a2);
    Base64Text.BitsOfByte(a3);
  }

  // The length announced for a string with its trailing '=' characters told apart.
  lemma LengthAnnounced(t: Bytes, pads: nat)
    requires t == [] || t[|t| - 1] != 61
    ensures DecodedLengthOf(t + seq(pads, _ => 61)) == 6 * (|t| + pads) / 8 - pads
  {
    var s := t + seq(pads, _ => 61);
    TrailingPadsIs(s, pads);
  }

  // ----- The encoder -----------------------------------------------------------------

  const INT_LIMIT: nat := 0x8000_0000

  lemma {:induction false} EncodedAppend(s: Bytes, t: Bytes)
    requires |s| % 3 == 0
    ensures Encoded(s + t) == Encoded(s) + Encoded(t)
    decreases |s|
  {
    if s == [] {
      assert s + t == t;
    } else {
      assert (s + t)[3..] == s[3..] + t;
      EncodedAppend(s[3..], t);
    }
  }

  method A3ToA4(a4: array<Byte>, a3: array<Byte>)
    requires a4.Length == 4 && a3.Length == 3 && a4 != a3
    modifies a4
    ensures a4[..] == Sextets(a3[0], a3[1], a3[2])
  {
    a4[0] := (a3[0] & 0xFC) >> 2;
    a4[1] := ((a3[0] & 0x03) << 4) + ((a3[1] & 0xF0) >> 4);
    a4[2] := ((a3[1] & 0x0F) << 2) + ((a3[2] & 0xC0) >> 6);
    a4[3] := a3[2] & 0x3F;
    SextetsOfOctets(a3[0], a3[1], a3[2]);
  }

  function Sextets(b0: Byte, b1: Byte, b2: Byte): (r: Bytes)
    ensures |r| == 4
  {
    var g := Group(b0, b1, b2);
    [Sextet0(g), Sextet1(g), Sextet2(g), Sextet3(g)]
  }

  method EncodedLength(length: nat) returns (r: nat)
    requires EncodedLengthOf(length) < INT_LIMIT
    ensures r == |Encoded(seq(length, _ => 0))| == EncodedLengthOf(length)
  {
    EncodedHasLength(seq(length, _ => 0));
    r := (length + 2 - (length + 2) % 3) / 3 * 4;
  }

  // Encode(const std::string &in, std::string *out)
  method Encode(input: Bytes) returns (out: Bytes, ok: bool)
    requires EncodedLengthOf(|input|) < INT_LIMIT
    ensures ok && out == Encoded(input) && Base64Text.IsText(input, out)
  {
    EncodedIsText(input);
    var n := EncodedLength(|input|);
    var buf := new Byte[n](_ => 0);
    EncodedHasLength(input);
    var encLen := EncodeInto(input, buf);
    out, ok := buf[..], encLen == buf.Length;
  }

  // Encode(const char *input, size_t input_length, char *out, size_t out_length)
  method EncodeBuffer(input: Bytes, out: array<Byte>) returns (ok: bool)
    requires EncodedLengthOf(|input|) < INT_LIMIT
    modifies out
    ensures ok <==> |Encoded(input)| <= out.Length
    ensures ok ==> out[..] == Encoded(input) + old(out[|Encoded(input)|..])
    ensures !ok ==> out[..] == old(out[..])
  {
    var n := EncodedLength(|input|);
    EncodedHasLength(input);
    if out.Length < n {
      return false;
    }
    var encLen := EncodeInto(input, out);
    assert out[..] == out[..encLen] + out[encLen..];
    ok := encLen == n;
  }

  // The loop both forms share: characters go to `out` one after the other.
  method EncodeInto(input: Bytes, out: array<Byte>) returns (encLen: nat)
    requires |Encoded(input)| <= out.Length
    modifies out
    ensures encLen == |Encoded(input)| && out[..encLen] == Encoded(input)
    ensures forall k :: encLen <= k < out.Length ==> out[k] == old(out[k])
  {
    hide EncodedTail, Encoded;
    var a3 := new Byte[3](_ => 0);
    var i;
    encLen, i := EncodeGroups(input, out, a3);
    ghost var body, rest := input[..|input| - i], input[|input| - i..];
    assert input == body + rest;
    EncodedAppend(body, rest);
    EncodedShort(rest);
    if i > 0 {
      assert a3[..i] == rest;
      encLen := EncodeTail(out, encLen, a3, i);
    }
  }

  lemma EncodedShort(s: Bytes)
    requires |s| < 3
    ensures Encoded(s) == EncodedTail(s) && |EncodedTail(s)| == if s == [] then 0 else 4
  {}

  // The last `i` octets, filled up with zeros, and the padding after them.
  method EncodeTail(out: array<Byte>, encLen0: nat, a3: array<Byte>, i0: nat) returns (encLen: nat)
    requires a3 != out && a3.Length == 3 && 0 < i0 < 3 && encLen0 + 4 <= out.Length
    modifies out, a3
    ensures encLen == encLen0 + 4
    ensures out[..encLen] == old(out[..encLen0]) + old(EncodedTail(a3[..i0]))
    ensures forall k :: encLen <= k < out.Length ==> out[k] == old(out[k])
  {
    hide EncodedGroup;
    var i := i0;
    for j := i to 3
      invariant out[..] == old(out[..])
      invariant a3[..i0] == old(a3[..i0])
      invariant forall k :: i0 <= k < j ==> a3[k] == 0
    {
      a3[j] := 0;
    }
    ghost var g := EncodedGroup(a3[0], a3[1], a3[2]);
    assert old(EncodedTail(a3[..i0])) == g[..i0 + 1] + seq(3 - i0, _ => PAD) by {
      ghost var t := old(a3[..i0]);
      assert t[0] == a3[0];
      assert i0 == 2 ==> t[1] == a3[1];
      assert seq(3 - i0, _ => PAD) == if i0 == 1 then [PAD, PAD] else [PAD];
    }
    encLen := StoreGroup(out, encLen0, a3, i + 1);
    while i < 3
      invariant i0 <= i <= 3 && encLen == encLen0 + i + 1
      invariant out[..encLen] == old(out[..encLen0]) + g[..i0 + 1] + seq(i - i0, _ => PAD)
      invariant forall k :: encLen0 + 4 <= k < out.Length ==> out[k] == old(out[k])
    {
      out[encLen] := PAD;
      encLen, i := encLen + 1, i + 1;
    }
  }

  method EncodeGroups(input: Bytes, out: array<Byte>, a3: array<Byte>) returns (encLen: nat, i: nat)
    requires a3 != out && a3.Length == 3 && |Encoded(input)| <= out.Length
    modifies out, a3
    ensures i == |input| % 3 && a3[..i] == input[|input| - i..]
    ensures encLen == |Encoded(input[..|input| - i])| <= out.Length
    ensures out[..encLen] == Encoded(input[..|input| - i])
    ensures forall k :: encLen <= k < out.Length ==> out[k] == old(out[k])
  {
    hide EncodedGroup, Encoded;
    encLen, i := 0, 0;
    var pos := 0;
    EncodedNothing(input);
    while pos < |input|
      invariant i <= pos <= |input| && i < 3 && (pos - i) % 3 == 0
      invariant a3[..i] == input[pos - i..pos]
      invariant encLen == |Encoded(input[..pos - i])| <= out.Length
      invariant out[..encLen] == Encoded(input[..pos - i])
      invariant forall k :: encLen <= k < out.Length ==> out[k] == old(out[k])
    {
      ghost var had := a3[..i];
      a3[i] := input[pos];
      assert a3[..i + 1] == had + [input[pos]];
      assert input[pos - i..pos + 1] == input[pos - i..pos] + [input[pos]];
      i, pos := i + 1, pos + 1;
      if i == 3 {
        encLen := EncodeGroup(input, pos - 3, out, encLen, a3);
        i := 0;
      }
    }
  }

  method EncodeGroup(ghost input: Bytes, ghost at: nat, out: array<Byte>, encLen0: nat, a3: array<Byte>)
    returns (encLen: nat)
    requires a3 != out && a3.Length == 3 && |Encoded(input)| <= out.Length
    requires at + 3 <= |input| && at % 3 == 0 && a3[..] == input[at..at + 3]
    requires encLen0 == |Encoded(input[..at])| <= out.Length
    requires out[..encLen0] == Encoded(input[..at])
    modifies out
    ensures encLen == |Encoded(input[..at + 3])| == encLen0 + 4 <= out.Length
    ensures out[..encLen] == Encoded(input[..at + 3])
    ensures forall k :: encLen <= k < out.Length ==> out[k] == old(out[k])
  {
    hide EncodedGroup, Encoded;
    GroupFits(input, at);
    GroupAppended(input, at);
    assert a3[0] == input[at] && a3[1] == input[at + 1] && a3[2] == input[at + 2] by {
      assert a3[0] == a3[..][0] && a3[1] == a3[..][1] && a3[2] == a3[..][2];
    }
    encLen := StoreGroup(out, encLen0, a3, 4);
  }

  lemma EncodedNothing(s: Bytes)
    ensures Encoded(s[..0]) == []
  {}

  // a3_to_a4, then the first `count` characters of the group.
  method StoreGroup(out: array<Byte>, encLen0: nat, a3: array<Byte>, count: nat) returns (encLen: nat)
    requires a3.Length == 3 && count <= 4 && encLen0 + count <= out.Length
    modifies out
    ensures encLen == encLen0 + count
    ensures out[..encLen] == old(out[..encLen0]) + old(EncodedGroup(a3[0], a3[1], a3[2]))[..count]
    ensures forall k :: encLen <= k < out.Length ==> out[k] == old(out[k])
  {
    hide Alphabet, Group, Sextet0, Sextet1, Sextet2, Sextet3;
    ghost var g := EncodedGroup(a3[0], a3[1], a3[2]);
    var a4 := new Byte[4](_ => 0);
    A3ToA4(a4, a3);
    ghost var sextets := Sextets(a3[0], a3[1], a3[2]);
    assert a4[0] == sextets[0] && a4[1] == sextets[1] && a4[2] == sextets[2] && a4[3] == sextets[3];
    encLen := StoreSextets(out, encLen0, a4, count, g);
  }

  method StoreSextets(out: array<Byte>, encLen0: nat, a4: array<Byte>, count: nat, ghost g: Bytes) returns (encLen: nat)
    requires a4.Length == 4 == |g| && a4 != out && count <= 4 && encLen0 + count <= out.Length
    requires forall k :: 0 <= k < 4 ==> Alphabet(a4[k]) == g[k]
    modifies out
    ensures encLen == encLen0 + count && out[..encLen] == old(out[..encLen0]) + g[..count]
    ensures forall k :: encLen <= k < out.Length ==> out[k] == old(out[k])
  {
    hide Alphabet;
    encLen := encLen0;
    for j := 0 to count
      invariant encLen == encLen0 + j
      invariant forall k :: 0 <= k < 4 ==> Alphabet(a4[k]) == g[k]
      invariant out[..encLen] == old(out[..encLen0]) + g[..j]
      invariant forall k :: encLen <= k < out.Length ==> out[k] == old(out[k])
    {
      out[encLen] := Alphabet(a4[j]);
      encLen := encLen + 1;
    }
  }

  lemma GroupAppended(s: Bytes, at: nat)
    requires at + 3 <= |s| && at % 3 == 0
    ensures Encoded(s[..at + 3]) == Encoded(s[..at]) + EncodedGroup(s[at], s[at + 1], s[at + 2])
  {
    hide EncodedGroup;
    var g := s[at..at + 3];
    assert s[..at + 3] == s[..at] + g;
    EncodedAppend(s[..at], g);
    assert g[3..] == [];
  }

  lemma GroupFits(s: Bytes, at: nat)
    requires at + 3 <= |s| && at % 3 == 0
    ensures |Encoded(s[..at])| + 4 <= |Encoded(s)|
  {
    hide EncodedGroup;
    GroupAppended(s, at);
    assert s == s[..at + 3] + s[at + 3..];
    EncodedAppend(s[..at + 3], s[at + 3..]);
  }

  // ----- The decoder -----------------------------------------------------------------

  // DecodedLength: the padding is counted from the end, where something else must stop it.
  method DecodedLength(input: Bytes) returns (r: int)
    requires TrailingPads(input) < |input| && 6 * |input| < INT_LIMIT
    ensures r == DecodedLengthOf(input)
  {
    var numEq := 0;
    while input[|input| - 1 - numEq] == PAD
      invariant 0 <= numEq <= TrailingPads(input)
      decreases |input| - numEq
    {
      numEq := numEq + 1;
    }
    r := 6 * |input| / 8 - numEq;
  }

  // Storing a character outside a string of the size `DecodedLength` gave it has no effect
  // here; the caller then sees a length that does not match.
  ghost predicate Stored(out: Bytes, d: Bytes) {
    forall k :: 0 <= k < |d| && k < |out| ==> out[k] == d[k]
  }

  // Decode(const std::string &in, std::string *out)
  method Decode(input: Bytes) returns (out: Bytes, ok: bool)
    requires TrailingPads(input) < |input| && 6 * |input| < INT_LIMIT
    requires DecodedLengthOf(input) >= 0
    ensures ok <==> |DecodedChars(Unpadded(input))| == DecodedLengthOf(input)
    ensures ok ==> out == DecodedChars(Unpadded(input))
  {
    var n := DecodedLength(input);
    var buf := new Byte[n](_ => 0);
    var decLen := DecodeInto(input, buf);
    out, ok := buf[..], decLen == buf.Length;
  }

  // Decode(const char *input, size_t input_length, char *out, size_t out_length)
  method DecodeBuffer(input: Bytes, out: array<Byte>) returns (ok: bool)
    requires TrailingPads(input) < |input| && 6 * |input| < INT_LIMIT
    requires DecodedLengthOf(input) >= 0
    modifies out
    ensures ok <==> |DecodedChars(Unpadded(input))| == DecodedLengthOf(input) <= out.Length
    ensures ok ==> out[..] == DecodedChars(Unpadded(input)) + old(out[DecodedLengthOf(input)..])
  {
    var n := DecodedLength(input);
    if out.Length < n {
      return false;
    }
    var decLen := DecodeInto(input, out);
    ok := decLen == n;
    if ok {
      assert out[..] == out[..n] + out[n..];
    }
  }

  method DecodeInto(input: Bytes, out: array<Byte>) returns (decLen: nat)
    modifies out
    ensures decLen == |DecodedChars(Unpadded(input))|
    ensures Stored(out[..], DecodedChars(Unpadded(input)))
    ensures forall k :: decLen <= k < out.Length ==> out[k] == old(out[k])
  {
    hide DecodedTail, DecodedChars;
    var a4 := new Byte[4](_ => 0);
    ghost var u := Unpadded(input);
    var i;
    decLen, i := DecodeGroups(input, out, a4);
    ghost var body, rest := u[..|u| - i], u[|u| - i..];
    assert u == body + rest;
    DecodedAppend(body, rest);
    DecodedShort(rest);
    if i > 0 {
      assert a4[..i] == rest;
      var j := i;
      while j < 4
        invariant i <= j <= 4 && a4[..i] == rest
        invariant forall k :: i <= k < j ==> a4[k] == 0
        invariant Stored(out[..], DecodedChars(body))
        invariant forall k :: decLen <= k < out.Length ==> out[k] == old(out[k])
      {
        a4[j] := 0;
        j := j + 1;
      }
      assert DecodedTail(rest) == DecodedGroup(a4[0], a4[1], a4[2], a4[3])[..i - 1] by {
        TailAsGroup(rest, a4[..]);
      }
      decLen := StoreOctets(out, decLen, a4, i - 1, DecodedChars(body));
    }
  }

  lemma DecodedShort(s: Bytes)
    requires |s| < 4
    ensures DecodedChars(s) == DecodedTail(s)
    ensures s == [] ==> DecodedTail(s) == []
  {}

  lemma TailAsGroup(s: Bytes, a4: Bytes)
    requires 0 < |s| < 4 == |a4|
    requires forall k :: 0 <= k < 4 ==> a4[k] == if k < |s| then s[k] else 0
    ensures DecodedTail(s) == DecodedGroup(a4[0], a4[1], a4[2], a4[3])[..|s| - 1]
  {
    hide DecodedGroup;
  }

  lemma {:induction false} DecodedAppend(s: Bytes, t: Bytes)
    requires |s| % 4 == 0
    ensures DecodedChars(s + t) == DecodedChars(s) + DecodedChars(t)
    decreases |s|
  {
    hide DecodedGroup, DecodedTail;
    if s == [] {
      DecodedShort(s);
      assert s + t == t;
    } else {
      assert (s + t)[4..] == s[4..] + t;
      DecodedAppend(s[4..], t);
    }
  }

  method DecodeGroups(input: Bytes, out: array<Byte>, a4: array<Byte>) returns (decLen: nat, i: nat)
    requires a4 != out && a4.Length == 4
    modifies out, a4
    ensures var u := Unpadded(input);
            && i == |u| % 4 && a4[..i] == u[|u| - i..]
            && decLen == |DecodedChars(u[..|u| - i])|
            && Stored(out[..], DecodedChars(u[..|u| - i]))
    ensures forall k :: decLen <= k < out.Length ==> out[k] == old(out[k])
  {
    hide DecodedTail, DecodedChars, DecodedGroup, Unpadded;
    ghost var u := Unpadded(input);
    decLen, i := 0, 0;
    var pos := 0;
    ghost var at := 0;  // where the current group starts
    DecodedShort([]);
    assert u[..0] == [];
    while pos < |input|
      invariant at + i == pos <= |u| && i < 4 && at % 4 == 0
      invariant a4[..i] == u[at..pos]
      invariant decLen == |DecodedChars(u[..at])|
      invariant Stored(out[..], DecodedChars(u[..at]))
      invariant forall k :: decLen <= k < out.Length ==> out[k] == old(out[k])
      decreases |input| - pos
    {
      if input[pos] == PAD {
        break;
      }
      assert u[pos] == input[pos];
      StoreChar(a4, i, input[pos], u, at);
      i, pos := i + 1, pos + 1;
      if i == 4 {
        decLen := DecodeGroup(u, at, out, decLen, a4);
        at, i := at + 4, 0;
      }
    }
    assert pos == |u|;
    GroupsAndRest(|u|, at, i);
  }

  lemma GroupsAndRest(n: nat, at: nat, i: nat)
    requires at + i == n && at % 4 == 0 && i < 4
    ensures i == n % 4
  {}

  method StoreChar(a4: array<Byte>, i: nat, c: Byte, ghost u: Bytes, ghost at: nat)
    requires a4.Length == 4 && i < 4 && at + i < |u| && c == u[at + i] && a4[..i] == u[at..at + i]
    modifies a4
    ensures a4[..i + 1] == u[at..at + i + 1]
  {
    a4[i] := c;
  }

  method DecodeGroup(ghost u: Bytes, ghost at: nat, out: array<Byte>, decLen0: nat, a4: array<Byte>)
    returns (decLen: nat)
    requires a4 != out && a4.Length == 4
    requires at + 4 <= |u| && at % 4 == 0 && a4[..] == u[at..at + 4]
    requires decLen0 == |DecodedChars(u[..at])| && Stored(out[..], DecodedChars(u[..at]))
    modifies out
    ensures decLen == |DecodedChars(u[..at + 4])| == decLen0 + 3 && Stored(out[..], DecodedChars(u[..at + 4]))
    ensures forall k :: decLen <= k < out.Length ==> out[k] == old(out[k])
  {
    hide DecodedGroup;
    ghost var g := u[at..at + 4];
    assert u[..at + 4] == u[..at] + g && g[4..] == [];
    DecodedAppend(u[..at], g);
    assert a4[0] == a4[..][0] && a4[1] == a4[..][1] && a4[2] == a4[..][2] && a4[3] == a4[..][3];
    decLen := StoreOctets(out, decLen0, a4, 3, DecodedChars(u[..at]));
  }

  // The lookups, a4_to_a3, and the first `count` octets of the group.
  method StoreOctets(out: array<Byte>, decLen0: nat, a4: array<Byte>, count: nat, ghost d: Bytes)
    returns (decLen: nat)
    requires a4.Length == 4 && count <= 3 && decLen0 == |d| && Stored(out[..], d)
    modifies out
    ensures decLen == decLen0 + count
    ensures Stored(out[..], d + old(DecodedGroup(a4[0], a4[1], a4[2], a4[3]))[..count])
    ensures forall k :: decLen <= k < out.Length ==> out[k] == old(out[k])
  {
    hide Lookup, Octet0, Octet1, Octet2;
    var l0, l1, l2, l3 := Lookup(a4[0]), Lookup(a4[1]), Lookup(a4[2]), Lookup(a4[3]);
    var a3 := [Octet0(l0, l1), Octet1(l1, l2), Octet2(l2, l3)];
    assert a3 == DecodedGroup(a4[0], a4[1], a4[2], a4[3]);
    decLen := decLen0;
    for j := 0 to count
      invariant decLen == decLen0 + j
      invariant Stored(out[..], d + a3[..j])
      invariant forall k :: decLen <= k < out.Length ==> out[k] == old(out[k])
    {
      if decLen < out.Length {
        out[decLen] := a3[j];
      }
      decLen := decLen + 1;
    }
  }

  // Encoding and then decoding gives the input back, and both report success.
  method EncodeThenDecode(input: Bytes) returns (out: Bytes, ok: bool)
    requires input != [] && 6 * EncodedLengthOf(|input|) < INT_LIMIT
    ensures ok && out == input
  {
    hide Encoded, DecodedChars, Unpadded, TrailingPads;
    var text, encoded := Encode(input);
    RoundTrip(input);
    EncodingHasData(input);
    EncodedHasLength(input);
    out, ok := Decode(text);
  }

  lemma EncodingHasData(s: Bytes)
    requires s != []
    ensures TrailingPads(Encoded(s)) < |Encoded(s)|
  {
    hide Encoded;
    EncodedPads(s);
    PadsAtEnd(Encoded(s), PadsFor(|s|));
    EncodedHasLength(s);
  }
}
