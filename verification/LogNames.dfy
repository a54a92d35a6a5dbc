/**
 Names of log files: the epoch and the file index, eight hexadecimal digits each.  Files
 are replayed in the order of their names, which has to be the order they were written in.
 */
module LogNames {
  import opened Common

  function HexDigit(d: nat): (c: char)
    requires d < 16
    ensures c != '/'
  {
    "0123456789abcdef"[d]
  }

  function DigitValue(c: char): (d: nat)
    ensures d < 16
  {
    if '0' <= c <= '9' then (c - '0') as nat
    else if 'a' <= c <= 'f' then (c - 'a') as nat + 10
    else 0
  }

  // std::hex << n
  function Hex(n: nat): (s: string)
    ensures |s| >= 1
    decreases n
  {
    if n < 16 then [HexDigit(n)] else Hex(n / 16) + [HexDigit(n % 16)]
  }

  // std::hex >> n, on digits
  function HexValue(s: string): nat
    decreases |s|
  {
    if s == "" then 0 else 16 * HexValue(s[..|s| - 1]) + DigitValue(s[|s| - 1])
  }

  // `n` in exactly `w` digits.
  function Digits(n: nat, w: nat): (s: string)
    ensures |s| == w && '/' !in s
    decreases w
  {
    if w == 0 then "" else Digits(n / 16, w - 1) + [HexDigit(n % 16)]
  }

  function Pow16(w: nat): (p: nat)
    ensures p >= 1
  {
    if w == 0 then 1 else 16 * Pow16(w - 1)
  }

  lemma Pow16Of8()
    ensures Pow16(8) == UINT32
  {
    assert Pow16(4) == 0x1_0000;
  }

  lemma DigitRoundTrip(d: nat)
    requires d < 16
    ensures DigitValue(HexDigit(d)) == d
  {}

  lemma {:induction false} DigitsRoundTrip(n: nat, w: nat)
    requires n < Pow16(w)
    ensures HexValue(Digits(n, w)) == n
    decreases w
  {
    if w > 0 {
      DigitsRoundTrip(n / 16, w - 1);
      DigitRoundTrip(n % 16);
      var s := Digits(n, w);
      assert s[..|s| - 1] == Digits(n / 16, w - 1);
    }
  }

  lemma {:induction false} DigitsOfZero(w: nat)
    ensures Digits(0, w) == seq(w, _ => '0')
    decreases w
  {
    if w > 0 {
      DigitsOfZero(w - 1);
      assert HexDigit(0) == '0';
    }
  }

  // Filling up with zeros on the left gives all the digits.
  lemma {:induction false} PaddedHex(n: nat, w: nat)
    requires n < Pow16(w) && w >= 1
    ensures |Hex(n)| <= w && seq(w - |Hex(n)|, _ => '0') + Hex(n) == Digits(n, w)
    decreases w
  {
    hide HexDigit;
    if n < 16 {
      DigitsOfZero(w - 1);
    } else {
      assert w > 1;
      PaddedHex(n / 16, w - 1);
      OneDigitMore(seq(w - |Hex(n)|, _ => '0'), Hex(n / 16), HexDigit(n % 16));
    }
  }

  lemma OneDigitMore(pad: string, hex: string, digit: char)
    ensures pad + (hex + [digit]) == pad + hex + [digit]
  {}

  // ----- Order -----------------------------------------------------------------------

  // The order of std::set<std::string>.
  predicate Less(a: string, b: string)
    decreases |a|
  {
    if b == "" then false
    else if a == "" then true
    else if a[0] != b[0] then a[0] < b[0]
    else Less(a[1..], b[1..])
  }

  lemma {:induction false} LessIsStrict(a: string)
    ensures !Less(a, a)
    decreases |a|
  {
    if a != "" {
      LessIsStrict(a[1..]);
    }
  }

  lemma {:induction false} LessIsTransitive(a: string, b: string, c: string)
    requires Less(a, b) && Less(b, c)
    ensures Less(a, c)
    decreases |a|
  {
    if a != "" && a[0] == b[0] && b[0] == c[0] {
      LessIsTransitive(a[1..], b[1..], c[1..]);
    }
  }

  lemma {:induction false} LessIsTotal(a: string, b: string)
    requires a != b
    ensures Less(a, b) || Less(b, a)
    decreases |a|
  {
    if a != "" && b != "" && a[0] == b[0] {
      assert a == [a[0]] + a[1..] && b == [b[0]] + b[1..];
      LessIsTotal(a[1..], b[1..]);
    }
  }

  // With a first part of fixed width, that part decides unless it is the same.
  lemma {:induction false} LessByParts(a: string, x: string, b: string, y: string)
    requires |a| == |b|
    ensures Less(a + x, b + y) <==> Less(a, b) || (a == b && Less(x, y))
    decreases |a|
  {
    if a == "" {
      assert a + x == x && b + y == y;
    } else {
      assert (a + x)[1..] == a[1..] + x && (b + y)[1..] == b[1..] + y;
      assert a == [a[0]] + a[1..] && b == [b[0]] + b[1..];
      LessByParts(a[1..], x, b[1..], y);
    }
  }

  lemma DigitOrder(c: nat, d: nat)
    requires c < 16 && d < 16
    ensures HexDigit(c) < HexDigit(d) <==> c < d
    ensures HexDigit(c) == HexDigit(d) <==> c == d
  {}

  lemma {:induction false} DigitsOrder(m: nat, n: nat, w: nat)
    requires m < Pow16(w) && n < Pow16(w)
    ensures Less(Digits(m, w), Digits(n, w)) <==> m < n
    ensures Digits(m, w) == Digits(n, w) <==> m == n
    decreases w
  {
    hide Less, HexDigit, HexValue;
    DigitsRoundTrip(m, w);
    DigitsRoundTrip(n, w);
    if w > 0 {
      DigitsOrder(m / 16, n / 16, w - 1);
      DigitOrder(m % 16, n % 16);
      LessOfOne(HexDigit(m % 16), HexDigit(n % 16));
      LessByParts(Digits(m / 16, w - 1), [HexDigit(m % 16)], Digits(n / 16, w - 1), [HexDigit(n % 16)]);
      HighAndLow(m, n);
    } else {
      LessIsStrict("");
    }
  }

  lemma LessOfOne(c: char, d: char)
    ensures Less([c], [d]) <==> c < d
  {}

  lemma HighAndLow(m: nat, n: nat)
    ensures m < n <==> m / 16 < n / 16 || (m / 16 == n / 16 && m % 16 < n % 16)
  {}

  // ----- Names -----------------------------------------------------------------------

  function NameOf(dir: string, epoch: nat, index: nat): string {
    dir + Digits(epoch, 8) + Digits(index, 8) + ".log"
  }

  predicate Before(e1: nat, i1: nat, e2: nat, i2: nat) {
    e1 < e2 || (e1 == e2 && i1 < i2)
  }

  // The order of the names is the order of the numbers.
  lemma NameOrder(dir: string, e1: nat, i1: nat, e2: nat, i2: nat)
    requires e1 < UINT32 && i1 < UINT32 && e2 < UINT32 && i2 < UINT32
    ensures Less(NameOf(dir, e1, i1), NameOf(dir, e2, i2)) <==> Before(e1, i1, e2, i2)
    ensures NameOf(dir, e1, i1) == NameOf(dir, e2, i2) <==> e1 == e2 && i1 == i2
  {
    hide Less, Digits, Pow16;
    Pow16Of8();
    DigitsOrder(e1, e2, 8);
    DigitsOrder(i1, i2, 8);
    var a1, b1 := Digits(e1, 8), Digits(i1, 8);
    var a2, b2 := Digits(e2, 8), Digits(i2, 8);
    LessIsStrict(dir);
    LessIsStrict(".log");
    LessByParts(dir, a1 + (b1 + ".log"), dir, a2 + (b2 + ".log"));
    LessByParts(a1, b1 + ".log", a2, b2 + ".log");
    LessByParts(b1, ".log", b2, ".log");
    FourParts(dir, a1, b1, ".log");
    FourParts(dir, a2, b2, ".log");
    PartsDetermined(dir, a1, b1, a2, b2, ".log");
  }

  lemma FourParts(a: string, b: string, c: string, d: string)
    ensures a + b + c + d == a + (b + (c + d))
  {}

  lemma PartsDetermined(a: string, b1: string, c1: string, b2: string, c2: string, d: string)
    requires |b1| == |b2| && |c1| == |c2|
    ensures a + b1 + c1 + d == a + b2 + c2 + d <==> b1 == b2 && c1 == c2
  {
    var s, t := a + b1 + c1 + d, a + b2 + c2 + d;
    var m, n := |a| + |b1|, |a| + |b1| + |c1|;
    assert s[|a|..m] == b1 && t[|a|..m] == b2;
    assert s[m..n] == c1 && t[m..n] == c2;
  }

  // What follows the last slash.
  function Basename(s: string): (r: string)
    decreases |s|
  {
    if s == "" || s[|s| - 1] == '/' then "" else Basename(s[..|s| - 1]) + [s[|s| - 1]]
  }

  lemma {:induction false} BasenameOf(dir: string, name: string)
    requires dir != "" && dir[|dir| - 1] == '/' && '/' !in name
    ensures Basename(dir + name) == name
    decreases |name|
  {
    var s := dir + name;
    if name == "" {
      assert s == dir;
    } else {
      assert s[|s| - 1] == name[|name| - 1] && s[..|s| - 1] == dir + name[..|name| - 1];
      BasenameOf(dir, name[..|name| - 1]);
      assert name == name[..|name| - 1] + [name[|name| - 1]];
    }
  }

  // ParseEpochFromLogName
  function ParseEpoch(name: string): nat {
    var base := Basename(name);
    HexValue(if |base| < 8 then base else base[..8])
  }

  // Parsing the name of a file gives back its epoch.
  lemma EpochRoundTrip(dir: string, epoch: nat, index: nat)
    requires dir != "" && dir[|dir| - 1] == '/' && epoch < UINT32 && index < UINT32
    ensures ParseEpoch(NameOf(dir, epoch, index)) == epoch
  {
    var name := Digits(epoch, 8) + Digits(index, 8) + ".log";
    assert NameOf(dir, epoch, index) == dir + name;
    BasenameOf(dir, name);
    Pow16Of8();
    DigitsRoundTrip(epoch, 8);
    assert name[..8] == Digits(epoch, 8);
  }
}
