/**
 The ECMAScript number layout of RFC 8785, section 3.2.2.3: from the integer part, fraction and exponent of the
 shortest digits to one of four layouts, in two implementations.
 */
module NumberLayout {
  import opened CanonicalJson

  /** Decimal digits, most significant first. */
  type Digit = d: nat | d < 10

  const POINT: nat := 0x2E
  const LETTER_E: nat := 0x65
  const PLUS: nat := 0x2B

  // ---------------------------------------------------------------- digits

  function Zeros(n: nat): (r: seq<Digit>)
    ensures |r| == n && forall i :: 0 <= i < n ==> r[i] == 0
  {
    if n == 0 then [] else [0] + Zeros(n - 1)
  }

  function StripLeft(s: seq<Digit>): (r: seq<Digit>)
    ensures |r| <= |s| && (r != [] ==> r[0] != 0)
  {
    if s != [] && s[0] == 0 then StripLeft(s[1..]) else s
  }

  function StripRight(s: seq<Digit>): (r: seq<Digit>)
    ensures |r| <= |s| && (r != [] ==> r[|r| - 1] != 0)
  {
    if s != [] && s[|s| - 1] == 0 then StripRight(s[..|s| - 1]) else s
  }

  predicate NonZero(s: seq<Digit>)
  {
    exists i :: 0 <= i < |s| && s[i] != 0
  }

  lemma {:induction false} StripLeftSplits(s: seq<Digit>)
    ensures s == Zeros(|s| - |StripLeft(s)|) + StripLeft(s)
    ensures NonZero(s) ==> StripLeft(s) != []
  {
    if s != [] && s[0] == 0 {
      StripLeftSplits(s[1..]);
      assert s == [0] + s[1..];
      if NonZero(s) {
        var i :| 0 <= i < |s| && s[i] != 0;
        assert s[1..][i - 1] != 0;
      }
    }
  }

  lemma {:induction false} StripRightSplits(s: seq<Digit>)
    ensures s == StripRight(s) + Zeros(|s| - |StripRight(s)|)
    ensures s != [] && s[0] != 0 ==> StripRight(s) != [] && StripRight(s)[0] == s[0]
  {
    if s != [] && s[|s| - 1] == 0 {
      var n := |s| - 1;
      StripRightSplits(s[..n]);
      assert s == s[..n] + [0];
      ZerosSnoc(n - |StripRight(s)|);
    }
  }

  lemma {:induction false} ZerosSnoc(n: nat)
    ensures Zeros(n + 1) == Zeros(n) + [0]
  {
  }

  lemma {:induction false} StripLeftOfPadded(n: nat, s: seq<Digit>)
    requires s != [] && s[0] != 0
    ensures StripLeft(Zeros(n) + s) == s
  {
    if n > 0 {
      assert (Zeros(n) + s)[1..] == Zeros(n - 1) + s;
      StripLeftOfPadded(n - 1, s);
    } else {
      assert Zeros(0) + s == s;
    }
  }

  lemma {:induction false} StripRightOfPadded(s: seq<Digit>, n: nat)
    requires s != [] && s[|s| - 1] != 0
    ensures StripRight(s + Zeros(n)) == s
  {
    if n > 0 {
      ZerosSnoc(n - 1);
      var t := s + Zeros(n);
      assert t[..|t| - 1] == s + Zeros(n - 1);
      StripRightOfPadded(s, n - 1);
    } else {
      assert s + Zeros(0) == s;
    }
  }

  // ---------------------------------------------------------------- normal form and layout

  /** A non-zero magnitude 0.digits x 10^point, with no zero at either end of the digits. */
  datatype Normal = Normal(digits: seq<Digit>, point: int)

  predicate IsNormal(x: Normal)
  {
    x.digits != [] && x.digits[0] != 0 && x.digits[|x.digits| - 1] != 0
  }

  /** Integer part, fraction and exponent, as the shortest-digits text gives them. */
  datatype Parts = Parts(ip: seq<Digit>, fp: seq<Digit>, exp: int)

  function Normalize(p: Parts): Normal
  {
    var all := p.ip + p.fp;
    var digits := StripLeft(all);
    var lead := |all| - |digits|;
    Normal(if StripRight(digits) == [] then [0] else StripRight(digits), |p.ip| - lead + p.exp)
  }

  /** The second implementation first drops a fraction that is a single zero. */
  function Normalize2(p: Parts): Normal
  {
    Normalize(if p.fp == [0] then p.(fp := []) else p)
  }

  function Chars(s: seq<Digit>): (t: Text)
    ensures |t| == |s|
  {
    seq(|s|, i requires 0 <= i < |s| => 0x30 + (s[i] as nat))
  }

  function Layout(x: Normal): Text
    requires x.digits != []
  {
    var k, n := |x.digits|, x.point;
    if k <= n <= 21 then Chars(x.digits + Zeros(n - k))
    else if 0 < n <= 21 then Chars(x.digits[..n]) + [POINT] + Chars(x.digits[n..])
    else if -6 < n <= 0 then Chars([0]) + [POINT] + Chars(Zeros(-n) + x.digits)
    else Chars(x.digits[..1]) + (if k == 1 then [] else [POINT] + Chars(x.digits[1..])) + Exponent(n - 1)
  }

  function Exponent(e: int): Text
  {
    [LETTER_E] + (if e >= 0 then [PLUS] + Digits(e) else [MINUS] + Digits(-e))
  }

  /** The text of a non-zero number. */
  function NumberText(negative: bool, p: Parts): Text
  {
    (if negative then [MINUS] else []) + Layout(Normalize(p))
  }

  function NumberText2(negative: bool, p: Parts): Text
  {
    (if negative then [MINUS] else []) + Layout(Normalize2(p))
  }

  lemma NormalizeIsNormal(p: Parts)
    requires NonZero(p.ip + p.fp)
    ensures IsNormal(Normalize(p))
  {
    StripLeftSplits(p.ip + p.fp);
    StripRightSplits(StripLeft(p.ip + p.fp));
  }

  // ---------------------------------------------------------------- reading a text back

  function TakeDigits(t: Text): (r: (seq<Digit>, Text))
    decreases |t|
  {
    if t != [] && IsDigit(t[0]) then var r := TakeDigits(t[1..]); ([t[0] - 0x30] + r.0, r.1) else ([], t)
  }

  function ReadExponent(t: Text): int
  {
    if |t| < 2 || t[0] != LETTER_E then 0
    else if t[1] == MINUS then -(ReadDigits(t[2..], 0).0 as int)
    else ReadDigits(t[2..], 0).0
  }

  /** Integer part, fraction and exponent of a number text. */
  function ReadParts(t: Text): Parts
  {
    var (ip, r) := TakeDigits(t);
    if r != [] && r[0] == POINT then var (fp, r') := TakeDigits(r[1..]); Parts(ip, fp, ReadExponent(r'))
    else Parts(ip, [], ReadExponent(r))
  }

  lemma {:induction false} TakeChars(s: seq<Digit>, t: Text)
    requires Ends(t)
    ensures TakeDigits(Chars(s) + t) == (s, t)
  {
    var all := Chars(s) + t;
    if s == [] {
      assert all == t;
    } else {
      assert all[1..] == Chars(s[1..]) + t;
      TakeChars(s[1..], t);
      assert s == [s[0]] + s[1..];
    }
  }

  lemma ReadsExponent(e: int)
    ensures ReadExponent(Exponent(e)) == e
  {
    var m := if e >= 0 then e else -e;
    ReadDigitsOf(m, []);
    assert Digits(m) + [] == Digits(m) && Exponent(e)[2..] == Digits(m);
  }

  lemma ReadsPlain(s: seq<Digit>, t: Text)
    requires Ends(t) && !(t != [] && t[0] == POINT)
    ensures ReadParts(Chars(s) + t) == Parts(s, [], ReadExponent(t))
  {
    TakeChars(s, t);
  }

  lemma ReadsPointed(ip: seq<Digit>, fp: seq<Digit>, t: Text)
    requires Ends(t)
    ensures ReadParts(Chars(ip) + [POINT] + Chars(fp) + t) == Parts(ip, fp, ReadExponent(t))
  {
    var r := [POINT] + (Chars(fp) + t);
    assert Chars(ip) + [POINT] + Chars(fp) + t == Chars(ip) + r && r[1..] == Chars(fp) + t;
    TakeChars(ip, r);
    TakeChars(fp, t);
  }

  /** The parts each layout shows. */
  function Shown(x: Normal): Parts
    requires x.digits != []
  {
    var k, n := |x.digits|, x.point;
    if k <= n <= 21 then Parts(x.digits + Zeros(n - k), [], 0)
    else if 0 < n <= 21 then Parts(x.digits[..n], x.digits[n..], 0)
    else if -6 < n <= 0 then Parts([0], Zeros(-n) + x.digits, 0)
    else Parts(x.digits[..1], x.digits[1..], n - 1)
  }

  lemma ReadsLayout(x: Normal)
    requires x.digits != []
    ensures ReadParts(Layout(x)) == Shown(x)
  {
    var k, n := |x.digits|, x.point;
    if k <= n <= 21 {
      ReadsPlain(x.digits + Zeros(n - k), []);
      assert Chars(x.digits + Zeros(n - k)) + [] == Layout(x);
    } else if 0 < n <= 21 {
      ReadsPointed(x.digits[..n], x.digits[n..], []);
      assert Chars(x.digits[..n]) + [POINT] + Chars(x.digits[n..]) + [] == Layout(x);
    } else if -6 < n <= 0 {
      ReadsPointed([0], Zeros(-n) + x.digits, []);
      assert Chars([0]) + [POINT] + Chars(Zeros(-n) + x.digits) + [] == Layout(x);
    } else {
      ReadsScientific(x);
    }
  }

  lemma ReadsScientific(x: Normal)
    requires x.digits != [] && (x.point > 21 || x.point <= -6)
    ensures ReadParts(Layout(x)) == Shown(x)
  {
    ReadsExponent(x.point - 1);
    var e := Exponent(x.point - 1);
    if |x.digits| == 1 {
      ReadsPlain(x.digits[..1], e);
      assert Chars(x.digits[..1]) + [] + e == Chars(x.digits[..1]) + e;
    } else {
      ReadsPointed(x.digits[..1], x.digits[1..], e);
      assert Chars(x.digits[..1]) + ([POINT] + Chars(x.digits[1..])) + e
          == Chars(x.digits[..1]) + [POINT] + Chars(x.digits[1..]) + e;
    }
  }

  /** Digits with no zero at either end, between zeros: stripping leaves the digits. */
  lemma NormalizePadded(p: Parts, left: nat, ds: seq<Digit>, right: nat)
    requires ds != [] && ds[0] != 0 && ds[|ds| - 1] != 0 && p.ip + p.fp == Zeros(left) + (ds + Zeros(right))
    ensures Normalize(p) == Normal(ds, |p.ip| - left + p.exp)
  {
    assert (ds + Zeros(right))[0] == ds[0];
    StripLeftOfPadded(left, ds + Zeros(right));
    StripRightOfPadded(ds, right);
  }

  lemma Unpadded(ds: seq<Digit>)
    ensures Zeros(0) + (ds + Zeros(0)) == ds
  {
  }

  /** What a layout shows normalizes back to what was laid out. */
  lemma ShownNormalizes(x: Normal)
    requires IsNormal(x)
    ensures Normalize(Shown(x)) == x
  {
    var k, n, ds, p := |x.digits|, x.point, x.digits, Shown(x);
    Unpadded(ds);
    if k <= n <= 21 {
      assert p.ip + p.fp == Zeros(0) + (ds + Zeros(n - k));
      NormalizePadded(p, 0, ds, n - k);
    } else if -6 < n <= 0 {
      assert p.ip + p.fp == Zeros(1 - n) + (ds + Zeros(0));
      NormalizePadded(p, 1 - n, ds, 0);
    } else {
      assert p.ip + p.fp == ds;
      NormalizePadded(p, 0, ds, 0);
    }
  }

  /** Reading a layout back gives the normal form it lays out, so distinct normal forms have distinct texts. */
  lemma LayoutDecodes(x: Normal)
    requires IsNormal(x)
    ensures Normalize(ReadParts(Layout(x))) == x
  {
    ReadsLayout(x);
    ShownNormalizes(x);
  }

  lemma LayoutInjective(x: Normal, y: Normal)
    requires IsNormal(x) && IsNormal(y) && Layout(x) == Layout(y)
    ensures x == y
  {
    LayoutDecodes(x);
    LayoutDecodes(y);
  }

  // ---------------------------------------------------------------- the value denoted

  /** n x 10^e. */
  ghost function Scaled(n: nat, e: int): real
    decreases if e < 0 then -e else e
  {
    if e == 0 then n as real else if e > 0 then 10.0 * Scaled(n, e - 1) else Scaled(n, e + 1) / 10.0
  }

  ghost function NatOf(s: seq<Digit>): nat
  {
    if s == [] then 0 else 10 * NatOf(s[..|s| - 1]) + s[|s| - 1]
  }

  /** The decimal value ip.fp x 10^exp. */
  ghost function ValueOf(p: Parts): real
  {
    Scaled(NatOf(p.ip + p.fp), p.exp - |p.fp|)
  }

  ghost function ValueOfNormal(x: Normal): real
  {
    Scaled(NatOf(x.digits), x.point - |x.digits|)
  }

  lemma {:induction false} ScaledTen(n: nat, e: int)
    ensures Scaled(10 * n, e) == Scaled(n, e + 1)
    decreases if e < 0 then -e else e
  {
    if e > 0 {
      ScaledTen(n, e - 1);
    } else if e < 0 {
      ScaledTen(n, e + 1);
    }
  }

  lemma {:induction false} TrailingZeros(s: seq<Digit>, n: nat, e: int)
    ensures Scaled(NatOf(s + Zeros(n)), e) == Scaled(NatOf(s), e + n)
  {
    if n == 0 {
      assert s + Zeros(0) == s;
    } else {
      ZerosSnoc(n - 1);
      var t := s + Zeros(n);
      assert t[..|t| - 1] == s + Zeros(n - 1);
      assert NatOf(t) == 10 * NatOf(s + Zeros(n - 1));
      ScaledTen(NatOf(s + Zeros(n - 1)), e);
      TrailingZeros(s, n - 1, e + 1);
    }
  }

  lemma {:induction false} LeadingZeros(n: nat, s: seq<Digit>)
    ensures NatOf(Zeros(n) + s) == NatOf(s)
    decreases |s|, n
  {
    var t := Zeros(n) + s;
    if s != [] {
      assert t[..|t| - 1] == Zeros(n) + s[..|s| - 1];
      LeadingZeros(n, s[..|s| - 1]);
    } else if n > 0 {
      ZerosSnoc(n - 1);
      assert t[..|t| - 1] == Zeros(n - 1) + s;
      LeadingZeros(n - 1, s);
    }
  }

  /** A number is its digits between stripped zeros. */
  lemma NormalizeSplits(p: Parts) returns (left: nat, right: nat)
    requires NonZero(p.ip + p.fp)
    ensures var x := Normalize(p);
      p.ip + p.fp == Zeros(left) + (x.digits + Zeros(right)) && x.point == |p.ip| - left + p.exp
  {
    var all := p.ip + p.fp;
    StripLeftSplits(all);
    StripRightSplits(StripLeft(all));
    left, right := |all| - |StripLeft(all)|, |StripLeft(all)| - |StripRight(StripLeft(all))|;
  }

  /** Normalizing keeps the value. */
  lemma NormalizeKeepsValue(p: Parts)
    requires NonZero(p.ip + p.fp)
    ensures ValueOfNormal(Normalize(p)) == ValueOf(p)
  {
    var left, right := NormalizeSplits(p);
    var ds := Normalize(p).digits;
    LeadingZeros(left, ds + Zeros(right));
    TrailingZeros(ds, right, p.exp - |p.fp|);
    assert |p.ip| + |p.fp| == left + |ds| + right;
  }

  /** All four layouts denote exactly the decimal value they were made from, with the same sign. */
  lemma TextDenotesInput(negative: bool, p: Parts)
    requires NonZero(p.ip + p.fp)
    ensures var text := NumberText(negative, p); var out := if negative then text[1..] else text;
      (negative <==> text[0] == MINUS) && ValueOf(ReadParts(out)) == ValueOf(p)
  {
    var x := Normalize(p);
    NormalizeIsNormal(p);
    NormalizeKeepsValue(p);
    ReadsLayout(x);
    ShownNormalizes(x);
    ShownNonZero(x);
    NormalizeKeepsValue(Shown(x));
    LayoutStarts(x);
    assert ([MINUS] + Layout(x))[1..] == Layout(x) && [] + Layout(x) == Layout(x);
  }

  lemma ShownNonZero(x: Normal)
    requires IsNormal(x)
    ensures NonZero(Shown(x).ip + Shown(x).fp)
  {
    var k, n, all := |x.digits|, x.point, Shown(x).ip + Shown(x).fp;
    if -6 < n <= 0 && !(k <= n <= 21) {
      assert all[1 - n] == x.digits[0];
    } else {
      assert all[0] == x.digits[0];
    }
  }

  lemma LayoutStarts(x: Normal)
    requires x.digits != []
    ensures Layout(x) != [] && IsDigit(Layout(x)[0])
  {
  }

  // ---------------------------------------------------------------- the two implementations agree

  lemma {:induction false} StripLeftSnoc(s: seq<Digit>)
    requires NonZero(s)
    ensures StripLeft(s + [0]) == StripLeft(s) + [0]
  {
    if s[0] == 0 {
      var i :| 0 <= i < |s| && s[i] != 0;
      assert s[1..][i - 1] != 0;
      assert (s + [0])[1..] == s[1..] + [0];
      StripLeftSnoc(s[1..]);
    }
  }

  /** The two implementations give every non-zero number the same text. */
  lemma ImplementationsAgree(negative: bool, p: Parts)
    requires NonZero(p.ip + p.fp)
    ensures NumberText(negative, p) == NumberText2(negative, p)
  {
    if p.fp == [0] {
      DropZeroFraction(p);
    }
  }

  lemma NonZeroBefore(s: seq<Digit>)
    requires NonZero(s + [0])
    ensures NonZero(s)
  {
    var i :| 0 <= i < |s + [0]| && (s + [0])[i] != 0;
    assert s[i] != 0;
  }

  lemma StripRightSnoc(s: seq<Digit>)
    ensures StripRight(s + [0]) == StripRight(s)
  {
    assert (s + [0])[..|s|] == s;
  }

  lemma DropZeroFraction(p: Parts)
    requires NonZero(p.ip + p.fp) && p.fp == [0]
    ensures Normalize(p) == Normalize(p.(fp := []))
  {
    NonZeroBefore(p.ip);
    StripLeftSnoc(p.ip);
    StripRightSnoc(StripLeft(p.ip));
    assert p.ip + [] == p.ip;
  }

  // ---------------------------------------------------------------- which layout is used

  function Ten(k: nat): nat
  {
    if k == 0 then 1 else 10 * Ten(k - 1)
  }

  lemma {:induction false} DigitsBounded(s: seq<Digit>)
    requires s != [] && s[0] != 0
    ensures Ten(|s| - 1) <= NatOf(s) < Ten(|s|)
  {
    var n := |s| - 1;
    if n > 0 {
      DigitsBounded(s[..n]);
    } else {
      assert NatOf(s[..0]) == 0;
    }
  }

  lemma {:induction false} ScaledGrows(n: nat, m: nat, e: int)
    requires n < m
    ensures Scaled(n, e) < Scaled(m, e)
    decreases if e < 0 then -e else e
  {
    if e > 0 { ScaledGrows(n, m, e - 1); } else if e < 0 { ScaledGrows(n, m, e + 1); }
  }

  lemma {:induction false} ScaledPower(k: nat, e: int)
    ensures Scaled(Ten(k), e) == Scaled(1, e + k)
  {
    if k > 0 {
      ScaledTen(Ten(k - 1), e);
      ScaledPower(k - 1, e + 1);
    }
  }

  /** A normal magnitude with its point at n lies between the powers n - 1 and n of ten. */
  lemma MagnitudeBounded(x: Normal)
    requires IsNormal(x)
    ensures Scaled(1, x.point - 1) <= ValueOfNormal(x) < Scaled(1, x.point)
  {
    var k, e := |x.digits|, x.point - |x.digits|;
    DigitsBounded(x.digits);
    ScaledPower(k - 1, e);
    ScaledPower(k, e);
    if Ten(k - 1) < NatOf(x.digits) { ScaledGrows(Ten(k - 1), NatOf(x.digits), e); }
    ScaledGrows(NatOf(x.digits), Ten(k), e);
  }

  lemma {:induction false} PowersGrow(a: int, b: int)
    requires a < b
    ensures Scaled(1, a) < Scaled(1, b)
    decreases b - a
  {
    ScaledTen(1, b - 1);
    ScaledGrows(1, 10, b - 1);
    if a < b - 1 { PowersGrow(a, b - 1); }
  }

  lemma PowersOrdered(a: int, b: int)
    ensures a <= b ==> Scaled(1, a) <= Scaled(1, b)
  {
    if a < b { PowersGrow(a, b); }
  }

  /** The exponent form is used exactly for magnitudes of 10^21 and above and for those below 10^-6. */
  lemma ExponentExactly(x: Normal)
    requires IsNormal(x)
    ensures LETTER_E in Layout(x) <==> ValueOfNormal(x) >= Scaled(1, 21) || ValueOfNormal(x) < Scaled(1, -6)
  {
    MagnitudeBounded(x);
    PowersOrdered(21, x.point - 1);
    PowersOrdered(x.point, 21);
    PowersOrdered(x.point, -6);
    PowersOrdered(-6, x.point - 1);
    ExponentByPoint(x);
  }

  lemma CharsHaveNoLetter(s: seq<Digit>)
    ensures LETTER_E !in Chars(s) && POINT !in Chars(s)
  {
  }

  lemma ExponentByPoint(x: Normal)
    requires x.digits != []
    ensures LETTER_E in Layout(x) <==> x.point > 21 || x.point <= -6
  {
    var k, n := |x.digits|, x.point;
    if k <= n <= 21 {
      CharsHaveNoLetter(x.digits + Zeros(n - k));
    } else if 0 < n <= 21 {
      CharsHaveNoLetter(x.digits[..n]);
      CharsHaveNoLetter(x.digits[n..]);
    } else if -6 < n <= 0 {
      CharsHaveNoLetter([0]);
      CharsHaveNoLetter(Zeros(-n) + x.digits);
    } else {
      assert LETTER_E in Exponent(n - 1);
    }
  }

  /**
   Inside each form: one non-zero digit before the point and a non-zero exponent with a sign in the exponent form; no
   exponent and no needless zero in front in the other; never a zero at the end of a fraction.
   */
  lemma FormExactly(x: Normal)
    requires IsNormal(x)
    ensures var p := ReadParts(Layout(x));
      && (LETTER_E in Layout(x) ==> |p.ip| == 1 && p.ip[0] != 0 && p.exp != 0)
      && (LETTER_E !in Layout(x) ==> p.exp == 0 && p.ip != [] && (p.ip == [0] || p.ip[0] != 0))
      && (p.fp != [] ==> p.fp[|p.fp| - 1] != 0)
  {
    ReadsLayout(x);
    ExponentByPoint(x);
  }
}
