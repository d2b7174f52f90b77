/** JSON and config numbers as exact decimals, printed the way ECMA-262 prints a Number. */
module Decimals {
  import opened Text

  /** `0.d1d2...dk * 10^point`; the digits carry no zero at either end, and no digits at all is zero. */
  datatype Decimal = Decimal(neg: bool, digits: string, point: int) {
    predicate Valid() {
      && AllDigits(digits)
      && (digits == "" ==> !neg && point == 0)
      && (digits != "" ==> digits[0] != '0' && digits[|digits| - 1] != '0')
    }

    /** The range in which a Number prints without an exponent. */
    predicate PrintsPlain() {
      digits == "" || -6 < point <= 21
    }

    function Print(): (r: string) {
      (if neg then "-" else "") + Magnitude()
    }

    function Magnitude(): (r: string) {
      var k := |digits|;
      if k == 0 then "0"
      else if k <= point <= 21 then digits + Repeat('0', point - k)
      else if 0 < point <= 21 then digits[..point] + "." + digits[point..]
      else if -6 < point <= 0 then "0." + Repeat('0', -point) + digits
      else
        (if k == 1 then digits else digits[..1] + "." + digits[1..])
        + (if point >= 1 then "e+" + NatText(point - 1) else "e-" + NatText(1 - point))
    }

    /** The number denoted. */
    function ToReal(): (r: real) {
      var magnitude := NatOf(digits) as real * PowerOfTen(point - |digits|);
      if neg then -magnitude else magnitude
    }
  }

  function DigitValue(c: char): (r: int) {
    c as int - '0' as int
  }

  function NatOf(digits: string): (r: int) {
    if digits == "" then 0 else NatOf(digits[..|digits| - 1]) * 10 + DigitValue(digits[|digits| - 1])
  }

  function NatText(n: nat): (r: string)
    ensures r != "" && AllDigits(r)
  {
    var d := [('0' as int + n % 10) as char];
    if n < 10 then d else NatText(n / 10) + d
  }

  function PowerOfTen(e: int): (r: real)
    decreases if e < 0 then -e else e
  {
    if e == 0 then 1.0 else if e > 0 then 10.0 * PowerOfTen(e - 1) else PowerOfTen(e + 1) / 10.0
  }

  /** Drops zeros at both ends; each one dropped in front moves the point. */
  function Canonical(neg: bool, digits: string, point: int): (r: Decimal)
    decreases |digits|
  {
    if digits == "" then Decimal(false, "", 0)
    else if digits[0] == '0' then Canonical(neg, digits[1..], point - 1)
    else if digits[|digits| - 1] == '0' then Canonical(neg, digits[..|digits| - 1], point)
    else Decimal(neg, digits, point)
  }

  /** Length of the longest prefix of digits. */
  function DigitRun(s: string): (n: nat)
    ensures n <= |s| && AllDigits(s[..n])
    ensures n < |s| ==> !IsDigit(s[n])
  {
    if s != "" && IsDigit(s[0]) then 1 + DigitRun(s[1..]) else 0
  }

  datatype Numeral = NotANumeral | Numeral(value: Decimal)

  /** `/^\d+(\.\d+)?$/` on the text after an optional minus sign. */
  function ReadUnsigned(neg: bool, s: string): (r: Numeral) {
    var n := DigitRun(s);
    if n == 0 then NotANumeral
    else if n == |s| then Numeral(Canonical(neg, s, n))
    else if s[n] == '.' && n + 1 < |s| && DigitRun(s[n + 1..]) == |s| - n - 1 then
      Numeral(Canonical(neg, s[..n] + s[n + 1..], n))
    else NotANumeral
  }

  /** `/^-?\d+(\.\d+)?$/` and the Number it denotes. */
  function ReadNumeral(s: string): (r: Numeral) {
    if StartsWith(s, '-') then ReadUnsigned(true, s[1..]) else ReadUnsigned(false, s)
  }

  lemma {:induction false} DigitRunAll(s: string, tail: string)
    requires AllDigits(s)
    requires tail != "" ==> !IsDigit(tail[0])
    ensures DigitRun(s + tail) == |s|
  {
    if s != "" {
      assert (s + tail)[1..] == s[1..] + tail;
      DigitRunAll(s[1..], tail);
    } else {
      assert s + tail == tail;
    }
  }

  lemma {:induction false} CanonicalPadded(neg: bool, zeros: nat, digits: string, trailing: nat, point: int)
    requires digits != "" && digits[0] != '0' && digits[|digits| - 1] != '0'
    ensures Canonical(neg, Repeat('0', zeros) + digits + Repeat('0', trailing), point)
         == Decimal(neg, digits, point - zeros)
    decreases zeros + trailing
  {
    hide Repeat, Canonical;
    var s := Repeat('0', zeros) + digits + Repeat('0', trailing);
    CanonicalTurn(neg, s, point);
    if zeros > 0 {
      assert s[0] == Repeat('0', zeros)[0];
      assert s[1..] == Repeat('0', zeros)[1..] + digits + Repeat('0', trailing);
      OneLess(zeros);
      CanonicalPadded(neg, zeros - 1, digits, trailing, point - 1);
    } else if trailing > 0 {
      assert s == digits + Repeat('0', trailing);
      assert s[|s| - 1] == Repeat('0', trailing)[trailing - 1];
      assert s[..|s| - 1] == Repeat('0', zeros) + digits + Repeat('0', trailing)[..trailing - 1];
      OneLess(trailing);
      CanonicalPadded(neg, zeros, digits, trailing - 1, point);
    } else {
      assert s == digits;
    }
  }

  lemma OneLess(n: nat)
    requires n > 0
    ensures Repeat('0', n)[1..] == Repeat('0', n - 1) == Repeat('0', n)[..n - 1]
  {
  }

  /** A zero goes at the front, or else at the end. */
  lemma CanonicalTurn(neg: bool, s: string, point: int)
    requires s != ""
    ensures s[0] == '0' ==> Canonical(neg, s, point) == Canonical(neg, s[1..], point - 1)
    ensures s[0] != '0' && s[|s| - 1] == '0' ==> Canonical(neg, s, point) == Canonical(neg, s[..|s| - 1], point)
    ensures s[0] != '0' && s[|s| - 1] != '0' ==> Canonical(neg, s, point) == Decimal(neg, s, point)
  {
  }

  lemma ReadWholeMagnitude(d: Decimal)
    requires d.Valid() && d.digits != "" && |d.digits| <= d.point <= 21
    ensures ReadUnsigned(d.neg, d.Magnitude()) == Numeral(d)
  {
    var m, zeros := d.Magnitude(), d.point - |d.digits|;
    DigitRunAll(m, "");
    assert m + "" == m;
    CanonicalPadded(d.neg, 0, d.digits, zeros, d.point);
    assert Repeat('0', 0) + d.digits + Repeat('0', zeros) == m;
  }

  lemma NoPadding(digits: string)
    ensures Repeat('0', 0) + digits + Repeat('0', 0) == digits
  {
  }

  lemma ReadPointInside(neg: bool, whole: string, frac: string)
    requires AllDigits(whole) && AllDigits(frac) && whole != "" && frac != ""
    requires whole[0] != '0' && frac[|frac| - 1] != '0'
    ensures ReadUnsigned(neg, whole + "." + frac) == Numeral(Decimal(neg, whole + frac, |whole|))
  {
    SplitAtPoint(neg, whole, frac);
    CanonicalPadded(neg, 0, whole + frac, 0, |whole|);
    NoPadding(whole + frac);
  }

  lemma ZerosText(zeros: nat, digits: string)
    ensures "0." + Repeat('0', zeros) + digits == "0" + "." + (Repeat('0', zeros) + digits)
    ensures Repeat('0', zeros + 1) + digits + Repeat('0', 0) == "0" + (Repeat('0', zeros) + digits)
  {
  }

  lemma ReadFraction(neg: bool, zeros: nat, digits: string)
    requires AllDigits(digits) && digits != "" && digits[0] != '0' && digits[|digits| - 1] != '0'
    ensures ReadUnsigned(neg, "0." + Repeat('0', zeros) + digits) == Numeral(Decimal(neg, digits, 0 - zeros))
  {
    ZerosText(zeros, digits);
    SplitAtPoint(neg, "0", Repeat('0', zeros) + digits);
    CanonicalPadded(neg, zeros + 1, digits, 0, 1);
  }

  lemma ReadZero()
    ensures ReadUnsigned(false, "0") == Numeral(Decimal(false, "", 0))
  {
    assert DigitRun("0") == 1;
    assert Canonical(false, "0", 1) == Canonical(false, "", 0);
  }

  lemma ReadPlainMagnitude(d: Decimal)
    requires d.Valid() && d.PrintsPlain()
    ensures ReadUnsigned(d.neg, d.Magnitude()) == Numeral(d)
  {
    hide ReadUnsigned, NatText, Repeat;
    if d.digits == "" {
      ReadZero();
    } else if |d.digits| <= d.point {
      ReadWholeMagnitude(d);
    } else if 0 < d.point {
      ReadPointInside(d.neg, d.digits[..d.point], d.digits[d.point..]);
      assert d.digits[..d.point] + d.digits[d.point..] == d.digits;
    } else {
      ReadFraction(d.neg, -d.point, d.digits);
    }
  }

  lemma SplitAtPoint(neg: bool, whole: string, frac: string)
    requires whole != "" && frac != "" && AllDigits(whole) && AllDigits(frac)
    ensures ReadUnsigned(neg, whole + "." + frac) == Numeral(Canonical(neg, whole + frac, |whole|))
  {
    var s := whole + "." + frac;
    assert s == whole + ("." + frac);
    DigitRunAll(whole, "." + frac);
    assert s[..|whole|] == whole && s[|whole| + 1..] == frac;
    DigitRunAll(frac, "");
    assert frac + "" == frac;
  }

  lemma MagnitudeStartsWithDigit(d: Decimal)
    requires d.Valid()
    ensures d.Magnitude() != "" && IsDigit(d.Magnitude()[0])
  {
  }

  /** A number in the plain range reads back as itself; printed with an exponent it is not a numeral
      of the config dialect at all. */
  lemma NumeralRoundTrip(d: Decimal)
    requires d.Valid()
    ensures d.PrintsPlain() ==> ReadNumeral(d.Print()) == Numeral(d)
    ensures !d.PrintsPlain() ==> ReadNumeral(d.Print()) == NotANumeral
  {
    var p, m := d.Print(), d.Magnitude();
    MagnitudeStartsWithDigit(d);
    if d.neg {
      assert p[1..] == m;
    } else {
      assert p == m;
    }
    if d.PrintsPlain() {
      ReadPlainMagnitude(d);
    } else {
      ExponentIsNoNumeral(d);
    }
  }

  lemma ExponentIsNoNumeral(d: Decimal)
    requires d.Valid() && !d.PrintsPlain()
    ensures ReadUnsigned(d.neg, d.Magnitude()) == NotANumeral
  {
    hide NatText, Repeat, Canonical, DigitRun;
    var k, m := |d.digits|, d.Magnitude();
    var e := if d.point >= 1 then "e+" + NatText(d.point - 1) else "e-" + NatText(1 - d.point);
    if k == 1 {
      assert m == d.digits + e;
      DigitRunAll(d.digits, e);
    } else {
      assert m == d.digits[..1] + ("." + d.digits[1..] + e);
      DigitRunAll(d.digits[..1], "." + d.digits[1..] + e);
      assert m[2..] == d.digits[1..] + e;
      DigitRunAll(d.digits[1..], e);
    }
  }

  predicate NumberChars(s: string) {
    forall i :: 0 <= i < |s| ==> IsDigit(s[i]) || s[i] == '.' || s[i] == 'e' || s[i] == '+' || s[i] == '-'
  }

  lemma NumberCharsJoin(a: string, b: string)
    requires NumberChars(a) && NumberChars(b)
    ensures NumberChars(a + b)
  {
  }

  lemma PrintChars(d: Decimal)
    requires d.Valid()
    ensures NumberChars(d.Print())
  {
    hide Decimal.Magnitude;
    MagnitudeChars(d);
    NumberCharsJoin(if d.neg then "-" else "", d.Magnitude());
  }

  lemma MagnitudeChars(d: Decimal)
    requires d.Valid()
    ensures NumberChars(d.Magnitude())
  {
    hide NatText, Repeat;
    if !d.PrintsPlain() {
      var e := if d.point >= 1 then "e+" + NatText(d.point - 1) else "e-" + NatText(1 - d.point);
      NumberCharsJoin(if |d.digits| == 1 then d.digits else d.digits[..1] + "." + d.digits[1..], e);
    }
  }
}
