/** What a number's text denotes, in the config dialect and in JSON. */
module NumberReading {
  import opened Options
  import opened Text
  import opened Decimals
  import opened Json

  /** A magnitude with a sign. */
  function Signed(neg: bool, magnitude: real): (r: real) {
    if neg then -magnitude else magnitude
  }

  function MinusIf(neg: bool): (r: string) {
    if neg then "-" else ""
  }

  /** The digits before and after the point. */
  function PointText(whole: string, frac: string): (r: string) {
    whole + if frac == "" then "" else "." + frac
  }

  /** What the digits denote, with the point before the last `places` of them. */
  function Value10(digits: string, places: int): (r: real) {
    NatOf(digits) as real * PowerOfTen(-places)
  }

  lemma {:induction false} PowerNext(e: int)
    ensures PowerOfTen(e + 1) == 10.0 * PowerOfTen(e)
    decreases if e < 0 then -e else e
  {
  }

  lemma {:induction false} LeadingZero(digits: string)
    requires digits != "" && digits[0] == '0'
    ensures NatOf(digits) == NatOf(digits[1..])
    decreases |digits|
  {
    if |digits| > 1 {
      var n := |digits| - 1;
      assert digits[..n][1..] == digits[1..][..n - 1];
      LeadingZero(digits[..n]);
    }
  }

  lemma {:induction false} NatIsNat(digits: string)
    requires AllDigits(digits)
    ensures NatOf(digits) >= 0
    decreases |digits|
  {
    if digits != "" { NatIsNat(digits[..|digits| - 1]); }
  }

  /** Dropping zeros at both ends does not change the number. */
  lemma {:induction false} CanonicalValue(neg: bool, digits: string, point: int)
    requires AllDigits(digits)
    ensures var d := Canonical(neg, digits, point);
            d.Valid() && d.ToReal() == Signed(neg, Value10(digits, |digits| - point))
    decreases |digits|
  {
    hide NatOf, PowerOfTen, Canonical, Decimal.ToReal, Value10;
    if digits == "" {
      NothingIsZero(neg, point);
    } else {
      CanonicalTurn(neg, digits, point);
      if digits[0] == '0' {
        CanonicalValue(neg, digits[1..], point - 1);
        LeadingZero(digits);
        SameDigits(digits, digits[1..], |digits| - point);
      } else if digits[|digits| - 1] == '0' {
        CanonicalValue(neg, digits[..|digits| - 1], point);
        TrailingZero(digits, |digits| - point);
      } else {
        NoZeros(Decimal(neg, digits, point));
      }
    }
  }

  lemma SameDigits(a: string, b: string, places: int)
    requires NatOf(a) == NatOf(b)
    ensures Value10(a, places) == Value10(b, places)
  {
    hide NatOf;
  }

  lemma NoZeros(d: Decimal)
    ensures d.ToReal() == Signed(d.neg, Value10(d.digits, |d.digits| - d.point))
  {
    hide NatOf, PowerOfTen;
    assert d.point - |d.digits| == -(|d.digits| - d.point);
  }

  lemma TrailingZero(digits: string, places: int)
    requires digits != "" && digits[|digits| - 1] == '0'
    ensures Value10(digits, places) == Value10(digits[..|digits| - 1], places - 1)
  {
    hide NatOf, PowerOfTen;
    LastDigit(digits);
    PowerNext(-places);
    Shifted(NatOf(digits[..|digits| - 1]) as real, PowerOfTen(-places));
    assert -places + 1 == -(places - 1);
  }

  lemma NothingIsZero(neg: bool, point: int)
    ensures var d := Canonical(neg, "", point);
            d.Valid() && d.ToReal() == Signed(neg, Value10("", 0 - point)) == 0.0
  {
    hide PowerOfTen;
    assert NatOf("") == 0;
    ZeroTimes(PowerOfTen(-(0 - point)));
    ZeroTimes(PowerOfTen(0));
  }

  lemma ZeroTimes(p: real)
    ensures 0 as real * p == 0.0
  {
  }

  lemma LastDigit(digits: string)
    requires digits != ""
    ensures NatOf(digits) == NatOf(digits[..|digits| - 1]) * 10 + DigitValue(digits[|digits| - 1])
  {
  }

  lemma Shifted(n: real, p: real)
    ensures n * (10.0 * p) == (n * 10.0) * p
  {
  }

  // ---- the config dialect ----

  /** A text is a numeral exactly when it is an optional minus sign and digits, perhaps with a point between them;
      then it denotes what the digits say, zeros at either end included. */
  lemma NumeralReads(neg: bool, whole: string, frac: string)
    requires whole != "" && AllDigits(whole) && AllDigits(frac)
    ensures match ReadNumeral(MinusIf(neg) + PointText(whole, frac))
            case Numeral(d) => d.Valid() && d.ToReal() == Signed(neg, Value10(whole + frac, |frac|))
            case NotANumeral => false
  {
    hide Canonical, NatOf, PowerOfTen, DigitRun, Decimal.ToReal, Value10;
    var s := PointText(whole, frac);
    var text := MinusIf(neg) + s;
    assert s[0] == whole[0] != '-';
    if neg { assert text[1..] == s; } else { assert text == s; }
    UnsignedReads(neg, whole, frac);
    CanonicalValue(neg, whole + frac, |whole|);
  }

  lemma UnsignedReads(neg: bool, whole: string, frac: string)
    requires whole != "" && AllDigits(whole) && AllDigits(frac)
    ensures ReadUnsigned(neg, PointText(whole, frac)) == Numeral(Canonical(neg, whole + frac, |whole|))
  {
    hide Canonical, DigitRun;
    if frac == "" {
      DigitRunAll(whole, "");
      assert whole + "" == whole;
    } else {
      SplitAtPoint(neg, whole, frac);
      assert whole + ("." + frac) == whole + "." + frac;
    }
  }

  lemma OnlyNumerals(s: string) returns (neg: bool, whole: string, frac: string)
    requires ReadNumeral(s) != NotANumeral
    ensures whole != "" && AllDigits(whole) && AllDigits(frac) && s == MinusIf(neg) + PointText(whole, frac)
  {
    hide Canonical, ReadUnsigned;
    neg := StartsWith(s, '-');
    var t := if neg then s[1..] else s;
    assert s == MinusIf(neg) + t;
    whole, frac := OnlyUnsigned(neg, t);
  }

  lemma OnlyUnsigned(neg: bool, t: string) returns (whole: string, frac: string)
    requires ReadUnsigned(neg, t) != NotANumeral
    ensures whole != "" && AllDigits(whole) && AllDigits(frac) && t == PointText(whole, frac)
  {
    hide Canonical, DigitRun;
    var n := DigitRun(t);
    whole := t[..n];
    if n == |t| {
      frac := "";
    } else {
      frac := t[n + 1..];
      assert frac[..|frac|] == frac;
      assert t == whole + ([t[n]] + frac);
    }
  }

  // ---- JSON numbers (RFC 8259, section 6) ----

  /** An exponent as text: none, or `e` or `E`, a sign or none, and digits. */
  datatype Exponent = NoExponent | Exponent(mark: char, sign: string, digits: string) {
    predicate Valid() {
      Exponent? ==> (mark == 'e' || mark == 'E') && (sign == "" || sign == "+" || sign == "-")
                    && digits != "" && AllDigits(digits)
    }

    function Text(): (r: string) {
      if NoExponent? then "" else [mark] + (sign + digits)
    }

    function Value(): (r: int) {
      if NoExponent? then 0 else if sign == "-" then -NatOf(digits) else NatOf(digits)
    }
  }

  /** Nothing that could belong to a number. */
  predicate Apart(tail: string) {
    tail != "" ==> !IsDigit(tail[0]) && tail[0] != '.' && tail[0] != 'e' && tail[0] != 'E'
  }

  lemma ExponentReads(e: Exponent, tail: string)
    requires e.Valid() && Apart(tail)
    ensures ParseExponent(e.Text() + tail) == Parse.Ok(e.Value(), tail)
  {
    hide NatOf, DigitRun;
    if e.NoExponent? {
      assert "" + tail == tail;
    } else {
      var body := e.digits + tail;
      DigitRunAll(e.digits, tail);
      Cut(e.digits, tail);
      assert e.Text() + tail == [e.mark] + (e.sign + body);
      MarkReads(e.mark, e.sign, body);
    }
  }

  /** The digits are looked for after the mark and the sign. */
  lemma MarkReads(mark: char, sign: string, body: string)
    requires (mark == 'e' || mark == 'E') && (sign == "" || sign == "+" || sign == "-")
    requires body != "" && IsDigit(body[0])
    ensures var n := DigitRun(body);
            ParseExponent([mark] + (sign + body))
            == Parse.Ok(if sign == "-" then -NatOf(body[..n]) else NatOf(body[..n]), body[n..])
  {
    hide NatOf, DigitRun, ParseExponent;
    var r := [mark] + (sign + body);
    DigitsRun(body);
    assert r[1..] == sign + body;
    if sign == "" {
      assert sign + body == body && r[1] == body[0];
    } else {
      assert r[1] == sign[0] && r[2..] == body;
    }
    ExponentStep(r, sign != "", body);
  }

  lemma ExponentStep(r: string, signed: bool, body: string)
    requires |r| > 1 && (r[0] == 'e' || r[0] == 'E') && (signed <==> r[1] == '+' || r[1] == '-')
    requires body == (if signed then r[2..] else r[1..]) && DigitRun(body) > 0
    ensures var n := DigitRun(body);
            ParseExponent(r)
            == Parse.Ok(if signed && r[1] == '-' then -NatOf(body[..n]) else NatOf(body[..n]), body[n..])
  {
    hide NatOf, DigitRun;
  }

  lemma DigitsRun(body: string)
    requires body != "" && IsDigit(body[0])
    ensures DigitRun(body) > 0
  {
  }

  lemma ApartFromDigits(e: Exponent, tail: string)
    requires e.Valid() && Apart(tail)
    ensures var r := e.Text() + tail; r != "" ==> !IsDigit(r[0]) && r[0] != '.'
  {
  }

  /** A JSON number denotes what its digits and its exponent say. */
  lemma JsonNumberReads(neg: bool, whole: string, frac: string, e: Exponent, tail: string)
    requires whole != "" && AllDigits(whole) && AllDigits(frac) && (|whole| > 1 ==> whole[0] != '0')
    requires e.Valid() && Apart(tail)
    ensures var p := ParseValue(MinusIf(neg) + (PointText(whole, frac) + (e.Text() + tail)));
            && p.Ok? && p.rest == tail && p.value.Num? && p.value.num.Valid()
            && p.value.num.ToReal() == Signed(neg, Value10(whole + frac, |frac| - e.Value()))
  {
    hide Canonical, Decimal.ToReal, ParseMagnitude, ParseValue, Value10, Exponent.Text, Exponent.Value;
    var r := PointText(whole, frac) + (e.Text() + tail);
    assert r[0] == whole[0] && IsDigit(r[0]);
    NumberStep(neg, r);
    MagnitudeReads(neg, whole, frac, e, tail);
    CanonicalValue(neg, whole + frac, |whole| + e.Value());
  }

  lemma MagnitudeReads(neg: bool, whole: string, frac: string, e: Exponent, tail: string)
    requires whole != "" && AllDigits(whole) && AllDigits(frac) && (|whole| > 1 ==> whole[0] != '0')
    requires e.Valid() && Apart(tail)
    ensures ParseMagnitude(neg, PointText(whole, frac) + (e.Text() + tail))
         == Parse.Ok(Num(Canonical(neg, whole + frac, |whole| + e.Value())), tail)
  {
    hide Canonical, ParseMagnitude, Exponent.Text;
    var more := e.Text() + tail;
    ApartFromDigits(e, tail);
    ExponentReads(e, tail);
    PointTextApart(whole, frac, more);
    if frac == "" { WholeReads(neg, whole, more); } else { FractionReads(neg, whole, frac, more); }
  }

  lemma PointTextApart(whole: string, frac: string, more: string)
    ensures PointText(whole, frac) + more == if frac == "" then whole + more else whole + ("." + (frac + more))
    ensures frac == "" ==> whole + frac == whole
  {
  }

  lemma WholeReads(neg: bool, whole: string, more: string)
    requires whole != "" && AllDigits(whole) && (|whole| > 1 ==> whole[0] != '0')
    requires more != "" ==> !IsDigit(more[0]) && more[0] != '.'
    requires ParseExponent(more).Ok?
    ensures var p := ParseExponent(more);
            ParseMagnitude(neg, whole + more) == Parse.Ok(Num(Canonical(neg, whole, |whole| + p.value)), p.rest)
  {
    hide Canonical, DigitRun, ParseExponent;
    DigitRunAll(whole, more);
    Cut(whole, more);
    assert whole + "" == whole;
  }

  lemma FractionReads(neg: bool, whole: string, frac: string, more: string)
    requires whole != "" && AllDigits(whole) && (|whole| > 1 ==> whole[0] != '0')
    requires frac != "" && AllDigits(frac) && (more != "" ==> !IsDigit(more[0])) && ParseExponent(more).Ok?
    ensures var p := ParseExponent(more);
            ParseMagnitude(neg, whole + ("." + (frac + more)))
            == Parse.Ok(Num(Canonical(neg, whole + frac, |whole| + p.value)), p.rest)
  {
    hide Canonical, DigitRun, ParseExponent, ParseMagnitude, IsDigit, AllDigits;
    var after := "." + (frac + more);
    FractionApart(whole, frac, more);
    PointIsNoDigit();
    DigitRunAll(whole, after);
    DigitRunAll(frac, more);
    PointStep(neg, whole + after, |whole|, |frac|);
  }

  lemma PointIsNoDigit()
    ensures !IsDigit('.')
  {
  }

  lemma FractionApart(whole: string, frac: string, more: string)
    requires whole != "" && frac != ""
    ensures var r := whole + ("." + (frac + more));
            && |whole| < |r| && r[0] == whole[0] && r[|whole|] == '.' && r[..|whole|] == whole
            && r[|whole| + 1..] == frac + more && (frac + more)[..|frac|] == frac && (frac + more)[|frac|..] == more
  {
  }

  lemma PointStep(neg: bool, r: string, n: nat, f: nat)
    requires n == DigitRun(r) > 0 && (n > 1 ==> r[0] != '0') && n < |r| && r[n] == '.'
    requires f == DigitRun(r[n + 1..]) > 0 && ParseExponent(r[n + 1..][f..]).Ok?
    ensures var p := ParseExponent(r[n + 1..][f..]);
            ParseMagnitude(neg, r) == Parse.Ok(Num(Canonical(neg, r[..n] + r[n + 1..][..f], n + p.value)), p.rest)
  {
    hide Canonical, DigitRun, ParseExponent;
  }

  lemma Cut(a: string, b: string)
    ensures (a + b)[..|a|] == a && (a + b)[|a|..] == b && (a != "" ==> (a + b)[0] == a[0])
    ensures b != "" ==> |a + b| > |a| && (a + b)[|a|] == b[0]
  {
  }

  lemma {:induction false} NatTextValue(n: nat)
    ensures NatOf(NatText(n)) == n
  {
    var text := NatText(n);
    assert text[|text| - 1] == ('0' as int + n % 10) as char;
    if n >= 10 {
      NatTextValue(n / 10);
      assert text[..|text| - 1] == NatText(n / 10);
    } else {
      assert text[..|text| - 1] == "";
    }
  }

  /** The exponent the printer writes. */
  function PrintedExponent(d: Decimal): (e: Exponent)
    ensures e.Valid()
  {
    if d.PrintsPlain() then NoExponent
    else if d.point >= 1 then Exponent('e', "+", NatText(d.point - 1))
    else Exponent('e', "-", NatText(1 - d.point))
  }

  /** The digits the printer writes before and after the point. */
  function PrintedDigits(d: Decimal): (p: (string, string)) {
    var k := |d.digits|;
    if k == 0 then ("0", "")
    else if k <= d.point <= 21 then (d.digits + Repeat('0', d.point - k), "")
    else if 0 < d.point <= 21 then (d.digits[..d.point], d.digits[d.point..])
    else if -6 < d.point <= 0 then ("0", Repeat('0', -d.point) + d.digits)
    else (d.digits[..1], d.digits[1..])
  }

  /** The printed form, by its parts: the text, and the number they denote. */
  predicate Parted(d: Decimal, whole: string, frac: string, e: Exponent) {
    && d.Magnitude() == PointText(whole, frac) + e.Text()
    && whole != "" && AllDigits(whole) && AllDigits(frac) && (|whole| > 1 ==> whole[0] != '0')
    && Canonical(d.neg, whole + frac, |whole| + e.Value()) == d
  }

  lemma PrintedParts(d: Decimal)
    requires d.Valid()
    ensures var (whole, frac) := PrintedDigits(d); Parted(d, whole, frac, PrintedExponent(d))
  {
    hide NatText, Repeat, Parted, Canonical;
    if d.digits == "" {
      PrintedZero(d);
    } else if |d.digits| <= d.point <= 21 {
      PrintedWhole(d);
    } else if 0 < d.point <= 21 {
      PrintedInside(d);
    } else if -6 < d.point <= 0 {
      PrintedBelow(d);
    } else {
      PrintedScientific(d);
    }
  }

  lemma PrintedZero(d: Decimal)
    requires d.Valid() && d.digits == ""
    ensures Parted(d, "0", "", NoExponent)
  {
    ZeroIsNothing(d.neg);
    hide Canonical;
    assert "0" + "" == "0";
  }

  lemma PrintedWhole(d: Decimal)
    requires d.Valid() && d.digits != "" && |d.digits| <= d.point <= 21
    ensures Parted(d, d.digits + Repeat('0', d.point - |d.digits|), "", NoExponent)
  {
    hide Repeat, Canonical;
    var n := d.point - |d.digits|;
    var whole := d.digits + Repeat('0', n);
    CanonicalPadded(d.neg, 0, d.digits, n, d.point);
    Repeats0(d.digits, n);
    assert whole + "" == whole && whole[0] == d.digits[0];
  }

  lemma PrintedInside(d: Decimal)
    requires d.Valid() && 0 < d.point < |d.digits| && d.point <= 21
    ensures Parted(d, d.digits[..d.point], d.digits[d.point..], NoExponent)
  {
    hide Repeat, Canonical, NatText, PointText, Decimal.Magnitude, AllDigits;
    InsideText(d);
    DigitsCut(d.digits, d.point);
    InsideValue(d);
    NothingAfter(PointText(d.digits[..d.point], d.digits[d.point..]));
  }

  lemma NothingAfter(s: string)
    ensures s + "" == s
  {
  }

  lemma InsideValue(d: Decimal)
    requires d.Valid() && 0 < d.point < |d.digits|
    ensures Canonical(d.neg, d.digits[..d.point] + d.digits[d.point..], d.point + 0) == d
  {
    hide Repeat, Canonical;
    CanonicalPadded(d.neg, 0, d.digits, 0, d.point);
    NoPadding(d.digits);
    assert d.digits[..d.point] + d.digits[d.point..] == d.digits;
  }

  lemma DigitsCut(digits: string, k: nat)
    requires AllDigits(digits) && k <= |digits|
    ensures AllDigits(digits[..k]) && AllDigits(digits[k..])
  {
  }

  lemma InsideText(d: Decimal)
    requires 0 < d.point < |d.digits| && d.point <= 21
    ensures d.Magnitude() == PointText(d.digits[..d.point], d.digits[d.point..])
  {
    hide Repeat, NatText;
    assert d.digits[..d.point] + ("." + d.digits[d.point..]) == d.digits[..d.point] + "." + d.digits[d.point..];
  }

  lemma PrintedBelow(d: Decimal)
    requires d.Valid() && d.digits != "" && -6 < d.point <= 0
    ensures Parted(d, "0", Repeat('0', -d.point) + d.digits, NoExponent)
  {
    hide Repeat, Canonical;
    ZerosText(-d.point, d.digits);
    CanonicalPadded(d.neg, 1 - d.point, d.digits, 0, 1);
    var frac := Repeat('0', -d.point) + d.digits;
    assert PointText("0", frac) + "" == "0." + Repeat('0', -d.point) + d.digits;
  }

  lemma PrintedScientific(d: Decimal)
    requires d.Valid() && d.digits != "" && !d.PrintsPlain()
    ensures Parted(d, d.digits[..1], d.digits[1..], PrintedExponent(d))
  {
    hide Decimal.Magnitude, PointText, Exponent.Text, PrintedExponent, Canonical, Exponent.Value;
    ScientificText(d);
    ExponentValue(d);
    CanonicalPadded(d.neg, 0, d.digits, 0, d.point);
    NoPadding(d.digits);
    assert d.digits[..1] + d.digits[1..] == d.digits;
  }

  lemma ExponentValue(d: Decimal)
    requires !d.PrintsPlain()
    ensures PrintedExponent(d).Value() == d.point - 1
  {
    hide NatText, NatOf;
    NatTextValue(if d.point >= 1 then d.point - 1 else 1 - d.point);
  }

  lemma ScientificText(d: Decimal)
    requires d.Valid() && d.digits != "" && !d.PrintsPlain()
    ensures d.Magnitude() == PointText(d.digits[..1], d.digits[1..]) + PrintedExponent(d).Text()
  {
    hide NatText, PointText, PrintedExponent, Exponent.Text;
    Mantissa(d.digits);
    ExponentText(d);
  }

  lemma Mantissa(digits: string)
    requires digits != ""
    ensures PointText(digits[..1], digits[1..]) == if |digits| == 1 then digits else digits[..1] + "." + digits[1..]
  {
    if |digits| == 1 {
      assert digits[..1] == digits && digits[1..] == "";
    } else {
      assert digits[..1] + ("." + digits[1..]) == digits[..1] + "." + digits[1..];
    }
  }

  lemma ExponentText(d: Decimal)
    requires !d.PrintsPlain()
    ensures PrintedExponent(d).Text()
         == if d.point >= 1 then "e+" + NatText(d.point - 1) else "e-" + NatText(1 - d.point)
  {
    hide NatText;
    if d.point >= 1 {
      assert "e" + ("+" + NatText(d.point - 1)) == "e+" + NatText(d.point - 1);
    } else {
      assert "e" + ("-" + NatText(1 - d.point)) == "e-" + NatText(1 - d.point);
    }
  }

  lemma Repeats0(digits: string, n: nat)
    ensures Repeat('0', 0) + digits + Repeat('0', n) == digits + Repeat('0', n)
  {
  }

  lemma ZeroIsNothing(neg: bool)
    ensures Canonical(neg, "0" + "", 1) == Decimal(false, "", 0)
  {
    assert "0" + "" == "0" && "0"[1..] == "";
  }

  /** A number printed the way ECMA-262 prints it, in any of its forms, is read by `JSON.parse` as itself. */
  lemma JsonPrintRoundTrip(d: Decimal)
    requires d.Valid()
    ensures ParseJson(d.Print()) == Just(Num(d))
  {
    hide Canonical, ParseMagnitude, Decimal.Magnitude, PrintedDigits, PrintedExponent, PointText, Exponent.Text,
      AllDigits;
    var (whole, frac) := PrintedDigits(d);
    var e := PrintedExponent(d);
    PrintedParts(d);
    var r := PointText(whole, frac) + (e.Text() + "");
    assert e.Text() + "" == e.Text();
    MagnitudeReads(d.neg, whole, frac, e, "");
    MagnitudeStartsWithDigit(d);
    NumberStep(d.neg, r);
    assert d.Print() == MinusIf(d.neg) + r;
    PrintStarts(d.neg, r);
  }

  lemma NumberStep(neg: bool, r: string)
    requires r != "" && IsDigit(r[0])
    ensures ParseValue(MinusIf(neg) + r) == ParseMagnitude(neg, r)
  {
    hide ParseMagnitude;
    if neg { assert ("-" + r)[1..] == r; } else { assert "" + r == r; }
  }

  lemma PrintStarts(neg: bool, r: string)
    requires r != "" && IsDigit(r[0])
    ensures SkipWs(MinusIf(neg) + r) == MinusIf(neg) + r && SkipWs("") == ""
  {
    assert (MinusIf(neg) + r)[0] == if neg then '-' else r[0];
  }

  // ---- JSON escapes (RFC 8259, section 7) ----

  function HexText(n: nat): (h: string)
    requires n < 0x10000
    ensures |h| == 4
  {
    [HexDigit(n / 4096), HexDigit(n / 256 % 16), HexDigit(n / 16 % 16), HexDigit(n % 16)]
  }

  lemma HexReads(n: nat, tail: string)
    requires n < 0x10000
    ensures Hex4(HexText(n) + tail) == n && (HexText(n) + tail)[4..] == tail
  {
    var r := HexText(n) + tail;
    HexDigitValue(n / 4096);
    HexDigitValue(n / 256 % 16);
    HexDigitValue(n / 16 % 16);
    HexDigitValue(n % 16);
    assert r[0] == HexText(n)[0] && r[1] == HexText(n)[1] && r[2] == HexText(n)[2] && r[3] == HexText(n)[3];
    hide HexDigit, HexValue;
    Nibbles(n);
  }

  lemma Nibbles(n: nat)
    ensures ((n / 4096 * 16 + n / 256 % 16) * 16 + n / 16 % 16) * 16 + n % 16 == n
  {
    assert n / 256 == n / 16 / 16 && n / 4096 == n / 16 / 16 / 16;
    var a, b := n / 16, n / 16 / 16;
    assert n == 16 * a + n % 16 && a == 16 * b + a % 16 && b == 16 * (b / 16) + b % 16;
  }

  /** Any character below U+10000 is read from its own `\u` escape, and any other from its surrogate pair. */
  lemma UnicodeReads(c: char, tail: string)
    ensures c as int < 0x10000 ==> UnicodeEscape(HexText(c as int) + tail) == Parse.Ok(c, tail)
    ensures c as int >= 0x10000 ==>
              var over := c as int - 0x10000;
              UnicodeEscape(HexText(0xD800 + over / 0x400) + ("\\u" + (HexText(0xDC00 + over % 0x400) + tail)))
              == Parse.Ok(c, tail)
  {
    hide HexText, Hex4;
    if c as int < 0x10000 {
      HexReads(c as int, tail);
    } else {
      var over := c as int - 0x10000;
      var low := HexText(0xDC00 + over % 0x400) + tail;
      HexReads(0xD800 + over / 0x400, "\\u" + low);
      HexReads(0xDC00 + over % 0x400, tail);
      var r := HexText(0xD800 + over / 0x400) + ("\\u" + low);
      assert r[4] == '\\' && r[5] == 'u' && r[6..] == low && r[10..] == low[4..];
    }
  }
}
