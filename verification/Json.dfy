/** `JSON.parse`, and `JSON.stringify` of a list of strings (RFC 8259). */
module Json {
  import opened Options
  import opened Text
  import opened Decimals

  /** The values a config file or a provider payload can hold. `Undefined` is what the scalar parser
      returns for an empty list entry. */
  datatype Value =
    | Undefined
    | Null
    | Bool(b: bool)
    | Num(num: Decimal)
    | Str(s: string)
    | List(items: seq<Value>)
    | Obj(fields: map<string, Value>)

  /** A parser's result: what it read and the text after it. */
  datatype Parse<+T> = Fail | Ok(value: T, rest: string) {
    predicate IsFailure() { Fail? }
    function PropagateFailure<U>(): (r: Parse<U>)
      requires Fail?
    { Fail }
    function Extract(): (r: (T, string))
      requires Ok?
    { (value, rest) }
  }

  // ---- strings (section 7) ----

  function HexDigit(n: nat): (c: char)
    requires n < 16
  {
    if n < 10 then ('0' as int + n) as char else ('a' as int + n - 10) as char
  }

  /** How `JSON.stringify` writes one character. */
  function EscapeChar(c: char): (e: string)
    ensures e != ""
  {
    if c == '\"' then "\\\""
    else if c == '\\' then "\\\\"
    else if c as int == 8 then "\\b"
    else if c as int == 12 then "\\f"
    else if c == '\n' then "\\n"
    else if c == '\r' then "\\r"
    else if c == '\t' then "\\t"
    else if c as int < 0x20 then "\\u00" + [HexDigit(c as int / 16), HexDigit(c as int % 16)]
    else [c]
  }

  function Escape(s: string): (r: string) {
    if s == "" then "" else EscapeChar(s[0]) + Escape(s[1..])
  }

  function Quote(s: string): (r: string) {
    "\"" + Escape(s) + "\""
  }

  function QuoteAll(ss: seq<string>): (r: seq<string>)
    ensures |r| == |ss| && forall i :: 0 <= i < |ss| ==> r[i] == Quote(ss[i])
  {
    seq(|ss|, i requires 0 <= i < |ss| => Quote(ss[i]))
  }

  /** `JSON.stringify` of a list of strings. */
  function StringifyList(ss: seq<string>): (r: string) {
    "[" + Join(QuoteAll(ss), ",") + "]"
  }

  function HexValue(c: char): (n: int)
    ensures -1 <= n < 16
  {
    if IsDigit(c) then c as int - '0' as int
    else if 'a' <= c <= 'f' then c as int - 'a' as int + 10
    else if 'A' <= c <= 'F' then c as int - 'A' as int + 10
    else -1
  }

  /** The four hex digits at the front of the text, or -1. */
  function Hex4(r: string): (n: int)
    ensures -1 <= n < 0x10000
    ensures n >= 0 ==> |r| >= 4
  {
    if |r| < 4 then -1
    else
      var a, b, c, d := HexValue(r[0]), HexValue(r[1]), HexValue(r[2]), HexValue(r[3]);
      if a < 0 || b < 0 || c < 0 || d < 0 then -1 else ((a * 16 + b) * 16 + c) * 16 + d
  }

  /** A `\u` escape; a surrogate pair is one character and a lone surrogate is U+FFFD. */
  function UnicodeEscape(r: string): (p: Parse<char>)
    ensures p.Ok? ==> |p.rest| < |r|
  {
    var hi := Hex4(r);
    if hi < 0 then Fail
    else if hi < 0xD800 || 0xE000 <= hi then Ok(hi as char, r[4..])
    else if hi < 0xDC00 && |r| >= 10 && r[4] == '\\' && r[5] == 'u' && 0xDC00 <= Hex4(r[6..]) < 0xE000 then
      Ok((0x10000 + (hi - 0xD800) * 0x400 + (Hex4(r[6..]) - 0xDC00)) as char, r[10..])
    else Ok(0xFFFD as char, r[4..])
  }

  function SimpleEscape(c: char): (e: string) {
    if c == '\"' || c == '\\' || c == '/' then [c]
    else if c == 'b' then [8 as char]
    else if c == 'f' then [12 as char]
    else if c == 'n' then "\n"
    else if c == 'r' then "\r"
    else if c == 't' then "\t"
    else ""
  }

  /** The rest of a JSON string, after its opening quote. */
  function ParseStringBody(r: string): (p: Parse<string>)
    ensures p.Ok? ==> |p.rest| < |r|
    decreases |r|
  {
    if r == "" then Fail
    else if r[0] == '\"' then Ok("", r[1..])
    else if r[0] == '\\' then
      if |r| < 2 then Fail
      else if r[1] == 'u' then
        var (c, after) :- UnicodeEscape(r[2..]);
        var (tail, rest) :- ParseStringBody(after);
        Ok([c] + tail, rest)
      else if SimpleEscape(r[1]) == "" then Fail
      else
        var (tail, rest) :- ParseStringBody(r[2..]);
        Ok(SimpleEscape(r[1]) + tail, rest)
    else if r[0] as int < 0x20 then Fail
    else
      var (tail, rest) :- ParseStringBody(r[1..]);
      Ok([r[0]] + tail, rest)
  }

  // ---- numbers (section 6) ----

  function ParseExponent(r: string): (p: Parse<int>)
    ensures p.Ok? ==> |p.rest| <= |r|
  {
    if r == "" || (r[0] != 'e' && r[0] != 'E') then Ok(0, r)
    else
      var signed := |r| > 1 && (r[1] == '+' || r[1] == '-');
      var body := if signed then r[2..] else r[1..];
      var n := DigitRun(body);
      if n == 0 then Fail
      else Ok(if signed && r[1] == '-' then -NatOf(body[..n]) else NatOf(body[..n]), body[n..])
  }

  /** The number text after an optional minus sign. */
  function ParseMagnitude(neg: bool, r: string): (p: Parse<Value>)
    ensures p.Ok? ==> |p.rest| < |r|
  {
    var n := DigitRun(r);
    if n == 0 || (n > 1 && r[0] == '0') then Fail
    else
      var hasPoint := n < |r| && r[n] == '.';
      var f := if hasPoint then DigitRun(r[n + 1..]) else 0;
      if hasPoint && f == 0 then Fail
      else
        var frac := if hasPoint then r[n + 1..][..f] else "";
        var (e, rest) :- ParseExponent(if hasPoint then r[n + 1..][f..] else r[n..]);
        Ok(Num(Canonical(neg, r[..n] + frac, n + e)), rest)
  }

  // ---- values, arrays and objects (sections 2 to 5) ----

  function SkipWs(r: string): (s: string)
    ensures |s| <= |r|
  {
    if r != "" && (r[0] == ' ' || r[0] == '\t' || r[0] == '\n' || r[0] == '\r') then SkipWs(r[1..]) else r
  }

  function ParseWord(r: string, word: string, v: Value): (p: Parse<Value>)
    requires word != ""
    ensures p.Ok? ==> |p.rest| < |r|
  {
    if word <= r then Ok(v, r[|word|..]) else Fail
  }

  function ParseValue(r: string): (p: Parse<Value>)
    ensures p.Ok? ==> |p.rest| < |r|
    decreases |r|, 0
  {
    if r == "" then Fail
    else if r[0] == 'n' then ParseWord(r, "null", Null)
    else if r[0] == 't' then ParseWord(r, "true", Bool(true))
    else if r[0] == 'f' then ParseWord(r, "false", Bool(false))
    else if r[0] == '\"' then
      var (s, rest) :- ParseStringBody(r[1..]);
      Ok(Str(s), rest)
    else if r[0] == '[' then
      var inside := SkipWs(r[1..]);
      if StartsWith(inside, ']') then Ok(List([]), inside[1..])
      else
        var (items, rest) :- ParseItems(inside);
        Ok(List(items), rest)
    else if r[0] == '{' then
      var inside := SkipWs(r[1..]);
      if StartsWith(inside, '}') then Ok(Obj(map[]), inside[1..])
      else
        var (fields, rest) :- ParseMembers(inside);
        Ok(Obj(fields), rest)
    else if r[0] == '-' then ParseMagnitude(true, r[1..])
    else ParseMagnitude(false, r)
  }

  /** One or more array items, up to and past the closing bracket. */
  function ParseItems(r: string): (p: Parse<seq<Value>>)
    ensures p.Ok? ==> |p.rest| < |r|
    decreases |r|, 1
  {
    var (v, more) :- ParseValue(r);
    var after := SkipWs(more);
    if StartsWith(after, ']') then Ok([v], after[1..])
    else if StartsWith(after, ',') then
      var (items, rest) :- ParseItems(SkipWs(after[1..]));
      Ok([v] + items, rest)
    else Fail
  }

  /** One or more object members; a repeated name keeps its last value. */
  function ParseMembers(r: string): (p: Parse<map<string, Value>>)
    ensures p.Ok? ==> |p.rest| < |r|
    decreases |r|, 1
  {
    if !StartsWith(r, '\"') then Fail
    else
      var (name, more) :- ParseStringBody(r[1..]);
      var colon := SkipWs(more);
      if !StartsWith(colon, ':') then Fail
      else
        var (v, more') :- ParseValue(SkipWs(colon[1..]));
        var after := SkipWs(more');
        if StartsWith(after, '}') then Ok(map[name := v], after[1..])
        else if StartsWith(after, ',') then
          var (fields, rest) :- ParseMembers(SkipWs(after[1..]));
          Ok(map[name := v] + fields, rest)
        else Fail
  }

  /** `JSON.parse`; `Nothing` when it throws. */
  function ParseJson(text: string): (r: Maybe<Value>) {
    match ParseValue(SkipWs(text))
    case Fail => Nothing
    case Ok(v, rest) => if SkipWs(rest) == "" then Just(v) else Nothing
  }

  // ---- reading back what was written ----

  lemma HexDigitValue(n: nat)
    requires n < 16
    ensures HexValue(HexDigit(n)) == n
  {
  }

  lemma ParseControlEscape(c: char, tail: string)
    requires c as int < 0x20
    ensures UnicodeEscape("00" + [HexDigit(c as int / 16), HexDigit(c as int % 16)] + tail) == Ok(c, tail)
  {
    var r := "00" + [HexDigit(c as int / 16), HexDigit(c as int % 16)] + tail;
    HexDigitValue(c as int / 16);
    HexDigitValue(c as int % 16);
    assert r[2] == HexDigit(c as int / 16) && r[3] == HexDigit(c as int % 16);
    assert Hex4(r) == c as int;
    assert r[4..] == tail;
  }

  lemma ParseEscapedChar(c: char, tail: string)
    requires ParseStringBody(tail).Ok?
    ensures var p := ParseStringBody(tail);
            ParseStringBody(EscapeChar(c) + tail) == Ok([c] + p.value, p.rest)
  {
    var e := EscapeChar(c);
    var r := e + tail;
    if |e| == 1 {
      assert r[1..] == tail;
    } else if |e| == 2 {
      assert r[2..] == tail;
    } else {
      ParseControlEscape(c, tail);
      assert r[2..] == "00" + [HexDigit(c as int / 16), HexDigit(c as int % 16)] + tail;
    }
  }

  /** A JSON string reads back as the text it was written from, whatever follows it. */
  lemma {:induction false} StringRoundTrip(s: string, tail: string)
    ensures ParseStringBody(Escape(s) + "\"" + tail) == Ok(s, tail)
  {
    if s == "" {
      assert Escape(s) + "\"" + tail == "\"" + tail;
    } else {
      StringRoundTrip(s[1..], tail);
      ParseEscapedChar(s[0], Escape(s[1..]) + "\"" + tail);
      Regroup4(EscapeChar(s[0]), Escape(s[1..]), "\"", tail);
      assert [s[0]] + s[1..] == s;
    }
  }

  function Strings(ss: seq<string>): (vs: seq<Value>)
    ensures |vs| == |ss| && forall i :: 0 <= i < |ss| ==> vs[i] == Str(ss[i])
  {
    seq(|ss|, i requires 0 <= i < |ss| => Str(ss[i]))
  }

  lemma ParseQuoted(s: string, tail: string)
    ensures ParseValue(Quote(s) + tail) == Ok(Str(s), tail)
  {
    StringRoundTrip(s, tail);
    assert (Quote(s) + tail)[1..] == Escape(s) + "\"" + tail;
  }

  /** A separator: a comma and any blanks after it. */
  predicate IsComma(sep: string) {
    sep == "," || sep == ", "
  }

  lemma SkipComma(sep: string, tail: string)
    requires IsComma(sep) && (StartsWith(tail, '\"') || StartsWith(tail, '\''))
    ensures StartsWith(sep + tail, ',') && SkipWs((sep + tail)[1..]) == tail
  {
    if sep == "," {
      assert (sep + tail)[1..] == tail;
    } else {
      assert (sep + tail)[1..] == " " + tail;
      assert (" " + tail)[1..] == tail;
    }
  }

  lemma ParseOneMoreItem(s: string, sep: string, rest: string)
    requires IsComma(sep) && StartsWith(rest, '\"') && ParseItems(rest).Ok?
    ensures var p := ParseItems(rest);
            ParseItems(Quote(s) + (sep + rest)) == Ok([Str(s)] + p.value, p.rest)
  {
    ParseQuoted(s, sep + rest);
    SkipComma(sep, rest);
  }

  lemma ParseLastItem(s: string, tail: string)
    ensures ParseItems(Quote(s) + ("]" + tail)) == Ok([Str(s)], tail)
  {
    ParseQuoted(s, "]" + tail);
  }

  /** The items of a list and everything after them, as text. */
  function ItemsText(ss: seq<string>, sep: string, tail: string): (r: string) {
    Join(QuoteAll(ss), sep) + "]" + tail
  }

  lemma ItemsTextCons(ss: seq<string>, sep: string, tail: string)
    requires ss != []
    ensures StartsWith(ItemsText(ss, sep, tail), '\"')
    ensures |ss| == 1 ==> ItemsText(ss, sep, tail) == Quote(ss[0]) + ("]" + tail)
    ensures |ss| > 1 ==> ItemsText(ss, sep, tail) == Quote(ss[0]) + (sep + ItemsText(ss[1..], sep, tail))
  {
    assert QuoteAll(ss)[0] == Quote(ss[0]);
    if |ss| > 1 {
      assert QuoteAll(ss)[1..] == QuoteAll(ss[1..]);
    }
  }

  lemma {:induction false} ItemsRoundTrip(ss: seq<string>, sep: string, tail: string)
    requires ss != [] && IsComma(sep)
    ensures ParseItems(ItemsText(ss, sep, tail)) == Ok(Strings(ss), tail)
  {
    hide ParseItems, Quote, ItemsText;
    ItemsTextCons(ss, sep, tail);
    if |ss| == 1 {
      ParseLastItem(ss[0], tail);
      assert Strings(ss) == [Str(ss[0])];
    } else {
      ItemsTextCons(ss[1..], sep, tail);
      ItemsRoundTrip(ss[1..], sep, tail);
      ParseOneMoreItem(ss[0], sep, ItemsText(ss[1..], sep, tail));
      assert Strings(ss) == [Str(ss[0])] + Strings(ss[1..]);
    }
  }

  /** What `JSON.parse` makes of an opening bracket and the text after it. */
  lemma ParseArray(inside: string)
    requires StartsWith(inside, '\"') || StartsWith(inside, '\'')
    ensures ParseJson("[" + inside)
         == match ParseItems(inside)
            case Fail => Nothing
            case Ok(items, rest) => if SkipWs(rest) == "" then Just(List(items)) else Nothing
  {
    DropFront("[", inside);
  }

  lemma ParseEmptyArray()
    ensures ParseJson("[]") == Just(List([]))
  {
    DropFront("[", "]");
    assert "[" + "]" == "[]";
  }

  /** `JSON.parse` undoes `JSON.stringify` on every list of strings, also with a blank after each comma. */
  lemma ListRoundTrip(ss: seq<string>, sep: string)
    requires IsComma(sep)
    ensures ParseJson("[" + Join(QuoteAll(ss), sep) + "]") == Just(List(Strings(ss)))
  {
    var text := "[" + Join(QuoteAll(ss), sep) + "]";
    if ss == [] {
      assert text == "[]";
      assert Strings(ss) == [];
      ParseEmptyArray();
    } else {
      var inside := ItemsText(ss, sep, "");
      assert text == "[" + inside;
      ItemsRoundTrip(ss, sep, "");
      ItemsTextCons(ss, sep, "");
      ParseArray(inside);
    }
  }
}
