/** `parseScalar` of src/config/loader.ts and `yamlScalar`, `arrayLine` of src/config/writer.ts. */
module Scalar {
  import opened Options
  import opened Text
  import opened Decimals
  import opened Json
  import FlowSeq

  // ---- quoted text ----

  /** `s.replace(/'/g, "''")` */
  function Doubled(s: string): (r: string) {
    if s == "" then "" else (if s[0] == '\'' then "''" else [s[0]]) + Doubled(s[1..])
  }

  /** `s.replace(/''/g, "'")` */
  function Undoubled(s: string): (r: string)
    decreases |s|
  {
    if s == "" then ""
    else if s[0] == '\'' && |s| > 1 && s[1] == '\'' then "'" + Undoubled(s[2..])
    else [s[0]] + Undoubled(s[1..])
  }

  /** The body of a double-quoted scalar without its backslashes. */
  function Unescaped(s: string): (r: string)
    decreases |s|
  {
    if s == "" then ""
    else if s[0] == '\\' && |s| > 1 then [s[1]] + Unescaped(s[2..])
    else [s[0]] + Unescaped(s[1..])
  }

  method UnescapeDoubleQuoted(s: string) returns (out: string)
    ensures out == Unescaped(s)
  {
    hide Unescaped;
    out := "";
    var i := 0;
    assert s[0..] == s && out + Unescaped(s) == Unescaped(s);
    while i < |s|
      invariant 0 <= i <= |s|
      invariant out + Unescaped(s[i..]) == Unescaped(s)
    {
      UnescapedAt(s, i);
      if s[i] == '\\' && i + 1 < |s| {
        i := i + 1;
      }
      Regroup(out, [s[i]], Unescaped(s[i + 1..]));
      out := out + [s[i]];
      i := i + 1;
    }
    assert s[i..] == "";
    UnescapedNothing();
  }

  /** One turn: a character, or a backslash and the character after it. */
  lemma UnescapedAt(s: string, i: nat)
    requires i < |s|
    ensures var k := if s[i] == '\\' && i + 1 < |s| then i + 1 else i;
            Unescaped(s[i..]) == [s[k]] + Unescaped(s[k + 1..])
  {
    assert s[i..][1..] == s[i + 1..];
    if s[i] == '\\' && i + 1 < |s| { assert s[i..][2..] == s[i + 2..]; }
  }

  predicate QuotedBy(v: string, q: char) {
    StartsWith(v, q) && EndsWith(v, q)
  }

  // ---- reading a scalar ----

  /** What a scalar text denotes once trimmed. */
  function ScalarOf(raw: string): (v: Value)
    ensures v == Undefined <==> Trim(raw) == ""
    decreases |raw|
  {
    var v := Trim(raw);
    if v == "" then Undefined
    else if QuotedBy(v, '\'') then Str(Undoubled(Inner(v)))
    else if QuotedBy(v, '\"') then Str(Unescaped(Inner(v)))
    else if v == "true" then Bool(true)
    else if v == "false" then Bool(false)
    else if v == "null" || v == "~" then Null
    else
      match ReadNumeral(v)
      case Numeral(n) => Num(n)
      case NotANumeral =>
        if StartsWith(v, '[') && EndsWith(v, ']') then ListOf(v) else Str(v)
  }

  /** A bracketed text: JSON if it is JSON, and otherwise its entries one by one. */
  function ListOf(v: string): (r: Value)
    requires StartsWith(v, '[')
    ensures r != Undefined
    decreases |v|, 0
  {
    match ParseJson(v)
    case Just(List(items)) => List(items)
    case _ =>
      FlowSeq.EntriesAreShort(Inner(v), 0);
      var entries := FlowSeq.Entries(Inner(v));
      List(seq(|entries|, i requires 0 <= i < |entries| => ScalarOf(entries[i])))
  }

  method ParseScalar(raw: string) returns (value: Value)
    ensures value == ScalarOf(raw)
    decreases |raw|, 1
  {
    hide TrimStart, TrimEnd, ReadNumeral, Undoubled, Unescaped, ListOf;
    var v := Trim(raw);
    if v == "" { return Undefined; }
    if QuotedBy(v, '\'') { return Str(Undoubled(Inner(v))); }
    if QuotedBy(v, '\"') {
      var s := UnescapeDoubleQuoted(Inner(v));
      return Str(s);
    }
    if v == "true" { return Bool(true); }
    if v == "false" { return Bool(false); }
    if v == "null" || v == "~" { return Null; }
    var n := ReadNumeral(v);
    if n.Numeral? { return Num(n.value); }
    if !(StartsWith(v, '[') && EndsWith(v, ']')) { return Str(v); }
    value := ParseFlowSequence(v);
  }

  /** A text in brackets: JSON, or entry by entry. */
  method ParseFlowSequence(v: string) returns (value: Value)
    requires StartsWith(v, '[')
    ensures value == ListOf(v)
    decreases |v|, 0
  {
    hide ScalarOf, ParseJson, FlowSeq.EntriesFrom;
    var parsed := ParseJson(v);
    if parsed.Just? && parsed.value.List? { return parsed.value; }
    var entries := FlowSeq.SplitFlowSequenceEntries(Inner(v));
    FlowSeq.EntriesAreShort(Inner(v), 0);
    var items: seq<Value> := [];
    for i := 0 to |entries|
      invariant |items| == i
      invariant forall k :: 0 <= k < i ==> items[k] == ScalarOf(entries[k])
    {
      var item := ParseScalar(entries[i]);
      items := items + [item];
    }
    return List(items);
  }

  // ---- writing a scalar ----

  function LowerAscii(c: char): (r: char) {
    if 'A' <= c <= 'Z' then (c as int + 32) as char else c
  }

  function Lowered(s: string): (r: string)
    ensures |r| == |s| && forall i :: 0 <= i < |s| ==> r[i] == LowerAscii(s[i])
  {
    seq(|s|, i requires 0 <= i < |s| => LowerAscii(s[i]))
  }

  /** One of the characters of `[:#{}\[\],&*?|<>=!%@`]`. */
  predicate IsSpecial(c: char) {
    || c == ':' || c == '#' || c == '{' || c == '}' || c == '[' || c == ']' || c == ',' || c == '&' || c == '*'
    || c == '?' || c == '|' || c == '<' || c == '>' || c == '=' || c == '!' || c == '%' || c == '@' || c == '`'
  }

  predicate IsReservedWord(s: string) {
    var t := Lowered(s);
    t == "true" || t == "false" || t == "null" || t == "~"
  }

  /** A string the writer puts between single quotes. */
  predicate NeedsQuotes(s: string) {
    || s == ""
    || (exists i :: 0 <= i < |s| && IsSpecial(s[i]))
    || IsReservedWord(s)
    || IsDigit(s[0])
  }

  function YamlString(s: string): (r: string) {
    if NeedsQuotes(s) then "'" + Doubled(s) + "'" else s
  }

  /** The values `line` and `arrayLine` are given: booleans, numbers, null, strings, lists of strings. */
  datatype Leaf = LBool(b: bool) | LNum(num: Decimal) | LNull | LStr(s: string) | LList(ss: seq<string>) {
    predicate Valid() {
      LNum? ==> num.Valid()
    }

    function Value(): (r: Value) {
      match this
      case LBool(b) => Bool(b)
      case LNum(n) => Num(n)
      case LNull => Null
      case LStr(s) => Str(s)
      case LList(ss) => List(Strings(ss))
    }

    /** The text after `key: `. */
    function Print(): (r: string) {
      match this
      case LBool(b) => if b then "true" else "false"
      case LNum(n) => n.Print()
      case LNull => "null"
      case LStr(s) => YamlString(s)
      case LList(ss) => StringifyList(ss)
    }
  }

  /** Exactly when a leaf's text reads back as the leaf: a number must print without an exponent, and a
      string the writer leaves bare must be trimmed, not wholly between two quote marks of one kind, and
      not a negative decimal. */
  predicate ReadsBack(leaf: Leaf) {
    match leaf
    case LNum(n) => n.PrintsPlain()
    case LStr(s) => NeedsQuotes(s) || BareReadsBack(s)
    case _ => true
  }

  predicate BareReadsBack(s: string) {
    && Trimmed(s)
    && !QuotedBy(s, '\'') && !QuotedBy(s, '\"')
    && ReadNumeral(s) == NotANumeral
  }

  const SPECIAL := ":#{}[],&*?|<>=!%@`"

  lemma SpecialChars(c: char)
    ensures IsSpecial(c) <==> c in SPECIAL
  {
  }

  /** Exactly the strings the writer quotes: empty, with one of the special characters, starting with a digit, or one of
      the reserved words in any mix of cases. */
  lemma QuotedExactly(s: string)
    ensures YamlString(s) == "'" + Doubled(s) + "'"
       <==> s == "" || (exists c <- s :: c in SPECIAL) || '0' <= s[0] <= '9'
            || Lowered(s) == "true" || Lowered(s) == "false" || Lowered(s) == "null" || s == "~"
    ensures YamlString(s) == "'" + Doubled(s) + "'" || YamlString(s) == s
  {
    hide IsSpecial;
    forall c: char ensures IsSpecial(c) <==> c in SPECIAL { SpecialChars(c); }
    DoubledNoShorter(s);
    LoweredTilde(s);
    if exists c <- s :: c in SPECIAL {
      var c :| c in s && c in SPECIAL;
      var i :| 0 <= i < |s| && s[i] == c;
    }
  }

  lemma LoweredTilde(s: string)
    ensures Lowered(s) == "~" <==> s == "~"
  {
    if Lowered(s) == "~" { assert LowerAscii(s[0]) == '~'; }
    if s == "~" { assert Lowered(s)[0] == '~'; }
  }

  lemma {:induction false} DoubledNoShorter(s: string)
    ensures |Doubled(s)| >= |s|
  {
    if s != "" { DoubledNoShorter(s[1..]); }
  }

  /** A backslash at the very end stays. */
  lemma {:induction false} BackslashAtEnd(s: string)
    requires '\\' !in s
    ensures Unescaped(s + "\\") == s + "\\"
  {
    if s == "" {
      assert s + "\\" == "\\" && "\\"[1..] == "";
    } else {
      assert s[0] in s && forall c <- s[1..] :: c in s;
      assert (s + "\\")[1..] == s[1..] + "\\";
      BackslashAtEnd(s[1..]);
    }
  }

  /** A quote mark alone is both ends of an empty string. */
  lemma LoneQuote()
    ensures ScalarOf("'") == Str("") && ScalarOf("\"") == Str("")
  {
    hide TrimStart, TrimEnd, Trim;
    TrimOfTrimmed("'");
    TrimOfTrimmed("\"");
  }

  /** The words that are no strings. */
  lemma WordScalars()
    ensures ScalarOf("true") == Bool(true) && ScalarOf("false") == Bool(false)
    ensures ScalarOf("null") == Null && ScalarOf("~") == Null && ScalarOf("") == Undefined
  {
    hide TrimStart, TrimEnd, Trim;
    TrimOfTrimmed("true");
    TrimOfTrimmed("false");
    TrimOfTrimmed("null");
    TrimOfTrimmed("~");
    TrimOfTrimmed("");
  }

  // ---- reading back what was written ----

  lemma {:induction false} UndoubledDoubled(s: string)
    ensures Undoubled(Doubled(s)) == s
  {
    if s != "" {
      UndoubledDoubled(s[1..]);
      var d := Doubled(s[1..]);
      if s[0] == '\'' {
        assert ("''" + d)[2..] == d;
      } else {
        assert ([s[0]] + d)[1..] == d;
      }
    }
  }

  predicate NoControls(s: string) {
    forall i :: 0 <= i < |s| ==> s[i] as int >= 0x20
  }

  /** What dropping backslashes makes of one escaped character. */
  lemma UnescapedOne(c: char, d: string)
    ensures c as int >= 0x20 ==> Unescaped(EscapeChar(c) + d) == [c] + Unescaped(d)
    ensures c as int < 0x20 ==> |EscapeChar(c)| >= 2 && Unescaped(EscapeChar(c) + d) != ""
                                && Unescaped(EscapeChar(c) + d)[0] == EscapeChar(c)[1] != c
  {
    var e := EscapeChar(c);
    if |e| == 1 {
      assert (e + d)[1..] == d;
    } else {
      assert (e + d)[2..] == e[2..] + d;
      if c as int >= 0x20 { assert e[2..] + d == d; }
    }
  }

  /** Dropping backslashes undoes the JSON escapes exactly for text without control characters. */
  lemma {:induction false} UnescapedEscape(s: string)
    ensures Unescaped(Escape(s)) == s <==> NoControls(s)
  {
    hide Unescaped, EscapeChar;
    if s == "" {
      UnescapedNothing();
    } else {
      UnescapedEscape(s[1..]);
      UnescapedOne(s[0], Escape(s[1..]));
      assert s == [s[0]] + s[1..];
    }
  }

  lemma UnescapedNothing()
    ensures Unescaped("") == ""
  {
  }

  lemma InnerOf(q: string, body: string, q': string)
    requires |q| == 1 && |q'| == 1
    ensures Inner(q + body + q') == body
  {
  }

  lemma WordsAreReserved(s: string)
    ensures s == "true" || s == "false" || s == "null" || s == "~" ==> IsReservedWord(s)
  {
    if s == "true" || s == "false" || s == "null" || s == "~" {
      assert Lowered(s) == s;
    }
  }

  /** A scalar read as a string is never longer than its trimmed text, and shorter when it was quoted. */
  lemma StringIsShort(raw: string)
    ensures ScalarOf(raw).Str? ==> |ScalarOf(raw).s| <= |Trim(raw)|
    ensures ScalarOf(raw).Str? && (QuotedBy(Trim(raw), '\'') || QuotedBy(Trim(raw), '\"')) ==>
              |ScalarOf(raw).s| < |Trim(raw)|
  {
    var v := Trim(raw);
    if QuotedBy(v, '\'') {
      UndoubledShorter(Inner(v));
    } else if QuotedBy(v, '\"') {
      UnescapedShorter(Inner(v));
    }
  }

  lemma TrimShortens(s: string)
    requires !Trimmed(s)
    ensures |Trim(s)| < |s|
  {
    var b, a := TrimDecompose(s);
    TrimIsTrimmed(s);
    assert Trim(s) != s;
  }

  lemma BareScalar(s: string)
    requires !NeedsQuotes(s)
    ensures ScalarOf(s) == Str(s) <==> BareReadsBack(s)
  {
    StringIsShort(s);
    if !Trimmed(s) {
      TrimShortens(s);
    } else {
      TrimOfTrimmed(s);
      WordsAreReserved(s);
      assert !IsSpecial(s[0]);
    }
  }

  lemma {:induction false} UndoubledShorter(s: string)
    ensures |Undoubled(s)| <= |s|
    decreases |s|
  {
    if s != "" {
      if s[0] == '\'' && |s| > 1 && s[1] == '\'' { UndoubledShorter(s[2..]); } else { UndoubledShorter(s[1..]); }
    }
  }

  lemma {:induction false} UnescapedShorter(s: string)
    ensures |Unescaped(s)| <= |s|
    decreases |s|
  {
    if s != "" {
      if s[0] == '\\' && |s| > 1 { UnescapedShorter(s[2..]); } else { UnescapedShorter(s[1..]); }
    }
  }

  lemma QuotedScalar(s: string)
    ensures ScalarOf("'" + Doubled(s) + "'") == Str(s)
  {
    var v := "'" + Doubled(s) + "'";
    TrimOfTrimmed(v);
    InnerOf("'", Doubled(s), "'");
    UndoubledDoubled(s);
  }

  lemma DoubleQuotedScalar(s: string)
    ensures ScalarOf(Quote(s)) == Str(s) <==> NoControls(s)
  {
    TrimOfTrimmed(Quote(s));
    InnerOf("\"", Escape(s), "\"");
    UnescapedEscape(s);
  }

  lemma NumericText(v: string)
    requires v != "" && Trimmed(v) && (IsDigit(v[0]) || v[0] == '-')
    ensures ScalarOf(v) == match ReadNumeral(v) case Numeral(n) => Num(n) case NotANumeral => Str(v)
  {
    TrimOfTrimmed(v);
    assert v != "true" && v != "false" && v != "null" && v != "~";
  }

  lemma NumberScalar(n: Decimal)
    requires n.Valid()
    ensures ScalarOf(n.Print()) == Num(n) <==> n.PrintsPlain()
  {
    PrintIsTrimmed(n);
    NumericText(n.Print());
    NumeralRoundTrip(n);
  }

  lemma PrintIsTrimmed(n: Decimal)
    requires n.Valid()
    ensures Trimmed(n.Print()) && n.Print() != ""
    ensures IsDigit(n.Print()[0]) || n.Print()[0] == '-'
    ensures IsDigit(n.Print()[|n.Print()| - 1])
  {
    MagnitudeStartsWithDigit(n);
    MagnitudeEndsWithDigit(n);
  }

  lemma MagnitudeEndsWithDigit(n: Decimal)
    requires n.Valid()
    ensures n.Magnitude() != "" && IsDigit(n.Magnitude()[|n.Magnitude()| - 1])
  {
  }

  lemma ListScalar(ss: seq<string>)
    ensures ScalarOf(StringifyList(ss)) == List(Strings(ss))
  {
    var v := StringifyList(ss);
    TrimOfTrimmed(v);
    ListRoundTrip(ss, ",");
    assert v == "[" + Join(QuoteAll(ss), ",") + "]";
  }

  /** Every leaf the writer prints reads back as itself exactly when `ReadsBack` says so. */
  lemma LeafRoundTrip(leaf: Leaf)
    requires leaf.Valid()
    ensures ScalarOf(leaf.Print()) == leaf.Value() <==> ReadsBack(leaf)
  {
    match leaf
    case LBool(b) => TrimOfTrimmed(leaf.Print());
    case LNum(n) => NumberScalar(n);
    case LNull => TrimOfTrimmed(leaf.Print());
    case LStr(s) => if NeedsQuotes(s) { QuotedScalar(s); } else { BareScalar(s); }
    case LList(ss) => ListScalar(ss);
  }

  /** Leaves that come back as something else: a string that looks like a negative number, one with a blank at
      its end, one between quote marks, and a number that prints with an exponent. */
  lemma UnfaithfulLeaves()
    ensures forall leaf <- [LStr("-5"), LStr("a "), LStr("'a'"), LNum(Decimal(false, "1", 22))] ::
              leaf.Valid() && ScalarOf(leaf.Print()) != leaf.Value()
  {
    hide ScalarOf, ReadsBack, Leaf.Print, Leaf.Value;
    UnfaithfulStrings();
    UnfaithfulNumber();
    LeafRoundTrip(LStr("-5"));
    LeafRoundTrip(LStr("a "));
    LeafRoundTrip(LStr("'a'"));
    LeafRoundTrip(LNum(Decimal(false, "1", 22)));
  }

  lemma UnfaithfulStrings()
    ensures !ReadsBack(LStr("-5")) && !ReadsBack(LStr("a ")) && !ReadsBack(LStr("'a'"))
  {
    assert DigitRun("5") == 1 && "-5"[1..] == "5";
    assert ReadNumeral("-5") != NotANumeral;
    assert QuotedBy("'a'", '\'');
    hide ReadNumeral, Trimmed;
  }

  lemma UnfaithfulNumber()
    ensures var leaf := LNum(Decimal(false, "1", 22));
            leaf.Valid() && !ReadsBack(leaf)
  {
  }
}
