/** Flow sequences as people and the writer type them: each entry between single or double quotes. */
module FlowList {
  import opened Options
  import opened Text
  import opened Json
  import opened Scalar
  import opened Comment

  /** One entry. Between single quotes a quote is doubled; between double quotes the JSON escapes are used,
      which for text without control characters means that only `"` and `\` get a backslash. */
  datatype Entry = Entry(single: bool, s: string) {
    function Print(): (r: string) {
      if single then "'" + Doubled(s) + "'" else Quote(s)
    }
  }

  /** The entries, the closing bracket and whatever follows. */
  function EntriesText(es: seq<Entry>, sep: string, tail: string): (r: string)
    requires es != []
  {
    es[0].Print() + (if |es| == 1 then "]" + tail else sep + EntriesText(es[1..], sep, tail))
  }

  function ListText(es: seq<Entry>, sep: string): (r: string) {
    if es == [] then "[]" else "[" + EntriesText(es, sep, "")
  }

  function Contents(es: seq<Entry>): (ss: seq<string>)
    ensures |ss| == |es| && forall i :: 0 <= i < |es| ==> ss[i] == es[i].s
  {
    seq(|es|, i requires 0 <= i < |es| => es[i].s)
  }

  function AllDouble(ss: seq<string>): (es: seq<Entry>)
    ensures |es| == |ss| && forall i :: 0 <= i < |ss| ==> es[i] == Entry(false, ss[i])
  {
    seq(|ss|, i requires 0 <= i < |ss| => Entry(false, ss[i]))
  }

  lemma {:induction false} AllDoubleText(ss: seq<string>, sep: string, tail: string)
    requires ss != []
    ensures EntriesText(AllDouble(ss), sep, tail) == ItemsText(ss, sep, tail)
  {
    ItemsTextCons(ss, sep, tail);
    if |ss| > 1 {
      assert AllDouble(ss)[1..] == AllDouble(ss[1..]);
      AllDoubleText(ss[1..], sep, tail);
    }
  }

  /** The writer's list line is the case of double quotes throughout and no blank after the comma. */
  lemma WriterList(ss: seq<string>)
    ensures ListText(AllDouble(ss), ",") == StringifyList(ss)
  {
    if ss == [] {
      assert QuoteAll(ss) == [];
    } else {
      AllDoubleText(ss, ",", "");
      assert ItemsText(ss, ",", "") == Join(QuoteAll(ss), ",") + "]";
    }
  }

  // ---- the comment scanner passes over such a list ----

  /** Nothing, or text that starts with white space. */
  predicate Detached(tail: string) {
    tail == "" || IsSpace(tail[0])
  }

  lemma {:induction false} ScanDoubled(s: string, rest: string, a: bool, st: Lexer)
    requires st.mode == Single && !StartsWith(rest, '\'')
    ensures KeptValue(Doubled(s) + "'" + rest, a, st)
         == |Doubled(s)| + 1 + KeptValue(rest, false, Lexer(Plain, false, st.depth))
    decreases |s|
  {
    var text := Doubled(s) + "'" + rest;
    if s == "" {
      assert text == "'" + rest;
      assert text[1..] == rest;
    } else {
      var more := Doubled(s[1..]) + "'" + rest;
      hide IsSpace;
      if s[0] == '\'' {
        assert text[2..] == more && text[1] == '\'';
        ScanDoubled(s[1..], rest, false, st);
      } else {
        assert text[1..] == more;
        ScanDoubled(s[1..], rest, IsSpace(s[0]), st);
      }
    }
  }

  predicate PlainInDouble(s: string) {
    forall i :: 0 <= i < |s| ==> s[i] != '\\' && s[i] != '\"'
  }

  lemma EscapeShape(c: char)
    ensures var e := EscapeChar(c);
            if e[0] == '\\' then |e| >= 2 && PlainInDouble(e[2..]) else PlainInDouble(e)
  {
  }

  /** Inside double quotes an escape is passed over in one piece. */
  lemma ScanEscape(e: string, more: string, a: bool, st: Lexer) returns (a': bool)
    requires st.mode == Double
    requires |e| >= 2 && e[0] == '\\' && PlainInDouble(e[2..])
    ensures KeptValue(e + more, a, st) == |e| + KeptValue(more, a', st)
  {
    var text := e + more;
    assert text[2..] == e[2..] + more;
    a' := ScanPlainInDouble(e[2..], more, IsSpace(e[1]), st);
  }

  lemma ScanEscapedChar(c: char, more: string, a: bool, st: Lexer) returns (a': bool)
    requires st.mode == Double
    ensures KeptValue(EscapeChar(c) + more, a, st) == |EscapeChar(c)| + KeptValue(more, a', st)
  {
    EscapeShape(c);
    if EscapeChar(c)[0] == '\\' {
      a' := ScanEscape(EscapeChar(c), more, a, st);
    } else {
      a' := ScanPlainInDouble(EscapeChar(c), more, a, st);
    }
  }

  lemma {:induction false} ScanPlainInDouble(s: string, more: string, a: bool, st: Lexer) returns (a': bool)
    requires st.mode == Double && PlainInDouble(s)
    ensures KeptValue(s + more, a, st) == |s| + KeptValue(more, a', st)
  {
    if s == "" {
      assert s + more == more;
      a' := a;
    } else {
      assert (s + more)[1..] == s[1..] + more;
      a' := ScanPlainInDouble(s[1..], more, IsSpace(s[0]), st);
    }
  }

  lemma {:induction false} ScanEscaped(s: string, rest: string, a: bool, st: Lexer)
    requires st.mode == Double
    ensures KeptValue(Escape(s) + "\"" + rest, a, st)
         == |Escape(s)| + 1 + KeptValue(rest, false, Lexer(Plain, false, st.depth))
  {
    var text := Escape(s) + "\"" + rest;
    if s == "" {
      assert text == "\"" + rest;
      assert text[1..] == rest;
    } else {
      var more := Escape(s[1..]) + "\"" + rest;
      assert text == EscapeChar(s[0]) + more;
      var a' := ScanEscapedChar(s[0], more, a, st);
      ScanEscaped(s[1..], rest, a', st);
    }
  }

  lemma ScanEntry(e: Entry, rest: string, a: bool, depth: nat)
    requires !StartsWith(rest, '\'')
    ensures KeptValue(e.Print() + rest, a, Lexer(Plain, true, depth))
         == |e.Print()| + KeptValue(rest, false, Lexer(Plain, false, depth))
  {
    hide KeptValue, Doubled, Escape, StartsWith;
    if e.single {
      Regroup("'", Doubled(e.s), "'");
      Regroup("'", Doubled(e.s) + "'", rest);
      QuoteTurn('\'', Doubled(e.s) + "'" + rest, a, depth);
      ScanDoubled(e.s, rest, false, Lexer(Single, true, depth));
    } else {
      Regroup("\"", Escape(e.s), "\"");
      Regroup("\"", Escape(e.s) + "\"", rest);
      QuoteTurn('\"', Escape(e.s) + "\"" + rest, a, depth);
      ScanEscaped(e.s, rest, false, Lexer(Double, true, depth));
    }
  }

  /** An opening quote where a scalar may begin. */
  lemma QuoteTurn(q: char, rest: string, a: bool, depth: nat)
    requires q == '\'' || q == '\"'
    ensures KeptValue([q] + rest, a, Lexer(Plain, true, depth))
         == 1 + KeptValue(rest, false, Lexer(if q == '\'' then Single else Double, true, depth))
  {
    assert ([q] + rest)[1..] == rest;
  }

  lemma CommaTurn(rest: string, depth: nat)
    requires depth > 0
    ensures KeptValue("," + rest, false, Lexer(Plain, false, depth))
         == 1 + KeptValue(rest, false, Lexer(Plain, true, depth))
  {
    assert ("," + rest)[1..] == rest;
  }

  lemma BlankTurn(rest: string, depth: nat)
    ensures KeptValue(" " + rest, false, Lexer(Plain, true, depth))
         == 1 + KeptValue(rest, true, Lexer(Plain, true, depth))
  {
    assert (" " + rest)[1..] == rest;
  }

  lemma ScanSeparator(sep: string, rest: string, depth: nat)
    requires IsComma(sep) && depth > 0
    ensures KeptValue(sep + rest, false, Lexer(Plain, false, depth))
         == |sep| + KeptValue(rest, sep == ", ", Lexer(Plain, true, depth))
  {
    hide KeptValue;
    if sep == "," {
      CommaTurn(rest, depth);
    } else {
      assert sep + rest == "," + (" " + rest);
      CommaTurn(" " + rest, depth);
      BlankTurn(rest, depth);
    }
  }

  lemma {:induction false} ScanEntries(es: seq<Entry>, sep: string, tail: string, a: bool)
    requires es != [] && IsComma(sep)
    ensures |EntriesText(es, sep, tail)| >= |tail|
    ensures KeptValue(EntriesText(es, sep, tail), a, Lexer(Plain, true, 1))
         == |EntriesText(es, sep, tail)| - |tail| + KeptValue(tail, false, Lexer(Plain, false, 0))
  {
    if |es| == 1 {
      ScanEntry(es[0], "]" + tail, a, 1);
      ScanClose(tail, false, false);
    } else {
      var more := EntriesText(es[1..], sep, tail);
      ScanEntry(es[0], sep + more, a, 1);
      ScanSeparator(sep, more, 1);
      ScanEntries(es[1..], sep, tail, sep == ", ");
    }
  }

  lemma ScanOpen(rest: string, a: bool)
    ensures KeptValue("[" + rest, a, VALUE_START) == 1 + KeptValue(rest, false, Lexer(Plain, true, 1))
  {
    DropFront("[", rest);
  }

  lemma ScanClose(rest: string, a: bool, armed: bool)
    ensures KeptValue("]" + rest, a, Lexer(Plain, armed, 1)) == 1 + KeptValue(rest, false, Lexer(Plain, false, 0))
  {
    DropFront("]", rest);
  }

  /** A list is passed over whole and leaves the scanner outside quotes and brackets. */
  lemma ScanList(es: seq<Entry>, sep: string, tail: string, a: bool)
    requires IsComma(sep)
    ensures KeptValue(ListText(es, sep) + tail, a, VALUE_START)
         == |ListText(es, sep)| + KeptValue(tail, false, Lexer(Plain, false, 0))
  {
    var inside := if es == [] then "]" + tail else EntriesText(es, sep, tail);
    ListTextTail(es, sep, tail);
    ScanOpen(inside, a);
    if es == [] {
      ScanClose(tail, false, true);
    } else {
      ScanEntries(es, sep, tail, false);
    }
  }

  lemma ListTextTail(es: seq<Entry>, sep: string, tail: string)
    ensures ListText(es, sep) + tail == "[" + (if es == [] then "]" + tail else EntriesText(es, sep, tail))
  {
    if es == [] {
      assert "[]" == "[" + "]";
    } else {
      EntriesTextTail(es, sep, tail);
    }
  }

  lemma {:induction false} EntriesTextTail(es: seq<Entry>, sep: string, tail: string)
    requires es != []
    ensures EntriesText(es, sep, tail) == EntriesText(es, sep, "") + tail
  {
    hide Entry.Print;
    if |es| == 1 {
      TailApart(es[0].Print(), "]", "", tail);
    } else {
      EntriesTextTail(es[1..], sep, tail);
      TailApart(es[0].Print(), sep, EntriesText(es[1..], sep, ""), tail);
    }
  }

  lemma TailApart(first: string, sep: string, rest: string, tail: string)
    ensures first + (sep + (rest + tail)) == (first + (sep + rest)) + tail
    ensures rest == "" ==> first + (sep + tail) == (first + (sep + "")) + tail
  {
  }
}
