/** The entries of a flow sequence come back: split at the commas between them and read one by one. */
module FlowEntries {
  import opened Options
  import opened Text
  import opened Decimals
  import opened Json
  import opened Scalar
  import opened Comment
  import opened FlowList
  import FlowSeq

  // ---- quoted stretches ----

  lemma AtParts(text: string, p: nat, a: string, b: string)
    requires At(text, p, a + b)
    ensures At(text, p, a) && At(text, p + |a|, b)
  {
    forall k | 0 <= k < |a|
      ensures text[p + k] == a[k]
    {
      assert (a + b)[k] == a[k];
    }
    forall k | 0 <= k < |b|
      ensures text[p + |a| + k] == b[k]
    {
      assert (a + b)[|a| + k] == b[k];
    }
  }

  lemma AtFirst(text: string, p: nat, a: string)
    requires At(text, p, a) && a != ""
    ensures p < |text| && text[p] == a[0]
  {
  }

  lemma AtSecond(text: string, p: nat, a: string)
    requires At(text, p, a) && |a| >= 2
    ensures p + 1 < |text| && text[p + 1] == a[1]
  {
  }

  /** One turn of the splitter between single quotes. */
  lemma SingleTurn(text: string, p: nat)
    requires p < |text|
    ensures text[p] != '\'' ==>
              FlowSeq.EntryEnd(text, p, FlowSeq.Single, true) == FlowSeq.EntryEnd(text, p + 1, FlowSeq.Single, true)
    ensures text[p] == '\'' && p + 1 < |text| && text[p + 1] == '\'' ==>
              FlowSeq.EntryEnd(text, p, FlowSeq.Single, true) == FlowSeq.EntryEnd(text, p + 2, FlowSeq.Single, true)
    ensures text[p] == '\'' && (p + 1 < |text| ==> text[p + 1] != '\'') ==>
              FlowSeq.EntryEnd(text, p, FlowSeq.Single, true) == FlowSeq.EntryEnd(text, p + 1, FlowSeq.Plain, false)
  {
  }

  lemma {:induction false} SplitDoubled(text: string, p: nat, s: string)
    requires At(text, p, Doubled(s) + "'")
    requires p + |Doubled(s)| + 1 < |text| ==> text[p + |Doubled(s)| + 1] != '\''
    ensures FlowSeq.EntryEnd(text, p, FlowSeq.Single, true)
         == FlowSeq.EntryEnd(text, p + |Doubled(s)| + 1, FlowSeq.Plain, false)
    decreases |s|
  {
    hide At, FlowSeq.EntryEnd;
    if s == "" {
      AtFirst(text, p, Doubled(s) + "'");
      SingleTurn(text, p);
    } else {
      var c := if s[0] == '\'' then "''" else [s[0]];
      Regroup(c, Doubled(s[1..]), "'");
      AtParts(text, p, c, Doubled(s[1..]) + "'");
      AtFirst(text, p, c);
      AtFirst(text, p + |c|, Doubled(s[1..]) + "'");
      if s[0] == '\'' { AtSecond(text, p, c); }
      SingleTurn(text, p);
      SplitDoubled(text, p + |c|, s[1..]);
    }
  }

  /** One turn between double quotes. */
  lemma DoubleTurn(text: string, p: nat)
    requires p < |text|
    ensures text[p] != '\\' && text[p] != '\"' ==>
              FlowSeq.EntryEnd(text, p, FlowSeq.Double, true) == FlowSeq.EntryEnd(text, p + 1, FlowSeq.Double, true)
    ensures text[p] == '\\' && p + 1 < |text| ==>
              FlowSeq.EntryEnd(text, p, FlowSeq.Double, true) == FlowSeq.EntryEnd(text, p + 2, FlowSeq.Double, true)
    ensures text[p] == '\"' ==>
              FlowSeq.EntryEnd(text, p, FlowSeq.Double, true) == FlowSeq.EntryEnd(text, p + 1, FlowSeq.Plain, false)
  {
  }

  lemma {:induction false} SplitPlainInDouble(text: string, p: nat, s: string)
    requires At(text, p, s) && PlainInDouble(s)
    ensures FlowSeq.EntryEnd(text, p, FlowSeq.Double, true) == FlowSeq.EntryEnd(text, p + |s|, FlowSeq.Double, true)
    decreases |s|
  {
    hide At, FlowSeq.EntryEnd;
    if s != "" {
      assert s == [s[0]] + s[1..];
      AtParts(text, p, [s[0]], s[1..]);
      AtFirst(text, p, s);
      DoubleTurn(text, p);
      SplitPlainInDouble(text, p + 1, s[1..]);
    } else {
      AtEnd(text, p);
    }
  }

  lemma AtEnd(text: string, p: nat)
    ensures At(text, p, "") ==> p <= |text|
  {
  }

  lemma SplitEscapedChar(text: string, p: nat, c: char)
    requires At(text, p, EscapeChar(c))
    ensures FlowSeq.EntryEnd(text, p, FlowSeq.Double, true)
         == FlowSeq.EntryEnd(text, p + |EscapeChar(c)|, FlowSeq.Double, true)
  {
    hide EscapeChar, At, FlowSeq.EntryEnd;
    var e := EscapeChar(c);
    EscapeShape(c);
    EscapeFits(text, p, c);
    if e[0] == '\\' {
      assert e == e[..2] + e[2..];
      AtParts(text, p, e[..2], e[2..]);
      AtFirst(text, p, e);
      DoubleTurn(text, p);
      SplitPlainInDouble(text, p + 2, e[2..]);
    } else {
      SplitPlainInDouble(text, p, e);
    }
  }

  lemma EscapeFits(text: string, p: nat, c: char)
    requires At(text, p, EscapeChar(c))
    ensures EscapeChar(c) != "" && p + |EscapeChar(c)| <= |text|
  {
  }

  lemma {:induction false} SplitEscaped(text: string, p: nat, s: string)
    requires At(text, p, Escape(s) + "\"")
    ensures FlowSeq.EntryEnd(text, p, FlowSeq.Double, true)
         == FlowSeq.EntryEnd(text, p + |Escape(s)| + 1, FlowSeq.Plain, false)
    decreases |s|
  {
    hide EscapeChar, At, FlowSeq.EntryEnd;
    if s == "" {
      AtFirst(text, p, Escape(s) + "\"");
      DoubleTurn(text, p);
    } else {
      Regroup(EscapeChar(s[0]), Escape(s[1..]), "\"");
      AtParts(text, p, EscapeChar(s[0]), Escape(s[1..]) + "\"");
      EscapeFits(text, p, s[0]);
      SplitEscapedChar(text, p, s[0]);
      SplitEscaped(text, p + |EscapeChar(s[0])|, s[1..]);
    }
  }

  function Prints(es: seq<Entry>): (ps: seq<string>)
    ensures |ps| == |es| && forall i :: 0 <= i < |es| ==> ps[i] == es[i].Print()
  {
    seq(|es|, i requires 0 <= i < |es| => es[i].Print())
  }

  lemma PrintIsTrimmed(e: Entry)
    ensures Trimmed(e.Print()) && e.Print() != ""
  {
  }

  // ---- one entry with white space around it ----

  /** The next comma from `p` on, or the end of the text. */
  function FirstComma(text: string, p: nat): (k: nat)
    requires p <= |text|
    ensures p <= k <= |text| && (k < |text| ==> text[k] == ',')
    ensures forall j | p <= j < k :: text[j] != ','
    decreases |text| - p
  {
    if p == |text| || text[p] == ',' then p else FirstComma(text, p + 1)
  }

  lemma CommaIs(text: string, p: nat, k: nat)
    requires p <= k <= |text| && (k < |text| ==> text[k] == ',') && forall j | p <= j < k :: text[j] != ','
    ensures FirstComma(text, p) == k
  {
  }

  /** Past its first character, or past its closing quote, an entry goes on to the next comma, whatever quote marks
      stand before that. */
  lemma {:induction false} GoesToComma(text: string, p: nat)
    requires p <= |text|
    ensures FlowSeq.EntryEnd(text, p, FlowSeq.Plain, false) == FirstComma(text, p)
    decreases |text| - p
  {
    if p < |text| && text[p] != ',' { GoesToComma(text, p + 1); }
  }

  /** What the first character of an entry decides. */
  lemma Opens(text: string, p: nat)
    requires p < |text|
    ensures var end := FlowSeq.EntryEnd(text, p, FlowSeq.Plain, true);
            && (IsSpace(text[p]) ==> end == FlowSeq.EntryEnd(text, p + 1, FlowSeq.Plain, true))
            && (text[p] == '\'' ==> end == FlowSeq.EntryEnd(text, p + 1, FlowSeq.Single, true))
            && (text[p] == '\"' ==> end == FlowSeq.EntryEnd(text, p + 1, FlowSeq.Double, true))
            && (!IsSpace(text[p]) && text[p] != '\'' && text[p] != '\"' ==> end == FirstComma(text, p))
  {
    if text[p] != ',' { GoesToComma(text, p + 1); }
  }

  lemma {:induction false} SkipBlank(text: string, p: nat, blank: string)
    requires At(text, p, blank) && AllSpace(blank)
    ensures FlowSeq.EntryEnd(text, p, FlowSeq.Plain, true) == FlowSeq.EntryEnd(text, p + |blank|, FlowSeq.Plain, true)
    decreases |blank|
  {
    hide At, FlowSeq.EntryEnd, IsSpace;
    if blank != "" {
      assert blank == [blank[0]] + blank[1..];
      AtParts(text, p, [blank[0]], blank[1..]);
      AtFirst(text, p, blank);
      Opens(text, p);
      SkipBlank(text, p + 1, blank[1..]);
    } else {
      AtEnd(text, p);
    }
  }

  /** An entry without quotes: quote marks inside it are text. */
  predicate BareText(s: string) {
    s != "" && Trimmed(s) && ',' !in s && s[0] != '\'' && s[0] != '\"'
  }

  /** The text of an entry: bare, or printed in quotes. */
  ghost predicate IsCore(core: string) {
    BareText(core) || exists e: Entry :: core == e.Print()
  }

  /** A stretch between commas: an entry, or nothing, with white space around it. */
  datatype Piece = Piece(before: string, core: string, after: string) {
    ghost predicate Valid() {
      AllSpace(before) && AllSpace(after) && (core == "" || IsCore(core))
    }

    function Text(): (r: string) {
      before + (core + after)
    }
  }

  lemma NoCommaInSpace(s: string)
    requires AllSpace(s)
    ensures ',' !in s && '\'' !in s
  {
  }

  lemma CommaFollows(text: string, p: nat, s: string)
    requires At(text, p, s) && ',' !in s && (p + |s| < |text| ==> text[p + |s|] == ',')
    ensures p <= |text| && FirstComma(text, p) == p + |s|
  {
    forall j | p <= j < p + |s| ensures text[j] != ',' {
      assert text[j] == text[p..p + |s|][j - p];
    }
    CommaIs(text, p, p + |s|);
  }

  /** An entry ends at the comma after it. */
  lemma EntryStretch(text: string, p: nat, piece: Piece)
    requires piece.Valid() && At(text, p, piece.Text())
    requires var end := p + |piece.Text()|; end < |text| ==> text[end] == ','
    ensures FlowSeq.EntryEnd(text, p, FlowSeq.Plain, true) == p + |piece.Text()|
  {
    hide At, FlowSeq.EntryEnd, Entry.Print, IsCore, AllSpace;
    var q, rest := p + |piece.before|, piece.core + piece.after;
    AtParts(text, p, piece.before, rest);
    SkipBlank(text, p, piece.before);
    CoreStretch(text, q, piece.core, piece.after);
  }

  lemma CoreStretch(text: string, q: nat, core: string, after: string)
    requires At(text, q, core + after) && AllSpace(after) && (core == "" || IsCore(core))
    requires var end := q + |core + after|; end < |text| ==> text[end] == ','
    ensures FlowSeq.EntryEnd(text, q, FlowSeq.Plain, true) == q + |core + after|
  {
    hide At, FlowSeq.EntryEnd, Entry.Print, AllSpace;
    AtParts(text, q, core, after);
    NoCommaInSpace(after);
    AtAfterFits(text, q, core + after);
    if core == "" {
      SkipBlank(text, q, after);
      AtEndStops(text, q + |after|);
    } else if BareText(core) {
      AtFirst(text, q, core);
      Opens(text, q);
      CommaFollows(text, q, core + after);
    } else {
      var e: Entry :| core == e.Print();
      QuotedStretch(text, q, e, after);
    }
  }

  lemma AtAfterFits(text: string, q: nat, s: string)
    requires At(text, q, s)
    ensures q + |s| <= |text|
  {
  }

  lemma AtEndStops(text: string, p: nat)
    requires p <= |text| && (p < |text| ==> text[p] == ',')
    ensures FlowSeq.EntryEnd(text, p, FlowSeq.Plain, true) == p
  {
  }

  lemma QuotedStretch(text: string, q: nat, e: Entry, after: string)
    requires At(text, q, e.Print() + after) && AllSpace(after)
    requires var end := q + |e.Print() + after|; end < |text| ==> text[end] == ','
    ensures FlowSeq.EntryEnd(text, q, FlowSeq.Plain, true) == q + |e.Print() + after|
  {
    hide At, FlowSeq.EntryEnd, Doubled, Escape, AllSpace;
    AtParts(text, q, e.Print(), after);
    AtAfterFits(text, q, e.Print() + after);
    NoCommaInSpace(after);
    var close := q + |e.Print()|;
    NextIs(text, close, after);
    GoesToComma(text, close);
    CommaFollows(text, close, after);
    if e.single {
      Regroup("'", Doubled(e.s), "'");
      AtParts(text, q, "'", Doubled(e.s) + "'");
      AtFirst(text, q, "'");
      Opens(text, q);
      SplitDoubled(text, q + 1, e.s);
    } else {
      Regroup("\"", Escape(e.s), "\"");
      AtParts(text, q, "\"", Escape(e.s) + "\"");
      AtFirst(text, q, "\"");
      Opens(text, q);
      SplitEscaped(text, q + 1, e.s);
    }
  }

  lemma NextIs(text: string, p: nat, after: string)
    requires At(text, p, after) && '\'' !in after && (p + |after| < |text| ==> text[p + |after|] == ',')
    ensures p < |text| ==> text[p] != '\''
  {
    if after != "" { AtFirst(text, p, after); }
  }

  // ---- a whole sequence ----

  function Texts(ps: seq<Piece>): (ts: seq<string>)
    ensures |ts| == |ps| && forall i :: 0 <= i < |ps| ==> ts[i] == ps[i].Text()
  {
    seq(|ps|, i requires 0 <= i < |ps| => ps[i].Text())
  }

  function Cores(ps: seq<Piece>): (cs: seq<string>)
    ensures |cs| == |ps| && forall i :: 0 <= i < |ps| ==> cs[i] == ps[i].core
  {
    seq(|ps|, i requires 0 <= i < |ps| => ps[i].core)
  }

  /** A blank last entry is dropped, as after a comma at the end. */
  function Kept(cores: seq<string>): (r: seq<string>)
    requires cores != []
  {
    if cores[|cores| - 1] == "" then cores[..|cores| - 1] else cores
  }

  /** What stands between the brackets. */
  function FlowText(ps: seq<Piece>): (r: string) {
    Join(Texts(ps), ",")
  }

  lemma FlowTextCons(ps: seq<Piece>)
    requires ps != []
    ensures |ps| == 1 ==> FlowText(ps) == ps[0].Text()
    ensures |ps| > 1 ==> FlowText(ps) == ps[0].Text() + ("," + FlowText(ps[1..]))
  {
    hide Piece.Text;
    if |ps| > 1 {
      assert Texts(ps)[1..] == Texts(ps[1..]);
      Regroup(ps[0].Text(), ",", FlowText(ps[1..]));
    }
  }

  lemma KeptCons(ps: seq<Piece>)
    requires ps != []
    ensures |ps| == 1 ==> Kept(Cores(ps)) == if ps[0].core == "" then [] else [ps[0].core]
    ensures |ps| > 1 ==> Kept(Cores(ps)) == [ps[0].core] + Kept(Cores(ps[1..]))
  {
    if |ps| > 1 { assert Cores(ps) == [ps[0].core] + Cores(ps[1..]); }
  }

  lemma PieceTrimmed(piece: Piece)
    requires piece.Valid()
    ensures Trim(piece.Text()) == piece.core
  {
    hide TrimStart, TrimEnd, Entry.Print;
    if piece.core != "" && !BareText(piece.core) {
      var e: Entry :| piece.core == e.Print();
      PrintIsTrimmed(e);
    }
    TrimBetween(piece.before, piece.core, piece.after);
    Regroup(piece.before, piece.core, piece.after);
  }

  /** The entries from one start to the end of the sequence. */
  lemma {:induction false} SplitPieces(text: string, p: nat, ps: seq<Piece>)
    requires ps != [] && (forall piece <- ps :: piece.Valid()) && p <= |text| && text[p..] == FlowText(ps)
    ensures FlowSeq.EntriesFrom(text, p) == Kept(Cores(ps))
    decreases |ps|
  {
    hide FlowSeq.EntriesFrom, FlowSeq.EntryEnd, FlowText, Piece.Text, Piece.Valid, At, Kept, Cores, Trim;
    var first := ps[0].Text();
    assert ps[0] in ps && forall piece <- ps[1..] :: piece in ps;
    FlowTextCons(ps);
    KeptCons(ps);
    PieceTrimmed(ps[0]);
    var rest := if |ps| == 1 then "" else "," + FlowText(ps[1..]);
    Layout(text, p, first, rest);
    EntryStretch(text, p, ps[0]);
    OneEntry(text, p, p + |first|);
    if |ps| > 1 {
      assert text[p + |first| + 1..] == rest[1..] == FlowText(ps[1..]);
      SplitPieces(text, p + |first| + 1, ps[1..]);
    }
  }

  lemma Layout(text: string, p: nat, first: string, rest: string)
    requires p <= |text| && text[p..] == first + rest
    ensures At(text, p, first) && p + |first| <= |text| && text[p..p + |first|] == first
    ensures text[p + |first|..] == rest && |text| == p + |first| + |rest|
    ensures rest != "" ==> text[p + |first|] == rest[0] && text[p + |first| + 1..] == rest[1..]
  {
    assert text[p..p + |first|] == text[p..][..|first|];
    assert text[p + |first|..] == text[p..][|first|..];
    if rest != "" {
      assert text[p + |first| + 1..] == text[p + |first|..][1..];
    }
  }

  lemma OneEntry(text: string, p: nat, end: nat)
    requires p <= end <= |text| && FlowSeq.EntryEnd(text, p, FlowSeq.Plain, true) == end
    ensures var entry := Trim(text[p..end]);
            FlowSeq.EntriesFrom(text, p)
            == if end < |text| then [entry] + FlowSeq.EntriesFrom(text, end + 1)
               else if entry != "" then [entry] else []
  {
    hide FlowSeq.EntryEnd, TrimStart, TrimEnd;
  }

  // ---- the comment scanner on such a sequence ----

  /** Bare text that means nothing to the comment scanner. */
  predicate Quiet(piece: Piece) {
    BareText(piece.core) ==> forall c <- piece.core :: c != '#' && c != '[' && c != ']'
  }

  lemma {:induction false} ScanBlank(blank: string, tail: string, a: bool, armed: bool) returns (a': bool)
    requires AllSpace(blank)
    ensures KeptValue(blank + tail, a, Lexer(Plain, armed, 1)) == |blank| + KeptValue(tail, a', Lexer(Plain, armed, 1))
  {
    if blank == "" {
      assert blank + tail == tail;
      a' := a;
    } else {
      assert (blank + tail)[1..] == blank[1..] + tail;
      a' := ScanBlank(blank[1..], tail, true, armed);
    }
  }

  /** Inside a bare entry a quote mark opens nothing. */
  lemma {:induction false} ScanInside(s: string, tail: string, a: bool) returns (a': bool)
    requires forall c <- s :: c != '#' && c != '[' && c != ']' && c != ','
    ensures KeptValue(s + tail, a, Lexer(Plain, false, 1)) == |s| + KeptValue(tail, a', Lexer(Plain, false, 1))
  {
    if s == "" {
      assert s + tail == tail;
      a' := a;
    } else {
      assert (s + tail)[1..] == s[1..] + tail && s[0] in s && forall c <- s[1..] :: c in s;
      a' := ScanInside(s[1..], tail, IsSpace(s[0]));
    }
  }

  lemma FirstOfBare(s: string, tail: string, a: bool)
    requires BareText(s) && s[0] != '#' && s[0] != '[' && s[0] != ']'
    ensures KeptValue(s + tail, a, Lexer(Plain, true, 1)) == 1 + KeptValue(s[1..] + tail, false, Lexer(Plain, false, 1))
  {
    assert (s + tail)[1..] == s[1..] + tail && s[0] in s;
  }

  lemma ScanPiece(piece: Piece, tail: string, a: bool) returns (a': bool, armed: bool)
    requires piece.Valid() && Quiet(piece) && tail != "" && tail[0] in {',', ']'}
    ensures KeptValue(piece.Text() + tail, a, Lexer(Plain, true, 1))
         == |piece.Text()| + KeptValue(tail, a', Lexer(Plain, armed, 1))
  {
    hide KeptValue, Entry.Print, AllSpace;
    var b, c, f := piece.before, piece.core, piece.after;
    Apart(b, c, f, tail);
    a' := ScanBlank(b, c + (f + tail), a, true);
    armed := c == "";
    if c == "" {
      assert c + (f + tail) == f + tail;
    } else if BareText(c) {
      assert c[0] in c && forall d <- c[1..] :: d in c;
      FirstOfBare(c, f + tail, a');
      a' := ScanInside(c[1..], f + tail, false);
    } else {
      var e: Entry :| c == e.Print();
      NoCommaInSpace(f);
      assert (f + tail)[0] != '\'';
      ScanEntry(e, f + tail, a', 1);
      a' := false;
    }
    a' := ScanBlank(f, tail, a', armed);
  }

  lemma Apart(b: string, c: string, f: string, tail: string)
    ensures (b + (c + f)) + tail == b + (c + (f + tail))
  {
  }

  lemma NextPiece(rest: string, a: bool, armed: bool)
    ensures KeptValue("," + rest, a, Lexer(Plain, armed, 1)) == 1 + KeptValue(rest, false, Lexer(Plain, true, 1))
  {
    assert ("," + rest)[1..] == rest;
  }

  lemma {:induction false} ScanPieces(ps: seq<Piece>, tail: string, a: bool)
    requires ps != [] && forall piece <- ps :: piece.Valid() && Quiet(piece)
    ensures KeptValue(FlowText(ps) + ("]" + tail), a, Lexer(Plain, true, 1))
         == |FlowText(ps)| + 1 + KeptValue(tail, false, Lexer(Plain, false, 0))
  {
    hide KeptValue, FlowText, Piece.Text, Piece.Valid, Quiet;
    assert ps[0] in ps && forall piece <- ps[1..] :: piece in ps;
    FlowTextCons(ps);
    if |ps| == 1 {
      var a', armed := ScanPiece(ps[0], "]" + tail, a);
      ScanClose(tail, a', armed);
    } else {
      var rest := FlowText(ps[1..]) + ("]" + tail);
      assert FlowText(ps) + ("]" + tail) == ps[0].Text() + ("," + rest);
      var a', armed := ScanPiece(ps[0], "," + rest, a);
      NextPiece(rest, a', armed);
      ScanPieces(ps[1..], tail, false);
    }
  }

  /** The whole sequence is passed over, apostrophes inside bare entries included, and the scanner is outside quotes
      and brackets again. */
  lemma MixedListKept(ps: seq<Piece>, tail: string, a: bool)
    requires ps != [] && forall piece <- ps :: piece.Valid() && Quiet(piece)
    ensures KeptValue("[" + FlowText(ps) + "]" + tail, a, VALUE_START)
         == |FlowText(ps)| + 2 + KeptValue(tail, false, Lexer(Plain, false, 0))
  {
    hide KeptValue, FlowText, Piece.Valid, Quiet;
    assert "[" + FlowText(ps) + "]" + tail == "[" + (FlowText(ps) + ("]" + tail));
    ScanOpen(FlowText(ps) + ("]" + tail), a);
    ScanPieces(ps, tail, false);
  }

  // ---- what it reads as ----

  function Scalars(cores: seq<string>): (vs: seq<Value>)
    ensures |vs| == |cores| && forall i :: 0 <= i < |cores| ==> vs[i] == ScalarOf(cores[i])
  {
    seq(|cores|, i requires 0 <= i < |cores| => ScalarOf(cores[i]))
  }

  /** Any mix of bare, single- and double-quoted entries, with any white space around them, is read as a JSON array
      if it is one, and otherwise as the list of its entries, each as a scalar of its own. */
  lemma MixedListReads(ps: seq<Piece>)
    requires ps != [] && forall piece <- ps :: piece.Valid()
    ensures var v := "[" + FlowText(ps) + "]";
            ScalarOf(v) == match ParseJson(v)
                           case Just(List(items)) => List(items)
                           case _ => List(Scalars(Kept(Cores(ps))))
  {
    hide TrimStart, TrimEnd, ParseJson, FlowSeq.EntriesFrom, FlowText, Kept, Cores, Piece.Valid;
    var inner := FlowText(ps);
    var v := "[" + inner + "]";
    BracketIsNoScalar(v);
    InnerOf("[", inner, "]");
    assert inner[0..] == inner;
    SplitPieces(inner, 0, ps);
    var entries := FlowSeq.Entries(Inner(v));
    FlowSeq.EntriesAreShort(Inner(v), 0);
    assert seq(|entries|, i requires 0 <= i < |entries| => ScalarOf(entries[i])) == Scalars(entries);
  }

  lemma BracketIsNoScalar(v: string)
    requires |v| >= 2 && v[0] == '[' && v[|v| - 1] == ']'
    ensures ScalarOf(v) == ListOf(v)
  {
    hide TrimStart, TrimEnd, ListOf;
    TrimOfTrimmed(v);
    assert v != "true" && v != "false" && v != "null" && v != "~";
  }

  const DONT := Piece("", "don't", "")
  const STOP := Piece(" ", "stop", "")

  /** An apostrophe inside a bare entry opens nothing: the list keeps both entries. */
  lemma ApostropheInside()
    ensures ScalarOf("[don't, stop]") == List([Str("don't"), Str("stop")])
  {
    hide TrimStart, TrimEnd, Trim, ScalarOf, ParseJson, FlowText, Piece.Valid, NeedsQuotes, BareReadsBack, Kept, DONT,
      STOP;
    BothPieces();
    assert forall piece <- [DONT, STOP] :: piece.Valid();
    MixedListReads([DONT, STOP]);
    NotEvenJson();
    PlainWords();
    BareScalar("don't");
    BareScalar("stop");
    assert Scalars(["don't", "stop"]) == [Str("don't"), Str("stop")];
  }

  lemma BothPieces()
    ensures DONT.Valid() && STOP.Valid() && "[" + FlowText([DONT, STOP]) + "]" == "[don't, stop]"
    ensures Kept(Cores([DONT, STOP])) == ["don't", "stop"]
  {
    assert BareText("don't") && BareText("stop");
    FlowTextCons([DONT, STOP]);
    FlowTextCons([STOP]);
    assert [DONT, STOP][1..] == [STOP];
    assert Cores([DONT, STOP]) == ["don't", "stop"];
  }

  lemma NotEvenJson()
    ensures ParseJson("[don't, stop]") == Nothing
  {
    NoJsonAfter('d', "on't, stop]");
    assert "[" + (['d'] + "on't, stop]") == "[don't, stop]";
  }

  /** An array whose first item starts with a letter that starts no JSON value is none. */
  lemma NoJsonAfter(c: char, rest: string)
    requires 'a' <= c <= 'z' && c != 'n' && c != 't' && c != 'f'
    ensures ParseJson("[" + ([c] + rest)) == Nothing
  {
    var inside := [c] + rest;
    DropFront("[", inside);
    assert DigitRun(inside) == 0;
    assert ParseItems(inside) == Parse.Fail;
  }

  lemma PlainWords()
    ensures !NeedsQuotes("don't") && BareReadsBack("don't") && !NeedsQuotes("stop") && BareReadsBack("stop")
  {
    assert Lowered("don't")[0] == 'd' && Lowered("stop")[0] == 's';
  }

  /** A list with a single-quoted entry is not JSON. */
  lemma {:induction false} NotJson(es: seq<Entry>, sep: string, tail: string)
    requires es != [] && IsComma(sep)
    requires exists i :: 0 <= i < |es| && es[i].single
    ensures ParseItems(EntriesText(es, sep, tail)) == Fail
  {
    hide Escape, Doubled;
    var text := EntriesText(es, sep, tail);
    if es[0].single {
      assert text[0] == '\'';
    } else {
      var more := EntriesText(es[1..], sep, tail);
      ParseQuoted(es[0].s, sep + more);
      SkipComma(sep, more);
      NotJson(es[1..], sep, tail);
    }
  }

  /** The entries that keep their text when only backslashes are dropped. */
  predicate Plainly(es: seq<Entry>) {
    forall i :: 0 <= i < |es| ==> es[i].single || NoControls(es[i].s)
  }

  predicate AllJson(es: seq<Entry>) {
    forall i :: 0 <= i < |es| ==> !es[i].single
  }

  lemma EntryScalar(e: Entry)
    ensures ScalarOf(e.Print()) == Str(e.s) <==> e.single || NoControls(e.s)
  {
    if e.single { QuotedScalar(e.s); } else { DoubleQuotedScalar(e.s); }
  }

  lemma ListTextIsArray(es: seq<Entry>, sep: string)
    requires es != []
    ensures var inside := EntriesText(es, sep, "");
            ListText(es, sep) == "[" + inside && (StartsWith(inside, '\"') || StartsWith(inside, '\''))
  {
  }

  lemma JsonList(es: seq<Entry>, sep: string)
    requires IsComma(sep) && AllJson(es)
    ensures ParseJson(ListText(es, sep)) == Just(List(Strings(Contents(es))))
  {
    var ss := Contents(es);
    assert AllDouble(ss) == es;
    if ss == [] {
      ParseEmptyArray();
      assert Strings(ss) == [];
    } else {
      ListTextIsArray(es, sep);
      AllDoubleText(ss, sep, "");
      ItemsRoundTrip(ss, sep, "");
      ParseArray(EntriesText(es, sep, ""));
    }
  }

  lemma MixedIsNotJson(es: seq<Entry>, sep: string)
    requires IsComma(sep) && !AllJson(es)
    ensures ParseJson(ListText(es, sep)) == Nothing
  {
    ListTextIsArray(es, sep);
    NotJson(es, sep, "");
    ParseArray(EntriesText(es, sep, ""));
  }

  /** A printed list as pieces, each but the first with the separator's blank in front. */
  function Pieces(es: seq<Entry>, blank: string, sep: string): (ps: seq<Piece>)
    requires sep != ""
    ensures |ps| == |es|
  {
    if es == [] then [] else [Piece(blank, es[0].Print(), "")] + Pieces(es[1..], sep[1..], sep)
  }

  lemma {:induction false} PiecesOfPrints(es: seq<Entry>, blank: string, sep: string)
    requires IsComma(sep) && AllSpace(blank)
    ensures var ps := Pieces(es, blank, sep);
            (forall piece <- ps :: piece.Valid()) && Cores(ps) == Prints(es)
    decreases |es|
  {
    hide Entry.Print, IsSpace;
    if es != [] {
      BlankIsSpace(sep);
      PiecesOfPrints(es[1..], sep[1..], sep);
      assert IsCore(es[0].Print());
    }
  }

  lemma BlankIsSpace(sep: string)
    requires IsComma(sep)
    ensures AllSpace(sep[1..])
  {
  }

  lemma {:induction false} PiecesText(es: seq<Entry>, blank: string, sep: string)
    requires es != [] && IsComma(sep)
    ensures blank + EntriesText(es, sep, "") == FlowText(Pieces(es, blank, sep)) + "]"
    decreases |es|
  {
    hide Entry.Print, FlowText, EntriesText;
    var ps := Pieces(es, blank, sep);
    FlowTextCons(ps);
    assert es[0].Print() + "" == es[0].Print();
    TextOfEntries(es, sep);
    if |es| > 1 {
      assert ps[1..] == Pieces(es[1..], sep[1..], sep);
      PiecesText(es[1..], sep[1..], sep);
      Behind(blank, es[0].Print(), sep, EntriesText(es[1..], sep, ""), FlowText(ps[1..]));
    }
  }

  lemma TextOfEntries(es: seq<Entry>, sep: string)
    requires es != []
    ensures EntriesText(es, sep, "")
         == es[0].Print() + if |es| == 1 then "]" else sep + EntriesText(es[1..], sep, "")
  {
    hide Entry.Print;
    assert "]" + "" == "]";
  }

  lemma Behind(blank: string, first: string, sep: string, more: string, rest: string)
    requires IsComma(sep) && sep[1..] + more == rest + "]"
    ensures blank + (first + (sep + more)) == (blank + first + ("," + rest)) + "]"
  {
    assert sep == "," + sep[1..];
    assert sep + more == "," + (rest + "]");
  }

  lemma PrintedList(es: seq<Entry>, sep: string)
    requires IsComma(sep) && !AllJson(es)
    ensures ScalarOf(ListText(es, sep)) == List(Scalars(Prints(es)))
  {
    hide ScalarOf, FlowText, EntriesText, ParseJson, Entry.Print, Piece.Valid;
    var ps := Pieces(es, "", sep);
    PiecesOfPrints(es, "", sep);
    PiecesText(es, "", sep);
    assert "" + EntriesText(es, sep, "") == EntriesText(es, sep, "");
    assert "[" + (FlowText(ps) + "]") == "[" + FlowText(ps) + "]";
    MixedIsNotJson(es, sep);
    MixedListReads(ps);
    KeptPrints(es);
  }

  lemma KeptPrints(es: seq<Entry>)
    requires es != []
    ensures Kept(Prints(es)) == Prints(es)
  {
    PrintIsTrimmed(es[|es| - 1]);
  }

  /** A flow sequence in any mix of quotes reads back as its contents exactly when it is JSON throughout or
      no double-quoted entry holds a control character. Commas, brackets, blanks and `#` inside an entry
      are content. */
  lemma FlowListRoundTrip(es: seq<Entry>, sep: string)
    requires IsComma(sep)
    ensures ScalarOf(ListText(es, sep)) == List(Strings(Contents(es))) <==> AllJson(es) || Plainly(es)
  {
    hide TrimStart, TrimEnd, ParseJson, FlowSeq.Entries, ListText;
    var v := ListText(es, sep);
    ListTextShape(es, sep);
    TrimOfTrimmed(v);
    if AllJson(es) {
      JsonList(es, sep);
    } else {
      MixedIsNotJson(es, sep);
      var ps := Prints(es);
      var items := seq(|ps|, i requires 0 <= i < |ps| => ScalarOf(ps[i]));
      PrintedList(es, sep);
      assert items == Scalars(ps);
      forall i | 0 <= i < |es|
        ensures items[i] == Str(es[i].s) <==> es[i].single || NoControls(es[i].s)
      {
        EntryScalar(es[i]);
      }
      if Plainly(es) {
        assert items == Strings(Contents(es));
      } else {
        var i :| 0 <= i < |es| && !(es[i].single || NoControls(es[i].s));
        assert items[i] != Strings(Contents(es))[i];
      }
    }
  }

  lemma ListTextShape(es: seq<Entry>, sep: string)
    requires IsComma(sep)
    ensures var v := ListText(es, sep); |v| >= 2 && v[0] == '[' && v[|v| - 1] == ']'
  {
    hide FlowText;
    if es != [] {
      PiecesText(es, "", sep);
      assert "" + EntriesText(es, sep, "") == EntriesText(es, sep, "");
    }
  }
}
