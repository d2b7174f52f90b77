/** One physical line of config.yaml: how the loader reads it and how the writer prints it. */
module ConfigLine {
  import opened Options
  import opened Text
  import opened Json
  import opened Scalar
  import opened Comment
  import FlowList
  import FlowEntries
  import Decimals

  datatype KeyLine =
    | Header(indent: nat, key: string)
    | Field(indent: nat, key: string, value: Value)

  /** What the loader makes of a line once its comment is gone. */
  function ReadKept(kept: string): (r: Maybe<KeyLine>) {
    var line := Trim(kept);
    var colon := IndexOf(line, ':');
    if colon <= 0 then Nothing
    else
      var indent := |kept| - |TrimStart(kept)|;
      var key := Trim(line[..colon]);
      var rest := line[colon + 1..];
      if Trim(rest) == "" then Just(Header(indent, key)) else Just(Field(indent, key, ScalarOf(rest)))
  }

  function ReadLine(rawLine: string): (r: Maybe<KeyLine>) {
    ReadKept(WithoutComment(rawLine))
  }

  // ---- what the writer prints ----

  function Pad(level: nat): (pad: string)
    ensures |pad| == 2 * level && forall i :: 0 <= i < |pad| ==> pad[i] == ' '
  {
    Repeat(' ', 2 * level)
  }

  /** A trailing comment: white space, `#` and any text; or nothing at all. */
  datatype Trail = NoTrail | Trail(ws: string, note: string) {
    predicate Valid() {
      Trail? ==> ws != "" && AllSpace(ws) && '\n' !in ws && '\n' !in note
    }

    function Text(): (r: string) {
      if NoTrail? then "" else ws + "#" + note
    }
  }

  function LeafLine(level: nat, key: string, leaf: Leaf, trail: Trail): (r: string) {
    Pad(level) + key + ":" + (" " + leaf.Print() + trail.Text())
  }

  function HeaderLine(level: nat, key: string, trail: Trail): (r: string) {
    Pad(level) + key + ":" + trail.Text()
  }

  /** No `#` where it would open a comment, given what stands before the text. */
  predicate NoCommentHash(s: string, afterSpace: bool) {
    && (s != "" && s[0] == '#' ==> !afterSpace)
    && forall i :: 1 <= i < |s| && s[i] == '#' ==> !IsSpace(s[i - 1])
  }

  predicate LegalKey(key: string) {
    key != "" && Trimmed(key) && ':' !in key && '\n' !in key && NoCommentHash(key, true)
  }

  predicate OneLine(leaf: Leaf) {
    leaf.LStr? ==> '\n' !in leaf.s
  }

  // ---- quotes a bare string may leave open ----

  predicate ClosesSingle(body: string)
    decreases |body|
  {
    body != "" &&
    if body[0] != '\'' then ClosesSingle(body[1..])
    else if |body| > 1 && body[1] == '\'' then ClosesSingle(body[2..])
    else true
  }

  predicate ClosesDouble(body: string)
    decreases |body|
  {
    body != "" &&
    if body[0] == '\\' && |body| > 1 then ClosesDouble(body[2..])
    else body[0] == '\"' || ClosesDouble(body[1..])
  }

  /** The writer leaves the string bare although it opens a quote that it never closes. */
  predicate LeavesQuoteOpen(leaf: Leaf) {
    leaf.LStr? && !NeedsQuotes(leaf.s) &&
    (|| (leaf.s[0] == '\'' && !ClosesSingle(leaf.s[1..]))
     || (leaf.s[0] == '\"' && !ClosesDouble(leaf.s[1..])))
  }

  /** A comment after the leaf is not read into it. */
  predicate TakesComment(leaf: Leaf, trail: Trail) {
    trail.Trail? ==> !LeavesQuoteOpen(leaf)
  }

  // ---- the scanner on the key part ----

  lemma {:induction false} KeptPlainAll(r: string, afterSpace: bool)
    requires NoCommentHash(r, afterSpace)
    ensures KeptPlain(r, afterSpace) == |r|
  {
    if r != "" {
      assert r[1..] != "" && r[1..][0] == '#' ==> r[1] == '#';
      forall i | 1 <= i < |r[1..]| && r[1..][i] == '#'
        ensures !IsSpace(r[1..][i - 1])
      {
        assert r[i + 1] == '#';
      }
      KeptPlainAll(r[1..], IsSpace(r[0]));
    }
  }

  lemma KeyPart(level: nat, key: string)
    requires LegalKey(key)
    ensures KeptPlain(Pad(level) + key + ":", true) == |Pad(level) + key + ":"|
  {
    var r := Pad(level) + key + ":";
    assert forall j :: 0 <= j < |Pad(level)| ==> r[j] == ' ';
    forall i | 0 <= i < |r| && r[i] == '#'
      ensures i != 0 && !IsSpace(r[i - 1])
    {
      var k := i - |Pad(level)|;
      assert 0 <= k < |key| && key[k] == '#';
      assert k != 0;
      assert r[i - 1] == key[k - 1];
    }
    KeptPlainAll(r, true);
  }

  lemma {:induction false} ColonAt(front: string, value: string)
    requires ':' !in front
    ensures IndexOf(front + ":" + value, ':') == |front|
  {
    var line := front + ":" + value;
    if front != "" {
      assert line[1..] == front[1..] + ":" + value;
      ColonAt(front[1..], value);
    }
  }

  /** The comment of a line with a legal key begins in its value part. */
  lemma StripKeyed(level: nat, key: string, value: string)
    requires LegalKey(key)
    ensures WithoutComment(Pad(level) + key + ":" + value)
         == Pad(level) + key + ":" + value[..KeptValue(value, false, VALUE_START)]
  {
    var front := Pad(level) + key;
    var line := front + ":" + value;
    ColonAt(front, value);
    KeyPart(level, key);
    var head := front + ":";
    assert line[..|front| + 1] == head && line[|front| + 1..] == value;
    var n := KeptValue(value, false, VALUE_START);
    assert line[..|front| + 1 + n] == head + value[..n];
  }

  // ---- the scanner on the value part ----

  /** Characters that mean something to the scanner outside quotes. */
  predicate Dull(s: string) {
    forall i :: 0 <= i < |s| ==> s[i] != '#' && s[i] != '[' && s[i] != ']' && s[i] != ','
  }

  lemma {:induction false} ScanDull(s: string, tail: string, a: bool)
    requires Dull(s) && FlowList.Detached(tail)
    ensures KeptValue(s + tail, a, Lexer(Plain, false, 0)) == |s| + KeptValue(tail, false, Lexer(Plain, false, 0))
  {
    if s == "" {
      assert s + tail == tail;
    } else {
      assert (s + tail)[1..] == s[1..] + tail;
      ScanDull(s[1..], tail, IsSpace(s[0]));
    }
  }

  lemma {:induction false} ScanClosingSingle(s: string, tail: string, a: bool)
    requires Dull(s) && FlowList.Detached(tail) && ClosesSingle(s)
    ensures KeptValue(s + tail, a, Lexer(Single, true, 0)) == |s| + KeptValue(tail, false, Lexer(Plain, false, 0))
    decreases |s|
  {
    var text := s + tail;
    assert text[1..] == s[1..] + tail;
    if s[0] != '\'' {
      ScanClosingSingle(s[1..], tail, IsSpace(s[0]));
    } else if |s| > 1 && s[1] == '\'' {
      assert text[2..] == s[2..] + tail;
      ScanClosingSingle(s[2..], tail, false);
    } else {
      ScanDull(s[1..], tail, false);
    }
  }

  lemma {:induction false} ScanClosingDouble(s: string, tail: string, a: bool)
    requires Dull(s) && FlowList.Detached(tail) && ClosesDouble(s)
    ensures KeptValue(s + tail, a, Lexer(Double, true, 0)) == |s| + KeptValue(tail, false, Lexer(Plain, false, 0))
    decreases |s|
  {
    var text := s + tail;
    assert text[1..] == s[1..] + tail;
    if s[0] == '\\' && |s| > 1 {
      assert text[2..] == s[2..] + tail;
      ScanClosingDouble(s[2..], tail, IsSpace(s[1]));
    } else if s[0] == '\"' {
      ScanDull(s[1..], tail, false);
    } else {
      ScanClosingDouble(s[1..], tail, IsSpace(s[0]));
    }
  }

  /** A bare text that closes every quote it opens. */
  lemma ScanBare(s: string, tail: string, a: bool)
    requires s != "" && !IsSpace(s[0]) && Dull(s) && FlowList.Detached(tail)
    requires s[0] == '\'' ==> ClosesSingle(s[1..])
    requires s[0] == '\"' ==> ClosesDouble(s[1..])
    ensures KeptValue(s + tail, a, VALUE_START) == |s| + KeptValue(tail, false, Lexer(Plain, false, 0))
  {
    assert (s + tail)[1..] == s[1..] + tail;
    if s[0] == '\'' {
      ScanClosingSingle(s[1..], tail, false);
    } else if s[0] == '\"' {
      ScanClosingDouble(s[1..], tail, false);
    } else {
      ScanDull(s[1..], tail, false);
    }
  }

  lemma {:induction false} NoHashKeepsAll(r: string, a: bool, st: Lexer)
    requires '#' !in r
    ensures KeptValue(r, a, st) == |r|
    decreases |r|
  {
    if r != "" {
      var t := TakeTurn(r[0], r[1..], a, st);
      NoHashKeepsAll(r[t.n..], t.afterSpace, t.st);
    }
  }

  lemma SkipOneSpace(r: string)
    ensures KeptValue(" " + r, false, VALUE_START) == 1 + KeptValue(r, true, VALUE_START)
  {
    DropFront(" ", r);
  }

  lemma {:induction false} ScanTrail(ws: string, note: string, a: bool)
    requires AllSpace(ws) && (ws != "" || a)
    ensures KeptValue(ws + "#" + note, a, Lexer(Plain, false, 0)) == |ws|
    ensures KeptValue(ws + "#" + note, a, VALUE_START) == |ws|
  {
    var r := ws + "#" + note;
    if ws != "" {
      assert r[1..] == ws[1..] + "#" + note;
      ScanTrail(ws[1..], note, true);
    }
  }

  lemma TrailIsDetached(trail: Trail)
    requires trail.Valid()
    ensures FlowList.Detached(trail.Text())
    ensures KeptValue(trail.Text(), false, Lexer(Plain, false, 0)) == if trail.NoTrail? then 0 else |trail.ws|
    ensures KeptValue(trail.Text(), false, VALUE_START) == if trail.NoTrail? then 0 else |trail.ws|
  {
    if trail.Trail? {
      ScanTrail(trail.ws, trail.note, false);
    }
  }

  lemma BareIsDull(s: string)
    requires !NeedsQuotes(s)
    ensures s != "" && Dull(s)
  {
  }

  lemma NumberIsDull(n: Decimals.Decimal)
    requires n.Valid()
    ensures Dull(n.Print()) && n.Print() != "" && !IsSpace(n.Print()[0]) && n.Print()[0] != '\'' && n.Print()[0] != '\"'
  {
    PrintIsTrimmed(n);
    Decimals.PrintChars(n);
  }

  /** The printed leaf is passed over whole and leaves the scanner outside quotes. */
  lemma ScanLeaf(leaf: Leaf, tail: string)
    requires leaf.Valid() && FlowList.Detached(tail)
    requires leaf.LStr? ==> ReadsBack(leaf) && !LeavesQuoteOpen(leaf)
    ensures KeptValue(leaf.Print() + tail, true, VALUE_START)
         == |leaf.Print()| + KeptValue(tail, false, Lexer(Plain, false, 0))
  {
    match leaf
    case LBool(b) => ScanBare(leaf.Print(), tail, true);
    case LNull => ScanBare(leaf.Print(), tail, true);
    case LNum(n) =>
      NumberIsDull(n);
      ScanBare(leaf.Print(), tail, true);
    case LStr(s) =>
      if NeedsQuotes(s) {
        FlowList.ScanEntry(FlowList.Entry(true, s), tail, true, 0);
      } else {
        BareIsDull(s);
        ScanBare(s, tail, true);
      }
    case LList(ss) =>
      FlowList.WriterList(ss);
      FlowList.ScanList(FlowList.AllDouble(ss), ",", tail, true);
  }

  /** The scanner stops at the end of the text or at a `#`. */
  lemma {:induction false} StopsAtHash(r: string, a: bool, st: Lexer)
    ensures var n := KeptValue(r, a, st); n < |r| ==> r[n] == '#'
    decreases |r|
  {
    if r != "" {
      var t := TakeTurn(r[0], r[1..], a, st);
      if t.Move? { StopsAtHash(r[t.n..], t.afterSpace, t.st); }
    }
  }

  /** What follows a text without `#` is kept from its own first `#` on, or not at all. */
  lemma StopsInTail(s: string, ws: string, note: string)
    requires '#' !in s && AllSpace(ws)
    ensures var r, n := " " + s + (ws + "#" + note), KeptValue(" " + s + (ws + "#" + note), false, VALUE_START);
            n >= 1 + |s| + |ws| && if n == 1 + |s| + |ws| then r[..n] == " " + s + ws else '#' in r[..n]
  {
    hide KeptValue, IsSpace;
    StopsAtHash(" " + s + (ws + "#" + note), false, VALUE_START);
    FirstHash(s, ws, note);
  }

  lemma FirstHash(s: string, ws: string, note: string)
    requires '#' !in s && AllSpace(ws)
    ensures var r, front := " " + s + (ws + "#" + note), " " + s + ws;
            && r[..|front|] == front && r[|front|] == '#'
            && (forall i | 0 <= i < |front| :: r[i] != '#')
            && (forall n | |front| < n <= |r| :: '#' in r[..n])
  {
    hide IsSpace;
    var r, front := " " + s + (ws + "#" + note), " " + s + ws;
    assert r == front + ("#" + note);
    HashIsNoSpace();
    assert forall i | 0 <= i < |front| :: r[i] == front[i] && front[i] != '#';
    forall n | |front| < n <= |r| ensures '#' in r[..n] { assert r[..n][|front|] == '#'; }
  }

  lemma HashIsNoSpace()
    ensures !IsSpace('#')
  {
  }

  // ---- values without quotes ----

  /** Outside quotes and brackets a comment begins at the first `#` after white space: a comma re-arms nothing, and
      neither does a quote mark inside the text. */
  lemma {:induction false} UnquotedScan(r: string, a: bool)
    requires '[' !in r
    ensures KeptValue(r, a, Lexer(Plain, false, 0)) == KeptPlain(r, a)
  {
    if r != "" { UnquotedScan(r[1..], IsSpace(r[0])); }
  }

  /** So for a whole value that does not start with a quote mark. */
  lemma {:induction false} UnquotedValue(value: string, a: bool)
    requires '[' !in value
    requires var t := TrimStart(value); t != "" ==> t[0] != '\'' && t[0] != '\"'
    ensures KeptValue(value, a, VALUE_START) == KeptPlain(value, a)
  {
    if value != "" {
      if IsSpace(value[0]) {
        UnquotedValue(value[1..], true);
      } else {
        UnquotedScan(value[1..], false);
      }
    }
  }

  // ---- reading a keyed line ----

  lemma TrimEndAfterColon(t: string)
    ensures TrimEnd(":" + t) == if AllSpace(t) then ":" else ":" + TrimEnd(t)
  {
    if AllSpace(t) {
      TrimEndSkips(":", t);
    } else {
      TrimEndKeepsHead(":", t);
    }
  }

  lemma TrimOfTrimEnd(t: string)
    ensures Trim(TrimEnd(t)) == Trim(t)
  {
    var after := TrimEndCut(t);
    TrimAround("", TrimEnd(t), after);
    assert "" + TrimEnd(t) + after == t;
  }

  /** What a kept line reads as, as people may type it: the key at the depth of the white space before it, with the
      scalar after the colon, or as a header when nothing but white space follows. White space around the key and the
      colon is dropped. */
  lemma ReadKeyLine(ws: string, key: string, gap: string, t: string)
    requires AllSpace(ws) && AllSpace(gap) && key != "" && Trimmed(key) && ':' !in key
    ensures ReadKept(ws + (key + gap + ":" + t))
         == Just(if Trim(t) == "" then Header(|ws|, key) else Field(|ws|, key, ScalarOf(t)))
  {
    hide TrimStart, TrimEnd, IsSpace, ScalarOf, Trim, ReadKept;
    var front := key + gap;
    NoColonInBlank(gap);
    var rest := KeyedTrim(ws, front, t);
    KeptReads(ws + (front + ":" + t), front, rest, |ws|);
    TrimBetween("", key, gap);
    assert "" + key + gap == front;
    SameScalar(rest, t);
  }

  lemma KeptReads(kept: string, front: string, rest: string, indent: nat)
    requires Trim(kept) == front + ":" + rest && front != "" && ':' !in front
    requires |kept| - |TrimStart(kept)| == indent
    ensures ReadKept(kept) == Just(if Trim(rest) == "" then Header(indent, Trim(front))
                                   else Field(indent, Trim(front), ScalarOf(rest)))
  {
    hide TrimStart, TrimEnd, Trim, IndexOf, ScalarOf;
    ColonAt(front, rest);
    KeyApart(front, rest);
  }

  lemma NoColonInBlank(gap: string)
    requires AllSpace(gap)
    ensures ':' !in gap
  {
    ColonIsNoSpace();
  }

  /** A line without a colon, or with nothing before it, is no key line. */
  lemma NoKeyLine(kept: string)
    requires ':' !in kept || (Trim(kept) != "" && Trim(kept)[0] == ':')
    ensures ReadKept(kept) == Nothing
  {
    hide TrimStart, TrimEnd;
    var before, after := TrimDecompose(kept);
  }

  lemma ReadKeyed(level: nat, key: string, t: string)
    requires LegalKey(key)
    ensures ReadKept(Pad(level) + key + ":" + t)
         == Just(if Trim(t) == "" then Header(2 * level, key) else Field(2 * level, key, ScalarOf(t)))
  {
    hide ReadKept, Trim, ScalarOf, Pad;
    PadIsSpace(level);
    NothingIsBlank();
    ReadKeyLine(Pad(level), key, "", t);
    assert key + "" == key && Pad(level) + (key + ":" + t) == Pad(level) + key + ":" + t;
  }

  lemma NothingIsBlank()
    ensures AllSpace("")
  {
  }

  lemma KeyApart(key: string, rest: string)
    ensures var line := key + ":" + rest;
            |line| > |key| && line[..|key|] == key && line[|key| + 1..] == rest
  {
  }

  /** The kept line without the white space around it. */
  lemma KeyedTrim(ws: string, front: string, t: string) returns (rest: string)
    requires AllSpace(ws) && front != "" && !IsSpace(front[0])
    ensures var kept := ws + (front + ":" + t);
            Trim(kept) == front + ":" + rest && |kept| - |TrimStart(kept)| == |ws| && Trim(rest) == Trim(t)
  {
    hide TrimStart, TrimEnd, IsSpace;
    var body := front + (":" + t);
    assert front + ":" + t == body;
    TrimStartSkips(ws, body);
    NoLeadingSpace(body);
    TrimEndOfBody(front, t);
    rest := if AllSpace(t) then "" else TrimEnd(t);
    TrimEmptyIff(t);
    TrimEmptyIff("");
    TrimOfTrimEnd(t);
  }

  lemma PadIsSpace(level: nat)
    ensures AllSpace(Pad(level)) && |Pad(level)| == 2 * level
  {
    SpaceIsSpace();
  }

  lemma TrimEndOfBody(key: string, t: string)
    ensures TrimEnd(key + (":" + t)) == key + ":" + if AllSpace(t) then "" else TrimEnd(t)
  {
    hide TrimEnd, IsSpace;
    ColonIsNoSpace();
    assert (":" + t)[0] == ':';
    TrimEndKeepsHead(key, ":" + t);
    TrimEndAfterColon(t);
  }

  lemma SpaceIsSpace()
    ensures IsSpace(' ')
  {
  }

  lemma ColonIsNoSpace()
    ensures !IsSpace(':')
  {
  }

  lemma NoLeadingSpace(s: string)
    requires s != "" && !IsSpace(s[0])
    ensures TrimStart(s) == s
  {
  }

  /** A scalar is read from its trimmed text alone. */
  lemma SameScalar(a: string, b: string)
    requires Trim(a) == Trim(b)
    ensures ScalarOf(a) == ScalarOf(b)
  {
    hide TrimStart, TrimEnd;
  }

  // ---- whole lines ----

  /** What the comment scanner leaves of a leaf's line after the colon. */
  function KeptText(leaf: Leaf, trail: Trail): (kept: string) {
    var value := " " + leaf.Print() + trail.Text();
    value[..KeptValue(value, false, VALUE_START)]
  }

  /** What a leaf's line reads as: a key line with the scalar of what is kept, or a header if that is blank. */
  function Reading(level: nat, key: string, leaf: Leaf, trail: Trail): (l: KeyLine) {
    var kept := KeptText(leaf, trail);
    if Trim(kept) == "" then Header(2 * level, key) else Field(2 * level, key, ScalarOf(kept))
  }

  lemma ReadLeafLine(level: nat, key: string, leaf: Leaf, trail: Trail)
    requires LegalKey(key)
    ensures ReadLine(LeafLine(level, key, leaf, trail)) == Just(Reading(level, key, leaf, trail))
  {
    hide WithoutComment, ReadKept, TrimStart, TrimEnd, ScalarOf, KeptValue;
    StripKeyed(level, key, " " + leaf.Print() + trail.Text());
    ReadKeyed(level, key, KeptText(leaf, trail));
  }

  lemma ReadHeaderLine(level: nat, key: string, trail: Trail)
    requires LegalKey(key) && trail.Valid()
    ensures ReadLine(HeaderLine(level, key, trail)) == Just(Header(2 * level, key))
  {
    hide WithoutComment, ReadKept, TrimStart, TrimEnd, ScalarOf, KeptValue;
    var ws := if trail.NoTrail? then "" else trail.ws;
    TrailIsDetached(trail);
    StripKeyed(level, key, trail.Text());
    assert trail.Text()[..|ws|] == ws;
    ReadKeyed(level, key, ws);
    TrimEmptyIff(ws);
  }

  /** A line with a flow sequence as people type it, bare entries and apostrophes included, and any comment after it:
      the sequence alone is read. */
  lemma ReadListLine(level: nat, key: string, ps: seq<FlowEntries.Piece>, trail: Trail)
    requires LegalKey(key) && trail.Valid()
    requires ps != [] && forall piece <- ps :: piece.Valid() && FlowEntries.Quiet(piece)
    ensures var v := "[" + FlowEntries.FlowText(ps) + "]";
            ReadLine(Pad(level) + key + ":" + (" " + v + trail.Text())) == Just(Field(2 * level, key, ScalarOf(v)))
  {
    hide WithoutComment, ReadKept, TrimStart, TrimEnd, Trim, ScalarOf, KeptValue, IsSpace;
    var v, ws := "[" + FlowEntries.FlowText(ps) + "]", if trail.NoTrail? then "" else trail.ws;
    var value := " " + v + trail.Text();
    FlowEntries.MixedListKept(ps, trail.Text(), true);
    TrailIsDetached(trail);
    assert value == " " + (v + trail.Text());
    SkipOneSpace(v + trail.Text());
    assert value[..1 + |v| + |ws|] == " " + v + ws;
    StripKeyed(level, key, value);
    ReadKeyed(level, key, " " + v + ws);
    SpaceIsSpace();
    TrimAround(" ", v, ws);
    SameScalar(" " + v + ws, v);
    BracketedIsText(v);
  }

  lemma BracketedIsText(v: string)
    requires v != "" && v[0] == '['
    ensures Trim(v) != ""
  {
    TrimEmptyIff(v);
  }

  // ---- when a leaf's line reads as the leaf ----

  /** The comment is cut off and the leaf is left. */
  predicate KeepsLeaf(leaf: Leaf, trail: Trail) {
    KeptText(leaf, trail) == " " + leaf.Print() + if trail.NoTrail? then "" else trail.ws
  }

  lemma LeafIsKept(leaf: Leaf, trail: Trail)
    requires leaf.Valid() && trail.Valid() && (leaf.LStr? && trail.Trail? ==> ReadsBack(leaf) && !LeavesQuoteOpen(leaf))
    ensures KeepsLeaf(leaf, trail)
  {
    hide KeptValue, LeavesQuoteOpen, ReadsBack;
    var p, t := leaf.Print(), trail.Text();
    var value := " " + p + t;
    if leaf.LStr? && trail.NoTrail? {
      StringIsKept(leaf.s);
      assert value == " " + p;
      assert value[..|value|] == value;
    } else {
      TrailIsDetached(trail);
      ScanLeaf(leaf, t);
      assert value == " " + (p + t);
      SkipOneSpace(p + t);
      var ws := if trail.NoTrail? then "" else trail.ws;
      assert value[..1 + |p| + |ws|] == " " + p + ws;
    }
  }

  /** With nothing after it, every printed string is kept whole, whether or not it reads back. */
  lemma StringIsKept(s: string)
    ensures KeptValue(" " + YamlString(s), false, VALUE_START) == 1 + |YamlString(s)|
  {
    var p := YamlString(s);
    if NeedsQuotes(s) {
      assert p + "" == p;
      ScanLeaf(LStr(s), "");
      SkipOneSpace(p);
    } else {
      BareIsDull(s);
      NoHashKeepsAll(" " + p, false, VALUE_START);
    }
  }

  lemma KeptLeafReads(level: nat, key: string, leaf: Leaf, trail: Trail)
    requires leaf.Valid() && trail.Valid() && KeepsLeaf(leaf, trail)
    ensures Reading(level, key, leaf, trail) == Field(2 * level, key, leaf.Value()) <==> ReadsBack(leaf)
  {
    hide TrimStart, TrimEnd, KeptValue, ScalarOf;
    var p, ws := leaf.Print(), if trail.NoTrail? then "" else trail.ws;
    SpaceIsSpace();
    TrimAround(" ", p, ws);
    SameScalar(" " + p + ws, p);
    LeafRoundTrip(leaf);
    BlankScalar(p);
  }

  lemma BlankScalar(p: string)
    ensures ScalarOf(p) == Undefined <==> Trim(p) == ""
  {
  }

  /** A text with a `#` in it never reads as a string without one. */
  lemma HashStays(raw: string)
    requires '#' in raw
    ensures Trim(raw) != "" && (ScalarOf(raw).Str? ==> '#' in ScalarOf(raw).s)
  {
    hide TrimStart, TrimEnd;
    HashIsNoSpace();
    HashInTrimmed(raw);
    var v := Trim(raw);
    if QuotedBy(v, '\'') || QuotedBy(v, '\"') {
      var i :| 0 <= i < |v| && v[i] == '#';
      assert i != 0 && i != |v| - 1;
      assert Inner(v)[i - 1] == '#';
      UndoubledHash(Inner(v));
      UnescapedHash(Inner(v));
    }
  }

  lemma HashInTrimmed(raw: string)
    requires '#' in raw
    ensures '#' in Trim(raw)
  {
    var before, after := TrimDecompose(raw);
    HashIsNoSpace();
  }

  lemma {:induction false} UndoubledHash(s: string)
    requires '#' in s
    ensures '#' in Undoubled(s)
    decreases |s|
  {
    if s[0] == '\'' && |s| > 1 && s[1] == '\'' {
      assert s == s[..2] + s[2..];
      UndoubledHash(s[2..]);
    } else if s[0] != '#' {
      UndoubledHash(s[1..]);
    }
  }

  lemma {:induction false} UnescapedHash(s: string)
    requires '#' in s
    ensures '#' in Unescaped(s)
    decreases |s|
  {
    if s[0] == '\\' && |s| > 1 {
      assert s == s[..2] + s[2..];
      if s[1] != '#' { UnescapedHash(s[2..]); }
    } else if s[0] != '#' {
      UnescapedHash(s[1..]);
    }
  }

  /** Printed, followed by any comment and read again, a leaf gives itself exactly when it reads back and, if
      there is a comment, leaves no quote open; otherwise another value or, for a blank string, a header. */
  lemma ReadingIsExact(level: nat, key: string, leaf: Leaf, trail: Trail)
    requires leaf.Valid() && trail.Valid()
    ensures Reading(level, key, leaf, trail) == Field(2 * level, key, leaf.Value())
       <==> ReadsBack(leaf) && TakesComment(leaf, trail)
  {
    hide TrimStart, TrimEnd, KeptValue, ScalarOf, LeavesQuoteOpen, ReadsBack;
    if !leaf.LStr? || trail.NoTrail? || (ReadsBack(leaf) && !LeavesQuoteOpen(leaf)) {
      LeafIsKept(leaf, trail);
      KeptLeafReads(level, key, leaf, trail);
      OnlyStringsOpen(leaf);
    } else {
      CommentAfterString(level, key, leaf, trail);
    }
  }

  lemma OnlyStringsOpen(leaf: Leaf)
    ensures LeavesQuoteOpen(leaf) ==> leaf.LStr?
  {
  }

  lemma CommentAfterString(level: nat, key: string, leaf: Leaf, trail: Trail)
    requires leaf.LStr? && trail.Valid() && trail.Trail? && (ReadsBack(leaf) ==> LeavesQuoteOpen(leaf))
    ensures Reading(level, key, leaf, trail) != Field(2 * level, key, leaf.Value())
  {
    hide TrimStart, TrimEnd, KeptValue, ScalarOf;
    var s := leaf.s;
    assert !NeedsQuotes(s);
    BareIsDull(s);
    StopsInTail(s, trail.ws, trail.note);
    if KeepsLeaf(leaf, trail) {
      KeptLeafReads(level, key, leaf, trail);
      if LeavesQuoteOpen(leaf) { OpenQuoteKeeps(s, trail.ws, trail.note); }
    } else {
      HashStays(KeptText(leaf, trail));
    }
  }

  // ---- comments that are swallowed ----

  lemma {:induction false} QuotedTailKept(ws: string, note: string, a: bool, st: Lexer)
    requires AllSpace(ws) && !st.mode.Plain?
    ensures KeptValue(ws + "#" + note, a, st) >= |ws| + 1
  {
    hide IsSpace;
    var r := ws + "#" + note;
    if ws != "" {
      assert r[0] == ws[0] && r[1..] == ws[1..] + "#" + note;
      SpaceIsNoMark(ws[0]);
      assert AllSpace(ws[1..]);
      QuotedTailKept(ws[1..], note, IsSpace(ws[0]), st);
    }
  }

  lemma SpaceIsNoMark(c: char)
    ensures IsSpace(c) ==> c != '\'' && c != '\"' && c != '\\'
  {
  }

  lemma {:induction false} OpenSingleKeeps(s: string, ws: string, note: string, a: bool)
    requires !ClosesSingle(s) && AllSpace(ws) && ws != ""
    ensures KeptValue(s + (ws + "#" + note), a, Lexer(Single, true, 0)) >= |s| + |ws| + 1
    decreases |s|
  {
    var tail := ws + "#" + note;
    var text := s + tail;
    if s == "" {
      assert text == tail;
      QuotedTailKept(ws, note, a, Lexer(Single, true, 0));
    } else {
      assert text[1..] == s[1..] + tail;
      if s[0] != '\'' {
        OpenSingleKeeps(s[1..], ws, note, IsSpace(s[0]));
      } else {
        assert text[2..] == s[2..] + tail;
        OpenSingleKeeps(s[2..], ws, note, false);
      }
    }
  }

  lemma {:induction false} OpenDoubleKeeps(s: string, ws: string, note: string, a: bool)
    requires !ClosesDouble(s) && AllSpace(ws) && ws != ""
    ensures KeptValue(s + (ws + "#" + note), a, Lexer(Double, true, 0)) >= |s| + |ws| + 1
    decreases |s|
  {
    var tail := ws + "#" + note;
    var text := s + tail;
    if s == "" {
      assert text == tail;
      QuotedTailKept(ws, note, a, Lexer(Double, true, 0));
    } else if s == "\\" {
      assert text[2..] == ws[1..] + "#" + note;
      QuotedTailKept(ws[1..], note, IsSpace(ws[0]), Lexer(Double, true, 0));
    } else {
      assert text[1..] == s[1..] + tail;
      if s[0] == '\\' {
        assert text[2..] == s[2..] + tail;
        OpenDoubleKeeps(s[2..], ws, note, IsSpace(s[1]));
      } else {
        OpenDoubleKeeps(s[1..], ws, note, IsSpace(s[0]));
      }
    }
  }

  lemma OpenQuoteKeeps(s: string, ws: string, note: string)
    requires s != "" && ((s[0] == '\'' && !ClosesSingle(s[1..])) || (s[0] == '\"' && !ClosesDouble(s[1..])))
    requires AllSpace(ws) && ws != ""
    ensures KeptValue(" " + s + (ws + "#" + note), false, VALUE_START) >= |s| + |ws| + 2
  {
    hide KeptValue, ClosesSingle, ClosesDouble, IsSpace;
    var rest := s[1..] + (ws + "#" + note);
    FirstApart(s, ws + "#" + note);
    SkipOneSpace([s[0]] + rest);
    OpeningQuote(s[0], rest);
    if s[0] == '\'' { OpenSingleKeeps(s[1..], ws, note, false); } else { OpenDoubleKeeps(s[1..], ws, note, false); }
  }

  lemma FirstApart(s: string, tail: string)
    requires s != ""
    ensures " " + s + tail == " " + ([s[0]] + (s[1..] + tail))
  {
  }

  lemma OpeningQuote(q: char, rest: string)
    requires q == '\'' || q == '\"'
    ensures KeptValue([q] + rest, true, VALUE_START)
         == 1 + KeptValue(rest, false, Lexer(if q == '\'' then Single else Double, true, 0))
  {
    assert ([q] + rest)[1..] == rest;
  }

  lemma QuoteIsString(raw: string)
    requires var v := Trim(raw); v != "" && (v[0] == '\'' || v[0] == '\"')
    ensures ScalarOf(raw).Str?
  {
    hide TrimStart, TrimEnd, Undoubled, Unescaped;
    var v := Trim(raw);
    assert v != "true" && v != "false" && v != "null" && v != "~";
  }

  /** Any comment after a bare string with an open quote is read into the string, `#` and all. */
  lemma CommentSwallowed(level: nat, key: string, leaf: Leaf, trail: Trail)
    requires LegalKey(key) && LeavesQuoteOpen(leaf) && trail.Valid() && trail.Trail?
    ensures var read := ReadLine(LeafLine(level, key, leaf, trail));
            && read.Just? && read.value.Field? && read.value.indent == 2 * level && read.value.key == key
            && read.value.value.Str? && '#' in read.value.value.s && '#' !in leaf.s
  {
    hide TrimStart, TrimEnd, Trim, KeptText, ScalarOf, ReadLine, ClosesSingle, ClosesDouble;
    BareIsDull(leaf.s);
    var rest := OpenQuoteKept(leaf, trail);
    ReadLeafLine(level, key, leaf, trail);
    HashStays(KeptText(leaf, trail));
    QuoteComesFirst(leaf.s, rest);
    QuoteIsString(KeptText(leaf, trail));
  }

  lemma OpenQuoteKept(leaf: Leaf, trail: Trail) returns (rest: string)
    requires LeavesQuoteOpen(leaf) && trail.Valid() && trail.Trail?
    ensures KeptText(leaf, trail) == " " + (leaf.s + rest) && '#' in KeptText(leaf, trail)
  {
    hide KeptValue, ClosesSingle, ClosesDouble, IsSpace;
    var s, kept := leaf.s, KeptText(leaf, trail);
    BareIsDull(s);
    StopsInTail(s, trail.ws, trail.note);
    OpenQuoteKeeps(s, trail.ws, trail.note);
    rest := kept[1 + |s|..];
  }

  lemma QuoteComesFirst(s: string, rest: string)
    requires s != "" && (s[0] == '\'' || s[0] == '\"')
    ensures Trim(" " + (s + rest)) != "" && Trim(" " + (s + rest))[0] == s[0]
  {
    hide TrimStart, TrimEnd, IsSpace;
    QuoteIsNoSpace();
    SpaceIsSpace();
    TrimStartSkips(" ", s + rest);
    NoLeadingSpace(s + rest);
    var after := TrimEndCut(s + rest);
    assert (s + rest)[0] == s[0];
  }

  lemma QuoteIsNoSpace()
    ensures !IsSpace('\'') && !IsSpace('\"')
  {
  }

  /** A string that reads back only as long as no comment follows it. */
  lemma OpenQuoteInput()
    ensures var leaf := LStr("'a");
            leaf.Valid() && ReadsBack(leaf) && LeavesQuoteOpen(leaf)
  {
    var s := "'a";
    assert s[1..] == "a" && "a"[1..] == "";
    assert Lowered(s)[0] == '\'';
    assert forall i | 0 <= i < |s| :: !IsSpecial(s[i]);
  }

  /** A leaf's line reads as the leaf whatever comment follows, exactly when the leaf reads back and the writer
      did not leave a quote open in it. */
  lemma CommentTransparency(level: nat, key: string, leaf: Leaf)
    requires LegalKey(key) && leaf.Valid()
    ensures (forall trail: Trail | trail.Valid() ::
              ReadLine(LeafLine(level, key, leaf, trail)) == Just(Field(2 * level, key, leaf.Value())))
       <==> ReadsBack(leaf) && !LeavesQuoteOpen(leaf)
  {
    hide ReadLine, LeafLine, LeavesQuoteOpen, ReadsBack, Reading;
    SpaceIsSpace();
    var some := Trail(" ", "");
    assert some.Valid();
    ReadLeafLine(level, key, leaf, some);
    ReadingIsExact(level, key, leaf, some);
    if ReadsBack(leaf) && !LeavesQuoteOpen(leaf) {
      forall trail: Trail | trail.Valid()
        ensures ReadLine(LeafLine(level, key, leaf, trail)) == Just(Field(2 * level, key, leaf.Value()))
      {
        ReadLeafLine(level, key, leaf, trail);
        ReadingIsExact(level, key, leaf, trail);
      }
    }
  }
}
