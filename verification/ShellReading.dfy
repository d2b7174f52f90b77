/** The exports src/config/persist-envs.ts writes, as a POSIX shell reads them. */
module ShellReading {
  import opened Options
  import opened Text
  import opened Replacement
  import opened PersistEnvs

  datatype Word = Word(value: string, rest: string)

  /** A character that stands for itself outside quotes. */
  predicate Ordinary(c: char) {
    IsDigit(c) || c in {'_', '-', '.', '/', ':', ',', '+', '@', '%'} || 'a' <= c <= 'z' || 'A' <= c <= 'Z'
  }

  /** A word of the Shell Command Language with the quoting of its sections 2.2.1 (backslash) and 2.2.2 (single
      quotes), up to a blank or a line break; nothing when it needs any other rule. */
  function ReadWord(s: string): (w: Maybe<Word>)
    ensures w.Just? ==> |w.value.rest| <= |s|
    decreases |s|
  {
    if s == "" || s[0] in {' ', '\t', '\n'} then Just(Word("", s))
    else if s[0] == '\'' then
      var close := IndexOf(s[1..], '\'');
      if close < 0 then Nothing else Prefixed(s[1..][..close], ReadWord(s[1..][close + 1..]))
    else if s[0] == '\\' then
      if |s| < 2 then Nothing
      else if s[1] == '\n' then ReadWord(s[2..])
      else Prefixed([s[1]], ReadWord(s[2..]))
    else if Ordinary(s[0]) then Prefixed([s[0]], ReadWord(s[1..]))
    else Nothing
  }

  function Prefixed(head: string, w: Maybe<Word>): (r: Maybe<Word>)
    ensures r.Just? <==> w.Just?
    ensures r.Just? ==> r.value.rest == w.value.rest
  {
    if w.Just? then Just(Word(head + w.value.value, w.value.rest)) else Nothing
  }

  /** A script of comments and exports, line by line. */
  function ReadExports(s: string): (r: Maybe<seq<Var>>)
    decreases |s|
  {
    if s == "" then Just([])
    else if s[0] == '#' then
      var end := IndexOf(s, '\n');
      if end < 0 then Just([]) else ReadExports(s[end + 1..])
    else if |s| >= 7 && s[..7] == "export " then
      var eq := IndexOf(s[7..], '=');
      if eq < 0 || !LegalKey(s[7..][..eq]) then Nothing
      else
        match ReadWord(s[7..][eq + 1..])
        case Nothing => Nothing
        case Just(w) =>
          if w.rest == "" then Just([Var(s[7..][..eq], w.value)])
          else if w.rest[0] != '\n' then Nothing
          else
            match ReadExports(w.rest[1..])
            case Nothing => Nothing
            case Just(more) => Just([Var(s[7..][..eq], w.value)] + more)
    else Nothing
  }

  lemma IndexOfSkips(c: char, s: string, q: char)
    requires c != q
    ensures IndexOf([c] + s, q) == if IndexOf(s, q) < 0 then -1 else IndexOf(s, q) + 1
  {
    assert ([c] + s)[1..] == s;
  }

  lemma {:induction false} IndexOfAfter(pre: string, c: char, post: string)
    requires c !in pre
    ensures IndexOf(pre + [c] + post, c) == |pre|
  {
    if pre == "" {
      assert (pre + [c] + post)[0] == c;
    } else {
      assert pre[0] in pre && forall d | d in pre[1..] :: d in pre;
      IndexOfAfter(pre[1..], c, post);
      assert pre + [c] + post == [pre[0]] + (pre[1..] + [c] + post);
      IndexOfSkips(pre[0], pre[1..] + [c] + post, c);
    }
  }

  /** Reading on from inside a single-quoted stretch. */
  function Inside(s: string): (r: Maybe<Word>) {
    ReadWord("'" + s)
  }

  lemma InsidePlain(c: char, s: string)
    requires c != '\''
    ensures Inside([c] + s) == Prefixed([c], Inside(s))
  {
    hide ReadWord, IndexOf;
    QuoteOpens([c] + s);
    QuoteOpens(s);
    IndexOfSkips(c, s, '\'');
    var i := IndexOf(s, '\'');
    if i >= 0 {
      assert ([c] + s)[..i + 1] == [c] + s[..i] && ([c] + s)[i + 2..] == s[i + 1..];
      PrefixedTwice([c], s[..i], ReadWord(s[i + 1..]));
    }
  }

  lemma PrefixedTwice(a: string, b: string, w: Maybe<Word>)
    ensures Prefixed(a, Prefixed(b, w)) == Prefixed(a + b, w)
  {
    if w.Just? { assert a + (b + w.value.value) == a + b + w.value.value; }
  }

  lemma QuoteOpens(s: string)
    ensures var close := IndexOf(s, '\'');
            Inside(s) == if close < 0 then Nothing else Prefixed(s[..close], ReadWord(s[close + 1..]))
  {
    assert ("'" + s)[1..] == s;
  }

  /** The four characters that stand for a quote: close, escaped quote, open again. */
  lemma InsideQuote(s: string)
    ensures Inside("'\\''" + s) == Prefixed("'", Inside(s))
  {
    hide ReadWord;
    var t := "\\''" + s;
    assert "'\\''" + s == "" + ['\''] + t;
    IndexOfAfter("", '\'', t);
    QuoteOpens("'\\''" + s);
    assert ("'\\''" + s)[1..] == t;
    BackslashQuote("'" + s);
    assert t == "\\'" + ("'" + s);
    PrefixedTwice("", "'", Inside(s));
    assert "" + "'" == "'";
  }

  lemma BackslashQuote(s: string)
    ensures ReadWord("\\'" + s) == Prefixed("'", ReadWord(s))
  {
    assert ("\\'" + s)[2..] == s;
  }

  /** A shell reads a quoted value back exactly, whatever the value. */
  lemma {:induction false} QuotedReadsBack(v: string, rest: string)
    requires rest == "" || rest[0] == '\n'
    ensures ReadWord("'" + (Quoted(v) + "'" + rest)) == Just(Word(v, rest))
  {
    hide ReadWord, Quoted;
    QuotedFirst(v, rest);
    if v == "" {
      QuotedEmpty();
      assert Quoted(v) + "'" + rest == "'" + rest;
      QuoteCloses(rest);
    } else {
      QuotedReadsBack(v[1..], rest);
      var t := Quoted(v[1..]) + "'" + rest;
      if v[0] == '\'' { InsideQuote(t); } else { InsidePlain(v[0], t); }
      assert [v[0]] + v[1..] == v;
    }
  }

  lemma QuoteCloses(rest: string)
    requires rest == "" || rest[0] == '\n'
    ensures Inside("'" + rest) == Just(Word("", rest))
  {
    hide ReadWord;
    assert "'" + rest == "" + ['\''] + rest;
    IndexOfAfter("", '\'', rest);
    QuoteOpens("'" + rest);
    assert ("'" + rest)[1..] == rest && ("'" + rest)[..0] == "";
    WordStops(rest);
    assert "" + "" == "";
  }

  lemma WordStops(rest: string)
    requires rest == "" || rest[0] == '\n'
    ensures ReadWord(rest) == Just(Word("", rest))
  {
  }

  lemma {:induction false} LinesReadBack(vars: seq<Var>)
    requires LegalKeys(vars)
    ensures ReadExports(ExportLines(vars) + MARKER_END) == Just(vars)
  {
    hide ReadWord, Quoted, LegalKey, Head, ReadExports, IndexOf, ExportLines;
    if vars == [] {
      NoLines(MARKER_END);
      EndReads();
    } else {
      var v, more := vars[0], ExportLines(vars[1..]) + MARKER_END;
      assert v in vars && forall w <- vars[1..] :: w in vars;
      LinesReadBack(vars[1..]);
      LineShape(vars, MARKER_END);
      OneLineReads(v, more);
      assert vars == [v] + vars[1..];
    }
  }

  lemma NoLines(rest: string)
    ensures ExportLines([]) + rest == rest
  {
  }

  lemma EndReads()
    ensures ReadExports(MARKER_END) == Just([])
  {
    EndMarker();
    assert IndexOf(MARKER_END, '\n') < 0;
  }

  lemma OneLineReads(v: Var, more: string)
    requires LegalKey(v.key)
    ensures ReadExports(Head(v.key) + (Quoted(v.value) + "'" + ("\n" + more)))
         == match ReadExports(more) { case Nothing => Nothing case Just(vs) => Just([v] + vs) }
  {
    hide ReadWord, Quoted, IndexOf;
    var q := Quoted(v.value) + "'" + ("\n" + more);
    HeadShape(v.key, q);
    QuotedReadsBack(v.value, "\n" + more);
    assert ("\n" + more)[1..] == more;
  }

  lemma HeadShape(key: string, q: string)
    requires LegalKey(key)
    ensures var s := Head(key) + q;
            && |s| >= 7 && s[0] == 'e' && s[..7] == "export "
            && IndexOf(s[7..], '=') == |key| && s[7..][..|key|] == key && s[7..][|key| + 1..] == "'" + q
  {
    var s := Head(key) + q;
    assert s == "export " + (key + ['='] + ("'" + q));
    assert s[7..] == key + ['='] + ("'" + q);
    IndexOfAfter(key, '=', "'" + q);
  }

  /** A shell that sources the block sets every variable to exactly its value. */
  lemma BlockReadsBack(vars: seq<Var>)
    requires LegalKeys(vars)
    ensures ReadExports(Block(vars)) == Just(vars)
  {
    hide ExportLines, LegalKeys;
    LinesReadBack(vars);
    EndMarker();
    var rest := ExportLines(vars) + MARKER_END;
    assert Block(vars) == MARKER_BEGIN + ['\n'] + rest;
    IndexOfAfter(MARKER_BEGIN, '\n', rest);
    assert Block(vars)[|MARKER_BEGIN| + 1..] == rest;
  }

  // ---- reading loses dollars, never gains them ----

  function Dollars(vars: seq<Var>): (r: nat) {
    if vars == [] then 0 else Count('$', vars[0].value) + Dollars(vars[1..])
  }

  lemma CountCut(s: string, n: nat)
    requires n <= |s|
    ensures Count('$', s) == Count('$', s[..n]) + Count('$', s[n..])
  {
    assert s == s[..n] + s[n..];
    CountJoin('$', s[..n], s[n..]);
  }

  lemma {:induction false} WordDollars(s: string)
    requires ReadWord(s).Just?
    ensures Count('$', ReadWord(s).value.value) + Count('$', ReadWord(s).value.rest) <= Count('$', s)
    decreases |s|
  {
    hide Count, IndexOf, Ordinary;
    if s == "" || s[0] in {' ', '\t', '\n'} {
      CountNone();
    } else if s[0] == '\'' {
      var close := IndexOf(s[1..], '\'');
      CountCut(s, 1);
      CountCut(s[1..], close);
      CountCut(s[1..][close..], 1);
      assert s[1..][close..][1..] == s[1..][close + 1..];
      WordDollars(s[1..][close + 1..]);
      CountJoin('$', s[1..][..close], ReadWord(s[1..][close + 1..]).value.value);
    } else if s[0] == '\\' && s[1] == '\n' {
      CountCut(s, 2);
      WordDollars(s[2..]);
    } else {
      var n := if s[0] == '\\' then 2 else 1;
      CountCut(s, n);
      CountCut(s[..n], n - 1);
      assert s[..n][n - 1..] == [s[n - 1]];
      WordDollars(s[n..]);
      CountJoin('$', [s[n - 1]], ReadWord(s[n..]).value.value);
    }
  }

  lemma CountNone()
    ensures Count('$', "") == 0
  {
  }

  lemma {:induction false} ExportDollars(s: string)
    requires ReadExports(s).Just?
    ensures Dollars(ReadExports(s).value) <= Count('$', s)
    decreases |s|
  {
    hide Count, IndexOf, LegalKey, ReadWord;
    if s == "" {
    } else if s[0] == '#' {
      var end := IndexOf(s, '\n');
      if end >= 0 {
        CountCut(s, end + 1);
        ExportDollars(s[end + 1..]);
      }
    } else {
      var eq := IndexOf(s[7..], '=');
      var q := s[7..][eq + 1..];
      CountCut(s, 7);
      CountCut(s[7..], eq + 1);
      WordDollars(q);
      var w := ReadWord(q).value;
      if w.rest != "" {
        CountCut(w.rest, 1);
        ExportDollars(w.rest[1..]);
        var v, more := Var(s[7..][..eq], w.value), ReadExports(w.rest[1..]).value;
        assert ([v] + more)[1..] == more;
      }
    }
  }

  lemma {:induction false} LinesDollars(vars: seq<Var>, rest: string)
    requires LegalKeys(vars)
    ensures Count('$', ExportLines(vars) + rest) == Dollars(vars) + Count('$', rest)
  {
    hide Quoted, LegalKey, Head, Count;
    if vars == [] {
      assert ExportLines(vars) + rest == rest;
    } else {
      var v, more := vars[0], ExportLines(vars[1..]) + rest;
      assert v in vars && forall w <- vars[1..] :: w in vars;
      LinesDollars(vars[1..], rest);
      LineShape(vars, rest);
      HeadHasNoDollar(v.key);
      var q := Quoted(v.value);
      CountJoin('$', Head(v.key), q + "'" + ("\n" + more));
      CountJoin('$', q + "'", "\n" + more);
      CountJoin('$', q, "'");
      CountJoin('$', "\n", more);
      QuotedDollars(v.value);
      assert '$' !in "'" && '$' !in "\n";
      NoDollars(Head(v.key));
      NoDollars("'");
      NoDollars("\n");
    }
  }

  lemma NoDollars(s: string)
    requires '$' !in s
    ensures Count('$', s) == 0
  {
  }

  lemma {:induction false} QuotedDollars(v: string)
    ensures Count('$', Quoted(v)) == Count('$', v)
  {
    if v != "" {
      QuotedDollars(v[1..]);
      var head := if v[0] == '\'' then "'\\''" else [v[0]];
      CountJoin('$', head, Quoted(v[1..]));
      if v[0] == '\'' {
        assert '$' !in head;
      }
    }
  }

  lemma BlockDollars(vars: seq<Var>)
    requires LegalKeys(vars)
    ensures Count('$', Block(vars)) == Dollars(vars)
  {
    hide ExportLines, Count, LegalKeys;
    LinesDollars(vars, MARKER_END);
    EndHasNoPairs();
    NoDollars(MARKER_END);
    NoDollars(MARKER_BEGIN + "\n");
    assert Block(vars) == MARKER_BEGIN + "\n" + (ExportLines(vars) + MARKER_END);
    CountJoin('$', MARKER_BEGIN + "\n", ExportLines(vars) + MARKER_END);
  }

  // ---- which values survive replacing an old block ----

  const BARE := MARKER_BEGIN + MARKER_END

  lemma BareIsFound()
    ensures FindMatch(BARE) == Match(0, |BARE|) && BARE[..0] == "" && BARE[|BARE|..] == "" && '$' !in BARE
  {
    hide FindMatch;
    EndHasNoPairs();
    MatchIsLeftmostShortest(BARE, 0, |BARE|);
  }

  /** The values that are written literally into every file that has an old block, and read back by a shell from
      every file: those that, with the closing quote, hold none of the four pairs. */
  lemma LiteralExactly(vars: seq<Var>)
    requires LegalKeys(vars)
    ensures (forall existing: string | FindMatch(existing).Match? ::
               var m := FindMatch(existing);
               Persisted(existing, vars) == existing[..m.start] + Block(vars) + existing[m.end..])
       <==> !exists v <- vars :: HasSpecial(v.value + "'")
    ensures (forall existing: string :: ReadExports(Written(existing, vars)) == Just(vars))
       <==> !exists v <- vars :: HasSpecial(v.value + "'")
  {
    hide Block, LegalKeys, HasSpecial, FindMatch, ReadExports, Expanded;
    SpecialExactly(vars);
    BlockReadsBack(vars);
    if !HasSpecial(Block(vars)) {
      forall existing: string
        ensures Written(existing, vars) == Block(vars)
      {
        LiteralWithoutPairs(existing, vars);
      }
    } else {
      BareIsFound();
      BareChanges(vars);
    }
  }

  /** A file that is one block and nothing else. */
  lemma WrittenOver(file: string, vars: seq<Var>)
    requires FindMatch(file) == Match(0, |file|)
    ensures Persisted(file, vars) == Written(file, vars) == Expanded(Block(vars), file, "", "")
  {
    hide FindMatch, Expanded, Block;
    assert file[0..|file|] == file && file[..0] == "" && file[|file|..] == "";
    assert "" + Written(file, vars) + "" == Written(file, vars);
  }

  lemma BareChanges(vars: seq<Var>)
    requires LegalKeys(vars) && HasSpecial(Block(vars))
    ensures ReadExports(Written(BARE, vars)) != Just(vars)
    ensures Persisted(BARE, vars) == Written(BARE, vars) != Block(vars) == "" + Block(vars) + ""
  {
    hide Block, LegalKeys, HasSpecial, FindMatch, ReadExports, Expanded, Count, BARE;
    BareIsFound();
    var w := Written(BARE, vars);
    WrittenOver(BARE, vars);
    DollarsLost(Block(vars), BARE, "", "");
    BlockDollars(vars);
    if ReadExports(w).Just? { ExportDollars(w); }
    assert Persisted(BARE, vars) == "" + w + "" == w;
    assert "" + Block(vars) + "" == Block(vars);
  }

  lemma BlockOfX(was: seq<Var>)
    requires was == [Var("K", "x")]
    ensures LegalKeys(was) && EndFree(was) && First("")
  {
    assert forall i | 0 <= i <= 1 :: !At("x", i, MARKER_END);
  }

  const BEFORE_K := MARKER_BEGIN + "\nexport K='"
  const AFTER_K := "'\n" + MARKER_END

  lemma OneVar(value: string, quoted: string)
    requires quoted == Quoted(value)
    ensures Block([Var("K", value)]) == BEFORE_K + (quoted + AFTER_K)
    ensures '$' !in BEFORE_K && '$' !in AFTER_K
    ensures LegalKeys([Var("K", value)])
  {
    hide Quoted, Head;
    var v := Var("K", value);
    assert [v][1..] == [];
    LineShape([v], MARKER_END);
    HeadOfK();
    assert Block([v]) == MARKER_BEGIN + "\n" + (ExportLines([v]) + MARKER_END);
    Moved(MARKER_BEGIN + "\n", Head("K"), quoted, "'", "\n" + ("" + MARKER_END));
  }

  lemma Moved(a: string, b: string, c: string, d: string, e: string)
    ensures a + (b + (c + d + e)) == (a + b) + (c + (d + e))
  {
  }

  lemma HeadOfK()
    ensures BEFORE_K == MARKER_BEGIN + "\n" + Head("K") && "'" + ("\n" + ("" + MARKER_END)) == AFTER_K
    ensures '$' !in BEFORE_K && '$' !in AFTER_K
  {
    EndHasNoPairs();
  }

  lemma QuotedDollar()
    ensures Quoted("$") == "$" && Quoted("$$") == "$$"
  {
    assert "$"[1..] == "" && "$$"[1..] == "$";
  }

  /** A file that holds a block for one variable, written again with two dollars as its value: a shell then reads
      one dollar. */
  lemma TwoDollarsReadAsOne()
    ensures var was, now := [Var("K", "x")], [Var("K", "$$")];
            Persisted(Block(was), now) == Block([Var("K", "$")])
            && ReadExports(Persisted(Block(was), now)) == Just([Var("K", "$")])
  {
    hide FindMatch, ReadExports, Expanded, Occurs, First, Persisted, Written, Block, LegalKeys, EndFree, Quoted,
      BEFORE_K, AFTER_K, MARKER_BEGIN, MARKER_END;
    var was, now, then' := [Var("K", "x")], [Var("K", "$$")], [Var("K", "$")];
    var file := Block(was);
    BlockOfX(was);
    OwnBlockFound("", was, "");
    assert "" + file + "" == file;
    WrittenOver(file, now);
    QuotedDollar();
    OneVar("$$", "$$");
    OneVar("$", "$");
    DollarPair(BEFORE_K, AFTER_K, file);
    BlockReadsBack(then');
  }

  lemma DollarPair(head: string, tail: string, m: string)
    requires '$' !in head && '$' !in tail
    ensures Expanded(head + ("$$" + tail), m, "", "") == head + ("$" + tail)
  {
    ExpandedHead(head, "$$" + tail, m, "", "");
    assert ("$$" + tail)[2..] == tail && Special('$', '$');
    assert tail == tail + "";
    NoDollarSkips(tail, "");
    NoneInEmpty();
    PlainExpands(tail, m, "", "");
  }
}
