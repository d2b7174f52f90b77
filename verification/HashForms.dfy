/** Which texts the relevance gate takes for the same: those with the same words. */
module HashForms {
  import opened Text
  import opened Gate

  function WordLength(s: string): (n: nat)
    ensures n <= |s| && forall i | 0 <= i < n :: !IsSpace(s[i])
    ensures n < |s| ==> IsSpace(s[n])
  {
    if s == "" || IsSpace(s[0]) then 0 else 1 + WordLength(s[1..])
  }

  /** The words of a text, whatever white space stands between them. */
  function Words(s: string): (ws: seq<string>)
    decreases |s|
  {
    if s == "" then []
    else if IsSpace(s[0]) then Words(s[1..])
    else
      var n := WordLength(s);
      [s[..n]] + Words(s[n..])
  }

  lemma CollapsedStep(s: string)
    requires s != ""
    ensures !IsSpace(s[0]) ==> Collapsed(s) == [s[0]] + Collapsed(s[1..])
    ensures IsSpace(s[0]) && |s| > 1 && IsSpace(s[1]) ==> Collapsed(s) == Collapsed(s[1..])
    ensures IsSpace(s[0]) && (|s| > 1 ==> !IsSpace(s[1])) ==> Collapsed(s) == " " + Collapsed(s[1..])
  {
  }

  /** A word goes through as it is. */
  lemma {:induction false} CollapsedWord(w: string, rest: string)
    requires forall c <- w :: !IsSpace(c)
    ensures Collapsed(w + rest) == w + Collapsed(rest)
  {
    hide IsSpace, Collapsed;
    if w == "" {
      assert w + rest == rest;
    } else {
      assert w[0] in w && forall c <- w[1..] :: c in w;
      assert (w + rest)[1..] == w[1..] + rest;
      CollapsedStep(w + rest);
      CollapsedWord(w[1..], rest);
      assert [w[0]] + (w[1..] + Collapsed(rest)) == w + Collapsed(rest);
    }
  }

  /** White space before a word becomes one blank. */
  lemma {:induction false} CollapsedGap(s: string)
    requires s != "" && IsSpace(s[0]) && !IsSpace(s[|s| - 1])
    ensures var t := TrimStart(s); t != "" && !IsSpace(t[0]) && t[|t| - 1] == s[|s| - 1] && |t| < |s|
    ensures Collapsed(s) == " " + Collapsed(TrimStart(s)) && Words(s) == Words(TrimStart(s))
  {
    hide IsSpace;
    CollapsedStep(s);
    if IsSpace(s[1]) { CollapsedGap(s[1..]); }
  }

  /** A trimmed text collapses to its words with one blank between them. */
  lemma {:induction false} CollapsedIsWords(s: string)
    requires Trimmed(s)
    ensures Collapsed(s) == Join(Words(s), " ") && (s != "" ==> Words(s) != [])
    decreases |s|
  {
    hide IsSpace, Collapsed, TrimStart;
    if s == "" {
      NothingCollapses();
    } else {
      var n := WordLength(s);
      var w, rest := s[..n], s[n..];
      assert s == w + rest;
      CollapsedWord(w, rest);
      if rest == "" {
        NothingCollapses();
        assert Words(s) == [w] + [] == [w];
        assert w + "" == w;
      } else {
        assert rest[0] == s[n] && rest[|rest| - 1] == s[|s| - 1];
        CollapsedGap(rest);
        var t := TrimStart(rest);
        CollapsedIsWords(t);
        assert ([w] + Words(t))[1..] == Words(t);
        assert w + (" " + Collapsed(t)) == w + " " + Join(Words(t), " ");
      }
    }
  }

  lemma NothingCollapses()
    ensures Collapsed("") == "" && Words("") == [] && Join([], " ") == ""
  {
  }

  predicate IsWord(w: string) {
    w != "" && forall c <- w :: !IsSpace(c)
  }

  lemma {:induction false} WordsAreWords(s: string)
    ensures forall w <- Words(s) :: IsWord(w)
    decreases |s|
  {
    hide IsSpace;
    if s != "" {
      if IsSpace(s[0]) {
        WordsAreWords(s[1..]);
      } else {
        var n := WordLength(s);
        WordsAreWords(s[n..]);
        assert IsWord(s[..n]);
      }
    }
  }

  lemma {:induction false} LengthOfWord(w: string, rest: string)
    requires IsWord(w) && (rest != "" ==> IsSpace(rest[0]))
    ensures WordLength(w + rest) == |w|
  {
    hide IsSpace;
    assert w[0] in w && forall c <- w[1..] :: c in w;
    assert (w + rest)[1..] == w[1..] + rest;
    if |w| > 1 {
      LengthOfWord(w[1..], rest);
    } else {
      assert w[1..] + rest == rest;
    }
  }

  /** Joined words are found again. */
  lemma {:induction false} WordsOfJoin(ws: seq<string>)
    requires forall w <- ws :: IsWord(w)
    ensures Words(Join(ws, " ")) == ws
  {
    hide IsSpace, IsWord, Words, WordLength;
    if ws == [] {
      NothingCollapses();
    } else {
      var w := ws[0];
      assert w in ws && forall v <- ws[1..] :: v in ws;
      WordsOfJoin(ws[1..]);
      WordIsSomething(w);
      BlankIsSpace();
      if |ws| == 1 {
        FirstWord(w, "");
        assert w + "" == w && ws == [w] + [];
        NothingCollapses();
      } else {
        var rest := " " + Join(ws[1..], " ");
        FirstWord(w, rest);
        assert Join(ws, " ") == w + rest;
        SkipBlank(Join(ws[1..], " "));
        assert ws == [w] + ws[1..];
      }
    }
  }

  lemma FirstWord(w: string, rest: string)
    requires IsWord(w) && (rest != "" ==> IsSpace(rest[0]))
    ensures Words(w + rest) == [w] + Words(rest)
  {
    hide IsSpace, WordLength;
    WordIsSomething(w);
    LengthOfWord(w, rest);
    assert (w + rest)[..|w|] == w && (w + rest)[|w|..] == rest && (w + rest)[0] == w[0];
  }

  lemma SkipBlank(s: string)
    ensures Words(" " + s) == Words(s)
  {
    assert (" " + s)[1..] == s;
  }

  lemma WordIsSomething(w: string)
    requires IsWord(w)
    ensures w != "" && !IsSpace(w[0])
  {
  }

  lemma BlankIsSpace()
    ensures IsSpace(' ')
  {
  }

  /** Two texts have the same hash when their lower-cased forms have the same words, whatever the white space between
      them; and where the digest tells texts apart, only then. */
  lemma SameWordsSameHash(env: Env, a: string, b: string)
    requires Trimmed(env.lower(Trim(a))) && Trimmed(env.lower(Trim(b)))
    ensures Words(env.lower(Trim(a))) == Words(env.lower(Trim(b))) ==> HashTurnText(env, a) == HashTurnText(env, b)
    ensures (forall x, y :: env.sha256(x) == env.sha256(y) ==> x == y) ==>
              (HashTurnText(env, a) == HashTurnText(env, b) <==> Words(env.lower(Trim(a))) == Words(env.lower(Trim(b))))
  {
    hide Words, Collapsed, TrimStart, TrimEnd, Trim, Trimmed, Join;
    var x, y := env.lower(Trim(a)), env.lower(Trim(b));
    CollapsedIsWords(x);
    CollapsedIsWords(y);
    WordsAreWords(x);
    WordsAreWords(y);
    WordsOfJoin(Words(x));
    WordsOfJoin(Words(y));
  }
}
