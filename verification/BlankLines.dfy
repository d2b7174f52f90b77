/** Texts joined by line breaks and trimmed: what difference an empty one makes. */
module BlankLines {
  import opened Options
  import opened Text

  /** The texts that are there, in order. */
  function Said(s: seq<Maybe<string>>): (texts: seq<string>) {
    if s == [] then [] else Listed(s[0]) + Said(s[1..])
  }

  function Squeezed(texts: seq<string>): (r: seq<string>) {
    if texts == [] then [] else (if texts[0] == "" then [] else [texts[0]]) + Squeezed(texts[1..])
  }

  /** No text, or white space only. */
  predicate Silent(m: Maybe<string>) {
    m.Just? ==> AllSpace(m.value)
  }

  /** An empty text with something to read on both sides. */
  predicate Sandwiched(s: seq<Maybe<string>>) {
    exists e :: 0 <= e < |s| && EmptyBetween(s, e)
  }

  predicate EmptyBetween(s: seq<Maybe<string>>, e: nat)
    requires e < |s|
  {
    && s[e] == Just("")
    && (exists i :: 0 <= i < e && !Silent(s[i]))
    && (exists j :: e < j < |s| && !Silent(s[j]))
  }

  // ---- joining ----

  function Glued(texts: seq<string>): (r: string) {
    if texts == [] then "" else texts[0] + "\n" + Glued(texts[1..])
  }

  function Headed(texts: seq<string>): (r: string) {
    if texts == [] then "" else "\n" + texts[0] + Headed(texts[1..])
  }

  lemma {:induction false} JoinFront(a: seq<string>, b: seq<string>)
    requires b != []
    ensures Join(a + b, "\n") == Glued(a) + Join(b, "\n")
  {
    if a == [] {
      assert a + b == b;
    } else {
      assert (a + b)[1..] == a[1..] + b;
      JoinFront(a[1..], b);
    }
  }

  lemma {:induction false} JoinOne(x: string, b: seq<string>)
    ensures Join([x] + b, "\n") == x + Headed(b)
    decreases |b|
  {
    assert ([x] + b)[1..] == b;
    if b != [] {
      JoinOne(b[0], b[1..]);
      assert b == [b[0]] + b[1..];
      assert x + "\n" + (b[0] + Headed(b[1..])) == x + ("\n" + b[0] + Headed(b[1..]));
    }
  }

  predicate AllBlank(texts: seq<string>) {
    forall t <- texts :: AllSpace(t)
  }

  lemma AllSpaceJoin(a: string, b: string)
    requires AllSpace(a) && AllSpace(b)
    ensures AllSpace(a + b) && AllSpace("\n")
  {
  }

  lemma {:induction false} BlankAround(texts: seq<string>)
    requires AllBlank(texts)
    ensures AllSpace(Glued(texts)) && AllSpace(Headed(texts))
    ensures AllBlank(Squeezed(texts))
  {
    if texts != [] {
      assert texts[0] in texts && forall t <- texts[1..] :: t in texts;
      BlankAround(texts[1..]);
      AllSpaceJoin("", "");
      AllSpaceJoin(texts[0], "\n");
      AllSpaceJoin(texts[0] + "\n", Glued(texts[1..]));
      AllSpaceJoin("\n", texts[0]);
      AllSpaceJoin("\n" + texts[0], Headed(texts[1..]));
    }
  }

  lemma BlankJoin(texts: seq<string>)
    requires AllBlank(texts)
    ensures Trim(Join(texts, "\n")) == ""
  {
    hide TrimStart, TrimEnd;
    if texts == [] {
      TrimEmptyIff("");
    } else {
      assert texts[0] in texts && forall t <- texts[1..] :: t in texts;
      assert texts == [texts[0]] + texts[1..];
      JoinOne(texts[0], texts[1..]);
      BlankAround(texts[1..]);
      AllSpaceJoin(texts[0], Headed(texts[1..]));
      TrimEmptyIff(Join(texts, "\n"));
    }
  }

  // ---- empty texts ----

  lemma {:induction false} SqueezedJoin(a: seq<string>, b: seq<string>)
    ensures Squeezed(a + b) == Squeezed(a) + Squeezed(b)
  {
    if a == [] {
      assert a + b == b;
    } else {
      assert (a + b)[1..] == a[1..] + b;
      SqueezedJoin(a[1..], b);
    }
  }

  /** Leaving out empty texts changes the glued text exactly when there are any. */
  lemma {:induction false} GluedSqueezed(texts: seq<string>)
    ensures |Glued(Squeezed(texts))| <= |Glued(texts)|
    ensures |Glued(Squeezed(texts))| == |Glued(texts)| <==> "" !in texts
    ensures "" !in texts ==> Squeezed(texts) == texts
  {
    if texts != [] {
      GluedSqueezed(texts[1..]);
      assert "" in texts <==> texts[0] == "" || "" in texts[1..];
      if texts[0] != "" {
        var rest := Squeezed(texts[1..]);
        assert ([texts[0]] + rest)[1..] == rest;
      } else {
        assert [] + Squeezed(texts[1..]) == Squeezed(texts[1..]);
      }
    }
  }

  // ---- trimming around what is read ----

  lemma AllSpaceCons(s: string)
    requires s != ""
    ensures AllSpace(s) <==> IsSpace(s[0]) && AllSpace(s[1..])
  {
    assert forall i | 0 < i < |s| :: s[i] == s[1..][i - 1];
  }

  lemma {:induction false} TrimStartKeepsTail(s: string, tail: string)
    requires !AllSpace(s)
    ensures TrimStart(s + tail) == TrimStart(s) + tail
  {
    if IsSpace(s[0]) {
      assert (s + tail)[1..] == s[1..] + tail;
      AllSpaceCons(s);
      TrimStartKeepsTail(s[1..], tail);
    }
  }

  lemma TrimBothEnds(x: string, middle: string, y: string)
    requires !AllSpace(x) && !AllSpace(y)
    ensures Trim(x + middle + y) == TrimStart(x) + middle + TrimEnd(y)
  {
    hide TrimStart, TrimEnd;
    assert x + middle + y == x + (middle + y);
    TrimStartKeepsTail(x, middle + y);
    assert TrimStart(x) + (middle + y) == (TrimStart(x) + middle) + y;
    NotBlank(y);
    TrimEndKeepsHead(TrimStart(x) + middle, y);
  }

  lemma NotBlank(y: string)
    ensures !AllSpace(y) ==> y != ""
  {
  }

  /** One text to read, with white space around it. */
  lemma OneLoud(a: seq<string>, x: string, b: seq<string>)
    requires AllBlank(a) && AllBlank(b)
    ensures Trim(Join(a + [x] + b, "\n")) == Trim(x)
  {
    hide TrimStart, TrimEnd, Join;
    assert a + [x] + b == a + ([x] + b);
    JoinFront(a, [x] + b);
    JoinOne(x, b);
    BlankAround(a);
    BlankAround(b);
    TrimAround(Glued(a), x, Headed(b));
    assert Glued(a) + (x + Headed(b)) == Glued(a) + x + Headed(b);
  }

  lemma Listed5(a: seq<string>, x: string, m: seq<string>, y: string, b: seq<string>)
    ensures a + [x] + m + [y] + b == (a + ([x] + m)) + ([y] + b)
  {
  }

  lemma Around(a: string, x: string, newline: string, m: string, y: string, b: string)
    ensures a + (x + newline + m) + (y + b) == a + (x + (newline + m) + y) + b
  {
  }

  /** The first and the last text to read, with others between them and white space around them. */
  lemma TwoLoud(a: seq<string>, x: string, m: seq<string>, y: string, b: seq<string>)
    requires AllBlank(a) && AllBlank(b) && !AllSpace(x) && !AllSpace(y)
    ensures Trim(Join(a + [x] + m + [y] + b, "\n")) == TrimStart(x) + ("\n" + Glued(m)) + TrimEnd(y)
  {
    hide TrimStart, TrimEnd, Join, Glued, Headed;
    var front := a + ([x] + m);
    Listed5(a, x, m, y, b);
    JoinFront(front, [y] + b);
    JoinOne(y, b);
    GluedJoin(a, [x] + m);
    GluedCons(x, m);
    BlankAround(a);
    BlankAround(b);
    var core := x + ("\n" + Glued(m)) + y;
    Around(Glued(a), x, "\n", Glued(m), y, Headed(b));
    TrimAround(Glued(a), core, Headed(b));
    TrimBothEnds(x, "\n" + Glued(m), y);
  }

  lemma GluedCons(x: string, m: seq<string>)
    ensures Glued([x] + m) == x + "\n" + Glued(m)
  {
    assert ([x] + m)[1..] == m;
  }

  lemma {:induction false} GluedJoin(a: seq<string>, b: seq<string>)
    ensures Glued(a + b) == Glued(a) + Glued(b)
  {
    if a == [] {
      assert a + b == b;
    } else {
      assert (a + b)[1..] == a[1..] + b;
      GluedJoin(a[1..], b);
    }
  }

  lemma SqueezedOne(x: string)
    ensures Squeezed([x]) == if x == "" then [] else [x]
  {
    assert [x][1..] == [];
  }

  lemma MiddleDecides(x: string, m: string, m': string, y: string)
    ensures x + ("\n" + m) + y == x + ("\n" + m') + y <==> m == m'
  {
    if x + ("\n" + m) + y == x + ("\n" + m') + y {
      var t := x + ("\n" + m) + y;
      assert |m| == |m'|;
      assert t[|x| + 1..|x| + 1 + |m|] == m;
      assert (x + ("\n" + m') + y)[|x| + 1..|x| + 1 + |m|] == m';
    }
  }

  /** Squeezing out empty texts between two that can be read. */
  lemma SqueezeBetween(a: seq<string>, x: string, m: seq<string>, y: string, b: seq<string>)
    requires AllBlank(a) && AllBlank(b) && !AllSpace(x) && !AllSpace(y)
    ensures var d := a + [x] + m + [y] + b;
            Trim(Join(d, "\n")) == Trim(Join(Squeezed(d), "\n")) <==> "" !in m
  {
    hide TrimStart, TrimEnd, Join, Glued, Squeezed;
    var d := a + [x] + m + [y] + b;
    NotBlank(x);
    NotBlank(y);
    SqueezedJoin(a + [x] + m + [y], b);
    SqueezedJoin(a + [x] + m, [y]);
    SqueezedJoin(a + [x], m);
    SqueezedJoin(a, [x]);
    SqueezedOne(x);
    SqueezedOne(y);
    BlankAround(a);
    BlankAround(b);
    TwoLoud(a, x, m, y, b);
    TwoLoud(Squeezed(a), x, Squeezed(m), y, Squeezed(b));
    MiddleDecides(TrimStart(x), Glued(m), Glued(Squeezed(m)), TrimEnd(y));
    GluedSqueezed(m);
  }

  lemma SqueezeOne(a: seq<string>, x: string, b: seq<string>)
    requires AllBlank(a) && AllBlank(b) && !AllSpace(x)
    ensures var d := a + [x] + b; Trim(Join(d, "\n")) == Trim(Join(Squeezed(d), "\n"))
  {
    hide TrimStart, TrimEnd, Join, Squeezed;
    NotBlank(x);
    SqueezedJoin(a + [x], b);
    SqueezedJoin(a, [x]);
    SqueezedOne(x);
    BlankAround(a);
    BlankAround(b);
    OneLoud(a, x, b);
    OneLoud(Squeezed(a), x, Squeezed(b));
  }

  // ---- the exact condition ----

  lemma {:induction false} SaidJoin(a: seq<Maybe<string>>, b: seq<Maybe<string>>)
    ensures Said(a + b) == Said(a) + Said(b)
  {
    if a == [] {
      assert a + b == b;
    } else {
      assert (a + b)[1..] == a[1..] + b;
      SaidJoin(a[1..], b);
    }
  }

  lemma {:induction false} SaidSilent(s: seq<Maybe<string>>)
    requires forall i | 0 <= i < |s| :: Silent(s[i])
    ensures AllBlank(Said(s))
  {
    if s != [] { SaidSilent(s[1..]); }
  }

  lemma {:induction false} SaidHas(s: seq<Maybe<string>>, t: string)
    ensures t in Said(s) <==> Just(t) in s
  {
    if s != [] {
      SaidHas(s[1..], t);
      assert Just(t) in s <==> s[0] == Just(t) || Just(t) in s[1..];
    }
  }

  lemma {:induction false} FirstLoud(s: seq<Maybe<string>>) returns (f: nat)
    requires exists i :: 0 <= i < |s| && !Silent(s[i])
    ensures f < |s| && !Silent(s[f]) && forall i | 0 <= i < f :: Silent(s[i])
  {
    f := 0;
    while Silent(s[f])
      invariant f < |s| && forall i | 0 <= i < f :: Silent(s[i])
      decreases |s| - f
    {
      f := f + 1;
    }
  }

  lemma {:induction false} LastLoud(s: seq<Maybe<string>>) returns (l: nat)
    requires exists i :: 0 <= i < |s| && !Silent(s[i])
    ensures l < |s| && !Silent(s[l]) && forall i | l < i < |s| :: Silent(s[i])
  {
    l := |s| - 1;
    while Silent(s[l])
      invariant l < |s| && forall i | l < i < |s| :: Silent(s[i])
      decreases l
    {
      l := l - 1;
    }
  }

  lemma SandwichedMeans(s: seq<Maybe<string>>, f: nat, l: nat)
    requires f <= l < |s| && !Silent(s[f]) && !Silent(s[l])
    requires (forall i | 0 <= i < f :: Silent(s[i])) && (forall i | l < i < |s| :: Silent(s[i]))
    ensures Sandwiched(s) <==> f < l && Just("") in s[f + 1..l]
  {
    if e :| 0 <= e < |s| && EmptyBetween(s, e) {
      assert s[f + 1..l][e - f - 1] == Just("");
    }
    if f < l && Just("") in s[f + 1..l] {
      var k :| 0 <= k < |s[f + 1..l]| && s[f + 1..l][k] == Just("");
      assert EmptyBetween(s, f + 1 + k);
    }
  }

  /** Leaving out the empty texts changes the trimmed text exactly when one of them has something to read before it
      and something to read after it. */
  lemma SqueezingIsHarmless(s: seq<Maybe<string>>)
    ensures Trim(Join(Said(s), "\n")) == Trim(Join(Squeezed(Said(s)), "\n")) <==> !Sandwiched(s)
  {
    hide TrimStart, TrimEnd, Join, Squeezed, Said, Sandwiched;
    if forall i | 0 <= i < |s| :: Silent(s[i]) {
      SaidSilent(s);
      BlankAround(Said(s));
      BlankJoin(Said(s));
      BlankJoin(Squeezed(Said(s)));
      SilentMeans(s);
    } else {
      var f := FirstLoud(s);
      var l := LastLoud(s);
      SandwichedMeans(s, f, l);
      var a, b := s[..f], s[l + 1..];
      SaidSilent(a);
      SaidSilent(b);
      if f == l {
        assert s == a + [s[f]] + b;
        SaidJoin(a + [s[f]], b);
        SaidJoin(a, [s[f]]);
        SaidOne(s[f]);
        SqueezeOne(Said(a), s[f].value, Said(b));
      } else {
        var m := s[f + 1..l];
        assert s == a + [s[f]] + m + [s[l]] + b;
        SaidJoin(a + [s[f]] + m + [s[l]], b);
        SaidJoin(a + [s[f]] + m, [s[l]]);
        SaidJoin(a + [s[f]], m);
        SaidJoin(a, [s[f]]);
        SaidOne(s[f]);
        SaidOne(s[l]);
        SaidHas(m, "");
        SqueezeBetween(Said(a), s[f].value, Said(m), s[l].value, Said(b));
      }
    }
  }

  lemma SaidOne(m: Maybe<string>)
    ensures Said([m]) == Listed(m)
  {
    assert [m][1..] == [];
  }

  lemma SilentMeans(s: seq<Maybe<string>>)
    requires forall i | 0 <= i < |s| :: Silent(s[i])
    ensures !Sandwiched(s)
  {
  }
}
