/** Running `persistUnix` of src/config/persist-envs.ts a second time with the same variables. */
module PersistTwice {
  import opened Text
  import opened Replacement
  import opened PersistEnvs

  /** In a block as it is written no end marker starts before its own. */
  predicate OwnEndFirst(block: string) {
    forall k | |MARKER_BEGIN| <= k < |block| - |MARKER_END| :: !At(block, k, MARKER_END)
  }

  /** In a file without a stray begin marker, what the second run finds starts with what the first one wrote, and is
      the whole of it exactly when the own end marker is the first one. */
  lemma FoundAgain(a: string, block: string, lines: string, b: string)
    requires First(a) && block == MARKER_BEGIN + lines + MARKER_END
    ensures var m := FindMatch(a + block + b);
            && m.Match? && m.start == |a| && m.end <= |a| + |block|
            && (m.end == |a| + |block| <==> OwnEndFirst(block))
  {
    hide Find, At, First, OwnEndFirst;
    var t := a + block + b;
    var from, own := |a| + |MARKER_BEGIN|, |a| + |block| - |MARKER_END|;
    FirstBegin(a, lines + MARKER_END + b);
    OwnMarker(a + MARKER_BEGIN + lines, b);
    Apart(a, MARKER_BEGIN, lines, MARKER_END, b);
    FindIsFirst(t, MARKER_END, from, own);
    FirstEnd(a, block, b, Find(t, MARKER_END, from).value);
  }

  lemma FirstEnd(a: string, block: string, b: string, end: nat)
    requires |block| >= |MARKER_BEGIN| + |MARKER_END|
    requires |a| + |MARKER_BEGIN| <= end <= |a| + |block| - |MARKER_END| && At(a + block + b, end, MARKER_END)
    requires forall k | |a| + |MARKER_BEGIN| <= k < end :: !At(a + block + b, k, MARKER_END)
    ensures end == |a| + |block| - |MARKER_END| <==> OwnEndFirst(block)
  {
    hide At;
    if end < |a| + |block| - |MARKER_END| {
      InMiddle(a, block, b, end - |a|);
    } else {
      forall k | |MARKER_BEGIN| <= k < |block| - |MARKER_END| ensures !At(block, k, MARKER_END) {
        InMiddle(a, block, b, k);
        assert !At(a + block + b, |a| + k, MARKER_END);
      }
    }
  }

  lemma Apart(a: string, begin: string, lines: string, end: string, b: string)
    ensures a + (begin + lines + end) + b == a + begin + (lines + end + b) == a + begin + lines + end + b
  {
  }

  lemma InMiddle(a: string, block: string, b: string, k: nat)
    requires k + |MARKER_END| <= |block|
    ensures At(a + block + b, |a| + k, MARKER_END) <==> At(block, k, MARKER_END)
  {
    AtWithin(a + block, b, |a| + k, MARKER_END);
    AtAfter(a, block, k, MARKER_END);
  }

  lemma MiddleIs(a: string, m: string, b: string)
    ensures (a + m + b)[|a|..|a| + |m|] == m && (a + m + b)[..|a|] == a && (a + m + b)[|a| + |m|..] == b
  {
  }

  /** What was matched ends with an end marker; standing in a written block it comes before the block's own. */
  lemma MatchedHidesEnd(block: string, head: string, m: string, rest: string)
    requires block == head + m + rest && |head| >= |MARKER_BEGIN| && |rest| >= |MARKER_END|
    requires |m| >= |MARKER_END| && m[|m| - |MARKER_END|..] == MARKER_END
    ensures !OwnEndFirst(block)
  {
    var k := |head| + |m| - |MARKER_END|;
    assert block[k..k + |MARKER_END|] == m[|m| - |MARKER_END|..];
    assert At(block, k, MARKER_END);
  }

  lemma MatchEnds(s: string)
    requires FindMatch(s).Match?
    ensures var m := s[FindMatch(s).start..FindMatch(s).end];
            |m| >= |MARKER_BEGIN| + |MARKER_END| && m[|m| - |MARKER_END|..] == MARKER_END && m[0] == '#'
  {
    var i, j := FindMatch(s).start, FindMatch(s).end;
    assert s[i..j][|s[i..j]| - |MARKER_END|..] == s[j - |MARKER_END|..j];
    assert s[i..i + |MARKER_BEGIN|][0] == s[i];
  }

  /** A block that takes in the matched text is longer than it and has markers around it. */
  lemma TakenInside(vars: seq<Var>, m: string, b: string, a: string) returns (head: string, rest: string)
    requires Takes(Block(vars), '&')
    ensures Expanded(Block(vars), m, b, a) == head + m + rest
    ensures |head| >= |MARKER_BEGIN| && |rest| >= |MARKER_END|
  {
    hide Expanded, ExportLines, Takes;
    var start, lines := MARKER_BEGIN + "\n", ExportLines(vars);
    EndHasNoPairs();
    assert Block(vars) == start + (lines + MARKER_END);
    TakesInner(start, lines, MARKER_END);
    ExpandedHead(start, lines + MARKER_END, m, b, a);
    ExpandedJoin(lines, MARKER_END, m, b, a);
    PlainExpands(MARKER_END, m, b, a);
    head, rest := TakenIsThere(lines, m, b, a);
    Around(start, head, m, rest, MARKER_END);
    head, rest := start + head, rest + MARKER_END;
  }

  lemma Around(start: string, head: string, m: string, rest: string, end: string)
    ensures start + ((head + m + rest) + end) == (start + head) + m + (rest + end)
  {
  }

  lemma {:induction false} TakesInner(start: string, lines: string, end: string)
    requires '$' !in start && '$' !in end && (end == "" || !Special('$', end[0]))
    ensures Takes(start + (lines + end), '&') ==> Takes(lines, '&')
    decreases |start| + |lines| + |end|
  {
    var t := start + (lines + end);
    if start != "" {
      assert start[0] in start && t[1..] == start[1..] + (lines + end);
      TakesInner(start[1..], lines, end);
    } else if lines != "" {
      var n := if |lines| >= 2 && Special(lines[0], lines[1]) then 2 else 1;
      assert t == lines + end && t[n..] == "" + (lines[n..] + end);
      TakesInner("", lines[n..], end);
    } else if end != "" {
      assert t == end && end[0] in end && t[1..] == "" + ("" + end[1..]);
      NoDollarTakesNone(end);
    }
  }

  lemma {:induction false} NoDollarTakesNone(t: string)
    requires '$' !in t
    ensures !Takes(t, '&')
  {
    if t != "" {
      assert t[0] in t;
      NoDollarTakesNone(t[1..]);
    }
  }

  /** The second run over a file that had an old block: the same text exactly when the first one's own end marker is
      the first after its begin marker. */
  lemma AgainOverBlock(existing: string, vars: seq<Var>)
    requires FindMatch(existing).Match?
    ensures Persisted(Persisted(existing, vars), vars) == Persisted(existing, vars)
       <==> OwnEndFirst(Written(existing, vars))
  {
    hide FindMatch, Expanded, Block, Takes, First, OwnEndFirst, Persisted;
    var i, j := FindMatch(existing).start, FindMatch(existing).end;
    var m, a, b := existing[i..j], existing[..i], existing[j..];
    var block := Written(existing, vars);
    var lines := WrittenShape(existing, vars);
    var t := a + block + b;
    OverBlock(existing, vars);
    FoundAgain(a, block, lines, b);
    var n := FindMatch(t).end - |a|;
    SplitAt(a, block, b, n);
    var m', b' := block[..n], block[n..] + b;
    FixedWhenFound(t, vars);
    assert Written(t, vars) == Expanded(Block(vars), m', a, b');
    MatchEnds(existing);
    Rewritten(vars, block, m, a, b, n);
  }

  /** What the second run writes against what it found, the first `n` characters of what the first one wrote. */
  lemma Rewritten(vars: seq<Var>, block: string, m: string, a: string, b: string, n: nat)
    requires block == Expanded(Block(vars), m, a, b) && n <= |block| && (n == |block| <==> OwnEndFirst(block))
    requires |m| >= |MARKER_END| && m[|m| - |MARKER_END|..] == MARKER_END
    ensures Expanded(Block(vars), block[..n], a, block[n..] + b) == block[..n] <==> OwnEndFirst(block)
  {
    hide Expanded, Block, Takes, OwnEndFirst;
    var m', b' := block[..n], block[n..] + b;
    if Takes(Block(vars), '&') {
      var head, rest := TakenInside(vars, m, a, b);
      MatchedHidesEnd(block, head, m, rest);
      var head', rest' := TakenInside(vars, m', a, b');
      assert |head' + m' + rest'| > |m'|;
    } else {
      NotTaken(Block(vars), m, m', a, b, b');
      if n == |block| { assert b' == b && m' == block; }
    }
  }

  lemma OverBlock(existing: string, vars: seq<Var>)
    requires FindMatch(existing).Match?
    ensures var i, j := FindMatch(existing).start, FindMatch(existing).end;
            && Persisted(existing, vars) == existing[..i] + Written(existing, vars) + existing[j..]
            && First(existing[..i])
  {
    hide FindMatch, Written;
    MatchIsFirst(existing);
  }

  lemma SplitAt(a: string, block: string, b: string, n: nat)
    requires n <= |block|
    ensures var t := a + block + b;
            t[..|a|] == a && t[|a|..|a| + n] == block[..n] && t[|a| + n..] == block[n..] + b
  {
  }

  /** The second run over a file that had neither marker: the same text exactly when no value holds the end marker
      and the block none of the four pairs. */
  lemma AgainOverAppended(existing: string, vars: seq<Var>)
    requires LegalKeys(vars) && FindMatch(existing).NoMatch? && !StrayBegin(existing)
    ensures Persisted(Persisted(existing, vars), vars) == Persisted(existing, vars)
       <==> EndFree(vars) && !HasSpecial(Block(vars))
  {
    hide FindMatch, Expanded, First, Persisted, LegalKeys, EndFree, HasSpecial, Block;
    var a, b := Parts(existing, vars);
    var t := Persisted(existing, vars);
    var block := Block(vars);
    MatchSomewhere(existing, a, vars, b);
    FixedWhenFound(t, vars);
    if EndFree(vars) {
      OwnBlockFound(a, vars, b);
      MiddleIs(a, block, b);
      StartsWithHash(vars);
      FixedExactly(block, block, a, b);
    } else {
      NeverWhole(t, vars);
    }
  }

  lemma StartsWithHash(vars: seq<Var>)
    ensures Block(vars) != "" && Block(vars)[0] == '#'
  {
  }

  /** Running it twice is running it once only when no value holds the end marker. In a file without a stray begin
      marker it is so exactly when the block as written has its own end marker as the first one and, if it was
      appended, none of the four pairs; in a file with one it never is unless the block holds a pair. */
  lemma TwiceIsOnce(existing: string, vars: seq<Var>)
    requires LegalKeys(vars)
    ensures var once := Persisted(existing, vars);
            Persisted(once, vars) == once ==> EndFree(vars)
    ensures var once := Persisted(existing, vars);
            !StrayBegin(existing) ==>
              (Persisted(once, vars) == once
               <==> if FindMatch(existing).Match? then OwnEndFirst(Written(existing, vars))
                    else EndFree(vars) && !HasSpecial(Block(vars)))
    ensures var once := Persisted(existing, vars);
            !HasSpecial(Block(vars)) ==> (Persisted(once, vars) == once <==> !StrayBegin(existing) && EndFree(vars))
  {
    hide Block, First, EndFree, StrayBegin, LegalKeys, Persisted, FindMatch, HasSpecial, Written, OwnEndFirst;
    var a, b := Parts(existing, vars);
    var t := Persisted(existing, vars);
    MatchSomewhere(existing, a, vars, b);
    FixedWhenFound(t, vars);
    StrayHasNoMatch(existing);
    if !EndFree(vars) { NeverWhole(t, vars); }
    if FindMatch(existing).Match? {
      AgainOverBlock(existing, vars);
    } else if !StrayBegin(existing) {
      AgainOverAppended(existing, vars);
    }
    if EndFree(vars) && !HasSpecial(Block(vars)) { WithoutPairs(existing, vars, a, b); }
  }

  lemma WithoutPairs(existing: string, vars: seq<Var>, a: string, b: string)
    requires LegalKeys(vars) && EndFree(vars) && !HasSpecial(Block(vars))
    requires Persisted(existing, vars) == a + Written(existing, vars) + b
    requires FindMatch(existing).NoMatch? ==> a == NewlineEnded(existing) + "\n" && b == "\n"
    requires !StrayBegin(existing) ==> First(a)
    ensures Persisted(Persisted(existing, vars), vars) == Persisted(existing, vars) <==> !StrayBegin(existing)
  {
    hide Block, First, EndFree, StrayBegin, LegalKeys, Persisted, FindMatch, HasSpecial, Written;
    var t := Persisted(existing, vars);
    MatchSomewhere(existing, a, vars, b);
    FixedWhenFound(t, vars);
    LiteralWithoutPairs(existing, vars);
    LiteralWithoutPairs(t, vars);
    StrayHasNoMatch(existing);
    if !StrayBegin(existing) {
      OwnBlockFound(a, vars, b);
      MiddleIs(a, Block(vars), b);
    } else {
      StrayMatchesEarlier(existing, vars, b);
    }
  }

  /** The values that every file without a stray begin marker takes twice like once: those that hold no end marker
      and, with the closing quote, none of the four pairs. */
  lemma TwiceIsOnceExactly(vars: seq<Var>)
    requires LegalKeys(vars)
    ensures (forall existing: string | !StrayBegin(existing) ::
               Persisted(Persisted(existing, vars), vars) == Persisted(existing, vars))
       <==> forall v <- vars :: !Occurs(v.value, MARKER_END) && !HasSpecial(v.value + "'")
  {
    hide Block, LegalKeys, Persisted, HasSpecial, StrayBegin, Occurs, OwnEndFirst, Written;
    SpecialExactly(vars);
    if EndFree(vars) && !HasSpecial(Block(vars)) {
      forall existing: string | !StrayBegin(existing)
        ensures Persisted(Persisted(existing, vars), vars) == Persisted(existing, vars)
      {
        TwiceIsOnce(existing, vars);
      }
    } else {
      NotStray();
      AgainOverAppended("", vars);
    }
  }

  lemma NotStray()
    ensures !StrayBegin("") && FindMatch("").NoMatch?
  {
  }
}
