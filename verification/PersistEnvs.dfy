/** src/config/persist-envs.ts on POSIX shells: a marked block of exports in the user's rc file. */
module PersistEnvs {
  import opened Options
  import opened Text
  import opened Replacement

  datatype Var = Var(key: string, value: string)

  const MARKER_BEGIN := "# >>> astra-memory env >>>"
  const MARKER_END := "# <<< astra-memory env <<<"

  // ---- the block ----

  /** `v.replace(/'/g, "'\\''")` */
  function Quoted(v: string): (q: string)
    ensures |q| >= |v|
  {
    if v == "" then "" else (if v[0] == '\'' then "'\\''" else [v[0]]) + Quoted(v[1..])
  }

  function Head(key: string): (r: string) {
    "export " + key + "='"
  }

  function ExportLine(v: Var): (r: string) {
    Head(v.key) + Quoted(v.value) + "'"
  }

  function ExportLines(vars: seq<Var>): (r: string) {
    if vars == [] then "" else ExportLine(vars[0]) + "\n" + ExportLines(vars[1..])
  }

  lemma LineShape(vars: seq<Var>, rest: string)
    requires vars != []
    ensures ExportLines(vars) + rest
         == Head(vars[0].key) + (Quoted(vars[0].value) + "'" + ("\n" + (ExportLines(vars[1..]) + rest)))
  {
    hide Head, Quoted;
    Regrouped(Head(vars[0].key), Quoted(vars[0].value), "'", "\n", ExportLines(vars[1..]), rest);
  }

  lemma Regrouped(a: string, b: string, c: string, d: string, e: string, f: string)
    ensures a + b + c + d + e + f == a + (b + c + (d + (e + f)))
  {
  }

  function Block(vars: seq<Var>): (r: string) {
    MARKER_BEGIN + "\n" + ExportLines(vars) + MARKER_END
  }

  function AllLines(vars: seq<Var>): (lines: seq<string>)
    ensures |lines| == |vars|
  {
    if vars == [] then [] else [ExportLine(vars[0])] + AllLines(vars[1..])
  }

  lemma {:induction false} JoinLines(vars: seq<Var>)
    ensures Join(AllLines(vars) + [MARKER_END], "\n") == ExportLines(vars) + MARKER_END
  {
    hide ExportLine;
    if vars == [] {
      assert AllLines(vars) + [MARKER_END] == [MARKER_END];
      assert "" + MARKER_END == MARKER_END;
    } else {
      JoinLines(vars[1..]);
      var rest := AllLines(vars[1..]) + [MARKER_END];
      assert AllLines(vars) + [MARKER_END] == [ExportLine(vars[0])] + rest;
      assert ([ExportLine(vars[0])] + rest)[1..] == rest;
      assert ExportLine(vars[0]) + "\n" + (ExportLines(vars[1..]) + MARKER_END)
          == ExportLine(vars[0]) + "\n" + ExportLines(vars[1..]) + MARKER_END;
    }
  }

  lemma {:induction false} AllLinesSnoc(vars: seq<Var>, v: Var)
    ensures AllLines(vars + [v]) == AllLines(vars) + [ExportLine(v)]
  {
    hide ExportLine;
    if vars == [] {
      assert ([] + [v])[1..] == [];
    } else {
      assert (vars + [v])[1..] == vars[1..] + [v];
      AllLinesSnoc(vars[1..], v);
    }
  }

  /** `buildExportBlock` */
  method BuildExportBlock(vars: seq<Var>) returns (block: string)
    ensures block == Block(vars)
  {
    hide ExportLine, ExportLines;
    var lines := [MARKER_BEGIN];
    for i := 0 to |vars|
      invariant lines == [MARKER_BEGIN] + AllLines(vars[..i])
    {
      assert vars[..i + 1] == vars[..i] + [vars[i]];
      AllLinesSnoc(vars[..i], vars[i]);
      lines := lines + [ExportLine(vars[i])];
    }
    assert vars[..|vars|] == vars;
    lines := lines + [MARKER_END];
    JoinLines(vars);
    assert lines[1..] == AllLines(vars) + [MARKER_END];
    assert MARKER_BEGIN + "\n" + (ExportLines(vars) + MARKER_END) == Block(vars);
    return Join(lines, "\n");
  }

  // ---- finding the old block ----

  /** The first place from `from` on where `p` stands. */
  function Find(s: string, p: string, from: nat): (r: Maybe<nat>)
    ensures r.Just? ==> r.value >= from && At(s, r.value, p) && forall k | from <= k < r.value :: !At(s, k, p)
    ensures r.Nothing? ==> forall k | k >= from :: !At(s, k, p)
    decreases |s| - from
  {
    if from + |p| > |s| then Nothing
    else if At(s, from, p) then Just(from)
    else Find(s, p, from + 1)
  }

  datatype Match = NoMatch | Match(start: nat, end: nat)

  /** `BEGIN[\s\S]*?END`: from the first begin marker to the first end marker after it. */
  function FindMatch(s: string): (m: Match)
    ensures m.Match? ==> m.start < m.end <= |s|
  {
    match Find(s, MARKER_BEGIN, 0)
    case Nothing => NoMatch
    case Just(i) =>
      match Find(s, MARKER_END, i + |MARKER_BEGIN|)
      case Nothing => NoMatch
      case Just(j) => Match(i, j + |MARKER_END|)
  }

  /** Some way the pattern can match. */
  predicate Matches(s: string, i: nat, j: nat) {
    At(s, i, MARKER_BEGIN) && i + |MARKER_BEGIN| + |MARKER_END| <= j && At(s, j - |MARKER_END|, MARKER_END)
  }

  /** The match found is the one a regular expression engine takes: the leftmost, and of those the shortest. */
  lemma MatchIsLeftmostShortest(s: string, i: nat, j: nat)
    requires Matches(s, i, j)
    ensures var m := FindMatch(s);
            m.Match? && Matches(s, m.start, m.end) && m.start <= i && (m.start == i ==> m.end <= j)
  {
    hide Find;
    FindIsFirst(s, MARKER_BEGIN, 0, i);
    var start := Find(s, MARKER_BEGIN, 0).value;
    FindIsFirst(s, MARKER_END, start + |MARKER_BEGIN|, j - |MARKER_END|);
  }

  lemma FindIsFirst(s: string, p: string, from: nat, k: nat)
    requires from <= k && At(s, k, p)
    ensures Find(s, p, from).Just? && from <= Find(s, p, from).value <= k && At(s, Find(s, p, from).value, p)
  {
    hide At;
  }

  // ---- rewriting the file ----

  function NewlineEnded(s: string): (r: string) {
    if s == "" || s[|s| - 1] == '\n' then s else s + "\n"
  }

  /** What stands in the new text as its block: an appended block is written as it is, a replacing one is expanded. */
  function Written(existing: string, vars: seq<Var>): (r: string) {
    match FindMatch(existing)
    case NoMatch => Block(vars)
    case Match(i, j) => Expanded(Block(vars), existing[i..j], existing[..i], existing[j..])
  }

  /** The new text of the rc file. */
  function Persisted(existing: string, vars: seq<Var>): (r: string) {
    match FindMatch(existing)
    case NoMatch => NewlineEnded(existing) + "\n" + Written(existing, vars) + "\n"
    case Match(i, j) => existing[..i] + Written(existing, vars) + existing[j..]
  }

  class RcFile {
    var text: Maybe<string>

    constructor (text: Maybe<string>)
      ensures this.text == text
    {
      this.text := text;
    }

    /** `persistUnix`; a file that is not there reads as empty. */
    method PersistUnix(vars: seq<Var>, writes: bool) returns (ok: bool)
      modifies this
      ensures ok == writes
      ensures text == if writes then Just(Persisted(if old(text).Just? then old(text).value else "", vars))
                      else old(text)
    {
      var existing := if text.Just? then text.value else "";
      var block := BuildExportBlock(vars);
      var m := FindMatch(existing);
      var next;
      if m.Match? {
        next := existing[..m.start] + Expanded(block, existing[m.start..m.end], existing[..m.start], existing[m.end..])
                + existing[m.end..];
      } else {
        next := NewlineEnded(existing) + "\n" + block + "\n";
      }
      if !writes { return false; }
      text := Just(next);
      return true;
    }
  }

  /** Whatever was in the file outside an old block stays, in place, whatever the values; an appended block is
      literal, and one that replaces another is when it holds none of the four pairs. */
  lemma OutsideKept(existing: string, vars: seq<Var>)
    ensures match FindMatch(existing)
            case NoMatch => exists gap | gap in {"\n", "\n\n"} ::
                              Persisted(existing, vars) == existing + gap + Block(vars) + "\n"
            case Match(i, j) => exists block :: && Persisted(existing, vars) == existing[..i] + block + existing[j..]
                                                && (!HasSpecial(Block(vars)) ==> block == Block(vars))
  {
    hide Block;
    match FindMatch(existing)
    case NoMatch =>
      var gap := if NewlineEnded(existing) == existing then "\n" else "\n\n";
      assert gap in {"\n", "\n\n"} && NewlineEnded(existing) + "\n" == existing + gap;
    case Match(i, j) =>
      if !HasSpecial(Block(vars)) { LiteralWithoutPairs(existing, vars); }
      assert Persisted(existing, vars) == existing[..i] + Written(existing, vars) + existing[j..];
  }

  lemma LiteralWithoutPairs(existing: string, vars: seq<Var>)
    requires !HasSpecial(Block(vars))
    ensures Written(existing, vars) == Block(vars)
  {
    hide Block;
    match FindMatch(existing)
    case NoMatch =>
    case Match(i, j) => PlainExpands(Block(vars), existing[i..j], existing[..i], existing[j..]);
  }

  // ---- once is enough ----

  predicate Occurs(s: string, p: string) {
    exists i :: 0 <= i <= |s| && At(s, i, p)
  }

  predicate LegalKey(key: string) {
    key != "" && !IsDigit(key[0])
    && forall c <- key :: IsDigit(c) || c == '_' || 'a' <= c <= 'z' || 'A' <= c <= 'Z'
  }

  predicate LegalKeys(vars: seq<Var>) {
    forall v <- vars :: LegalKey(v.key)
  }

  /** No value holds the end marker. */
  predicate EndFree(vars: seq<Var>) {
    forall v <- vars :: !Occurs(v.value, MARKER_END)
  }

  /** A begin marker with no end marker after it. */
  predicate StrayBegin(s: string) {
    Find(s, MARKER_BEGIN, 0).Just? && FindMatch(s).NoMatch?
  }

  /** A marker cannot stretch over a character it does not have. */
  lemma NotAcross(s: string, i: nat, p: string, k: nat)
    requires At(s, i, p) && i <= k < i + |p|
    ensures s[k] in p && s[k] == p[k - i]
  {
    assert s[i..i + |p|][k - i] == s[k];
  }

  lemma AtPart(s: string, lo: nat, hi: nat, i: nat, p: string)
    requires lo <= hi <= |s| && i + |p| <= hi - lo
    ensures At(s[lo..hi], i, p) <==> At(s, lo + i, p)
  {
    SliceOfSlice(s, lo, hi, i, i + |p|);
  }

  lemma SliceOfSlice(s: string, lo: nat, hi: nat, i: nat, j: nat)
    requires lo <= hi <= |s| && i <= j <= hi - lo
    ensures s[lo..hi][i..j] == s[lo + i..lo + j]
  {
    var a, b := s[lo..hi][i..j], s[lo + i..lo + j];
    forall k | 0 <= k < |a| ensures a[k] == b[k] {
    }
  }

  lemma AtAfter(a: string, b: string, i: nat, p: string)
    ensures At(a + b, |a| + i, p) <==> At(b, i, p)
  {
    if i + |p| <= |b| {
      assert (a + b)[|a| + i..|a| + i + |p|] == b[i..i + |p|];
    }
  }

  lemma AtWithin(a: string, b: string, i: nat, p: string)
    requires i + |p| <= |a|
    ensures At(a + b, i, p) <==> At(a, i, p)
  {
    assert (a + b)[i..i + |p|] == a[i..i + |p|];
  }

  /** The end marker starts with its only `#` and holds no quote and no line break. */
  lemma EndMarker()
    ensures MARKER_END[0] == '#' && '\'' !in MARKER_END && '\n' !in MARKER_END
    ensures forall k | 0 < k < |MARKER_END| :: MARKER_END[k] != '#'
    ensures |MARKER_END| == |MARKER_BEGIN| == 26 && MARKER_BEGIN[2] == '>' && MARKER_END[2] == '<'
    ensures '\n' !in MARKER_BEGIN && forall k | 0 < k < |MARKER_BEGIN| :: MARKER_BEGIN[k] != '#'
  {
    EndMarkerChars();
    BeginMarkerChars();
  }

  lemma EndMarkerChars()
    ensures MARKER_END[0] == '#' && '\'' !in MARKER_END && '\n' !in MARKER_END && MARKER_END[2] == '<'
    ensures |MARKER_END| == 26 && forall k | 0 < k < |MARKER_END| :: MARKER_END[k] != '#'
  {
  }

  lemma BeginMarkerChars()
    ensures '\n' !in MARKER_BEGIN && MARKER_BEGIN[2] == '>'
    ensures |MARKER_BEGIN| == 26 && forall k | 0 < k < |MARKER_BEGIN| :: MARKER_BEGIN[k] != '#'
  {
  }

  lemma QuotedFirst(v: string, rest: string)
    ensures var t := Quoted(v) + "'" + rest;
            && t != "" && (t[0] == '\'' <==> v == "" || v[0] == '\'')
            && (v != "" && v[0] == '\'' ==> t == "'\\''" + (Quoted(v[1..]) + "'" + rest) && t[..4] == "'\\''")
            && (v != "" && v[0] != '\'' ==> t == [v[0]] + (Quoted(v[1..]) + "'" + rest))
  {
    if v != "" {
      Grouped(if v[0] == '\'' then "'\\''" else [v[0]], Quoted(v[1..]), rest);
    }
  }

  lemma Grouped(head: string, q: string, rest: string)
    requires head != ""
    ensures head + q + "'" + rest == head + (q + "'" + rest)
    ensures (head + q + "'" + rest)[..|head|] == head && (head + q + "'" + rest)[0] == head[0]
  {
  }

  /** A stretch without quotes at the front of a quoted value is the front of the value. */
  lemma {:induction false} QuotedFront(v: string, rest: string, n: nat)
    requires var t := Quoted(v) + "'" + rest; n <= |t| && forall k | 0 <= k < n :: t[k] != '\''
    ensures n <= |v| && v[..n] == (Quoted(v) + "'" + rest)[..n]
  {
    var t := Quoted(v) + "'" + rest;
    if n > 0 {
      QuotedFirst(v, rest);
      var t' := Quoted(v[1..]) + "'" + rest;
      assert t == [v[0]] + t';
      forall k | 0 <= k < n - 1 ensures t'[k] != '\'' { assert t[k + 1] == t'[k]; }
      QuotedFront(v[1..], rest, n - 1);
      assert v[..n] == [v[0]] + v[1..][..n - 1];
    }
  }

  lemma HashIsNotQuoting(t: string, i: nat)
    requires |t| >= 4 && t[..4] == "'\\''" && i < |t| && t[i] == '#'
    ensures i >= 4
  {
    assert forall k | 0 <= k < 4 :: t[..4][k] == t[k];
  }

  lemma FirstChar(s: string, i: nat)
    requires At(s, i, MARKER_END)
    ensures i < |s| && s[i] == '#'
  {
    EndMarker();
    NotAcross(s, i, MARKER_END, i);
  }

  lemma QuotedLength(v: string)
    ensures |Quoted(v)| == if v == "" then 0 else (if v[0] == '\'' then 4 else 1) + |Quoted(v[1..])|
  {
  }

  lemma EndInFront(v: string, rest: string)
    requires At(Quoted(v) + "'" + rest, 0, MARKER_END)
    ensures Occurs(v, MARKER_END)
  {
    hide Quoted;
    var t := Quoted(v) + "'" + rest;
    EndMarker();
    forall k | 0 <= k < |MARKER_END| ensures t[k] != '\'' { NotAcross(t, 0, MARKER_END, k); }
    AtIsInside(t, 0, MARKER_END);
    QuotedFront(v, rest, |MARKER_END|);
    assert At(v, 0, MARKER_END);
  }

  /** The end marker stands in a quoted value only where it stands in the value. */
  lemma {:induction false} EndInQuoted(v: string, rest: string, i: nat)
    requires At(Quoted(v) + "'" + rest, i, MARKER_END) && i <= |Quoted(v)|
    ensures Occurs(v, MARKER_END)
  {
    hide Quoted, Occurs, At;
    QuotedLength(v);
    var t := Quoted(v) + "'" + rest;
    EndMarker();
    QuotedFirst(v, rest);
    FirstChar(t, i);
    if v == "" {
    } else if v[0] == '\'' {
      var tail := Quoted(v[1..]) + "'" + rest;
      HashIsNotQuoting(t, i);
      AtAfter("'\\''", tail, i - 4, MARKER_END);
      EndInQuoted(v[1..], rest, i - 4);
      OccursTail(v, 1);
    } else if i == 0 {
      EndInFront(v, rest);
    } else {
      var tail := Quoted(v[1..]) + "'" + rest;
      assert t == [v[0]] + tail;
      AtAfter([v[0]], tail, i - 1, MARKER_END);
      EndInQuoted(v[1..], rest, i - 1);
      OccursTail(v, 1);
    }
  }

  lemma OccursTail(v: string, n: nat)
    requires n <= |v| && Occurs(v[n..], MARKER_END)
    ensures Occurs(v, MARKER_END)
  {
    var i :| 0 <= i <= |v[n..]| && At(v[n..], i, MARKER_END);
    assert v[..n] + v[n..] == v;
    AtAfter(v[..n], v[n..], i, MARKER_END);
    assert At(v, n + i, MARKER_END);
  }

  /** And where it stands in the value it stands in the quoted value. */
  lemma {:induction false} EndSurvivesQuoting(v: string, i: nat) returns (j: nat)
    requires At(v, i, MARKER_END)
    ensures At(Quoted(v), j, MARKER_END)
  {
    EndMarker();
    if i == 0 {
      forall k | 0 <= k < |MARKER_END| ensures v[k] != '\'' { NotAcross(v, 0, MARKER_END, k); }
      QuotedPlainFront(v, |MARKER_END|);
      assert Quoted(v)[..|MARKER_END|] == MARKER_END;
      j := 0;
    } else {
      assert v == [v[0]] + v[1..];
      AtAfter([v[0]], v[1..], i - 1, MARKER_END);
      j := EndSurvivesQuoting(v[1..], i - 1);
      var head := if v[0] == '\'' then "'\\''" else [v[0]];
      AtAfter(head, Quoted(v[1..]), j, MARKER_END);
      j := |head| + j;
    }
  }

  lemma {:induction false} QuotedPlainFront(v: string, n: nat)
    requires n <= |v| && forall k | 0 <= k < n :: v[k] != '\''
    ensures n <= |Quoted(v)| && Quoted(v)[..n] == v[..n]
  {
    if n > 0 {
      assert Quoted(v) == [v[0]] + Quoted(v[1..]);
      QuotedPlainFront(v[1..], n - 1);
      assert v[..n] == [v[0]] + v[1..][..n - 1];
      assert Quoted(v)[..n] == [v[0]] + Quoted(v[1..])[..n - 1];
    }
  }

  /** The end marker stands nowhere in the export lines of values that do not hold it. */
  lemma {:induction false} EndNotInLines(vars: seq<Var>, rest: string, i: nat)
    requires LegalKeys(vars) && EndFree(vars) && i < |ExportLines(vars)|
    ensures !At(ExportLines(vars) + rest, i, MARKER_END)
  {
    hide Quoted, Occurs, LegalKey, At, Head;
    var v, tail := vars[0], ExportLines(vars[1..]) + rest;
    assert v in vars && forall w <- vars[1..] :: w in vars;
    var head, inner := Head(v.key), Quoted(v.value) + "'" + ("\n" + tail);
    var t := ExportLines(vars) + rest;
    LineShape(vars, rest);
    if i < |head| {
      assert t[i] == head[i];
      HeadHasNoHash(v.key, i);
      if At(t, i, MARKER_END) { FirstChar(t, i); }
    } else {
      AtAfter(head, inner, i - |head|, MARKER_END);
      EndNotInLine(v.value, tail, i - |head|);
      if i - |head| >= |Quoted(v.value)| + 2 {
        EndNotInLines(vars[1..], rest, i - |head| - |Quoted(v.value)| - 2);
      }
    }
  }

  /** The rest of a line: its value, its closing quote and its line break. */
  lemma EndNotInLine(v: string, tail: string, i: nat)
    requires !Occurs(v, MARKER_END)
    ensures var t, n := Quoted(v) + "'" + ("\n" + tail), |Quoted(v)| + 2;
            if i < n then !At(t, i, MARKER_END) else At(t, i, MARKER_END) <==> At(tail, i - n, MARKER_END)
  {
    hide Occurs, At, Quoted;
    var q := Quoted(v) + "'";
    var t := q + ("\n" + tail);
    if i <= |Quoted(v)| {
      if At(t, i, MARKER_END) { EndInQuoted(v, "\n" + tail, i); }
    } else if i == |q| {
      assert t[i] == '\n';
      if At(t, i, MARKER_END) { FirstChar(t, i); }
    } else {
      assert t == (q + "\n") + tail;
      AtAfter(q + "\n", tail, i - |q| - 1, MARKER_END);
    }
  }

  lemma HeadHasNoHash(key: string, i: nat)
    requires LegalKey(key) && i < |Head(key)|
    ensures Head(key)[i] != '#'
  {
    if 7 <= i < 7 + |key| {
      assert Head(key)[i] == key[i - 7] && key[i - 7] in key;
    }
  }

  /** In a block of such values the first end marker after the begin marker is its own. */
  lemma BlockEnds(a: string, vars: seq<Var>, b: string)
    requires LegalKeys(vars) && EndFree(vars)
    ensures Find(a + Block(vars) + b, MARKER_END, |a| + |MARKER_BEGIN|) == Just(|a| + |Block(vars)| - |MARKER_END|)
  {
    hide ExportLines, At, LegalKeys, EndFree, Block;
    var t := a + Block(vars) + b;
    var head, lines := a + MARKER_BEGIN + "\n", ExportLines(vars);
    var from, own := |a| + |MARKER_BEGIN|, |a| + |Block(vars)| - |MARKER_END|;
    BlockShape(a, vars, b);
    OwnMarker(head + lines, b);
    FindIsFirst(t, MARKER_END, from, own);
    forall k | from <= k < own
      ensures !At(t, k, MARKER_END)
    {
      if k == from {
        assert t[from] == head[from] == '\n';
        if At(t, k, MARKER_END) { FirstChar(t, k); }
      } else {
        AtAfter(head, lines + (MARKER_END + b), k - |head|, MARKER_END);
        EndNotInLines(vars, MARKER_END + b, k - |head|);
      }
    }
  }

  lemma BlockShape(a: string, vars: seq<Var>, b: string)
    ensures var head, lines := a + MARKER_BEGIN + "\n", ExportLines(vars);
            && a + Block(vars) + b == head + (lines + (MARKER_END + b)) == head + lines + MARKER_END + b
            && |a| + |Block(vars)| == |head| + |lines| + |MARKER_END|
            && head[|a| + |MARKER_BEGIN|] == '\n'
  {
    hide ExportLines;
    Regrouped3(a, MARKER_BEGIN, "\n", ExportLines(vars), MARKER_END, b);
  }

  lemma Regrouped3(a: string, c: string, d: string, l: string, e: string, b: string)
    ensures a + (c + d + l + e) + b == (a + c + d) + (l + (e + b)) == (a + c + d) + l + e + b
  {
  }

  lemma OwnMarker(head: string, b: string)
    ensures At(head + MARKER_END + b, |head|, MARKER_END)
  {
    assert (head + MARKER_END + b)[|head|..|head| + |MARKER_END|] == MARKER_END;
  }

  /** No begin marker starts before the end of `a` when a begin marker follows it. */
  predicate First(a: string) {
    forall k | 0 <= k < |a| :: !At(a + MARKER_BEGIN, k, MARKER_BEGIN)
  }

  lemma FirstBegin(a: string, c: string)
    requires First(a)
    ensures Find(a + MARKER_BEGIN + c, MARKER_BEGIN, 0) == Just(|a|)
  {
    var t := a + MARKER_BEGIN + c;
    assert t[|a|..|a| + |MARKER_BEGIN|] == MARKER_BEGIN;
    FindIsFirst(t, MARKER_BEGIN, 0, |a|);
    var k := Find(t, MARKER_BEGIN, 0).value;
    if k < |a| {
      AtWithin(a + MARKER_BEGIN, c, k, MARKER_BEGIN);
    }
  }

  /** The block just written is found again, whole. */
  lemma OwnBlockFound(a: string, vars: seq<Var>, b: string)
    requires First(a) && LegalKeys(vars) && EndFree(vars)
    ensures FindMatch(a + Block(vars) + b) == Match(|a|, |a| + |Block(vars)|)
  {
    hide First, Find, LegalKeys, EndFree, At, ExportLines, Block;
    var c := "\n" + (ExportLines(vars) + (MARKER_END + b));
    FirstBegin(a, c);
    BlockShape(a, vars, b);
    assert a + MARKER_BEGIN + c == a + MARKER_BEGIN + "\n" + (ExportLines(vars) + (MARKER_END + b));
    BlockEnds(a, vars, b);
  }

  /** The text before a match, and the text before an appended block, have no begin marker of their own. */
  lemma MatchIsFirst(s: string)
    requires FindMatch(s).Match?
    ensures First(s[..FindMatch(s).start])
  {
    var i := FindMatch(s).start;
    forall k | 0 <= k < i
      ensures !At(s[..i] + MARKER_BEGIN, k, MARKER_BEGIN)
    {
      assert s[..i] + MARKER_BEGIN == s[0..i + |MARKER_BEGIN|];
      AtPart(s, 0, i + |MARKER_BEGIN|, k, MARKER_BEGIN);
    }
  }

  lemma AppendIsFirst(s: string)
    requires Find(s, MARKER_BEGIN, 0).Nothing?
    ensures First(NewlineEnded(s) + "\n")
  {
    hide Find;
    var a := NewlineEnded(s) + "\n";
    forall k | 0 <= k < |a|
      ensures !At(a + MARKER_BEGIN, k, MARKER_BEGIN)
    {
      if At(a + MARKER_BEGIN, k, MARKER_BEGIN) { InTheOldText(s, k); }
    }
  }

  lemma InTheOldText(s: string, k: nat)
    requires var a := NewlineEnded(s) + "\n"; k < |a| && At(a + MARKER_BEGIN, k, MARKER_BEGIN)
    ensures At(s, k, MARKER_BEGIN)
  {
    var e := NewlineEnded(s);
    var t := e + "\n" + MARKER_BEGIN;
    assert t[|e|] == '\n';
    BeforeNewline(t, k, |e|);
    assert t == s + t[|s|..];
    if |s| < |e| {
      assert t[|s|] == '\n';
      BeforeNewline(t, k, |s|);
    }
    AtWithin(s, t[|s|..], k, MARKER_BEGIN);
  }

  lemma BeforeNewline(t: string, k: nat, n: nat)
    requires At(t, k, MARKER_BEGIN) && k <= n < |t| && t[n] == '\n'
    ensures k + |MARKER_BEGIN| <= n
  {
    EndMarker();
    if n < k + |MARKER_BEGIN| { NotAcross(t, k, MARKER_BEGIN, n); }
  }

  /** The new text is what is written between what stays before and after it. */
  lemma Parts(existing: string, vars: seq<Var>) returns (a: string, b: string)
    ensures Persisted(existing, vars) == a + Written(existing, vars) + b
    ensures match FindMatch(existing)
            case NoMatch => a == NewlineEnded(existing) + "\n" && b == "\n"
            case Match(i, j) => a == existing[..i] && b == existing[j..]
    ensures !StrayBegin(existing) ==> First(a)
  {
    hide Block, First, Find;
    match FindMatch(existing) {
      case NoMatch =>
        a, b := NewlineEnded(existing) + "\n", "\n";
        if !StrayBegin(existing) { AppendIsFirst(existing); }
      case Match(i, j) =>
        a, b := existing[..i], existing[j..];
        MatchIsFirst(existing);
    }
  }

  /** A text stays as it is when what is written is what was found, and only then. */
  lemma FixedWhenFound(t: string, vars: seq<Var>)
    requires FindMatch(t).Match?
    ensures var m := FindMatch(t);
            Persisted(t, vars) == t <==> t[m.start..m.end] == Written(t, vars)
  {
    hide Written;
    var m := FindMatch(t);
    var a, had, b := t[..m.start], t[m.start..m.end], t[m.end..];
    var w := Written(t, vars);
    assert t == a + had + b;
    if a + w + b == a + had + b {
      assert |w| == |had|;
      assert (a + w + b)[|a|..|a| + |had|] == w;
      assert (a + had + b)[|a|..|a| + |had|] == had;
    }
  }

  lemma {:induction false} EndInLines(vars: seq<Var>, rest: string) returns (p: nat)
    requires !EndFree(vars)
    ensures p + |MARKER_END| <= |ExportLines(vars)| && At(ExportLines(vars) + rest, p, MARKER_END)
  {
    hide Quoted, At, Head, Occurs;
    var v, tail := vars[0], ExportLines(vars[1..]) + rest;
    var q := Quoted(v.value) + "'";
    LineShape(vars, rest);
    LineLength(vars);
    if Occurs(v.value, MARKER_END) {
      p := EndInLine(v.value, tail);
    } else {
      p := EndInLines(vars[1..], rest);
      Regroup(q, "\n", tail);
      AtAfter(q + "\n", tail, p, MARKER_END);
      p := |q| + 1 + p;
    }
    AtAfter(Head(v.key), q + ("\n" + tail), p, MARKER_END);
    p := |Head(v.key)| + p;
  }

  lemma LineLength(vars: seq<Var>)
    requires vars != []
    ensures |ExportLines(vars)| == |Head(vars[0].key)| + |Quoted(vars[0].value)| + 2 + |ExportLines(vars[1..])|
  {
    hide Head, Quoted;
  }

  lemma EndInLine(v: string, tail: string) returns (p: nat)
    requires Occurs(v, MARKER_END)
    ensures p + |MARKER_END| <= |Quoted(v)| && At(Quoted(v) + "'" + ("\n" + tail), p, MARKER_END)
  {
    hide Quoted, At, Occurs;
    p := EndInQuotedAgain(v);
    AtFits(Quoted(v), p);
    AtWithin(Quoted(v), "'", p, MARKER_END);
    AtWithin(Quoted(v) + "'", "\n" + tail, p, MARKER_END);
  }

  lemma EndInQuotedAgain(v: string) returns (p: nat)
    requires Occurs(v, MARKER_END)
    ensures At(Quoted(v), p, MARKER_END)
  {
    var i :| 0 <= i <= |v| && At(v, i, MARKER_END);
    p := EndSurvivesQuoting(v, i);
  }

  lemma AtFits(s: string, i: nat)
    requires At(s, i, MARKER_END)
    ensures i + |MARKER_END| <= |s|
  {
  }

  /** A block that holds the end marker in a value is never found whole: its text ends early. */
  lemma NeverWhole(t: string, vars: seq<Var>)
    requires FindMatch(t).Match? && !EndFree(vars)
    ensures var m := FindMatch(t); t[m.start..m.end] != Written(t, vars)
  {
    hide FindMatch, EndFree, At, Block;
    var m := FindMatch(t);
    var head, inner := EndInWritten(t, vars);
    var w := head + MARKER_END + inner + MARKER_END;
    if t[m.start..m.end] == w {
      OwnMarker(head, inner + MARKER_END);
      assert w == head + MARKER_END + (inner + MARKER_END);
      NoEndInside(t, |head|);
      AtPart(t, m.start, m.end, |head|, MARKER_END);
    }
  }

  /** No pair reaches into an end marker, so expanding keeps the one in the value. */
  lemma EndInWritten(t: string, vars: seq<Var>) returns (head: string, inner: string)
    requires FindMatch(t).Match? && !EndFree(vars)
    ensures Written(t, vars) == head + MARKER_END + inner + MARKER_END && |head| >= |MARKER_BEGIN|
  {
    hide FindMatch, EndFree, ExportLines, Expanded, At, HasSpecial;
    var lines, start := ExportLines(vars), MARKER_BEGIN + "\n";
    var p := EndInLines(vars, "");
    assert lines + "" == lines;
    var u, x := lines[..p], lines[p + |MARKER_END|..];
    CutAround(lines, p);
    var i, j := FindMatch(t).start, FindMatch(t).end;
    var m, b, a := t[i..j], t[..i], t[j..];
    EndHasNoPairs();
    assert Block(vars) == start + (u + (MARKER_END + (x + MARKER_END)));
    ExpandedHead(start, u + (MARKER_END + (x + MARKER_END)), m, b, a);
    ExpandedJoin(u, MARKER_END + (x + MARKER_END), m, b, a);
    ExpandedHead(MARKER_END, x + MARKER_END, m, b, a);
    ExpandedJoin(x, MARKER_END, m, b, a);
    PlainExpands(MARKER_END, m, b, a);
    head, inner := start + Expanded(u, m, b, a), Expanded(x, m, b, a);
  }

  lemma CutAround(s: string, p: nat)
    requires At(s, p, MARKER_END)
    ensures p + |MARKER_END| <= |s| && s == s[..p] + (MARKER_END + s[p + |MARKER_END|..])
  {
  }

  lemma EndHasNoPairs()
    ensures '$' !in MARKER_END && '$' !in MARKER_BEGIN + "\n" && !HasSpecial(MARKER_END)
    ensures !Special('$', MARKER_END[0])
  {
    assert MARKER_END + "" == MARKER_END;
    NoDollarSkips(MARKER_END, "");
    NoneInEmpty();
  }

  lemma NoEndInside(t: string, q: nat)
    requires var m := FindMatch(t); m.Match? && |MARKER_BEGIN| <= q < m.end - m.start - |MARKER_END|
    ensures !At(t, FindMatch(t).start + q, MARKER_END)
  {
    hide At;
  }

  /** With a stray begin marker, what the second run matches starts before the block the first one wrote. */
  lemma StrayMatchesEarlier(existing: string, vars: seq<Var>, b: string)
    requires StrayBegin(existing) && LegalKeys(vars) && EndFree(vars)
    ensures var a := NewlineEnded(existing) + "\n";
            var m := FindMatch(a + Block(vars) + b);
            m.Match? && m.start < |a| && m.end == |a| + |Block(vars)|
  {
    hide LegalKeys, EndFree, ExportLines, At, Find;
    var a := NewlineEnded(existing) + "\n";
    var t := a + Block(vars) + b;
    var first := Find(existing, MARKER_BEGIN, 0).value;
    AtIsInside(existing, first, MARKER_BEGIN);
    assert t == existing + t[|existing|..];
    AtWithin(existing, t[|existing|..], first, MARKER_BEGIN);
    FindIsFirst(t, MARKER_BEGIN, 0, first);
    var start := Find(t, MARKER_BEGIN, 0).value;
    assert t == a + MARKER_BEGIN + t[|a| + |MARKER_BEGIN|..];
    AtWithin(a + MARKER_BEGIN, t[|a| + |MARKER_BEGIN|..], start, MARKER_BEGIN);
    InTheOldText(existing, start);
    FindIsFirst(existing, MARKER_BEGIN, 0, start);
    StrayHasNoEnd(existing);
    BlockEnds(a, vars, b);
    var own := |a| + |Block(vars)| - |MARKER_END|;
    assert t[..|a + MARKER_BEGIN|] == a + MARKER_BEGIN;
    FirstAfterStray(existing, t, first, own);
  }

  lemma StrayHasNoEnd(s: string)
    requires StrayBegin(s)
    ensures var first := Find(s, MARKER_BEGIN, 0);
            first.Just? && forall k | k >= first.value + |MARKER_BEGIN| :: !At(s, k, MARKER_END)
  {
    hide At;
  }

  lemma FirstAfterStray(s: string, t: string, first: nat, own: nat)
    requires var a := NewlineEnded(s) + "\n";
             && first < |s| && |a + MARKER_BEGIN| <= |t| && t[..|a + MARKER_BEGIN|] == a + MARKER_BEGIN
             && Find(t, MARKER_END, |a| + |MARKER_BEGIN|) == Just(own)
    requires forall k | k >= first + |MARKER_BEGIN| :: !At(s, k, MARKER_END)
    ensures Find(t, MARKER_END, first + |MARKER_BEGIN|) == Just(own)
  {
    hide At, Find;
    var a := NewlineEnded(s) + "\n";
    FindIsFirst(t, MARKER_END, first + |MARKER_BEGIN|, own);
    forall k | first + |MARKER_BEGIN| <= k < own
      ensures !At(t, k, MARKER_END)
    {
      if k < |a| + |MARKER_BEGIN| {
        if At(t, k, MARKER_END) { EndInTheOldText(s, t, k); }
      }
    }
  }

  lemma AtIsInside(s: string, i: nat, p: string)
    requires At(s, i, p)
    ensures i + |p| <= |s|
  {
  }

  lemma EndInTheOldText(s: string, t: string, k: nat)
    requires var a := NewlineEnded(s) + "\n";
             k < |a + MARKER_BEGIN| <= |t| && t[..|a + MARKER_BEGIN|] == a + MARKER_BEGIN && At(t, k, MARKER_END)
    ensures At(s, k, MARKER_END)
  {
    hide At;
    var e := NewlineEnded(s);
    var c := e + "\n" + MARKER_BEGIN;
    EndMarker();
    assert t[|e|] == c[|e|] == '\n';
    if k > |e| { InBegin(t, |e| + 1, k); }
    EndBeforeNewline(t, k, |e|);
    assert t == s + t[|s|..] by { assert t[..|s|] == c[..|s|] == s; }
    if |s| < |e| {
      assert t[|s|] == c[|s|] == '\n';
      EndBeforeNewline(t, k, |s|);
    }
    AtWithin(s, t[|s|..], k, MARKER_END);
  }

  /** No end marker starts inside a begin marker. */
  lemma InBegin(t: string, n: nat, k: nat)
    requires n <= k < n + |MARKER_BEGIN| <= |t| && t[n..n + |MARKER_BEGIN|] == MARKER_BEGIN
    ensures !At(t, k, MARKER_END)
  {
    hide At;
    EndMarker();
    assert t[k] == t[n..n + |MARKER_BEGIN|][k - n] && t[n + 2] == t[n..n + |MARKER_BEGIN|][2];
    if At(t, k, MARKER_END) {
      FirstChar(t, k);
      NotAcross(t, k, MARKER_END, k + 2);
    }
  }

  lemma EndBeforeNewline(t: string, k: nat, n: nat)
    requires At(t, k, MARKER_END) && k <= n < |t| && t[n] == '\n'
    ensures k + |MARKER_END| <= n
  {
    EndMarker();
    if n < k + |MARKER_END| { NotAcross(t, k, MARKER_END, n); }
  }

  lemma StrayHasNoMatch(existing: string)
    ensures StrayBegin(existing) ==> FindMatch(existing).NoMatch?
  {
  }

  lemma MatchSomewhere(existing: string, a: string, vars: seq<Var>, b: string)
    ensures FindMatch(a + Written(existing, vars) + b).Match?
  {
    hide FindMatch, Written;
    var lines := WrittenShape(existing, vars);
    BlockAround(a, MARKER_BEGIN, lines, MARKER_END, b);
    var t := a + Written(existing, vars) + b;
    MatchIsLeftmostShortest(t, |a|, |a| + |Written(existing, vars)|);
  }

  /** Between its markers the block may be expanded; the markers themselves are kept. */
  lemma WrittenShape(existing: string, vars: seq<Var>) returns (lines: string)
    ensures Written(existing, vars) == MARKER_BEGIN + lines + MARKER_END
  {
    hide FindMatch, ExportLines, Expanded;
    lines := "\n" + ExportLines(vars);
    match FindMatch(existing) {
      case NoMatch =>
      case Match(i, j) =>
        var m, b, a := existing[i..j], existing[..i], existing[j..];
        EndHasNoPairs();
        assert Block(vars) == MARKER_BEGIN + (lines + MARKER_END);
        ExpandedHead(MARKER_BEGIN, lines + MARKER_END, m, b, a);
        ExpandedJoin(lines, MARKER_END, m, b, a);
        PlainExpands(MARKER_END, m, b, a);
        lines := Expanded(lines, m, b, a);
    }
  }

  lemma BlockAround(a: string, begin: string, lines: string, end: string, b: string)
    ensures var t := a + (begin + lines + end) + b;
            At(t, |a|, begin) && At(t, |a| + |begin + lines|, end)
  {
    var t := a + (begin + lines + end) + b;
    assert t[|a|..|a| + |begin|] == begin;
    assert t[|a| + |begin + lines|..|a| + |begin + lines| + |end|] == end;
  }

  // ---- which values have a special pair ----

  lemma {:induction false} QuotedSpecial(v: string, rest: string)
    ensures HasSpecial(Quoted(v) + "'" + rest) <==> HasSpecial(v + "'") || HasSpecial(rest)
  {
    hide HasSpecial, Quoted;
    QuotedFirst(v, rest);
    if v == "" {
      QuotedEmpty();
      assert Quoted(v) + "'" + rest == "'" + rest;
      NoDollarSkips("'", rest);
      NoDollarSkips("'", "");
      NoneInEmpty();
      assert v + "'" == "'" + "";
    } else {
      var t := Quoted(v[1..]) + "'" + rest;
      QuotedSpecial(v[1..], rest);
      QuotedFirst(v[1..], rest);
      assert v + "'" == [v[0]] + (v[1..] + "'");
      SpecialCons(v[0], v[1..] + "'");
      if v[0] == '\'' {
        NoDollarSkips("'\\''", t);
      } else {
        SpecialCons(v[0], t);
        QuotedHead(v[1..], rest);
      }
    }
  }

  lemma QuotedEmpty()
    ensures Quoted("") == ""
  {
  }

  /** Quoting keeps the first character: a quote stays a quote. */
  lemma QuotedHead(v: string, rest: string)
    ensures Quoted(v) + "'" + rest != "" && (Quoted(v) + "'" + rest)[0] == (v + "'")[0]
  {
  }

  lemma {:induction false} LinesSpecial(vars: seq<Var>, rest: string)
    requires LegalKeys(vars)
    ensures HasSpecial(ExportLines(vars) + rest) <==> HasSpecial(rest) || exists v <- vars :: HasSpecial(v.value + "'")
  {
    hide HasSpecial, Quoted, LegalKey, Head;
    if vars == [] {
      assert ExportLines(vars) + rest == rest;
    } else {
      var v, more := vars[0], ExportLines(vars[1..]) + rest;
      assert v in vars && forall w <- vars[1..] :: w in vars;
      LinesSpecial(vars[1..], rest);
      LineShape(vars, rest);
      HeadHasNoDollar(v.key);
      NoDollarSkips(Head(v.key), Quoted(v.value) + "'" + ("\n" + more));
      QuotedSpecial(v.value, "\n" + more);
      NoDollarSkips("\n", more);
      assert forall w | w in vars :: w == v || w in vars[1..];
    }
  }

  lemma HeadHasNoDollar(key: string)
    requires LegalKey(key)
    ensures '$' !in Head(key)
  {
  }

  /** A block has a special pair exactly when some value, with the closing quote after it, has one: so a value may
      not even end in a dollar. */
  lemma SpecialExactly(vars: seq<Var>)
    requires LegalKeys(vars)
    ensures HasSpecial(Block(vars)) <==> exists v <- vars :: HasSpecial(v.value + "'")
  {
    hide HasSpecial, ExportLines;
    assert Block(vars) == (MARKER_BEGIN + "\n") + (ExportLines(vars) + MARKER_END);
    NoDollarSkips(MARKER_BEGIN + "\n", ExportLines(vars) + MARKER_END);
    LinesSpecial(vars, MARKER_END);
    assert MARKER_END == MARKER_END + "";
    NoDollarSkips(MARKER_END, "");
    NoneInEmpty();
  }
}
