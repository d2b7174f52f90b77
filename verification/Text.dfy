/** String operations of ECMAScript that the modelled files rely on: white space, `trim`, `indexOf`,
    `split` and `join`. */
module Text {

  /** White space above ASCII. */
  predicate IsWideSpace(c: char)
    requires c > '\U{7F}'
  {
    var n := c as int;
    || n == 0xA0 || n == 0x1680 || 0x2000 <= n <= 0x200A || n == 0x2028 || n == 0x2029 || n == 0x202F
    || n == 0x205F || n == 0x3000 || n == 0xFEFF
  }

  /** WhiteSpace and LineTerminator of ECMA-262: what both `\s` and `trim` recognise. */
  predicate IsSpace(c: char) {
    c == ' ' || '\t' <= c <= '\r' || (c > '\U{7F}' && IsWideSpace(c))
  }

  predicate IsDigit(c: char) {
    '0' <= c <= '9'
  }

  predicate AllSpace(s: string) {
    forall i :: 0 <= i < |s| ==> IsSpace(s[i])
  }

  predicate AllDigits(s: string) {
    forall i :: 0 <= i < |s| ==> IsDigit(s[i])
  }

  /** Neither end is white space. */
  predicate Trimmed(s: string) {
    s != "" ==> !IsSpace(s[0]) && !IsSpace(s[|s| - 1])
  }

  function TrimStart(s: string): (r: string)
    ensures |r| <= |s|
  {
    if s != "" && IsSpace(s[0]) then TrimStart(s[1..]) else s
  }

  function TrimEnd(s: string): (r: string)
    ensures |r| <= |s|
  {
    if s != "" && IsSpace(s[|s| - 1]) then TrimEnd(s[..|s| - 1]) else s
  }

  function Trim(s: string): (r: string)
    ensures |r| <= |s|
  {
    TrimEnd(TrimStart(s))
  }

  function Repeat(c: char, n: nat): (r: string)
    ensures |r| == n
    ensures forall i :: 0 <= i < n ==> r[i] == c
  {
    if n == 0 then "" else [c] + Repeat(c, n - 1)
  }

  function IndexOf(s: string, c: char): (i: int)
    ensures -1 <= i < |s|
    ensures i == -1 <==> c !in s
    ensures i >= 0 ==> s[i] == c && c !in s[..i]
  {
    if s == "" then -1
    else if s[0] == c then 0
    else
      var j := IndexOf(s[1..], c);
      if j == -1 then -1 else
        assert s[..j + 1] == [s[0]] + s[1..][..j];
        j + 1
  }

  function StartsWith(s: string, c: char): (r: bool) {
    s != "" && s[0] == c
  }

  function EndsWith(s: string, c: char): (r: bool) {
    s != "" && s[|s| - 1] == c
  }

  /** `s.slice(1, -1)` */
  function Inner(s: string): (r: string)
    ensures |r| <= |s|
    ensures |s| >= 2 ==> |r| == |s| - 2
  {
    if |s| < 2 then "" else s[1..|s| - 1]
  }

  /** The text holds `piece` at position `p`. */
  predicate At(text: string, p: nat, piece: string) {
    p + |piece| <= |text| && text[p..p + |piece|] == piece
  }

  function Join(parts: seq<string>, sep: string): (r: string) {
    if parts == [] then ""
    else if |parts| == 1 then parts[0]
    else parts[0] + sep + Join(parts[1..], sep)
  }

  /** `s.split(sep)` for a one-character separator. */
  function Split(s: string, sep: char): (parts: seq<string>)
    ensures |parts| >= 1
    ensures forall p <- parts :: sep !in p
  {
    if s == "" then [""]
    else
      var rest := Split(s[1..], sep);
      if s[0] == sep then [""] + rest else [[s[0]] + rest[0]] + rest[1..]
  }

  // ---- trimming ----

  lemma {:induction false} TrimStartCut(s: string) returns (before: string)
    ensures s == before + TrimStart(s) && AllSpace(before)
    ensures TrimStart(s) != "" ==> !IsSpace(TrimStart(s)[0])
  {
    if s != "" && IsSpace(s[0]) {
      before := TrimStartCut(s[1..]);
      before := [s[0]] + before;
    } else {
      before := "";
    }
  }

  lemma {:induction false} TrimEndCut(s: string) returns (after: string)
    ensures s == TrimEnd(s) + after && AllSpace(after)
    ensures TrimEnd(s) != "" ==> !IsSpace(TrimEnd(s)[|TrimEnd(s)| - 1])
  {
    if s != "" && IsSpace(s[|s| - 1]) {
      after := TrimEndCut(s[..|s| - 1]);
      after := after + [s[|s| - 1]];
    } else {
      after := "";
    }
  }

  lemma TrimIsTrimmed(s: string)
    ensures Trimmed(Trim(s))
  {
    var _ := TrimStartCut(s);
    var after := TrimEndCut(TrimStart(s));
  }

  lemma {:induction false} TrimStartSkips(ws: string, s: string)
    requires AllSpace(ws)
    ensures TrimStart(ws + s) == TrimStart(s)
  {
    if ws == "" {
      assert ws + s == s;
    } else {
      assert (ws + s)[1..] == ws[1..] + s;
      TrimStartSkips(ws[1..], s);
    }
  }

  lemma {:induction false} TrimEndSkips(s: string, ws: string)
    requires AllSpace(ws)
    ensures TrimEnd(s + ws) == TrimEnd(s)
  {
    if ws == "" {
      assert s + ws == s;
    } else {
      assert (s + ws)[..|s + ws| - 1] == s + ws[..|ws| - 1];
      TrimEndSkips(s, ws[..|ws| - 1]);
    }
  }

  lemma {:induction false} TrimEndKeepsHead(head: string, s: string)
    requires s != "" && !AllSpace(s)
    ensures TrimEnd(head + s) == head + TrimEnd(s)
  {
    if IsSpace(s[|s| - 1]) {
      var t := s[..|s| - 1];
      assert (head + s)[..|head + s| - 1] == head + t;
      assert s == t + [s[|s| - 1]];
      TrimEndKeepsHead(head, t);
    }
  }

  /** A trimmed core is what `trim` finds inside any white space. */
  lemma TrimBetween(before: string, core: string, after: string)
    requires AllSpace(before) && AllSpace(after) && Trimmed(core)
    ensures Trim(before + core + after) == core
  {
    assert before + core + after == before + (core + after);
    TrimStartSkips(before, core + after);
    if core == "" {
      assert core + after == after == after + "";
      TrimStartSkips(after, "");
    } else {
      assert TrimStart(core + after) == core + after;
      TrimEndSkips(core, after);
    }
  }

  lemma TrimOfTrimmed(s: string)
    requires Trimmed(s)
    ensures Trim(s) == s
  {
    TrimBetween("", s, "");
    assert "" + s + "" == s;
  }

  /** Where the trimmed text sits in the original one. */
  lemma TrimDecompose(s: string) returns (before: string, after: string)
    ensures s == before + Trim(s) + after && AllSpace(before) && AllSpace(after)
  {
    before := TrimStartCut(s);
    after := TrimEndCut(TrimStart(s));
  }

  lemma TrimIdempotent(s: string)
    ensures Trim(Trim(s)) == Trim(s)
  {
    TrimIsTrimmed(s);
    TrimOfTrimmed(Trim(s));
  }

  lemma TrimEmptyIff(s: string)
    ensures Trim(s) == "" <==> AllSpace(s)
  {
    if AllSpace(s) {
      TrimBetween(s, "", "");
      assert s + "" + "" == s;
    } else {
      var _, _ := TrimDecompose(s);
    }
  }

  lemma TrimAround(before: string, s: string, after: string)
    requires AllSpace(before) && AllSpace(after)
    ensures Trim(before + s + after) == Trim(s)
  {
    var b, a := TrimDecompose(s);
    TrimIsTrimmed(s);
    assert before + s + after == (before + b) + Trim(s) + (a + after);
    TrimBetween(before + b, Trim(s), a + after);
  }

  // ---- split and join ----

  lemma {:induction false} SplitAtSeparator(head: string, sep: char, tail: string)
    requires sep !in head
    ensures Split(head + [sep] + tail, sep) == [head] + Split(tail, sep)
  {
    var s := head + [sep] + tail;
    if head == "" {
      assert s[1..] == tail;
    } else {
      assert s[1..] == head[1..] + [sep] + tail;
      SplitAtSeparator(head[1..], sep, tail);
      assert Split(s, sep) == [[head[0]] + head[1..]] + Split(tail, sep);
      assert [head[0]] + head[1..] == head;
    }
  }

  lemma {:induction false} SplitWhole(s: string, sep: char)
    requires sep !in s
    ensures Split(s, sep) == [s]
  {
    if s != "" {
      SplitWhole(s[1..], sep);
      assert [s[0]] + s[1..] == s;
    }
  }

  /** `split` undoes `join` on parts that do not hold the separator. */
  lemma {:induction false} SplitJoin(parts: seq<string>, sep: char)
    requires parts != []
    requires forall p <- parts :: sep !in p
    ensures Split(Join(parts, [sep]), sep) == parts
  {
    if |parts| == 1 {
      assert parts == [parts[0]];
      SplitWhole(parts[0], sep);
    } else {
      SplitJoin(parts[1..], sep);
      SplitAtSeparator(parts[0], sep, Join(parts[1..], [sep]));
      assert parts == [parts[0]] + parts[1..];
    }
  }

  // ---- sequence plumbing, stated once for arbitrary pieces ----

  lemma DropFront(a: string, b: string)
    ensures (a + b)[|a|..] == b && (a + b)[..|a|] == a
  {
  }

  lemma Regroup(a: string, b: string, c: string)
    ensures a + b + c == a + (b + c)
  {
  }

  lemma Regroup4(a: string, b: string, c: string, d: string)
    ensures a + b + c + d == a + (b + c + d)
  {
  }

  /** Drops the first character of three joined pieces whose first piece is that character. */
  lemma DropOne(q: string, a: string, b: string, c: string)
    requires |q| == 1
    ensures (q + a + b + c)[1..] == a + b + c && (q + a + b + c)[0] == q[0]
  {
  }
}
