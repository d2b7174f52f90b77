/** `String.prototype.replace` of ECMA-262 with a replacement text: its GetSubstitution, for a pattern without
    groups. */
module Replacement {
  /** The replacement text as `replace` reads it: `$$`, `$&`, `` $` `` and `$'` stand for a dollar, the matched
      text, and what is before and after it. */
  function Expanded(t: string, matched: string, before: string, after: string): (r: string) {
    if t == "" then ""
    else if |t| >= 2 && Special(t[0], t[1]) then
      Piece(t[1], matched, before, after) + Expanded(t[2..], matched, before, after)
    else [t[0]] + Expanded(t[1..], matched, before, after)
  }

  function Piece(d: char, matched: string, before: string, after: string): (r: string) {
    match d case '$' => "$" case '&' => matched case '`' => before case _ => after
  }

  predicate Special(c: char, d: char) {
    c == '$' && d in {'$', '&', '`', '\''}
  }

  predicate HasSpecial(t: string) {
    exists i :: 0 <= i < |t| - 1 && Special(t[i], t[i + 1])
  }

  lemma {:induction false} PlainExpands(t: string, matched: string, before: string, after: string)
    requires !HasSpecial(t)
    ensures Expanded(t, matched, before, after) == t
  {
    if t != "" {
      forall i | 0 <= i < |t[1..]| - 1 ensures !Special(t[1..][i], t[1..][i + 1]) {
        assert !Special(t[i + 1], t[i + 1 + 1]);
      }
      PlainExpands(t[1..], matched, before, after);
      if |t| >= 2 { assert !Special(t[0], t[0 + 1]); }
    }
  }

  lemma SpecialCons(c: char, s: string)
    ensures HasSpecial([c] + s) <==> (s != "" && Special(c, s[0])) || HasSpecial(s)
  {
    hide Special;
    var t := [c] + s;
    assert t[1..] == s;
    SpecialTail(t);
  }

  lemma SpecialTail(t: string)
    requires t != ""
    ensures HasSpecial(t) <==> (|t| > 1 && Special(t[0], t[1])) || HasSpecial(t[1..])
  {
    hide Special;
    var s := t[1..];
    assert forall i | 0 <= i < |s| :: s[i] == t[i + 1];
    if i :| 0 < i < |t| - 1 && Special(t[i], t[i + 1]) {
      assert Special(s[i - 1], s[i - 1 + 1]);
    }
    if i :| 0 <= i < |s| - 1 && Special(s[i], s[i + 1]) {
      assert Special(t[i + 1], t[i + 1 + 1]);
    }
    if |t| > 1 && Special(t[0], t[1]) {
      assert Special(t[0], t[0 + 1]);
    }
  }

  lemma {:induction false} NoDollarSkips(head: string, s: string)
    requires '$' !in head
    ensures HasSpecial(head + s) <==> HasSpecial(s)
  {
    hide HasSpecial;
    if head == "" {
      assert head + s == s;
    } else {
      assert head[0] in head;
      assert head + s == [head[0]] + (head[1..] + s);
      NoDollarSkips(head[1..], s);
      SpecialCons(head[0], head[1..] + s);
    }
  }

  lemma NoneInEmpty()
    ensures !HasSpecial("")
  {
  }

  /** One step of the expansion: a pair, or one character. */
  lemma ExpandedStep(t: string, n: nat, s: string, m: string, b: string, a: string)
    requires |t| == n > 0 && n == if |t + s| >= 2 && Special((t + s)[0], (t + s)[1]) then 2 else 1
    ensures Expanded(t + s, m, b, a) == (if n == 2 then Piece(t[1], m, b, a) else t) + Expanded(s, m, b, a)
  {
    assert (t + s)[n..] == s;
  }

  lemma JoinThree(x: string, y: string, z: string)
    ensures x + (y + z) == (x + y) + z
  {
  }

  /** Text without dollars passes through, whatever follows it. */
  lemma {:induction false} ExpandedHead(head: string, s: string, m: string, b: string, a: string)
    requires '$' !in head
    ensures Expanded(head + s, m, b, a) == head + Expanded(s, m, b, a)
  {
    hide Expanded;
    if head == "" {
      assert head + s == s;
    } else {
      assert head[0] in head && forall c | c in head[1..] :: c in head;
      ExpandedHead(head[1..], s, m, b, a);
      assert head + s == head[..1] + (head[1..] + s);
      ExpandedStep(head[..1], 1, head[1..] + s, m, b, a);
      JoinThree(head[..1], head[1..], Expanded(s, m, b, a));
      assert head[..1] + head[1..] == head;
    }
  }

  /** A text is expanded piece by piece where no pair stretches over the cut. */
  lemma {:induction false} ExpandedJoin(s: string, t: string, m: string, b: string, a: string)
    requires t == "" || !Special('$', t[0])
    ensures Expanded(s + t, m, b, a) == Expanded(s, m, b, a) + Expanded(t, m, b, a)
  {
    hide Expanded, Special;
    if s == "" {
      assert s + t == t && Expanded("", m, b, a) == "" by { ExpandedEmpty(m, b, a); }
    } else {
      var n := if |s| >= 2 && Special(s[0], s[1]) then 2 else 1;
      SpecialNeedsDollar(s[0], t);
      ExpandedJoin(s[n..], t, m, b, a);
      assert s + t == s[..n] + (s[n..] + t) && s == s[..n] + s[n..];
      ExpandedStep(s[..n], n, s[n..] + t, m, b, a);
      ExpandedStep(s[..n], n, s[n..], m, b, a);
    }
  }

  lemma ExpandedEmpty(m: string, b: string, a: string)
    ensures Expanded("", m, b, a) == ""
  {
  }

  lemma SpecialNeedsDollar(c: char, t: string)
    requires t == "" || !Special('$', t[0])
    ensures t == "" || !Special(c, t[0])
  {
  }

  /** How often a character stands in a text. */
  function Count(c: char, s: string): (n: nat)
    ensures n == 0 <==> c !in s
  {
    if s == "" then 0 else (if s[0] == c then 1 else 0) + Count(c, s[1..])
  }

  lemma {:induction false} CountJoin(c: char, s: string, t: string)
    ensures Count(c, s + t) == Count(c, s) + Count(c, t)
  {
    if s == "" {
      assert s + t == t;
    } else {
      CountJoin(c, s[1..], t);
      assert (s + t)[1..] == s[1..] + t;
    }
  }

  /** Where nothing around holds a dollar, every pair costs one. */
  lemma {:induction false} DollarsLost(t: string, m: string, b: string, a: string)
    requires '$' !in m && '$' !in b && '$' !in a
    ensures Count('$', Expanded(t, m, b, a)) <= Count('$', t)
    ensures HasSpecial(t) ==> Count('$', Expanded(t, m, b, a)) < Count('$', t)
  {
    hide Expanded, Special, HasSpecial, Count, Piece;
    if t == "" {
      ExpandedEmpty(m, b, a);
      NoneInEmpty();
    } else {
      var n := if |t| >= 2 && Special(t[0], t[1]) then 2 else 1;
      DollarsLost(t[n..], m, b, a);
      assert t == t[..n] + t[n..] && t == [t[0]] + t[1..];
      ExpandedStep(t[..n], n, t[n..], m, b, a);
      CountJoin('$', t[..n], t[n..]);
      if n == 2 {
        PieceLosesOne(t[0], t[1], m, b, a);
        assert t[..2] == [t[0], t[1]];
        CountJoin('$', Piece(t[1], m, b, a), Expanded(t[2..], m, b, a));
      } else {
        CountJoin('$', t[..1], Expanded(t[1..], m, b, a));
        SpecialCons(t[0], t[1..]);
      }
    }
  }

  lemma PieceLosesOne(c: char, d: char, m: string, b: string, a: string)
    requires Special(c, d) && '$' !in m && '$' !in b && '$' !in a
    ensures Count('$', Piece(d, m, b, a)) < Count('$', [c, d])
  {
    assert [c, d][1..] == [d];
  }

  // ---- texts the expansion leaves as they are ----

  /** The pair `$d` is expanded somewhere. */
  predicate Takes(t: string, d: char) {
    t != "" &&
    if |t| >= 2 && Special(t[0], t[1]) then t[1] == d || Takes(t[2..], d) else Takes(t[1..], d)
  }

  /** Then what it stands for is in the result. */
  lemma {:induction false} TakenIsThere(t: string, m: string, b: string, a: string) returns (head: string, rest: string)
    requires Takes(t, '&')
    ensures Expanded(t, m, b, a) == head + m + rest
  {
    if |t| >= 2 && Special(t[0], t[1]) {
      if t[1] == '&' {
        head, rest := "", Expanded(t[2..], m, b, a);
      } else {
        head, rest := TakenIsThere(t[2..], m, b, a);
        PieceFirst(Piece(t[1], m, b, a), head, m, rest);
        head := Piece(t[1], m, b, a) + head;
      }
    } else {
      head, rest := TakenIsThere(t[1..], m, b, a);
      PieceFirst([t[0]], head, m, rest);
      head := [t[0]] + head;
    }
  }

  lemma PieceFirst(p: string, head: string, m: string, rest: string)
    ensures p + (head + m + rest) == (p + head) + m + rest
  {
  }

  /** Otherwise the matched text does not matter, and a longer text after it makes the result no shorter. */
  lemma {:induction false} NotTaken(t: string, m: string, m': string, b: string, a: string, a': string)
    requires !Takes(t, '&') && |a| <= |a'|
    ensures |Expanded(t, m, b, a)| <= |Expanded(t, m', b, a')|
    ensures a == a' ==> Expanded(t, m, b, a) == Expanded(t, m', b, a')
  {
    if t != "" {
      if |t| >= 2 && Special(t[0], t[1]) {
        NotTaken(t[2..], m, m', b, a, a');
      } else {
        NotTaken(t[1..], m, m', b, a, a');
      }
    }
  }

  predicate EndsLine(s: string) {
    s != "" && s[|s| - 1] == '\n'
  }

  /** A text that ends a line expands to one that does, apart from whatever follows it. */
  lemma LineExpands(c: string, z: string, m: string, b: string, a: string)
    requires EndsLine(c)
    ensures EndsLine(Expanded(c, m, b, a))
    ensures Expanded(c + z, m, b, a) == Expanded(c, m, b, a) + Expanded(z, m, b, a)
  {
    hide Expanded;
    var front := c[..|c| - 1];
    assert c == front + "\n";
    ExpandedJoin(front, "\n", m, b, a);
    ExpandedJoin(front, "\n" + z, m, b, a);
    ExpandedHead("\n", "", m, b, a);
    ExpandedEmpty(m, b, a);
    ExpandedHead("\n", z, m, b, a);
    assert "\n" + "" == "\n" && c + z == front + ("\n" + z);
    JoinThree(Expanded(front, m, b, a), "\n", Expanded(z, m, b, a));
  }

  /** No text is whole lines longer than its expansion at the front. */
  lemma {:induction false} NotAhead(z: string, c: string, m: string, b: string, a: string)
    requires EndsLine(c)
    ensures z != c + Expanded(z, m, b, a)
    decreases |z|
  {
    hide Expanded;
    if z == c + Expanded(z, m, b, a) {
      var rest := Expanded(z, m, b, a);
      LineExpands(c, rest, m, b, a);
      NotAhead(rest, Expanded(c, m, b, a), m, b, a);
    }
  }

  /** Dollars an expansion still owes, then a pair that stands for the text before, are never made up for. */
  lemma NotOwed(dollars: string, s: string, m: string, b: string, a: string)
    requires EndsLine(b) && forall k | 0 <= k < |dollars| :: dollars[k] == '$'
    ensures b + Expanded(s, m, b, a) != dollars + ("$`" + s)
  {
    hide Expanded;
    var e, owed := Expanded(s, m, b, a), dollars + "$`";
    if b + e == dollars + ("$`" + s) {
      assert dollars + ("$`" + s) == owed + s;
      assert forall k | 0 <= k < |owed| :: owed[k] != '\n';
      LongerThan(b, e, owed, s);
      var c := b[|owed|..];
      assert s == (owed + s)[|owed|..] == (b + e)[|owed|..] == c + e;
      NotAhead(s, c, m, b, a);
    }
  }

  lemma LongerThan(b: string, e: string, owed: string, s: string)
    requires EndsLine(b) && b + e == owed + s && forall k | 0 <= k < |owed| :: owed[k] != '\n'
    ensures |b| > |owed|
  {
    assert forall k | 0 <= k < |owed| :: (owed + s)[k] == owed[k];
    assert (b + e)[|b| - 1] == b[|b| - 1];
  }

  /** No expansion is its text with dollars put before it. */
  lemma {:induction false} NotBehind(s: string, dollars: string, m: string, b: string, a: string)
    requires dollars != "" && forall k | 0 <= k < |dollars| :: dollars[k] == '$'
    requires EndsLine(b) && a == "\n" && m != "" && m[0] != '$'
    ensures Expanded(s, m, b, a) != dollars + s
    decreases |s|, 0
  {
    hide Expanded;
    var e := Expanded(s, m, b, a);
    if s == "" {
      ExpandedEmpty(m, b, a);
    } else if e == dollars + s {
      assert e[0] == '$';
      var n := if |s| >= 2 && Special(s[0], s[1]) then 2 else 1;
      assert s == s[..n] + s[n..];
      ExpandedStep(s[..n], n, s[n..], m, b, a);
      if n == 2 {
        assert s[..2] == "$" + [s[1]];
        PairNotBehind(s[2..], s[1], dollars, m, b, a);
      } else {
        assert s[0] == e[0] == '$';
        OneLess(dollars, s, Expanded(s[1..], m, b, a));
        NotBehind(s[1..], dollars, m, b, a);
      }
    }
  }

  lemma OneLess(dollars: string, s: string, rest: string)
    requires dollars != "" && forall k | 0 <= k < |dollars| :: dollars[k] == '$'
    requires s != "" && s[0] == '$' && "$" + rest == dollars + s
    ensures rest == dollars + s[1..]
  {
    assert rest == ("$" + rest)[1..] == (dollars + s)[1..];
    forall k | 0 <= k < |rest| ensures rest[k] == (dollars + s[1..])[k] {
    }
  }

  /** A pair that stands at the front of such a text. */
  lemma {:induction false} PairNotBehind(s: string, d: char, dollars: string, m: string, b: string, a: string)
    requires Special('$', d) && forall k | 0 <= k < |dollars| :: dollars[k] == '$'
    requires EndsLine(b) && a == "\n" && m != "" && m[0] != '$'
    ensures Piece(d, m, b, a) + Expanded(s, m, b, a) != dollars + ("$" + [d] + s)
    decreases |s|, 1
  {
    hide Expanded;
    var piece, e, goal := Piece(d, m, b, a), Expanded(s, m, b, a), dollars + ("$" + [d] + s);
    if piece + e == goal {
      assert goal[0] == '$' && piece != "" && (piece + e)[0] == piece[0];
      if d == '$' {
        assert e == ("$" + e)[1..] == goal[1..];
        assert goal == dollars + "$" + "$" + s;
        assert goal[1..] == (dollars + "$") + s by { OneMore(dollars, s); }
        NotBehind(s, dollars + "$", m, b, a);
      } else {
        assert d == '`';
        assert "$" + [d] == "$`";
        NotOwed(dollars, s, m, b, a);
      }
    }
  }

  lemma OneMore(dollars: string, s: string)
    requires forall k | 0 <= k < |dollars| :: dollars[k] == '$'
    ensures (dollars + "$" + "$" + s)[1..] == (dollars + "$") + s
  {
  }

  /** Between whole lines, and for a matched text that starts with no dollar, a text stays as it is exactly when it
      holds none of the four pairs. */
  lemma {:induction false} FixedExactly(t: string, m: string, b: string, a: string)
    requires EndsLine(b) && a == "\n" && m != "" && m[0] != '$'
    ensures Expanded(t, m, b, a) == t <==> !HasSpecial(t)
  {
    hide Expanded, HasSpecial;
    if t == "" {
      NoneInEmpty();
      ExpandedEmpty(m, b, a);
    } else if !HasSpecial(t) {
      PlainExpands(t, m, b, a);
    } else {
      var n := if |t| >= 2 && Special(t[0], t[1]) then 2 else 1;
      assert t == t[..n] + t[n..] && t == [t[0]] + t[1..];
      ExpandedStep(t[..n], n, t[n..], m, b, a);
      if n == 2 {
        assert t == "" + ("$" + [t[1]] + t[2..]);
        PairNotBehind(t[2..], t[1], "", m, b, a);
      } else {
        SpecialCons(t[0], t[1..]);
        FixedExactly(t[1..], m, b, a);
        assert ([t[0]] + Expanded(t[1..], m, b, a))[1..] == Expanded(t[1..], m, b, a);
      }
    }
  }
}
