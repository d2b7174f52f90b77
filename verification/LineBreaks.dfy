/** No string that src/config/loader.ts reads from a line of its own holds a line break. */
module LineBreaks {
  import opened Options
  import opened Text
  import opened Json
  import opened Scalar
  import opened ConfigLine
  import opened ConfigTree
  import Comment

  predicate NoBreak(s: string) {
    '\n' !in s
  }

  /** No string in the tree holds a line break; strings in lists may, through a JSON escape. */
  predicate Unbroken(v: Value) {
    && (v.Str? ==> NoBreak(v.s))
    && (v.Obj? ==> forall k | k in v.fields :: Unbroken(v.fields[k]))
  }

  lemma {:induction false} UndoubledChars(s: string)
    ensures forall c <- Undoubled(s) :: c in s
    decreases |s|
  {
    if s != "" {
      if s[0] == '\'' && |s| > 1 && s[1] == '\'' { UndoubledChars(s[2..]); } else { UndoubledChars(s[1..]); }
    }
  }

  lemma {:induction false} UnescapedChars(s: string)
    ensures forall c <- Unescaped(s) :: c in s
    decreases |s|
  {
    if s != "" {
      if s[0] == '\\' && |s| > 1 { UnescapedChars(s[2..]); } else { UnescapedChars(s[1..]); }
    }
  }

  lemma TrimChars(s: string)
    ensures forall c <- Trim(s) :: c in s
  {
    var before, after := TrimDecompose(s);
  }

  lemma InnerChars(s: string)
    ensures forall c <- Inner(s) :: c in s
  {
  }

  lemma ScalarChars(raw: string)
    requires NoBreak(raw)
    ensures Unbroken(ScalarOf(raw))
  {
    hide TrimStart, TrimEnd, Undoubled, Unescaped;
    var v := Trim(raw);
    TrimChars(raw);
    InnerChars(v);
    UndoubledChars(Inner(v));
    UnescapedChars(Inner(v));
  }

  lemma LineUnbroken(line: string)
    requires NoBreak(line)
    ensures match ReadLine(line) case Just(Field(_, _, value)) => Unbroken(value) case _ => true
  {
    hide TrimStart, TrimEnd, ScalarOf, Comment.WithoutComment, IndexOf;
    var kept := Comment.WithoutComment(line);
    assert forall c <- kept :: c in line;
    TrimChars(kept);
    var text := Trim(kept);
    var colon := IndexOf(text, ':');
    if colon > 0 { ScalarChars(text[colon + 1..]); }
  }

  predicate UnbrokenLines(ls: seq<KeyLine>) {
    forall i | 0 <= i < |ls| && ls[i].Field? :: Unbroken(ls[i].value)
  }

  lemma {:induction false} KeyLinesUnbroken(lines: seq<string>)
    requires forall line <- lines :: NoBreak(line)
    ensures UnbrokenLines(KeyLines(lines))
  {
    hide ReadLine, Unbroken;
    if lines != [] {
      LineUnbroken(lines[0]);
      KeyLinesUnbroken(lines[1..]);
    }
  }

  lemma {:induction false} BlockUnbroken(ls: seq<KeyLine>)
    requires UnbrokenLines(ls)
    ensures Unbroken(Obj(Block(ls)))
    decreases |ls|
  {
    if ls != [] {
      assert UnbrokenLines(ls[1..]) by { assert forall i | 0 <= i < |ls[1..]| :: ls[1..][i] == ls[i + 1]; }
      match ls[0]
      case Field(_, key, value) =>
        BlockUnbroken(ls[1..]);
        PutUnbroken(key, value, Block(ls[1..]));
      case Header(indent, key) =>
        var n := Deeper(ls[1..], indent);
        BlockUnbroken(ls[1..][..n]);
        BlockUnbroken(ls[1..][n..]);
        PutUnbroken(key, Obj(Block(ls[1..][..n])), Block(ls[1..][n..]));
    }
  }

  lemma PutUnbroken(key: string, value: Value, more: Fields)
    requires Unbroken(value) && Unbroken(Obj(more))
    ensures Unbroken(Obj(map[key := value] + more))
  {
    var sum := map[key := value] + more;
    forall k | k in sum ensures Unbroken(sum[k]) {
      if k in more { assert Unbroken(Obj(more).fields[k]); }
    }
  }

  /** Whatever the text, the object read from it holds no string with a line break. */
  lemma DocumentUnbroken(text: string)
    ensures Unbroken(Obj(Document(text)))
  {
    hide KeyLines, Block;
    KeyLinesUnbroken(Split(text, '\n'));
    BlockUnbroken(KeyLines(Split(text, '\n')));
  }
}
