/** `parseConfigYaml` of src/config/loader.ts: nesting by indentation, with an explicit stack. */
module ConfigTree {
  import opened Options
  import opened Text
  import opened Json
  import opened ConfigLine

  type Fields = map<string, Value>

  /** The key lines of a text, in order; every other line is passed over. */
  function KeyLines(lines: seq<string>): (r: seq<KeyLine>) {
    if lines == [] then []
    else
      var rest := KeyLines(lines[1..]);
      match ReadLine(lines[0])
      case Nothing => rest
      case Just(l) => [l] + rest
  }

  /** How many lines at the front are deeper than the given indent. */
  function Deeper(ls: seq<KeyLine>, indent: int): (n: nat)
    ensures n <= |ls|
    ensures forall i :: 0 <= i < n ==> ls[i].indent > indent
    ensures n < |ls| ==> ls[n].indent <= indent
  {
    if ls == [] || ls[0].indent <= indent then 0 else 1 + Deeper(ls[1..], indent)
  }

  /** The object a run of lines describes: a header owns the deeper lines right after it, and the last line
      with a key decides its value. */
  function Block(ls: seq<KeyLine>): (r: Fields)
    decreases |ls|
  {
    if ls == [] then map[]
    else
      match ls[0]
      case Field(_, key, value) => map[key := value] + Block(ls[1..])
      case Header(indent, key) =>
        var n := Deeper(ls[1..], indent);
        map[key := Obj(Block(ls[1..][..n]))] + Block(ls[1..][n..])
  }

  /** The object a config text describes. */
  function Document(text: string): (r: Fields) {
    Block(KeyLines(Split(text, '\n')))
  }

  // ---- the parser's stack, as values ----

  /** An open object: its indent, what it holds already, and the key its open child will get. */
  datatype Frame = Frame(indent: int, fields: Fields, childKey: string)

  /** Where each frame sits: the root at -1 and each other deeper than the one below it. */
  predicate Nested(frames: seq<Frame>) {
    && frames != [] && frames[0].indent == -1
    && forall i :: 0 < i < |frames| ==> frames[i - 1].indent < frames[i].indent
  }

  /** What the root will hold once the remaining lines have been read and every frame closed. */
  function Finish(frames: seq<Frame>, rest: seq<KeyLine>): (r: Fields)
    requires frames != []
    decreases |frames|
  {
    var top := frames[|frames| - 1];
    var n := Deeper(rest, top.indent);
    var fields := top.fields + Block(rest[..n]);
    if |frames| == 1 then fields
    else Finish(Attach(frames, fields), rest[n..])
  }

  /** Closes the top frame into the one below it. */
  function Attach(frames: seq<Frame>, fields: Fields): (r: seq<Frame>)
    requires |frames| > 1
    ensures |r| == |frames| - 1
  {
    var below := frames[|frames| - 2];
    frames[..|frames| - 2] + [below.(fields := below.fields[below.childKey := Obj(fields)])]
  }

  lemma {:induction false} FinishPop(frames: seq<Frame>, rest: seq<KeyLine>)
    requires |frames| > 1 && rest != [] && rest[0].indent <= frames[|frames| - 1].indent
    ensures Finish(frames, rest) == Finish(Attach(frames, frames[|frames| - 1].fields), rest)
  {
    var top := frames[|frames| - 1];
    assert Deeper(rest, top.indent) == 0;
    assert rest[..0] == [] && rest[0..] == rest;
    assert top.fields + Block([]) == top.fields;
  }

  lemma {:induction false} FinishStep(frames: seq<Frame>, rest: seq<KeyLine>, n: nat, fields: Fields)
    requires frames != [] && n == Deeper(rest, frames[|frames| - 1].indent)
    requires fields == frames[|frames| - 1].fields + Block(rest[..n])
    ensures Finish(frames, rest) == if |frames| == 1 then fields else Finish(Attach(frames, fields), rest[n..])
  {
    hide Deeper, Block;
  }

  lemma PutThenAdd(m: Fields, key: string, value: Value, more: Fields)
    ensures m + (map[key := value] + more) == m[key := value] + more
  {
  }

  lemma {:induction false} DeeperCons(rest: seq<KeyLine>, indent: int)
    requires rest != [] && rest[0].indent > indent
    ensures Deeper(rest, indent) == Deeper(rest[1..], indent) + 1
    ensures var n := Deeper(rest[1..], indent);
            rest[..n + 1][1..] == rest[1..][..n] && rest[n + 1..] == rest[1..][n..] && rest[..n + 1][0] == rest[0]
  {
  }

  lemma {:induction false} FinishField(frames: seq<Frame>, rest: seq<KeyLine>)
    requires frames != [] && rest != [] && rest[0].Field? && rest[0].indent > frames[|frames| - 1].indent
    ensures Finish(frames, rest) == Finish(WithField(frames, rest[0].key, rest[0].value), rest[1..])
  {
    hide Finish, Deeper;
    var top, l := frames[|frames| - 1], rest[0];
    var n := Deeper(rest[1..], top.indent);
    DeeperCons(rest, top.indent);
    var inner := Block(rest[1..][..n]);
    PutThenAdd(top.fields, l.key, l.value, inner);
    var fields := top.fields[l.key := l.value] + inner;
    FinishStep(frames, rest, n + 1, fields);
    var frames' := WithField(frames, l.key, l.value);
    FinishStep(frames', rest[1..], n, fields);
    SameBelow(frames, frames', fields);
  }

  /** The frames once a value is put into the open object. */
  function WithField(frames: seq<Frame>, key: string, value: Value): (r: seq<Frame>)
    requires frames != []
    ensures |r| == |frames|
  {
    var top := frames[|frames| - 1];
    frames[..|frames| - 1] + [top.(fields := top.fields[key := value])]
  }

  lemma SameBelow(frames: seq<Frame>, frames': seq<Frame>, fields: Fields)
    requires |frames| == |frames'| && frames != [] && frames[..|frames| - 1] == frames'[..|frames| - 1]
    ensures |frames| > 1 ==> Attach(frames, fields) == Attach(frames', fields)
  {
    if |frames| > 1 {
      assert frames[..|frames| - 1][|frames| - 2] == frames'[..|frames| - 1][|frames| - 2];
      assert frames[..|frames| - 2] == frames[..|frames| - 1][..|frames| - 2];
      assert frames'[..|frames| - 2] == frames'[..|frames| - 1][..|frames| - 2];
    }
  }

  lemma {:induction false} DeeperOfPrefix(ls: seq<KeyLine>, low: int, high: int)
    requires low <= high
    ensures Deeper(ls, high) <= Deeper(ls, low)
    ensures Deeper(ls[..Deeper(ls, low)], high) == Deeper(ls, high)
  {
    if ls != [] && ls[0].indent > high {
      var m := Deeper(ls[1..], low);
      assert Deeper(ls, low) == m + 1;
      DeeperOfPrefix(ls[1..], low, high);
      assert ls[..m + 1][1..] == ls[1..][..m];
    }
  }

  lemma {:induction false} DeeperSuffix(ls: seq<KeyLine>, indent: int, k: nat)
    requires k <= Deeper(ls, indent)
    ensures Deeper(ls[k..], indent) == Deeper(ls, indent) - k
  {
    if k > 0 {
      DeeperSuffix(ls[1..], indent, k - 1);
      assert ls[1..][k - 1..] == ls[k..];
    } else {
      assert ls[0..] == ls;
    }
  }

  /** The frames once a header and the lines it owns are read and its object is attached. */
  function WithChild(frames: seq<Frame>, key: string, child: Fields): (r: seq<Frame>)
    requires frames != []
    ensures |r| == |frames|
  {
    var top := frames[|frames| - 1];
    frames[..|frames| - 1] + [top.(childKey := key, fields := top.fields[key := Obj(child)])]
  }

  function Push(frames: seq<Frame>, indent: int, key: string): (r: seq<Frame>)
    requires frames != []
    ensures |r| == |frames| + 1
  {
    var top := frames[|frames| - 1];
    frames[..|frames| - 1] + [top.(childKey := key), Frame(indent, map[], "")]
  }

  lemma {:induction false} FinishPushed(frames: seq<Frame>, indent: int, key: string, more: seq<KeyLine>)
    requires frames != []
    ensures var k := Deeper(more, indent);
            Finish(Push(frames, indent, key), more) == Finish(WithChild(frames, key, Block(more[..k])), more[k..])
  {
    var child := Block(more[..Deeper(more, indent)]);
    assert map[] + child == child;
    assert Attach(Push(frames, indent, key), child) == WithChild(frames, key, child);
  }

  lemma {:induction false} BlockOfHeader(rest: seq<KeyLine>, n: nat)
    requires rest != [] && rest[0].Header? && n < |rest|
    requires Deeper(rest[1..], rest[0].indent) <= n
    requires Deeper(rest[1..][..n], rest[0].indent) == Deeper(rest[1..], rest[0].indent)
    ensures var k := Deeper(rest[1..], rest[0].indent);
            Block(rest[..n + 1]) == map[rest[0].key := Obj(Block(rest[1..][..k]))] + Block(rest[1..][k..][..n - k])
  {
    var more := rest[1..];
    var k := Deeper(more, rest[0].indent);
    assert rest[..n + 1][1..] == more[..n];
    assert more[..n][..k] == more[..k] && more[..n][k..] == more[k..][..n - k];
  }

  lemma {:induction false} FinishWithChild(frames: seq<Frame>, rest: seq<KeyLine>)
    requires frames != [] && rest != [] && rest[0].Header? && rest[0].indent > frames[|frames| - 1].indent
    ensures var k := Deeper(rest[1..], rest[0].indent);
            Finish(frames, rest) == Finish(WithChild(frames, rest[0].key, Block(rest[1..][..k])), rest[1..][k..])
  {
    hide Block, Finish, Deeper;
    var top, l, more := frames[|frames| - 1], rest[0], rest[1..];
    var n, k := Deeper(more, top.indent), Deeper(more, l.indent);
    DeeperCons(rest, top.indent);
    DeeperOfPrefix(more, top.indent, l.indent);
    BlockOfHeader(rest, n);
    DeeperSuffix(more, top.indent, k);
    var child, after := Block(more[..k]), Block(more[k..][..n - k]);
    PutThenAdd(top.fields, l.key, Obj(child), after);
    var fields := top.fields[l.key := Obj(child)] + after;
    FinishStep(frames, rest, n + 1, fields);
    var frames' := WithChild(frames, l.key, child);
    FinishStep(frames', more[k..], n - k, fields);
    assert more[k..][n - k..] == rest[n + 1..];
    SameBelow(frames, frames', fields);
  }

  lemma {:induction false} FinishHeader(frames: seq<Frame>, rest: seq<KeyLine>)
    requires frames != [] && rest != [] && rest[0].Header? && rest[0].indent > frames[|frames| - 1].indent
    ensures Finish(frames, rest) == Finish(Push(frames, rest[0].indent, rest[0].key), rest[1..])
  {
    FinishWithChild(frames, rest);
    FinishPushed(frames, rest[0].indent, rest[0].key, rest[1..]);
  }

  lemma {:induction false} FinishRoot(rest: seq<KeyLine>)
    ensures Finish([Frame(-1, map[], "")], rest) == Block(rest)
  {
    assert Deeper(rest, -1) == |rest|;
    assert rest[..|rest|] == rest;
    assert map[] + Block(rest) == Block(rest);
  }

  lemma {:induction false} FinishEnd(frames: seq<Frame>)
    requires frames != []
    ensures var fields := frames[|frames| - 1].fields;
            Finish(frames, []) == if |frames| == 1 then fields else Finish(Attach(frames, fields), [])
  {
    var top := frames[|frames| - 1];
    assert Deeper([], top.indent) == 0;
    assert top.fields + Block([]) == top.fields;
  }
}
