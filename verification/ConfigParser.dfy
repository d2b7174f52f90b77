/** The loop of `parseConfigYaml`: objects are attached to their parents when their header is read and
    filled in place afterwards, through the stack. */
module ConfigParser {
  import opened Options
  import opened Text
  import opened Json
  import opened ConfigLine
  import opened ConfigTree
  import Comment
  import Scalar

  datatype Slot = Leaf(v: Value) | Child(o: PlainObject)

  /** A plain object under construction. */
  class PlainObject {
    var fields: map<string, Slot>
    /** What the object stands for, apart from a child that is still open. */
    ghost var tree: Fields

    constructor ()
      ensures fields == map[] && tree == map[]
    {
      fields, tree := map[], map[];
    }
  }

  /** The field and the tree agree at a key; children are finished objects. */
  ghost predicate Agrees(o: PlainObject, k: string, done: set<PlainObject>)
    requires k in o.fields
    reads o, done
  {
    k in o.tree &&
    match o.fields[k]
    case Leaf(v) => o.tree[k] == v
    case Child(c) => c in done && o.tree[k] == Obj(c.tree)
  }

  ghost predicate Settled(o: PlainObject, done: set<PlainObject>)
    reads o, done
  {
    o.fields.Keys == o.tree.Keys && forall k | k in o.fields :: Agrees(o, k, done)
  }

  /** An object whose child under `key` is still open. */
  ghost predicate Waiting(o: PlainObject, key: string, child: PlainObject, done: set<PlainObject>)
    reads o, done
  {
    && key in o.fields && o.fields[key] == Child(child)
    && o.fields.Keys == o.tree.Keys + {key}
    && forall k | k in o.fields && k != key :: Agrees(o, k, done)
  }

  datatype Level = Level(indent: int, obj: PlainObject)

  /** The heap shows what the frames say: finished objects are settled, the top object is settled too, and
      each object below it waits for the next one. */
  ghost predicate Shows(stack: seq<Level>, frames: seq<Frame>, done: set<PlainObject>)
    reads done, set i | 0 <= i < |stack| :: stack[i].obj
  {
    && |stack| == |frames| && Nested(frames)
    && (forall i | 0 <= i < |stack| :: stack[i].indent == frames[i].indent && stack[i].obj !in done
                                       && stack[i].obj.tree == frames[i].fields)
    && (forall i, j | 0 <= i < j < |stack| :: stack[i].obj != stack[j].obj)
    && (forall o | o in done :: Settled(o, done))
    && Settled(stack[|stack| - 1].obj, done)
    && (forall i | 0 <= i < |stack| - 1 :: Waiting(stack[i].obj, frames[i].childKey, stack[i + 1].obj, done))
  }

  /** The object holds exactly this value, all the way down. */
  ghost predicate Holds(o: PlainObject, v: Value, region: set<PlainObject>)
    reads region
    decreases v
  {
    v.Obj? && o in region && o.fields.Keys == v.fields.Keys &&
    forall k | k in v.fields ::
      match o.fields[k]
      case Leaf(w) => v.fields[k] == w
      case Child(c) => Holds(c, v.fields[k], region)
  }

  lemma SettledHolds(o: PlainObject, v: Value, done: set<PlainObject>)
    requires o in done && v == Obj(o.tree) && forall p | p in done :: Settled(p, done)
    ensures Holds(o, v, done)
    decreases v
  {
    forall k | k in v.fields
      ensures match o.fields[k]
              case Leaf(w) => v.fields[k] == w
              case Child(c) => Holds(c, v.fields[k], done)
    {
      assert Agrees(o, k, done);
      match o.fields[k]
      case Leaf(_) =>
      case Child(c) => SettledHolds(c, v.fields[k], done);
    }
  }

  lemma PushShape(frames: seq<Frame>, indent: int, key: string)
    requires Nested(frames) && indent > frames[|frames| - 1].indent
    ensures var n, r := |frames|, Push(frames, indent, key);
            && Nested(r) && r[n] == Frame(indent, map[], "") && r[n - 1] == frames[n - 1].(childKey := key)
            && forall i | 0 <= i < n - 1 :: r[i] == frames[i]
  {
  }

  lemma WithFieldShape(frames: seq<Frame>, key: string, value: Value)
    requires Nested(frames)
    ensures var n, r := |frames|, WithField(frames, key, value);
            && Nested(r) && r[n - 1] == frames[n - 1].(fields := frames[n - 1].fields[key := value])
            && forall i | 0 <= i < n - 1 :: r[i] == frames[i]
  {
  }

  lemma AttachShape(frames: seq<Frame>)
    requires |frames| > 1 && Nested(frames)
    ensures var n, r := |frames|, Attach(frames, frames[|frames| - 1].fields);
            && Nested(r) && r[n - 2].indent == frames[n - 2].indent
            && r[n - 2].fields == frames[n - 2].fields[frames[n - 2].childKey := Obj(frames[n - 1].fields)]
            && forall i | 0 <= i < n - 2 :: r[i] == frames[i]
  {
  }

  /** A finished object stays so when a key gets a value. */
  method AssignLeaf(o: PlainObject, key: string, value: Value, ghost done: set<PlainObject>)
    requires Settled(o, done) && o !in done
    modifies o
    ensures Settled(o, done) && o.tree == old(o.tree)[key := value]
  {
    o.fields := o.fields[key := Leaf(value)];
    o.tree := o.tree[key := value];
    forall k | k in o.fields
      ensures Agrees(o, k, done)
    {
      assert k != key ==> old(Agrees(o, k, done));
    }
  }

  /** It waits once a key gets a child. */
  method AssignChild(o: PlainObject, key: string, child: PlainObject, ghost done: set<PlainObject>)
    requires Settled(o, done) && o !in done
    modifies o
    ensures Waiting(o, key, child, done) && o.tree == old(o.tree)
  {
    o.fields := o.fields[key := Child(child)];
    forall k | k in o.fields && k != key
      ensures Agrees(o, k, done)
    {
      assert old(Agrees(o, k, done));
    }
  }

  /** And is finished again once that child is. */
  ghost method SettleChild(o: PlainObject, key: string, child: PlainObject, done: set<PlainObject>)
    requires Waiting(o, key, child, done) && o !in done && o != child
    modifies o`tree
    ensures Settled(o, done + {child}) && o.tree == old(o.tree)[key := Obj(child.tree)]
  {
    o.tree := o.tree[key := Obj(child.tree)];
    forall k | k in o.fields
      ensures Agrees(o, k, done + {child})
    {
      assert k != key ==> old(Agrees(o, k, done));
    }
  }

  /** More finished objects change nothing about these. */
  lemma MoreDone(o: PlainObject, done: set<PlainObject>, done': set<PlainObject>)
    requires done <= done' && Settled(o, done)
    ensures Settled(o, done')
  {
    assert forall k | k in o.fields :: Agrees(o, k, done) && Agrees(o, k, done');
  }

  lemma StillWaits(o: PlainObject, key: string, child: PlainObject, done: set<PlainObject>, done': set<PlainObject>)
    requires done <= done' && Waiting(o, key, child, done)
    ensures Waiting(o, key, child, done')
  {
    assert forall k | k in o.fields && k != key :: Agrees(o, k, done) && Agrees(o, k, done');
  }

  /** Ghost bookkeeping when the top object leaves the stack: it is finished and shows in its parent. */
  ghost method CloseTop(stack: seq<Level>, frames: seq<Frame>, done: set<PlainObject>)
      returns (frames': seq<Frame>, done': set<PlainObject>)
    requires |stack| > 1 && Shows(stack, frames, done)
    modifies stack[|stack| - 2].obj`tree
    ensures frames' == Attach(frames, frames[|frames| - 1].fields)
    ensures done' == done + {stack[|stack| - 1].obj}
    ensures Shows(stack[..|stack| - 1], frames', done')
  {
    hide Nested, Settled, Waiting, Agrees, Attach;
    var n := |stack|;
    var top, below := stack[n - 1].obj, stack[n - 2].obj;
    AttachShape(frames);
    frames', done' := Attach(frames, frames[n - 1].fields), done + {top};
    assert Waiting(stack[n - 2].obj, frames[n - 2].childKey, stack[n - 1].obj, done);
    SettleChild(below, frames[n - 2].childKey, top, done);
    forall o | o in done'
      ensures Settled(o, done')
    {
      MoreDone(o, done, done');
    }
    forall i | 0 <= i < n - 2
      ensures Waiting(stack[i].obj, frames'[i].childKey, stack[i + 1].obj, done')
    {
      StillWaits(stack[i].obj, frames[i].childKey, stack[i + 1].obj, done, done');
    }
  }

  /** `parent[key] = value` on the top object. */
  method PutValue(stack: seq<Level>, ghost frames: seq<Frame>, ghost done: set<PlainObject>, key: string, value: Value)
    requires stack != [] && Shows(stack, frames, done)
    modifies stack[|stack| - 1].obj
    ensures Shows(stack, WithField(frames, key, value), done)
  {
    hide Nested, WithField, Settled, Waiting, Agrees;
    WithFieldShape(frames, key, value);
    var parent := stack[|stack| - 1].obj;
    AssignLeaf(parent, key, value, done);
    ghost var frames' := WithField(frames, key, value);
    assert forall o | o in done :: Settled(o, done);
    forall i | 0 <= i < |stack| - 1
      ensures Waiting(stack[i].obj, frames'[i].childKey, stack[i + 1].obj, done)
    {
      assert Waiting(stack[i].obj, frames[i].childKey, stack[i + 1].obj, done);
    }
  }

  /** `parent[key] = child; stack.push({ indent, obj: child })`. */
  method PutChild(stack: seq<Level>, ghost frames: seq<Frame>, ghost done: set<PlainObject>, key: string, indent: int)
      returns (stack': seq<Level>)
    requires stack != [] && Shows(stack, frames, done) && indent > stack[|stack| - 1].indent
    modifies stack[|stack| - 1].obj
    ensures |stack'| == |stack| + 1 && stack'[..|stack|] == stack && fresh(stack'[|stack|].obj)
    ensures Shows(stack', Push(frames, indent, key), done)
  {
    hide Nested, Push, Settled, Waiting, Agrees;
    var parent := stack[|stack| - 1].obj;
    var child := new PlainObject();
    AssignChild(parent, key, child, done);
    assert forall o | o in done :: Settled(o, done);
    forall i | 0 <= i < |stack| - 1
      ensures Waiting(stack[i].obj, frames[i].childKey, stack[i + 1].obj, done)
    {
    }
    EmptySettles(child, done);
    OpenedShows(stack, frames, done, key, indent, child);
    return stack + [Level(indent, child)];
  }

  /** The top object may wait for a child of its own. */
  ghost predicate ShowsOpen(stack: seq<Level>, frames: seq<Frame>, done: set<PlainObject>, key: string,
                            child: PlainObject)
    reads done, set i | 0 <= i < |stack| :: stack[i].obj
  {
    && |stack| == |frames| && Nested(frames)
    && (forall i | 0 <= i < |stack| :: stack[i].indent == frames[i].indent && stack[i].obj !in done
                                       && stack[i].obj.tree == frames[i].fields)
    && (forall i, j | 0 <= i < j < |stack| :: stack[i].obj != stack[j].obj)
    && (forall o | o in done :: Settled(o, done))
    && Waiting(stack[|stack| - 1].obj, key, child, done)
    && (forall i | 0 <= i < |stack| - 1 :: Waiting(stack[i].obj, frames[i].childKey, stack[i + 1].obj, done))
  }

  lemma EmptySettles(o: PlainObject, done: set<PlainObject>)
    ensures o.fields == map[] && o.tree == map[] ==> Settled(o, done)
  {
  }

  lemma OpenedShows(stack: seq<Level>, frames: seq<Frame>, done: set<PlainObject>, key: string, indent: int,
                    child: PlainObject)
    requires ShowsOpen(stack, frames, done, key, child) && indent > stack[|stack| - 1].indent
    requires child !in done && child.fields == map[] && child.tree == map[]
    requires forall i | 0 <= i < |stack| :: stack[i].obj != child
    ensures Shows(stack + [Level(indent, child)], Push(frames, indent, key), done)
  {
    assert frames != [];
    EmptySettles(child, done);
    hide Settled, Waiting, Agrees, Nested, Push;
    var stack', frames' := stack + [Level(indent, child)], Push(frames, indent, key);
    PushShape(frames, indent, key);
    forall i | 0 <= i < |stack'| - 1
      ensures Waiting(stack'[i].obj, frames'[i].childKey, stack'[i + 1].obj, done)
    {
      if i < |stack| - 1 { assert frames'[i] == frames[i]; }
    }
  }

  ghost function Objects(stack: seq<Level>): (r: set<PlainObject>) {
    set i | 0 <= i < |stack| :: stack[i].obj
  }

  lemma ObjectsOfPrefix(stack: seq<Level>)
    requires stack != []
    ensures Objects(stack) == Objects(stack[..|stack| - 1]) + {stack[|stack| - 1].obj}
  {
    var lower := stack[..|stack| - 1];
    forall o | o in Objects(stack)
      ensures o in Objects(lower) + {stack[|stack| - 1].obj}
    {
      var i :| 0 <= i < |stack| && stack[i].obj == o;
      assert i < |lower| ==> lower[i].obj == o;
    }
    forall o | o in Objects(lower)
      ensures o in Objects(stack)
    {
      var i :| 0 <= i < |lower| && lower[i].obj == o;
      assert stack[i].obj == o;
    }
  }

  /** The inner loop: leaves every object that is not above this indent. */
  method PopTo(stack: seq<Level>, ghost frames: seq<Frame>, ghost done: set<PlainObject>, indent: int,
               ghost rest: seq<KeyLine>)
      returns (stack': seq<Level>, ghost frames': seq<Frame>, ghost done': set<PlainObject>)
    requires stack != [] && Shows(stack, frames, done)
    requires indent > -1 && rest != [] && rest[0].indent == indent
    modifies Objects(stack)`tree
    ensures stack' != [] && stack' <= stack && indent > stack'[|stack'| - 1].indent
    ensures Shows(stack', frames', done') && done' <= done + Objects(stack)
    ensures Finish(frames', rest) == Finish(frames, rest)
  {
    hide Finish;
    stack', frames', done' := stack, frames, done;
    while |stack'| > 1 && indent <= stack'[|stack'| - 1].indent
      invariant stack' != [] && stack' <= stack
      invariant Shows(stack', frames', done') && done' <= done + Objects(stack)
      invariant Finish(frames', rest) == Finish(frames, rest)
      decreases |stack'|
    {
      FinishPop(frames', rest);
      assert stack'[|stack'| - 1] == stack[|stack'| - 1] && stack'[|stack'| - 2] == stack[|stack'| - 2];
      frames', done' := CloseTop(stack', frames', done');
      stack' := stack'[..|stack'| - 1];
    }
  }

  /** Ghost bookkeeping at the end of the text: everything still open is finished. */
  ghost method CloseAll(stack: seq<Level>, frames: seq<Frame>, done: set<PlainObject>)
      returns (region: set<PlainObject>)
    requires stack != [] && Shows(stack, frames, done)
    modifies Objects(stack)`tree
    ensures region == done + Objects(stack)
    ensures stack[0].obj.tree == Finish(frames, []) && forall o | o in region :: Settled(o, region)
    decreases |stack|
  {
    hide Finish;
    FinishEnd(frames);
    if |stack| == 1 {
      region := done + {stack[0].obj};
    } else {
      ObjectsOfPrefix(stack);
      var frames', done' := CloseTop(stack, frames, done);
      region := CloseAll(stack[..|stack| - 1], frames', done');
    }
  }

  /** One key line: leave what is not above it, then open a child or set a value. */
  method PlaceLine(stack: seq<Level>, ghost frames: seq<Frame>, ghost done: set<PlainObject>,
                   indent: int, key: string, rest: string, ghost ls: seq<KeyLine>)
      returns (stack': seq<Level>, ghost frames': seq<Frame>, ghost done': set<PlainObject>)
    requires stack != [] && Shows(stack, frames, done) && indent >= 0 && ls != []
    requires ls[0] == if Trim(rest) == "" then Header(indent, key) else Field(indent, key, Scalar.ScalarOf(rest))
    modifies Objects(stack)
    ensures stack' != [] && frames' != [] && stack'[0].obj == stack[0].obj && Shows(stack', frames', done')
    ensures fresh(Objects(stack') - Objects(stack))
    ensures done' <= done + Objects(stack)
    ensures Finish(frames', ls[1..]) == Finish(frames, ls)
  {
    hide Finish, TrimStart, TrimEnd, Trim, Scalar.ScalarOf, Waiting, Settled, Agrees, Nested;
    stack', frames', done' := PopTo(stack, frames, done, indent, ls);
    assert forall i | 0 <= i < |stack'| :: stack'[i] == stack[i];
    if Trim(rest) == "" {
      FinishHeader(frames', ls);
      stack' := PutChild(stack', frames', done', key, indent);
      frames' := Push(frames', indent, key);
    } else {
      var value := Scalar.ParseScalar(rest);
      if value != Undefined {
        FinishField(frames', ls);
        PutValue(stack', frames', done', key, value);
        frames' := WithField(frames', key, value);
      }
    }
  }

  lemma RootShows(root: PlainObject)
    requires root.fields == map[] && root.tree == map[]
    ensures Shows([Level(-1, root)], [Frame(-1, map[], "")], {})
  {
    EmptySettles(root, {});
  }

  lemma RootIsOne(stack: seq<Level>)
    requires stack != []
    ensures stack[0].obj in Objects(stack)
    ensures |stack| == 1 ==> Objects(stack) == {stack[0].obj}
  {
  }

  /** The parser. Its result is the object of the text as `Document` describes it, held by objects made here. */
  method ParseConfigYaml(text: string) returns (root: PlainObject, ghost region: set<PlainObject>)
    ensures fresh(region) && Holds(root, Obj(Document(text)), region)
  {
    hide Finish, TrimStart, TrimEnd, Trim, Split, Scalar.ScalarOf, IndexOf, Block, Comment.WithoutComment, Waiting,
      Agrees, Settled;
    root := new PlainObject();
    RootShows(root);
    var stack := [Level(-1, root)];
    ghost var frames, done := [Frame(-1, map[], "")], {};
    var lines := Split(text, '\n');
    FinishRoot(KeyLines(lines));
    RootIsOne(stack);
    var i := 0;
    assert lines[0..] == lines;
    while i < |lines|
      invariant 0 <= i <= |lines|
      invariant stack != [] && frames != [] && stack[0].obj == root && Shows(stack, frames, done)
      invariant fresh(Objects(stack)) && fresh(done)
      invariant Finish(frames, KeyLines(lines[i..])) == Document(text)
    {
      assert lines[i..][0] == lines[i] && lines[i..][1..] == lines[i + 1..];
      var withoutComment := Comment.StripComment(lines[i]);
      i := i + 1;
      var line := Trim(withoutComment);
      if line == "" { continue; }
      var indent := |withoutComment| - |TrimStart(withoutComment)|;
      var colon := IndexOf(line, ':');
      if colon <= 0 { continue; }
      var key := Trim(line[..colon]);
      var rest := line[colon + 1..];
      ghost var l := ReadLine(lines[i - 1]).value;
      ghost var ls := [l] + KeyLines(lines[i..]);
      assert ls[1..] == KeyLines(lines[i..]);
      stack, frames, done := PlaceLine(stack, frames, done, indent, key, rest, ls);
    }
    assert lines[i..] == [];
    RootIsOne(stack);
    region := CloseAll(stack, frames, done);
    SettledHolds(root, Obj(root.tree), region);
  }
}
