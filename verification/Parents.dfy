/** Which object each key line belongs to, stated line by line, without a stack. */
module Parents {
  import opened Json
  import opened ConfigLine
  import opened ConfigTree

  function IndentOf(ls: seq<KeyLine>, j: int): (r: int)
    requires -1 <= j < |ls|
  {
    if j == -1 then -1 else ls[j].indent
  }

  /** Line `i` lies in what header `j` owns: it and every key line after the header are deeper. The root,
      -1, owns every line. */
  predicate Owns(ls: seq<KeyLine>, j: int, i: nat)
    requires -1 <= j && i < |ls|
  {
    j < i && (j == -1 || ls[j].Header?) && forall m | j < m <= i :: ls[m].indent > IndentOf(ls, j)
  }

  /** The latest line up to `j` that owns line `i`. */
  function LatestOwner(ls: seq<KeyLine>, i: nat, j: int): (p: int)
    requires -1 <= j < i < |ls|
    ensures -1 <= p <= j && Owns(ls, p, i)
    ensures forall m | p < m <= j :: !Owns(ls, m, i)
    decreases j
  {
    if Owns(ls, j, i) then j else
      assert Owns(ls, -1, i);
      LatestOwner(ls, i, j - 1)
  }

  /** The line's parent: the latest earlier header of smaller indent with only deeper key lines in between. */
  function Parent(ls: seq<KeyLine>, i: nat): (p: int)
    requires i < |ls|
    ensures -1 <= p < i && Owns(ls, p, i)
    ensures forall m | p < m < i :: !Owns(ls, m, i)
  {
    LatestOwner(ls, i, i - 1)
  }

  /** The children of `j` among the lines before `upto`; a later child replaces an earlier one of its key. */
  function Gather(ls: seq<KeyLine>, j: int, upto: nat): (r: Fields)
    requires -1 <= j < upto <= |ls|
    decreases |ls| - j, upto
  {
    if upto == j + 1 then map[]
    else
      var i := upto - 1;
      var before := Gather(ls, j, i);
      if Parent(ls, i) == j then before[ls[i].key := ValueAt(ls, i)] else before
  }

  function ValueAt(ls: seq<KeyLine>, i: nat): (r: Value)
    requires i < |ls|
    decreases |ls| - i, |ls| + 1
  {
    match ls[i]
    case Field(_, _, value) => value
    case Header(_, _) => Obj(Gather(ls, i, |ls|))
  }

  /** Lines `lo..hi` end what `j` owns, and no header between `j` and `lo` is still open at `lo`. */
  predicate Section(ls: seq<KeyLine>, j: int, lo: nat, hi: nat) {
    && -1 <= j < lo <= hi <= |ls|
    && (j == -1 || ls[j].Header?)
    && (forall m | j < m < hi :: ls[m].indent > IndentOf(ls, j))
    && (hi < |ls| ==> ls[hi].indent <= IndentOf(ls, j))
    && (lo < hi ==> forall h | j < h < lo && ls[h].Header? :: exists m | h < m <= lo :: ls[m].indent <= ls[h].indent)
  }

  lemma ParentOfFirst(ls: seq<KeyLine>, j: int, lo: nat, hi: nat)
    requires Section(ls, j, lo, hi) && lo < hi
    ensures Parent(ls, lo) == j
  {
    assert Owns(ls, j, lo);
    forall h | j < h < lo
      ensures !Owns(ls, h, lo)
    {
      if ls[h].Header? {
        var m :| h < m <= lo && ls[m].indent <= ls[h].indent;
      }
    }
  }

  /** Lines that another header owns are nobody's children further out. */
  lemma {:induction false} GatherSkips(ls: seq<KeyLine>, j: int, lo: nat, e: nat)
    requires -1 <= j < lo < e <= |ls|
    requires forall i | lo < i < e :: Owns(ls, lo, i)
    ensures Gather(ls, j, e) == Gather(ls, j, lo + 1)
    decreases e
  {
    if e > lo + 1 {
      assert Owns(ls, lo, e - 1);
      GatherSkips(ls, j, lo, e - 1);
    }
  }

  /** Past the end of what `j` owns it gains no more children. */
  lemma {:induction false} GatherStops(ls: seq<KeyLine>, j: int, hi: nat, upto: nat)
    requires -1 <= j < hi <= upto <= |ls|
    requires hi < |ls| ==> ls[hi].indent <= IndentOf(ls, j)
    ensures Gather(ls, j, upto) == Gather(ls, j, hi)
    decreases upto
  {
    if upto > hi {
      assert !Owns(ls, j, upto - 1);
      GatherStops(ls, j, hi, upto - 1);
    }
  }

  lemma AfterHeader(ls: seq<KeyLine>, j: int, lo: nat, hi: nat, e: nat)
    requires Section(ls, j, lo, hi) && lo < e <= hi && ls[lo].Header?
    requires forall i | lo < i < e :: ls[i].indent > ls[lo].indent
    requires e < hi ==> ls[e].indent <= ls[lo].indent
    ensures Section(ls, lo, lo + 1, e) && Section(ls, j, e, hi)
    ensures forall i | lo < i < e :: Owns(ls, lo, i)
  {
    if e < hi {
      forall h | j < h < e && ls[h].Header?
        ensures exists m | h < m <= e :: ls[m].indent <= ls[h].indent
      {
        if h < lo {
          var m :| h < m <= lo && ls[m].indent <= ls[h].indent;
        } else {
          assert ls[e].indent <= ls[h].indent;
        }
      }
    }
  }

  lemma BlockField(ls: seq<KeyLine>)
    requires ls != [] && ls[0].Field?
    ensures Block(ls) == map[ls[0].key := ls[0].value] + Block(ls[1..])
  {
  }

  lemma BlockHeader(ls: seq<KeyLine>)
    requires ls != [] && ls[0].Header?
    ensures var n := Deeper(ls[1..], ls[0].indent);
            Block(ls) == map[ls[0].key := Obj(Block(ls[1..][..n]))] + Block(ls[1..][n..])
  {
  }

  lemma FieldStep(ls: seq<KeyLine>, lo: nat, hi: nat, before: Fields)
    requires lo < hi <= |ls| && ls[lo].Field?
    ensures before + Block(ls[lo..hi]) == before[ls[lo].key := ls[lo].value] + Block(ls[lo + 1..hi])
  {
    assert ls[lo..hi][1..] == ls[lo + 1..hi];
    BlockField(ls[lo..hi]);
    hide Block;
    PutThenAdd(before, ls[lo].key, ls[lo].value, Block(ls[lo + 1..hi]));
  }

  lemma HeaderStep(ls: seq<KeyLine>, lo: nat, hi: nat, e: nat, before: Fields)
    requires lo < hi <= |ls| && ls[lo].Header? && e == lo + 1 + Deeper(ls[lo + 1..hi], ls[lo].indent)
    ensures e <= hi
    ensures before + Block(ls[lo..hi]) == before[ls[lo].key := Obj(Block(ls[lo + 1..e]))] + Block(ls[e..hi])
  {
    hide Block, Deeper;
    var run, n := ls[lo..hi], e - lo - 1;
    RunSlices(ls, lo, hi, n);
    BlockHeader(run);
    PutThenAdd(before, ls[lo].key, Obj(Block(ls[lo + 1..e])), Block(ls[e..hi]));
  }

  lemma RunSlices(ls: seq<KeyLine>, lo: nat, hi: nat, n: nat)
    requires lo < hi <= |ls| && n <= hi - lo - 1
    ensures var run := ls[lo..hi];
            run[0] == ls[lo] && run[1..] == ls[lo + 1..hi]
            && run[1..][..n] == ls[lo + 1..lo + 1 + n] && run[1..][n..] == ls[lo + 1 + n..hi]
  {
  }

  /** Where the lines a header owns end inside a section. */
  lemma OwnedRun(ls: seq<KeyLine>, lo: nat, hi: nat) returns (e: nat)
    requires lo < hi <= |ls|
    ensures e == lo + 1 + Deeper(ls[lo + 1..hi], ls[lo].indent) && e <= hi
    ensures forall i | lo < i < e :: ls[i].indent > ls[lo].indent
    ensures e < hi ==> ls[e].indent <= ls[lo].indent
  {
    var more := ls[lo + 1..hi];
    var n := Deeper(more, ls[lo].indent);
    e := lo + 1 + n;
    assert forall i | lo < i < e :: ls[i] == more[i - lo - 1];
    assert e < hi ==> ls[e] == more[n];
  }

  lemma AfterField(ls: seq<KeyLine>, j: int, lo: nat, hi: nat)
    requires Section(ls, j, lo, hi) && lo < hi && ls[lo].Field?
    ensures Section(ls, j, lo + 1, hi)
  {
    if lo + 1 < hi {
      forall h | j < h < lo + 1 && ls[h].Header?
        ensures exists m | h < m <= lo + 1 :: ls[m].indent <= ls[h].indent
      {
        var m :| h < m <= lo && ls[m].indent <= ls[h].indent;
      }
    }
  }

  lemma NothingThere(ls: seq<KeyLine>, lo: nat)
    requires lo <= |ls|
    ensures Block(ls[lo..lo]) == map[]
  {
  }

  lemma SectionBounds(ls: seq<KeyLine>, j: int, lo: nat, hi: nat)
    requires Section(ls, j, lo, hi)
    ensures -1 <= j < lo <= hi <= |ls|
  {
  }

  lemma GatherFirst(ls: seq<KeyLine>, j: int, lo: nat)
    requires -1 <= j < lo < |ls| && Parent(ls, lo) == j
    ensures Gather(ls, j, lo + 1)
         == Gather(ls, j, lo)[ls[lo].key := if ls[lo].Field? then ls[lo].value else Obj(Gather(ls, lo, |ls|))]
  {
    hide Parent;
  }

  /** Within a section the two readings agree. */
  lemma {:induction false} SectionAgrees(ls: seq<KeyLine>, j: int, lo: nat, hi: nat)
    requires Section(ls, j, lo, hi)
    ensures Gather(ls, j, hi) == Gather(ls, j, lo) + Block(ls[lo..hi])
    decreases hi - lo, 1
  {
    hide Block, Parent, Deeper, Section, Owns, ValueAt, Gather;
    SectionBounds(ls, j, lo, hi);
    if lo == hi {
      NothingThere(ls, lo);
    } else {
      var before := Gather(ls, j, lo);
      ParentOfFirst(ls, j, lo, hi);
      GatherFirst(ls, j, lo);
      if ls[lo].Field? {
        AfterField(ls, j, lo, hi);
        SectionAgrees(ls, j, lo + 1, hi);
        FieldStep(ls, lo, hi, before);
      } else {
        var e := OwnedRun(ls, lo, hi);
        AfterHeader(ls, j, lo, hi, e);
        SectionAgrees(ls, j, e, hi);
        GatherSkips(ls, j, lo, e);
        OwnedAgrees(ls, lo, e);
        HeaderStep(ls, lo, hi, e, before);
      }
    }
  }

  lemma {:induction false} OwnedAgrees(ls: seq<KeyLine>, lo: nat, e: nat)
    requires Section(ls, lo, lo + 1, e)
    ensures Gather(ls, lo, |ls|) == Block(ls[lo + 1..e])
    decreases e - lo, 0
  {
    hide Block, Parent;
    SectionAgrees(ls, lo, lo + 1, e);
    GatherStops(ls, lo, e, |ls|);
    assert Gather(ls, lo, lo + 1) == map[];
    assert map[] + Block(ls[lo + 1..e]) == Block(ls[lo + 1..e]);
  }

  /** The parser's result, key line by key line: every line belongs to its parent. */
  lemma BlockByParents(ls: seq<KeyLine>)
    ensures Block(ls) == Gather(ls, -1, |ls|)
  {
    SectionAgrees(ls, -1, 0, |ls|);
    assert ls[0..|ls|] == ls;
    assert Gather(ls, -1, 0) == map[];
  }

  /** An object holds exactly the keys of its children. */
  lemma {:induction false} KeysAreChildren(ls: seq<KeyLine>, j: int, upto: nat, key: string)
    requires -1 <= j < upto <= |ls|
    ensures key in Gather(ls, j, upto) <==> exists i | j < i < upto :: Parent(ls, i) == j && ls[i].key == key
    decreases upto
  {
    hide Parent, ValueAt;
    if upto > j + 1 {
      KeysAreChildren(ls, j, upto - 1, key);
    }
  }

  /** Of an object's children with one key the last decides. */
  lemma {:induction false} LastChildDecides(ls: seq<KeyLine>, j: int, upto: nat, i: nat)
    requires -1 <= j < i < upto <= |ls| && Parent(ls, i) == j
    requires forall m | i < m < upto :: Parent(ls, m) != j || ls[m].key != ls[i].key
    ensures ls[i].key in Gather(ls, j, upto) && Gather(ls, j, upto)[ls[i].key] == ValueAt(ls, i)
    decreases upto
  {
    hide Parent, ValueAt;
    if upto > i + 1 {
      LastChildDecides(ls, j, upto - 1, i);
    }
  }
}
