/** The line layout of `configToYaml`, and what `parseConfigYaml` makes of it. */
module RoundTrip {
  import opened Options
  import opened Text
  import opened Json
  import opened Scalar
  import opened ConfigLine
  import opened ConfigTree
  import opened LineBreaks
  import Comment
  import Decimals

  /** What the writer lists: key lines with a leaf, headers with the items indented under them, and lines
      that are blank or hold only a comment. Any key line may carry a trailing comment. */
  datatype Item =
    | Entry(key: string, leaf: Leaf, trail: Trail)
    | Section(key: string, trail: Trail, items: seq<Item>)
    | Remark(trail: Trail)

  predicate LegalItem(item: Item) {
    match item
    case Entry(key, leaf, trail) => LegalKey(key) && leaf.Valid() && trail.Valid()
    case Section(key, trail, items) => LegalKey(key) && trail.Valid() && Legal(items)
    case Remark(trail) => trail.Trail? ==> AllSpace(trail.ws) && '\n' !in trail.ws && '\n' !in trail.note
  }

  predicate Legal(items: seq<Item>) {
    forall item <- items :: LegalItem(item)
  }

  /** No string leaf holds a line break. */
  predicate OneLined(items: seq<Item>) {
    forall item <- items :: OneLinedItem(item)
  }

  predicate OneLinedItem(item: Item) {
    match item
    case Entry(_, leaf, _) => OneLine(leaf)
    case Section(_, _, items) => OneLined(items)
    case Remark(_) => true
  }

  function Emit(items: seq<Item>, level: nat): (r: seq<string>) {
    if items == [] then [] else EmitItem(items[0], level) + Emit(items[1..], level)
  }

  function EmitItem(item: Item, level: nat): (r: seq<string>) {
    match item
    case Entry(key, leaf, trail) => [LeafLine(level, key, leaf, trail)]
    case Section(key, trail, items) => [HeaderLine(level, key, trail)] + Emit(items, level + 1)
    case Remark(trail) => [trail.Text()]
  }

  function ConfigText(items: seq<Item>): (r: string) {
    Join(Emit(items, 0), "\n")
  }

  /** The object the items describe; a repeated key keeps its last value. */
  function Meaning(items: seq<Item>): (r: Fields) {
    if items == [] then map[] else ItemMeaning(items[0]) + Meaning(items[1..])
  }

  function ItemMeaning(item: Item): (r: Fields) {
    match item
    case Entry(key, leaf, _) => map[key := leaf.Value()]
    case Section(key, _, items) => map[key := Obj(Meaning(items))]
    case Remark(_) => map[]
  }

  // ---- key lines of an emitted text ----

  /** The key lines the items give. */
  function Lines(items: seq<Item>, level: nat): (r: seq<KeyLine>) {
    if items == [] then [] else ItemLines(items[0], level) + Lines(items[1..], level)
  }

  function ItemLines(item: Item, level: nat): (r: seq<KeyLine>) {
    match item
    case Entry(key, leaf, trail) => [Reading(level, key, leaf, trail)]
    case Section(key, _, items) => [Header(2 * level, key)] + Lines(items, level + 1)
    case Remark(_) => []
  }

  lemma {:induction false} KeyLinesJoin(a: seq<string>, b: seq<string>)
    ensures KeyLines(a + b) == KeyLines(a) + KeyLines(b)
  {
    hide ReadLine;
    if a == [] {
      assert a + b == b;
    } else {
      assert (a + b)[1..] == a[1..] + b;
      KeyLinesJoin(a[1..], b);
    }
  }

  lemma KeyLinesOne(line: string)
    ensures KeyLines([line]) == match ReadLine(line) case Nothing => [] case Just(l) => [l]
  {
  }

  lemma {:induction false} ScanBlankFront(ws: string, note: string, a: bool)
    requires AllSpace(ws) && (ws != "" || a)
    ensures Comment.KeptPlain(ws + "#" + note, a) == |ws|
  {
    var r := ws + "#" + note;
    if ws != "" {
      assert r[1..] == ws[1..] + "#" + note;
      ScanBlankFront(ws[1..], note, true);
    }
  }

  lemma StripBlankFront(ws: string, note: string)
    requires AllSpace(ws)
    ensures Comment.WithoutComment(ws + "#" + note) == ws
  {
    hide IsSpace, IndexOf, Comment.KeptPlain, Comment.KeptValue;
    var line := ws + "#" + note;
    var colon := IndexOf(line, ':');
    NoColonInSpace(ws);
    assert line[|ws|] == '#';
    assert colon >= 0 ==> line[colon] == ':';
    assert forall j | 0 <= j < |ws| :: line[j] == ws[j];
    var cut := if colon == -1 then |note| else colon - |ws|;
    var head := if colon == -1 then line else line[..colon + 1];
    assert head == ws + "#" + note[..cut];
    ScanBlankFront(ws, note[..cut], true);
    assert line[..|ws|] == ws;
  }

  lemma NoColonInSpace(ws: string)
    requires AllSpace(ws)
    ensures ':' !in ws
  {
    ColonIsNoSpace();
  }

  /** A line with nothing but white space before a comment, or nothing at all, is passed over. */
  lemma RemarkReadsAsNothing(trail: Trail)
    requires trail.Trail? ==> AllSpace(trail.ws)
    ensures ReadLine(trail.Text()) == Nothing
  {
    hide TrimStart, TrimEnd;
    TrimEmptyIff("");
    assert IndexOf("", ':') == -1;
    if trail.Trail? {
      StripBlankFront(trail.ws, trail.note);
      TrimEmptyIff(trail.ws);
    } else {
      assert Comment.WithoutComment("") == "";
    }
  }

  /** Every emitted line reads as the key line it was printed for. */
  lemma {:induction false} EmittedLines(items: seq<Item>, level: nat)
    requires Legal(items)
    ensures KeyLines(Emit(items, level)) == Lines(items, level)
    decreases items, 0
  {
    if items != [] {
      assert items[0] in items;
      EmittedItem(items[0], level);
      EmittedLines(items[1..], level);
      KeyLinesJoin(EmitItem(items[0], level), Emit(items[1..], level));
    }
  }

  lemma {:induction false} EmittedItem(item: Item, level: nat)
    requires LegalItem(item)
    ensures KeyLines(EmitItem(item, level)) == ItemLines(item, level)
    decreases item, 1
  {
    hide ReadLine;
    match item
    case Entry(key, leaf, trail) =>
      ReadLeafLine(level, key, leaf, trail);
      KeyLinesOne(LeafLine(level, key, leaf, trail));
    case Section(key, trail, items) =>
      ReadHeaderLine(level, key, trail);
      KeyLinesOne(HeaderLine(level, key, trail));
      EmittedLines(items, level + 1);
      KeyLinesJoin([HeaderLine(level, key, trail)], Emit(items, level + 1));
    case Remark(trail) =>
      RemarkReadsAsNothing(trail);
      KeyLinesOne(trail.Text());
  }

  // ---- emitted lines hold no line break ----

  lemma {:induction false} NoBreakInDoubled(s: string)
    requires NoBreak(s)
    ensures NoBreak(Doubled(s))
  {
    if s != "" { NoBreakInDoubled(s[1..]); }
  }

  lemma {:induction false} NoBreakInEscape(s: string)
    ensures NoBreak(Escape(s))
  {
    if s != "" {
      NoBreakInEscape(s[1..]);
      assert NoBreak(EscapeChar(s[0]));
    }
  }

  lemma {:induction false} NoBreakInItems(ss: seq<string>)
    requires ss != []
    ensures NoBreak(ItemsText(ss, ",", ""))
  {
    hide Quote;
    ItemsTextCons(ss, ",", "");
    NoBreakInQuote(ss[0]);
    if |ss| > 1 {
      NoBreakInItems(ss[1..]);
    }
  }

  lemma NoBreakInQuote(s: string)
    ensures NoBreak(Quote(s))
  {
    NoBreakInEscape(s);
  }

  lemma NoBreakInList(ss: seq<string>)
    ensures NoBreak(StringifyList(ss))
  {
    if ss == [] {
      assert QuoteAll(ss) == [];
    } else {
      NoBreakInItems(ss);
      assert StringifyList(ss) == "[" + ItemsText(ss, ",", "");
    }
  }

  lemma NoBreakInLeaf(leaf: Leaf)
    requires leaf.Valid() && OneLine(leaf)
    ensures NoBreak(leaf.Print())
  {
    match leaf
    case LBool(_) =>
    case LNull =>
    case LNum(n) => Decimals.PrintChars(n);
    case LStr(s) => NoBreakInDoubled(s);
    case LList(ss) => NoBreakInList(ss);
  }

  lemma {:induction false} NoBreakInEmit(items: seq<Item>, level: nat)
    requires Legal(items) && OneLined(items)
    ensures forall line <- Emit(items, level) :: NoBreak(line)
    decreases items, 0
  {
    if items != [] {
      NoBreakInEmitItem(items[0], level);
      NoBreakInEmit(items[1..], level);
    }
  }

  lemma {:induction false} NoBreakInEmitItem(item: Item, level: nat)
    requires LegalItem(item) && OneLinedItem(item)
    ensures forall line <- EmitItem(item, level) :: NoBreak(line)
    decreases item, 1
  {
    match item
    case Entry(key, leaf, trail) =>
      NoBreakInLeaf(leaf);
      hide Leaf.Print;
    case Section(key, trail, items) => NoBreakInEmit(items, level + 1);
    case Remark(_) =>
  }

  // ---- the block of the emitted lines ----

  /** Every leaf reads back, and none with a comment after it leaves a quote open. */
  predicate Faithful(items: seq<Item>) {
    forall item <- items :: FaithfulItem(item)
  }

  predicate FaithfulItem(item: Item) {
    match item
    case Entry(_, leaf, trail) => ReadsBack(leaf) && TakesComment(leaf, trail)
    case Section(_, _, items) => Faithful(items)
    case Remark(_) => true
  }

  /** The object the items are read as: as `Meaning`, with each leaf as its own line gives it. A blank text reads as
      an empty object. */
  function ReadMeaning(items: seq<Item>): (r: Fields) {
    if items == [] then map[] else ReadItemMeaning(items[0]) + ReadMeaning(items[1..])
  }

  function ReadLeaf(leaf: Leaf, trail: Trail): (v: Value) {
    match Reading(0, "", leaf, trail)
    case Header(_, _) => Obj(map[])
    case Field(_, _, value) => value
  }

  function ReadItemMeaning(item: Item): (r: Fields) {
    match item
    case Entry(key, leaf, trail) => map[key := ReadLeaf(leaf, trail)]
    case Section(key, _, items) => map[key := Obj(ReadMeaning(items))]
    case Remark(_) => map[]
  }

  lemma {:induction false} LinesAreDeep(items: seq<Item>, level: nat)
    ensures forall l <- Lines(items, level) :: l.indent >= 2 * level
    ensures Lines(items, level) != [] ==> Lines(items, level)[0].indent == 2 * level
    decreases items, 0
  {
    if items != [] {
      ItemLinesAreDeep(items[0], level);
      LinesAreDeep(items[1..], level);
    }
  }

  lemma {:induction false} ItemLinesAreDeep(item: Item, level: nat)
    ensures forall l <- ItemLines(item, level) :: l.indent >= 2 * level
    ensures ItemLines(item, level) != [] ==> ItemLines(item, level)[0].indent == 2 * level
    decreases item, 1
  {
    if item.Section? {
      LinesAreDeep(item.items, level + 1);
    }
  }

  lemma {:induction false} DeeperExactly(deep: seq<KeyLine>, rest: seq<KeyLine>, indent: int)
    requires forall l <- deep :: l.indent > indent
    requires rest != [] ==> rest[0].indent <= indent
    ensures Deeper(deep + rest, indent) == |deep|
  {
    if deep == [] {
      assert deep + rest == rest;
    } else {
      assert (deep + rest)[1..] == deep[1..] + rest;
      DeeperExactly(deep[1..], rest, indent);
    }
  }

  /** A header with the lines it owns, before lines of its own depth. */
  lemma BlockSection(indent: nat, key: string, deep: seq<KeyLine>, rest: seq<KeyLine>)
    requires forall l <- deep :: l.indent > indent
    requires rest != [] ==> rest[0].indent <= indent
    ensures Block([Header(indent, key)] + deep + rest) == map[key := Obj(Block(deep))] + Block(rest)
  {
    hide Deeper;
    var ls := [Header(indent, key)] + deep + rest;
    assert ls[1..] == deep + rest;
    DeeperExactly(deep, rest, indent);
    assert (deep + rest)[..|deep|] == deep && (deep + rest)[|deep|..] == rest;
    BlockOfHeaded(ls);
  }

  lemma BlockOfHeaded(ls: seq<KeyLine>)
    requires ls != [] && ls[0].Header?
    ensures var n := Deeper(ls[1..], ls[0].indent);
            Block(ls) == map[ls[0].key := Obj(Block(ls[1..][..n]))] + Block(ls[1..][n..])
  {
    hide Deeper;
  }

  lemma BlockEntry(l: KeyLine, rest: seq<KeyLine>)
    requires l.Field?
    ensures Block([l] + rest) == map[l.key := l.value] + Block(rest)
  {
    assert ([l] + rest)[1..] == rest;
  }

  lemma {:induction false} BlockOfItem(item: Item, level: nat, rest: seq<KeyLine>)
    requires rest != [] ==> rest[0].indent == 2 * level
    ensures Block(ItemLines(item, level) + rest) == ReadItemMeaning(item) + Block(rest)
    decreases item, 1
  {
    hide Block, ReadMeaning, Lines, TrimStart, TrimEnd, ScalarOf, KeptText;
    match item
    case Entry(key, leaf, trail) =>
      var l := Reading(level, key, leaf, trail);
      if l.Field? {
        BlockEntry(l, rest);
      } else {
        BlockSection(2 * level, key, [], rest);
        assert [l] + [] + rest == [l] + rest;
        BlockNothing();
      }
    case Section(key, _, sub) =>
      BlockOfLines(sub, level + 1);
      LinesAreDeep(sub, level + 1);
      BlockSection(2 * level, key, Lines(sub, level + 1), rest);
    case Remark(_) =>
      assert [] + rest == rest;
      assert map[] + Block(rest) == Block(rest);
  }

  lemma BlockNothing()
    ensures Block([]) == map[]
  {
  }

  lemma {:induction false} BlockOfLines(items: seq<Item>, level: nat)
    ensures Block(Lines(items, level)) == ReadMeaning(items)
    decreases items, 0
  {
    if items != [] {
      hide Block;
      BlockOfLines(items[1..], level);
      LinesAreDeep(items[1..], level);
      BlockOfItem(items[0], level, Lines(items[1..], level));
    } else {
      BlockNothing();
    }
  }

  /** What the parser makes of an emitted text, whatever its leaves. */
  lemma EmittedDocument(items: seq<Item>)
    requires Legal(items) && OneLined(items)
    ensures Document(ConfigText(items)) == ReadMeaning(items)
  {
    var lines := Emit(items, 0);
    EmittedLines(items, 0);
    BlockOfLines(items, 0);
    NoBreakInEmit(items, 0);
    if lines == [] {
      assert ConfigText(items) == "";
      RemarkReadsAsNothing(NoTrail);
      KeyLinesOne("");
    } else {
      SplitJoin(lines, '\n');
    }
  }

  // ---- the round trip ----

  lemma ReadLeafExact(leaf: Leaf, trail: Trail)
    requires leaf.Valid() && trail.Valid()
    ensures ReadLeaf(leaf, trail) == leaf.Value() <==> ReadsBack(leaf) && TakesComment(leaf, trail)
  {
    hide TrimStart, TrimEnd, KeptText, ScalarOf, ReadsBack, TakesComment;
    ReadingIsExact(0, "", leaf, trail);
  }

  lemma {:induction false} FaithfulMeaning(items: seq<Item>)
    requires Legal(items) && Faithful(items)
    ensures ReadMeaning(items) == Meaning(items)
    decreases items
  {
    if items != [] {
      hide ReadLeaf, ReadsBack, TakesComment;
      assert LegalItem(items[0]) && FaithfulItem(items[0]) by { assert items[0] in items; }
      FaithfulMeaning(items[1..]);
      match items[0]
      case Entry(_, leaf, trail) => ReadLeafExact(leaf, trail);
      case Section(_, _, sub) => FaithfulMeaning(sub);
      case Remark(_) =>
    }
  }

  /** The round trip: at any depth and width, with blank lines, comment lines and trailing comments anywhere,
      the parser gives back exactly the object that was printed. */
  lemma ConfigRoundTrip(items: seq<Item>)
    requires Legal(items) && Faithful(items) && OneLined(items)
    ensures Document(ConfigText(items)) == Meaning(items)
  {
    EmittedDocument(items);
    FaithfulMeaning(items);
  }

  // ---- exactly when it holds ----

  function Keys(items: seq<Item>): (r: set<string>) {
    if items == [] then {} else (if items[0].Remark? then {} else {items[0].key}) + Keys(items[1..])
  }

  /** No key is listed twice in one section. */
  predicate Distinct(items: seq<Item>) {
    items != [] ==>
      && (items[0].Remark? || items[0].key !in Keys(items[1..]))
      && (items[0].Section? ==> Distinct(items[0].items))
      && Distinct(items[1..])
  }

  lemma {:induction false} MeaningKeys(items: seq<Item>)
    ensures Meaning(items).Keys == Keys(items) && ReadMeaning(items).Keys == Keys(items)
  {
    if items != [] {
      MeaningKeys(items[1..]);
    }
  }

  lemma SumsDiffer(key: string, x: Value, y: Value, a: Fields, b: Fields)
    requires key !in a && key !in b
    ensures map[key := x] + a == map[key := y] + b ==> x == y && a == b
  {
    var m, n := map[key := x] + a, map[key := y] + b;
    if m == n {
      assert m[key] == x && n[key] == y;
      assert a == m - {key} && b == n - {key};
    }
  }

  lemma FaithfulCons(items: seq<Item>)
    requires items != []
    ensures Faithful(items) <==> FaithfulItem(items[0]) && Faithful(items[1..])
  {
    hide FaithfulItem;
    assert items == [items[0]] + items[1..];
    if Faithful(items) {
      assert items[0] in items;
    }
  }

  /** One leaf that does not read back, or takes in its comment, is enough to lose the object. */
  lemma {:induction false} UnfaithfulMeaning(items: seq<Item>)
    requires Legal(items) && Distinct(items) && !Faithful(items)
    ensures ReadMeaning(items) != Meaning(items)
    decreases items
  {
    hide ReadLeaf, ReadsBack, TakesComment;
    var item, rest := items[0], items[1..];
    assert LegalItem(item) by { assert item in items; }
    FaithfulCons(items);
    if !Faithful(rest) {
      UnfaithfulMeaning(rest);
    }
    MeaningKeys(rest);
    match item
    case Entry(key, leaf, trail) =>
      ReadLeafExact(leaf, trail);
      SumsDiffer(key, ReadLeaf(leaf, trail), leaf.Value(), ReadMeaning(rest), Meaning(rest));
    case Section(key, _, sub) =>
      if !Faithful(sub) {
        UnfaithfulMeaning(sub);
      }
      SumsDiffer(key, Obj(ReadMeaning(sub)), Obj(Meaning(sub)), ReadMeaning(rest), Meaning(rest));
    case Remark(_) =>
      assert map[] + ReadMeaning(rest) == ReadMeaning(rest) && map[] + Meaning(rest) == Meaning(rest);
  }

  lemma OneLinedCons(items: seq<Item>)
    requires items != []
    ensures OneLined(items) <==> OneLinedItem(items[0]) && OneLined(items[1..])
  {
    hide OneLinedItem;
    assert items == [items[0]] + items[1..];
    if OneLined(items) {
      assert items[0] in items;
    }
  }

  /** A string with a line break is in the object, where a reader never puts one. */
  lemma {:induction false} BrokenMeaning(items: seq<Item>)
    requires Distinct(items) && !OneLined(items)
    ensures !Unbroken(Obj(Meaning(items)))
    decreases items
  {
    assert items != [];
    hide OneLined;
    var item, rest := items[0], items[1..];
    OneLinedCons(items);
    MeaningKeys(rest);
    var all := Meaning(items);
    assert all == ItemMeaning(item) + Meaning(rest);
    if !OneLined(rest) {
      BrokenMeaning(rest);
      var k :| k in Meaning(rest) && !Unbroken(Meaning(rest)[k]);
      assert all[k] == Meaning(rest)[k];
    } else {
      assert !OneLinedItem(item);
      match item
      case Entry(key, leaf, _) => assert all[key] == leaf.Value() && !Unbroken(leaf.Value());
      case Section(key, _, sub) =>
        BrokenMeaning(sub);
        assert all[key] == Obj(Meaning(sub));
    }
  }

  /** With no key listed twice, the object comes back exactly when every leaf reads back, none with a comment after
      it leaves a quote open, and no string holds a line break. */
  lemma ConfigRoundTripExact(items: seq<Item>)
    requires Legal(items) && Distinct(items)
    ensures Document(ConfigText(items)) == Meaning(items) <==> Faithful(items) && OneLined(items)
  {
    hide Document, Legal, Faithful, OneLined, Distinct, Unbroken;
    if !OneLined(items) {
      BrokenMeaning(items);
      DocumentUnbroken(ConfigText(items));
    } else {
      EmittedDocument(items);
      if Faithful(items) {
        FaithfulMeaning(items);
      } else {
        UnfaithfulMeaning(items);
      }
    }
  }
}
