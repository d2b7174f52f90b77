/** JSON documents as RFC 8259 writes them, with any white space, and what `JSON.parse` makes of them. */
module JsonText {
  import opened Options
  import opened Text
  import opened Decimals
  import opened Json
  import opened NumberReading

  /** A document as text is structured. White space may stand before and after every element. */
  datatype Doc =
    | Null
    | Bool(b: bool)
    | Number(neg: bool, whole: string, frac: string, e: Exponent)
    | Text(s: string)
    | Array(blank: string, items: seq<Item>)
    | Object(blank: string, members: seq<Member>)

  datatype Item = Item(before: string, doc: Doc, after: string)
  datatype Member = Member(before: string, name: string, gap: string, item: Item)

  /** The white space of section 2. */
  predicate Blank(s: string) {
    forall c <- s :: c == ' ' || c == '\t' || c == '\n' || c == '\r'
  }

  predicate Valid(doc: Doc) {
    match doc
    case Number(_, whole, frac, e) =>
      whole != "" && AllDigits(whole) && AllDigits(frac) && (|whole| > 1 ==> whole[0] != '0') && e.Valid()
    case Array(blank, items) => Blank(blank) && forall item <- items :: ValidItem(item)
    case Object(blank, members) =>
      Blank(blank) && forall m <- members :: Blank(m.before) && Blank(m.gap) && ValidItem(m.item)
    case _ => true
  }

  predicate ValidItem(item: Item) {
    Blank(item.before) && Valid(item.doc) && Blank(item.after)
  }

  function Print(doc: Doc): (r: string) {
    match doc
    case Null => "null"
    case Bool(b) => if b then "true" else "false"
    case Number(neg, whole, frac, e) => MinusIf(neg) + (PointText(whole, frac) + e.Text())
    case Text(s) => Quote(s)
    case Array(blank, items) => "[" + if items == [] then blank + "]" else PrintItems(items)
    case Object(blank, members) => "{" + if members == [] then blank + "}" else PrintMembers(members)
  }

  /** The items up to and with the closing bracket. */
  function PrintItems(items: seq<Item>): (r: string)
    requires items != []
  {
    items[0].before + (Print(items[0].doc) + (items[0].after
    + if |items| == 1 then "]" else "," + PrintItems(items[1..])))
  }

  function PrintMembers(members: seq<Member>): (r: string)
    requires members != []
  {
    var m := members[0];
    m.before + (Quote(m.name) + (m.gap + (":" + (m.item.before + (Print(m.item.doc) + (m.item.after
    + if |members| == 1 then "}" else "," + PrintMembers(members[1..])))))))
  }

  /** The value of a document; a repeated member name keeps its last value. */
  function Denotes(doc: Doc): (v: Value) {
    match doc
    case Null => Value.Null
    case Bool(b) => Value.Bool(b)
    case Number(neg, whole, frac, e) => Num(Canonical(neg, whole + frac, |whole| + e.Value()))
    case Text(s) => Str(s)
    case Array(_, items) => List(DenotesItems(items))
    case Object(_, members) => Obj(DenotesMembers(members))
  }

  function DenotesItems(items: seq<Item>): (vs: seq<Value>) {
    if items == [] then [] else [Denotes(items[0].doc)] + DenotesItems(items[1..])
  }

  function DenotesMembers(members: seq<Member>): (m: map<string, Value>) {
    if members == [] then map[]
    else map[members[0].name := Denotes(members[0].item.doc)] + DenotesMembers(members[1..])
  }

  // ---- white space ----

  lemma {:induction false} SkipsBlank(ws: string, s: string)
    requires Blank(ws) && s != "" && !Blank([s[0]])
    ensures SkipWs(ws + s) == s
  {
    if ws == "" {
      assert ws + s == s;
      assert s[0] in [s[0]];
    } else {
      assert ws[0] in ws && (ws + s)[1..] == ws[1..] + s && forall c <- ws[1..] :: c in ws;
      SkipsBlank(ws[1..], s);
    }
  }

  lemma {:induction false} SkipsAll(ws: string)
    requires Blank(ws)
    ensures SkipWs(ws) == ""
  {
    if ws != "" {
      assert ws[0] in ws && forall c <- ws[1..] :: c in ws;
      SkipsAll(ws[1..]);
    }
  }

  /** What may follow a value: nothing, white space, or the end of an element. */
  predicate Follows(tail: string) {
    tail != "" ==> tail[0] in {' ', '\t', '\n', '\r', ',', ']', '}'}
  }

  lemma FollowsBlank(ws: string, tail: string)
    requires Blank(ws) && (tail == "" || tail[0] in {',', ']', '}'})
    ensures Follows(ws + tail)
  {
    if ws != "" {
      assert (ws + tail)[0] == ws[0] && ws[0] in ws;
    } else {
      assert ws + tail == tail;
    }
  }

  // ---- values ----

  /** No value starts with white space or a closing bracket. */
  lemma StartsValue(doc: Doc)
    requires Valid(doc)
    ensures var p := Print(doc); p != "" && !Blank([p[0]]) && p[0] != ']' && p[0] != '}' && p[0] != ','
  {
    hide PrintItems, PrintMembers, Quote, PointText;
    var p := Print(doc);
    match doc
    case Number(neg, whole, frac, e) =>
      NumberStarts(neg, whole, frac, e);
      NoBlank(p[0]);
    case Text(s) =>
      QuoteStarts(s);
      NoBlank(p[0]);
    case _ => NoBlank(p[0]);
  }

  lemma NoBlank(c: char)
    ensures c != ' ' && c != '\t' && c != '\n' && c != '\r' ==> !Blank([c])
  {
    assert c in [c];
  }

  lemma QuoteStarts(s: string)
    ensures Quote(s) != "" && Quote(s)[0] == '\"'
  {
  }

  lemma NumberStarts(neg: bool, whole: string, frac: string, e: Exponent)
    requires whole != "" && AllDigits(whole)
    ensures var p := MinusIf(neg) + (PointText(whole, frac) + e.Text());
            p != "" && (p[0] == '-' || IsDigit(p[0]))
  {
    assert PointText(whole, frac)[0] == whole[0];
  }

  lemma WordReads(word: string, tail: string)
    requires word in {"null", "true", "false"}
    ensures ParseValue(word + tail)
         == Parse.Ok(if word == "null" then Value.Null else Value.Bool(word == "true"), tail)
  {
    var r := word + tail;
    assert r[0] == word[0] && r[..|word|] == word && r[|word|..] == tail;
  }

  lemma NumberReads(neg: bool, whole: string, frac: string, e: Exponent, tail: string)
    requires whole != "" && AllDigits(whole) && AllDigits(frac) && (|whole| > 1 ==> whole[0] != '0') && e.Valid()
    requires Follows(tail)
    ensures ParseValue(MinusIf(neg) + (PointText(whole, frac) + e.Text()) + tail)
         == Parse.Ok(Num(Canonical(neg, whole + frac, |whole| + e.Value())), tail)
  {
    hide Canonical, ParseMagnitude, AllDigits, Exponent.Text, Exponent.Value;
    var r := PointText(whole, frac) + (e.Text() + tail);
    FirstDigit(whole, frac);
    Moved(MinusIf(neg), PointText(whole, frac), e.Text(), tail);
    MagnitudeReads(neg, whole, frac, e, tail);
    if neg { assert ("-" + r)[1..] == r; } else { assert "" + r == r; }
    NumberStep(neg, r);
  }

  lemma FirstDigit(whole: string, frac: string)
    requires whole != "" && AllDigits(whole)
    ensures PointText(whole, frac) != "" && IsDigit(PointText(whole, frac)[0])
  {
  }

  lemma Moved(a: string, b: string, c: string, d: string)
    ensures a + (b + c) + d == a + (b + (c + d))
  {
  }

  /** `JSON.parse` reads every document as the value it denotes, whatever follows it. */
  lemma {:induction false} ValueReads(doc: Doc, tail: string)
    requires Valid(doc) && Follows(tail)
    ensures ParseValue(Print(doc) + tail) == Parse.Ok(Denotes(doc), tail)
    decreases doc, 0
  {
    hide ParseValue, Quote, Canonical, PrintItems, PrintMembers, Follows, Blank, SkipWs;
    match doc
    case Null => WordReads("null", tail);
    case Bool(b) => WordReads(if b then "true" else "false", tail);
    case Number(neg, whole, frac, e) => NumberReads(neg, whole, frac, e, tail);
    case Text(s) => ParseQuoted(s, tail);
    case Array(blank, items) =>
      if items == [] {
        EmptyReads("[", blank, "]", tail);
      } else {
        Regroup("[", PrintItems(items), tail);
        ItemsStart(items, tail);
        OpenArray(PrintItems(items) + tail);
        ItemsRead(items, tail);
      }
    case Object(blank, members) =>
      if members == [] {
        EmptyReads("{", blank, "}", tail);
      } else {
        Regroup("{", PrintMembers(members), tail);
        MembersStart(members, tail);
        OpenObject(PrintMembers(members) + tail);
        MembersRead(members, tail);
      }
  }

  lemma EmptyReads(open: string, blank: string, close: string, tail: string)
    requires Blank(blank) && ((open == "[" && close == "]") || (open == "{" && close == "}"))
    ensures ParseValue(open + (blank + close) + tail)
         == Parse.Ok(if open == "[" then List([]) else Obj(map[]), tail)
  {
    var inside := close + tail;
    assert open + (blank + close) + tail == open + (blank + inside);
    assert (open + (blank + inside))[1..] == blank + inside && inside[1..] == tail;
    NoBlank(inside[0]);
    SkipsBlank(blank, inside);
  }

  lemma OpenArray(inside: string)
    ensures var r := SkipWs(inside);
            r != "" && r[0] != ']' ==>
              ParseValue("[" + inside)
              == match ParseItems(r) case Fail => Parse.Fail case Ok(vs, rest) => Parse.Ok(List(vs), rest)
  {
    assert ("[" + inside)[1..] == inside;
  }

  lemma OpenObject(inside: string)
    ensures var r := SkipWs(inside);
            r != "" && r[0] != '}' ==>
              ParseValue("{" + inside)
              == match ParseMembers(r) case Fail => Parse.Fail case Ok(m, rest) => Parse.Ok(Obj(m), rest)
  {
    assert ("{" + inside)[1..] == inside;
  }

  // ---- arrays ----

  /** The items' text without the white space in front of it. */
  function ItemsText(items: seq<Item>, tail: string): (r: string)
    requires items != []
  {
    Print(items[0].doc) + (items[0].after + ((if |items| == 1 then "]" else "," + PrintItems(items[1..])) + tail))
  }

  lemma ItemsStart(items: seq<Item>, tail: string)
    requires items != [] && ValidItem(items[0])
    ensures var r := SkipWs(PrintItems(items) + tail);
            r == ItemsText(items, tail) && r != "" && r[0] != ']'
  {
    hide Print, SkipWs, Blank;
    var item := items[0];
    var rest := if |items| == 1 then "]" else "," + PrintItems(items[1..]);
    Behind4(item.before, Print(item.doc), item.after, rest, tail);
    StartsValue(item.doc);
    SkipsBlank(item.before, ItemsText(items, tail));
  }

  lemma Behind4(a: string, b: string, c: string, d: string, e: string)
    ensures (a + (b + (c + d))) + e == a + (b + (c + (d + e)))
  {
  }

  lemma {:induction false} ItemsRead(items: seq<Item>, tail: string)
    requires items != [] && forall item <- items :: ValidItem(item)
    ensures ParseItems(ItemsText(items, tail)) == Parse.Ok(DenotesItems(items), tail)
    decreases items, 1
  {
    hide Print, Denotes, ParseValue, SkipWs, Blank, Follows, PrintItems;
    var item := items[0];
    assert item in items && forall other <- items[1..] :: other in items;
    if |items| == 1 {
      var more := item.after + ("]" + tail);
      FollowsBlank(item.after, "]" + tail);
      ValueReads(item.doc, more);
      AfterValue(item.after, "]", tail);
      assert items[1..] == [] && DenotesItems(items) == [Denotes(item.doc)] + [] == [Denotes(item.doc)];
    } else {
      var next := PrintItems(items[1..]) + tail;
      var more := item.after + ("," + next);
      Comma(item.after, PrintItems(items[1..]), tail);
      FollowsBlank(item.after, "," + next);
      ValueReads(item.doc, more);
      AfterValue(item.after, ",", next);
      ItemsStart(items[1..], tail);
      ItemsRead(items[1..], tail);
    }
  }

  lemma Comma(a: string, b: string, tail: string)
    ensures a + (("," + b) + tail) == a + ("," + (b + tail))
  {
  }

  lemma AfterValue(after: string, mark: string, rest: string)
    requires Blank(after) && mark in {",", "]", "}", ":"}
    ensures var r := SkipWs(after + (mark + rest));
            r == mark + rest && r[0] == mark[0] && r[1..] == rest
  {
    hide Blank;
    NoBlank(mark[0]);
    SkipsBlank(after, mark + rest);
  }

  // ---- objects ----

  function MembersText(members: seq<Member>, tail: string): (r: string)
    requires members != []
  {
    var m := members[0];
    Quote(m.name) + (m.gap + (":" + (m.item.before + (Print(m.item.doc) + (m.item.after
    + ((if |members| == 1 then "}" else "," + PrintMembers(members[1..])) + tail))))))
  }

  lemma MembersStart(members: seq<Member>, tail: string)
    requires members != [] && Blank(members[0].before)
    ensures var r := SkipWs(PrintMembers(members) + tail);
            r == MembersText(members, tail) && r != "" && r[0] == '\"'
  {
    hide Print, SkipWs, Blank, Quote;
    var m := members[0];
    var rest := if |members| == 1 then "}" else "," + PrintMembers(members[1..]);
    Behind7(m.before, Quote(m.name), m.gap, m.item.before, Print(m.item.doc), m.item.after, rest, tail);
    QuoteStarts(m.name);
    NoBlank('\"');
    SkipsBlank(m.before, MembersText(members, tail));
  }

  lemma Behind7(a: string, b: string, c: string, d: string, e: string, f: string, g: string, h: string)
    ensures (a + (b + (c + (":" + (d + (e + (f + g))))))) + h == a + (b + (c + (":" + (d + (e + (f + (g + h)))))))
  {
    assert (d + (e + (f + g))) + h == d + (e + (f + (g + h)));
    assert (c + (":" + (d + (e + (f + g))))) + h == c + (":" + ((d + (e + (f + g))) + h));
  }

  lemma {:induction false} MembersRead(members: seq<Member>, tail: string)
    requires members != []
    requires forall m <- members :: Blank(m.before) && Blank(m.gap) && ValidItem(m.item)
    ensures ParseMembers(MembersText(members, tail)) == Parse.Ok(DenotesMembers(members), tail)
    decreases members, 1
  {
    hide Print, Denotes, ParseValue, ParseMembers, SkipWs, Blank, Follows, PrintMembers, Quote, ValidItem, MembersText;
    var m := members[0];
    assert m in members && forall other <- members[1..] :: other in members;
    if |members| == 1 {
      MemberReads(m, "}", tail);
      LastMember(members, tail);
    } else {
      var next := PrintMembers(members[1..]) + tail;
      MemberReads(m, ",", next);
      MembersStart(members[1..], tail);
      MembersRead(members[1..], tail);
      MoreMembers(members, tail);
    }
  }

  /** One member up to the mark after it, by the parser's steps. */
  function MemberText(m: Member, mark: string, next: string): (r: string) {
    Quote(m.name) + (m.gap + (":" + (m.item.before + (Print(m.item.doc) + (m.item.after + (mark + next))))))
  }

  lemma LastMember(members: seq<Member>, tail: string)
    requires |members| == 1
    ensures MembersText(members, tail) == MemberText(members[0], "}", tail)
    ensures DenotesMembers(members) == map[members[0].name := Denotes(members[0].item.doc)]
  {
    hide Print, Quote, Denotes;
    assert members[1..] == [];
  }

  lemma MoreMembers(members: seq<Member>, tail: string)
    requires |members| > 1
    ensures MembersText(members, tail) == MemberText(members[0], ",", PrintMembers(members[1..]) + tail)
  {
    hide Print, Quote, PrintMembers;
    Comma("", PrintMembers(members[1..]), tail);
  }

  lemma MemberReads(m: Member, mark: string, next: string)
    requires Blank(m.before) && Blank(m.gap) && ValidItem(m.item) && mark in {",", "}"}
    ensures ParseMembers(MemberText(m, mark, next))
         == if mark == "}" then Parse.Ok(map[m.name := Denotes(m.item.doc)], next)
            else match ParseMembers(SkipWs(next))
                 case Fail => Parse.Fail
                 case Ok(fields, rest) => Parse.Ok(map[m.name := Denotes(m.item.doc)] + fields, rest)
    decreases m, 0
  {
    hide Print, Denotes, ParseValue, SkipWs, Blank, Follows, Escape, ParseStringBody;
    var value := Print(m.item.doc) + (m.item.after + (mark + next));
    var more := m.gap + (":" + (m.item.before + value));
    var r := Quote(m.name) + more;
    StringRoundTrip(m.name, more);
    assert r[1..] == Escape(m.name) + "\"" + more && r[0] == '\"';
    AfterValue(m.gap, ":", m.item.before + value);
    StartsValue(m.item.doc);
    SkipsBlank(m.item.before, value);
    FollowsBlank(m.item.after, mark + next);
    ValueReads(m.item.doc, m.item.after + (mark + next));
    AfterValue(m.item.after, mark, next);
  }

  /** A whole text: any document with white space around it. */
  lemma DocumentReads(before: string, doc: Doc, after: string)
    requires Blank(before) && Valid(doc) && Blank(after)
    ensures ParseJson(before + (Print(doc) + after)) == Just(Denotes(doc))
  {
    hide Print, Denotes, ParseValue, SkipWs, Blank, Follows;
    StartsValue(doc);
    SkipsBlank(before, Print(doc) + after);
    assert after + "" == after;
    FollowsBlank(after, "");
    ValueReads(doc, after);
    SkipsAll(after);
  }
}
