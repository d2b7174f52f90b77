/** Turn extraction of src/capture/proxy.ts: the reply and the user turns of one exchange, from parsed bodies. */
module Turns {
  import opened Options
  import opened Text
  import opened Json
  import opened Decimals

  datatype Role = User | Assistant
  datatype Turn = Turn(role: Role, text: string)

  /** A body as the code reads it: `JSON.parse` of the whole text when that succeeds, and the parsed payloads
      of its `data:` lines in order. Lines that are blank, `[DONE]`, not `data:` or not JSON are skipped by
      the code and left out here. */
  datatype Body = Blank | Body(whole: Maybe<Value>, events: seq<Value>)

  /** A result, or an exception on its way to the caller. */
  datatype Outcome<T> = Threw | Got(value: T)

  // ---- reading properties ----

  /** `v[name]` of a value that is not null; arrays, strings, numbers and booleans have no such property. */
  function Get(v: Value, name: string): (r: Value) {
    if v.Obj? && name in v.fields then v.fields[name] else Undefined
  }

  /** `v && typeof v === 'object'` */
  predicate IsObject(v: Value) {
    v.Obj? || v.List?
  }

  predicate Truthy(v: Value) {
    match v
    case Undefined => false
    case Null => false
    case Bool(b) => b
    case Num(n) => n.digits != ""
    case Str(s) => s != ""
    case List(_) => true
    case Obj(_) => true
  }

  // ---- text of a content field ----

  function PartText(part: Value): (r: string) {
    if IsObject(part) && Get(part, "type") == Str("text") && Get(part, "text").Str? then Get(part, "text").s else ""
  }

  /** The texts of the text blocks, empty ones dropped. */
  function PartTexts(parts: seq<Value>): (r: seq<string>) {
    if parts == [] then []
    else (if PartText(parts[0]) == "" then [] else [PartText(parts[0])]) + PartTexts(parts[1..])
  }

  function ContentText(content: Value): (r: string) {
    match content
    case Str(s) => s
    case List(parts) => Join(PartTexts(parts), "\n")
    case _ => ""
  }

  function Reply(text: string): (r: Maybe<Turn>) {
    if Trim(text) == "" then Nothing else Just(Turn(Assistant, Trim(text)))
  }

  // ---- requests ----

  function UserTurns(messages: seq<Value>): (r: seq<Turn>) {
    if messages == [] then []
    else
      var m := messages[0];
      var text := Trim(ContentText(Get(m, "content")));
      (if IsObject(m) && Get(m, "role") == Str("user") && text != "" then [Turn(User, text)] else [])
      + UserTurns(messages[1..])
  }

  function RequestTurns(body: Body): (r: seq<Turn>) {
    if body.Body? && body.whole.Just? && Get(body.whole.value, "messages").List?
    then UserTurns(Get(body.whole.value, "messages").items)
    else []
  }

  method ExtractRequestTurns(body: Body) returns (turns: seq<Turn>)
    ensures turns == RequestTurns(body)
  {
    hide ContentText, TrimStart, TrimEnd;
    if body.Blank? || body.whole.Nothing? || !IsObject(body.whole.value) { return []; }
    var messages := Get(body.whole.value, "messages");
    if !messages.List? { return []; }
    turns := [];
    assert messages.items[0..] == messages.items;
    for i := 0 to |messages.items|
      invariant turns + UserTurns(messages.items[i..]) == RequestTurns(body)
    {
      var m := messages.items[i];
      assert messages.items[i..][1..] == messages.items[i + 1..];
      if IsObject(m) && Get(m, "role") == Str("user") {
        var text := Trim(ContentText(Get(m, "content")));
        if text != "" { turns := turns + [Turn(User, text)]; }
      }
    }
  }

  // ---- replies: server-sent events ----

  /** The first of a non-empty `choices` list. */
  function FirstChoice(v: Value): (r: Maybe<Value>) {
    var choices := Get(v, "choices");
    if choices.List? && choices.items != [] then Just(choices.items[0]) else Nothing
  }

  /** Reading `delta` of a null choice throws, and nothing catches it. */
  predicate Breaks(event: Value) {
    FirstChoice(event) == Just(Null)
  }

  function OpenAiDelta(event: Value): (r: string) {
    match FirstChoice(event)
    case Just(first) =>
      var delta := Get(first, "delta");
      if IsObject(delta) && Get(delta, "content").Str? then Get(delta, "content").s else ""
    case Nothing => ""
  }

  /** A block's index, a Number. */
  datatype Index = Index(at: real)

  /** A text delta: the block it belongs to and the text it adds. */
  datatype Delta = NoDelta | Delta(index: Index, text: string)

  function TextDelta(event: Value): (r: Delta) {
    var index, delta := Get(event, "index"), Get(event, "delta");
    if FirstChoice(event).Nothing? && Get(event, "type") == Str("content_block_delta") && index.Num? && IsObject(delta)
       && Get(delta, "type") == Str("text_delta") && Get(delta, "text").Str?
    then Delta(Index(index.num.ToReal()), Get(delta, "text").s)
    else NoDelta
  }

  function OpenAiText(events: seq<Value>): (r: string) {
    if events == [] then "" else OpenAiDelta(events[0]) + OpenAiText(events[1..])
  }

  /** The text blocks a stream builds: for each index, its deltas in order. */
  function TextBlocks(events: seq<Value>): (r: map<Index, string>) {
    if events == [] then map[]
    else Added(TextBlocks(events[..|events| - 1]), TextDelta(events[|events| - 1]))
  }

  function Added(blocks: map<Index, string>, d: Delta): (r: map<Index, string>) {
    match d
    case NoDelta => blocks
    case Delta(index, text) => blocks[index := (if index in blocks then blocks[index] else "") + text]
  }

  /** What a stream amounts to: its OpenAI text if that is not blank, otherwise its text blocks joined in
      ascending index order. */
  ghost function StreamReply(openAi: string, blocks: map<Index, string>): (r: Maybe<Turn>) {
    if Trim(openAi) != "" then Reply(openAi) else Reply(Join(Ascending(blocks), "\n"))
  }

  ghost function SseTurn(events: seq<Value>): (r: Outcome<Maybe<Turn>>) {
    if exists event <- events :: Breaks(event) then Threw
    else Got(StreamReply(OpenAiText(events), TextBlocks(events)))
  }

  // ---- ascending order ----

  predicate IsLeast(k: Index, keys: set<Index>) {
    k in keys && forall j | j in keys :: k.at <= j.at
  }

  lemma {:induction false} LeastExists(keys: set<Index>)
    requires keys != {}
    ensures exists k :: IsLeast(k, keys)
    decreases |keys|
  {
    var k :| k in keys;
    if keys == {k} {
      assert IsLeast(k, keys);
    } else {
      LeastExists(keys - {k});
      var least :| IsLeast(least, keys - {k});
      assert IsLeast(if k.at < least.at then k else least, keys);
    }
  }

  ghost function Least(keys: set<Index>): (k: Index)
    requires keys != {}
    ensures IsLeast(k, keys)
  {
    LeastExists(keys);
    var k :| IsLeast(k, keys);
    k
  }

  /** The blocks' texts by ascending index. */
  ghost function Ascending(blocks: map<Index, string>): (r: seq<string>)
    decreases |blocks|
  {
    if blocks.Keys == {} then []
    else
      var k := Least(blocks.Keys);
      [blocks[k]] + Ascending(blocks - {k})
  }

  lemma AscendingStep(blocks: map<Index, string>, k: Index)
    requires IsLeast(k, blocks.Keys)
    ensures Ascending(blocks) == [blocks[k]] + Ascending(blocks - {k})
  {
    assert blocks.Keys != {};
    var least := Least(blocks.Keys);
    assert least.at <= k.at && k.at <= least.at;
  }

  /** `[...blocks.entries()].sort(...).map(...)`: the smallest index not yet taken, again and again. */
  method SortedTexts(blocks: map<Index, string>) returns (texts: seq<string>)
    ensures texts == Ascending(blocks)
  {
    texts := [];
    var left := blocks;
    while left.Keys != {}
      invariant texts + Ascending(left) == Ascending(blocks)
      decreases |left|
    {
      var keys := left.Keys;
      var k :| k in keys;
      var others := keys - {k};
      while others != {}
        invariant others <= keys && k in keys && k !in others
        invariant forall j | j in keys && j !in others :: k.at <= j.at
        decreases |others|
      {
        var j :| j in others;
        others := others - {j};
        if j.at < k.at { k := j; }
      }
      AscendingStep(left, k);
      texts := texts + [left[k]];
      left := left - {k};
    }
  }

  /** One turn of the loop: a chunk of either vocabulary, or a payload without text. */
  method TakeEvent(rec: Value, acc: string, blocks: map<Index, string>)
      returns (broke: bool, acc': string, blocks': map<Index, string>)
    ensures broke == Breaks(rec)
    ensures acc' == acc + OpenAiDelta(rec) && blocks' == Added(blocks, TextDelta(rec))
  {
    broke, acc', blocks' := false, acc, blocks;
    if !IsObject(rec) { return; }
    var choices := Get(rec, "choices");
    if choices.List? && choices.items != [] {
      broke := choices.items[0] == Null;
      var delta := Get(choices.items[0], "delta");
      if IsObject(delta) {
        var content := Get(delta, "content");
        if content.Str? { acc' := acc + content.s; }
      }
      return;
    }
    if Get(rec, "type") == Str("content_block_delta") {
      var index, delta := Get(rec, "index"), Get(rec, "delta");
      if index.Num? && IsObject(delta) && Get(delta, "type") == Str("text_delta") && Get(delta, "text").Str? {
        var key := Index(index.num.ToReal());
        blocks' := blocks[key := (if key in blocks then blocks[key] else "") + Get(delta, "text").s];
      }
    }
  }

  lemma OpenAiCons(acc: string, events: seq<Value>, i: nat)
    requires i < |events|
    ensures acc + OpenAiDelta(events[i]) + OpenAiText(events[i + 1..]) == acc + OpenAiText(events[i..])
  {
    assert events[i..][1..] == events[i + 1..];
  }

  lemma BlocksSnoc(events: seq<Value>, i: nat)
    requires i < |events|
    ensures TextBlocks(events[..i + 1]) == Added(TextBlocks(events[..i]), TextDelta(events[i]))
  {
    assert events[..i + 1][..i] == events[..i];
  }

  /** The stream path: one pass over the payloads. */
  method ExtractSseResponseTurn(events: seq<Value>) returns (r: Outcome<Maybe<Turn>>)
    ensures r == SseTurn(events)
  {
    hide TrimStart, TrimEnd, Ascending, Join, OpenAiText, TextBlocks, Breaks;
    var openaiAcc := "";
    var blocks: map<Index, string> := map[];
    NoEvents();
    assert events[0..] == events && events[..0] == [];
    for i := 0 to |events|
      invariant forall k | 0 <= k < i :: !Breaks(events[k])
      invariant openaiAcc + OpenAiText(events[i..]) == OpenAiText(events)
      invariant blocks == TextBlocks(events[..i])
    {
      OpenAiCons(openaiAcc, events, i);
      BlocksSnoc(events, i);
      var broke, acc', blocks' := TakeEvent(events[i], openaiAcc, blocks);
      if broke {
        assert events[i] in events;
        return Threw;
      }
      openaiAcc, blocks := acc', blocks';
    }
    assert events[|events|..] == [] && events[..|events|] == events && openaiAcc + "" == openaiAcc;
    var openaiText := Trim(openaiAcc);
    if openaiText != "" { return Got(Just(Turn(Assistant, openaiText))); }
    var texts := SortedTexts(blocks);
    var anthropicText := Trim(Join(texts, "\n"));
    if anthropicText != "" { return Got(Just(Turn(Assistant, anthropicText))); }
    return Got(Nothing);
  }

  lemma NoEvents()
    ensures OpenAiText([]) == "" && TextBlocks([]) == map[]
  {
  }

  // ---- the wire formats, field by field ----

  predicate Has(v: Value, name: string, field: Value) {
    v.Obj? && name in v.fields && v.fields[name] == field
  }

  /** A chat-completion chunk: `{choices: [{delta: {content: text}}]}`, whatever else it holds. */
  ghost predicate Speaks(e: Value, text: string) {
    exists first: Value, delta: Value, more: seq<Value> ::
      Has(e, "choices", List([first] + more)) && Has(first, "delta", delta) && Has(delta, "content", Str(text))
  }

  /** A chunk whose first choice is null. */
  ghost predicate IsNullChoice(e: Value) {
    exists more: seq<Value> :: Has(e, "choices", List([Null] + more))
  }

  /** A text delta: `{type: "content_block_delta", index, delta: {type: "text_delta", text}}` without choices. */
  ghost predicate Adds(e: Value, at: real, text: string) {
    && (forall choices: seq<Value> :: Has(e, "choices", List(choices)) ==> choices == [])
    && Has(e, "type", Str("content_block_delta"))
    && (exists n: Decimal :: Has(e, "index", Num(n)) && n.ToReal() == at)
    && (exists delta ::
          Has(e, "delta", delta) && Has(delta, "type", Str("text_delta")) && Has(delta, "text", Str(text)))
  }

  lemma FirstChoiceIs(e: Value, first: Value)
    ensures FirstChoice(e) == Just(first) <==> exists more: seq<Value> :: Has(e, "choices", List([first] + more))
    ensures FirstChoice(e).Nothing?
       <==> forall choices: seq<Value> :: Has(e, "choices", List(choices)) ==> choices == []
  {
    var choices := Get(e, "choices");
    if choices.List? {
      assert Has(e, "choices", List(choices.items));
      if choices.items != [] && choices.items[0] == first {
        assert choices.items == [first] + choices.items[1..];
        assert Has(e, "choices", List([first] + choices.items[1..]));
      }
    }
  }

  /** A chunk adds exactly the string it carries there, and nothing when it carries none. */
  lemma ChunkText(e: Value, text: string)
    ensures Speaks(e, text) ==> OpenAiDelta(e) == text
    ensures (forall t :: !Speaks(e, t)) ==> OpenAiDelta(e) == ""
    ensures Breaks(e) <==> IsNullChoice(e)
  {
    FirstChoiceIs(e, Null);
    if Speaks(e, text) {
      var first: Value, delta: Value, more: seq<Value> :|
        Has(e, "choices", List([first] + more)) && Has(first, "delta", delta) && Has(delta, "content", Str(text));
      FirstChoiceIs(e, first);
    }
    if OpenAiDelta(e) != "" {
      var first := FirstChoice(e).value;
      FirstChoiceIs(e, first);
      var more: seq<Value> :| Has(e, "choices", List([first] + more));
      var delta := Get(first, "delta");
      assert Has(first, "delta", delta) && Has(delta, "content", Str(OpenAiDelta(e)));
      assert Speaks(e, OpenAiDelta(e));
    }
  }

  /** A payload is a text delta of a block exactly when it has that shape. */
  lemma TextDeltaExactly(e: Value, at: real, text: string)
    ensures TextDelta(e) == Delta(Index(at), text) <==> Adds(e, at, text)
  {
    hide Decimal.ToReal;
    FirstChoiceIs(e, Null);
    var index, delta := Get(e, "index"), Get(e, "delta");
    if TextDelta(e) == Delta(Index(at), text) {
      assert Has(e, "index", Num(index.num)) && index.num.ToReal() == at;
      assert Has(e, "delta", delta) && Has(delta, "type", Str("text_delta")) && Has(delta, "text", Str(text));
    }
  }

  /** A text block of a content list: `{type: "text", text}`. */
  lemma PartTextExactly(part: Value, text: string)
    requires text != ""
    ensures PartText(part) == text <==> Has(part, "type", Str("text")) && Has(part, "text", Str(text))
  {
  }

  lemma {:induction false} PartTextsJoin(a: seq<Value>, b: seq<Value>)
    ensures PartTexts(a + b) == PartTexts(a) + PartTexts(b)
    ensures forall part: Value :: PartTexts([part]) == if PartText(part) == "" then [] else [PartText(part)]
  {
    hide PartText;
    forall part: Value
      ensures PartTexts([part]) == if PartText(part) == "" then [] else [PartText(part)]
    {
      assert [part][1..] == [];
    }
    if a == [] {
      assert a + b == b;
    } else {
      assert (a + b)[1..] == a[1..] + b;
      PartTextsJoin(a[1..], b);
    }
  }

  /** The text of a message's content: a string as it is, a list by its text blocks. */
  ghost predicate HasText(content: Value, text: string) {
    content == Str(text) || (content.List? && text == Join(PartTexts(content.items), "\n"))
  }

  /** A message of the user: `{role: "user", content}` with text that is not blank. */
  ghost predicate Asks(m: Value, text: string) {
    text != "" && Has(m, "role", Str("user"))
    && exists content, raw :: Has(m, "content", content) && HasText(content, raw) && Trim(raw) == text
  }

  /** One message makes one turn exactly when the user asks something in it. */
  lemma OneMessage(m: Value, text: string)
    ensures UserTurns([m]) == [Turn(User, text)] <==> Asks(m, text)
    ensures (forall t :: !Asks(m, t)) ==> UserTurns([m]) == []
  {
    hide TrimStart, TrimEnd, Trim, PartTexts, Join;
    assert [m][1..] == [];
    var content := Get(m, "content");
    var raw := ContentText(content);
    NoTextIsBlank();
    if IsObject(m) && Get(m, "role") == Str("user") && Trim(raw) != "" {
      assert Has(m, "content", content) && HasText(content, raw);
      assert Asks(m, Trim(raw));
      assert UserTurns([m]) == [Turn(User, Trim(raw))];
    } else {
      assert UserTurns([m]) == [];
    }
    if Asks(m, text) {
      var c, r :| Has(m, "content", c) && HasText(c, r) && Trim(r) == text;
      assert c == content && r == raw;
    }
  }

  lemma NoTextIsBlank()
    ensures Trim("") == ""
  {
  }

  /** The turns of a request are those of its messages, in order. */
  lemma {:induction false} MessagesInOrder(a: seq<Value>, b: seq<Value>)
    ensures UserTurns([]) == [] && UserTurns(a + b) == UserTurns(a) + UserTurns(b)
  {
    hide ContentText, TrimStart, TrimEnd, Trim;
    if a == [] {
      assert a + b == b;
    } else {
      assert (a + b)[1..] == a[1..] + b;
      MessagesInOrder(a[1..], b);
    }
  }

  // ---- replies: the whole body ----

  /** The whole-body path, or nothing when it throws and falls through to the stream path. */
  function JsonTurn(v: Value): (r: Maybe<Maybe<Turn>>) {
    if v == Null then Nothing
    else
      match FirstChoice(v)
      case Just(first) =>
        if first == Null then Nothing
        else
          var message := Get(first, "message");
          Just(if Truthy(message) then Reply(ContentText(Get(message, "content"))) else Nothing)
      case Nothing =>
        var content := Get(v, "content");
        Just(if content.List? then Reply(ContentText(content)) else Nothing)
  }

  /** `extractResponseTurn`: the whole body first, then the stream. */
  ghost function ResponseTurn(body: Body): (r: Outcome<Maybe<Turn>>) {
    match body
    case Blank => Got(Nothing)
    case Body(Just(v), events) =>
      (match JsonTurn(v)
       case Just(turn) => Got(turn)
       case Nothing => SseTurn(events))
    case Body(Nothing, events) => SseTurn(events)
  }

  method ExtractResponseTurn(body: Body) returns (r: Outcome<Maybe<Turn>>)
    ensures r == ResponseTurn(body)
  {
    if body.Blank? { return Got(Nothing); }
    if body.whole.Just? {
      var turn := JsonTurn(body.whole.value);
      if turn.Just? { return Got(turn.value); }
    }
    r := ExtractSseResponseTurn(body.events);
  }

  // ---- which field decides ----

  /** A request's turns are those of its `messages`, and of nothing else. */
  lemma RequestMessages(v: Value, messages: seq<Value>, other: seq<Value>)
    ensures Has(v, "messages", List(messages)) ==> RequestTurns(Body(Just(v), other)) == UserTurns(messages)
    ensures (forall ms: seq<Value> :: !Has(v, "messages", List(ms))) ==> RequestTurns(Body(Just(v), other)) == []
  {
    var m := Get(v, "messages");
    if m.List? { assert Has(v, "messages", List(m.items)); }
  }

  /** A whole reply without choices gives the text blocks of its content list as its turn; content that is no list
      gives none. */
  lemma ContentDecides(reply: Value, parts: seq<Value>, other: seq<Value>)
    requires FirstChoice(reply).Nothing? && reply != Null
    ensures Has(reply, "content", List(parts)) ==>
              var text := Trim(Join(PartTexts(parts), "\n"));
              ResponseTurn(Body(Just(reply), other)) == Got(if text == "" then Nothing else Just(Turn(Assistant, text)))
    ensures (forall ps: seq<Value> :: !Has(reply, "content", List(ps))) ==>
              ResponseTurn(Body(Just(reply), other)) == Got(Nothing)
  {
    hide TrimStart, TrimEnd, Trim, FirstChoice;
    var c := Get(reply, "content");
    if c.List? { assert Has(reply, "content", List(c.items)); }
  }
}
