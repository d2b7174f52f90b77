/** A streamed reply and the same reply sent whole give the same turn. */
module Streams {
  import opened Options
  import opened BlankLines
  import opened Text
  import opened Json
  import opened Decimals
  import opened Turns

  /** The pieces a stream adds to one block, in order. */
  function Pieces(events: seq<Value>, k: Index): (r: seq<string>) {
    if events == [] then []
    else
      (match TextDelta(events[0])
       case Delta(index, text) => if index == k then [text] else []
       case NoDelta => [])
      + Pieces(events[1..], k)
  }

  /** One block's text as the stream delivers it; nothing if no text delta names the block. */
  function Delivered(events: seq<Value>, k: Index): (r: Maybe<string>) {
    if Pieces(events, k) == [] then Nothing else Just(Join(Pieces(events, k), ""))
  }

  lemma {:induction false} JoinSnoc(parts: seq<string>, last: string)
    ensures Join(parts + [last], "") == Join(parts, "") + last
  {
    if |parts| == 1 {
      assert (parts + [last])[1..] == [last];
    } else if parts != [] {
      assert (parts + [last])[1..] == parts[1..] + [last];
      JoinSnoc(parts[1..], last);
    }
  }

  lemma {:induction false} PiecesSnoc(events: seq<Value>, e: Value, k: Index)
    ensures Pieces(events + [e], k) == Pieces(events, k) + Pieces([e], k)
  {
    if events == [] {
      assert events + [e] == [e];
    } else {
      assert (events + [e])[1..] == events[1..] + [e];
      PiecesSnoc(events[1..], e, k);
    }
  }

  /** Whatever the interleaving, each block is the concatenation of its own deltas. */
  lemma {:induction false} BlocksAreDelivered(events: seq<Value>, k: Index)
    ensures Delivered(events, k) == if k in TextBlocks(events) then Just(TextBlocks(events)[k]) else Nothing
    decreases |events|
  {
    if events != [] {
      var n := |events| - 1;
      var before, e := events[..n], events[n];
      assert events == before + [e];
      BlocksAreDelivered(before, k);
      PiecesSnoc(before, e, k);
      assert Pieces([e], k) == match TextDelta(e)
                               case Delta(index, text) => if index == k then [text] else []
                               case NoDelta => [] by { assert [e][1..] == []; }
      if TextDelta(e).Delta? && TextDelta(e).index == k {
        JoinSnoc(Pieces(before, k), TextDelta(e).text);
      } else {
        assert Pieces(before, k) + [] == Pieces(before, k);
      }
    }
  }

  /** No chunk throws. */
  predicate Whole(events: seq<Value>) {
    forall event <- events :: !Breaks(event)
  }

  /** The turn depends only on each block's concatenation and on the OpenAI text, not on how the text was cut
      or how blocks and other payloads were interleaved. */
  lemma OnlyConcatenationsMatter(events: seq<Value>, events': seq<Value>)
    requires Whole(events) && Whole(events')
    requires OpenAiText(events) == OpenAiText(events')
    requires forall k :: Delivered(events, k) == Delivered(events', k)
    ensures SseTurn(events) == SseTurn(events')
  {
    var a, b := TextBlocks(events), TextBlocks(events');
    forall k: Index
      ensures k in a <==> k in b
      ensures k in a ==> a[k] == b[k]
    {
      BlocksAreDelivered(events, k);
      BlocksAreDelivered(events', k);
      assert Delivered(events, k) == Delivered(events', k);
    }
    assert a == b;
  }

  // ---- content blocks ----

  /** What a stream delivers at position `at` and the ones after it. */
  function Heard(blocks: map<Index, string>, at: nat, n: nat): (s: seq<Maybe<string>>)
    requires at <= n
    ensures |s| == n - at
    ensures forall i | 0 <= i < n - at :: s[i] == BlockAt(blocks, at + i)
    decreases n - at
  {
    if at == n then [] else [BlockAt(blocks, at)] + Heard(blocks, at + 1, n)
  }

  function BlockAt(blocks: map<Index, string>, at: nat): (m: Maybe<string>) {
    var k := Index(at as real);
    if k in blocks then Just(blocks[k]) else Nothing
  }

  /** The key is one of the positions. */
  predicate IsPosition(k: Index, at: nat, n: nat) {
    k.at == k.at.Floor as real && at <= k.at.Floor < n
  }

  lemma NoBlocks()
    ensures Ascending(map[]) == []
  {
  }

  lemma {:induction false} SameHeard(blocks: map<Index, string>, blocks': map<Index, string>, at: nat, n: nat)
    requires at <= n && forall i | at <= i < n :: BlockAt(blocks, i) == BlockAt(blocks', i)
    ensures Heard(blocks, at, n) == Heard(blocks', at, n)
  {
  }

  /** Blocks at positions come out in the order of their positions. */
  lemma {:induction false} HeardAscends(blocks: map<Index, string>, at: nat, n: nat)
    requires at <= n && forall k | k in blocks :: IsPosition(k, at, n)
    ensures Ascending(blocks) == Said(Heard(blocks, at, n))
    decreases n - at
  {
    hide Ascending;
    if at == n {
      assert forall k :: !IsPosition(k, at, n);
      assert blocks == map[];
      NoBlocks();
    } else {
      var k := Index(at as real);
      forall j | j in blocks && j != k ensures IsPosition(j, at + 1, n) && j.at > k.at {
        assert IsPosition(j, at, n);
      }
      if k in blocks {
        AscendingStep(blocks, k);
        var rest := blocks - {k};
        forall i | at + 1 <= i < n ensures BlockAt(blocks, i) == BlockAt(rest, i) {
          assert Index(i as real) != k;
        }
        HeardAscends(rest, at + 1, n);
        SameHeard(blocks, rest, at + 1, n);
      } else {
        HeardAscends(blocks, at + 1, n);
      }
      assert ([BlockAt(blocks, at)] + Heard(blocks, at + 1, n))[1..] == Heard(blocks, at + 1, n);
    }
  }

  /** What may be delivered for a part: its text; for a part without text, also nothing. */
  predicate Conveys(m: Maybe<string>, part: Value) {
    m == Just(PartText(part)) || (m == Nothing && PartText(part) == "")
  }

  /** The stream carries the content list: no OpenAI chunks, deltas for positions of the list only, and each
      block's deltas make up exactly the text of the text block at that position. Deltas that are not text, and
      all other payloads, may stand anywhere. */
  ghost predicate Carries(events: seq<Value>, parts: seq<Value>) {
    && (forall event <- events :: FirstChoice(event).Nothing?)
    && (forall k :: Delivered(events, k).Just? ==> IsPosition(k, 0, |parts|))
    && (forall i: nat | i < |parts| :: Conveys(Delivered(events, Index(i as real)), parts[i]))
  }

  /** An empty block that gets a delta, with text to read before it and text to read after it. */
  predicate Interrupts(events: seq<Value>, parts: seq<Value>, e: nat)
    requires e < |parts|
  {
    && Delivered(events, Index(e as real)) == Just("")
    && (exists i :: 0 <= i < e && !AllSpace(PartText(parts[i])))
    && (exists j :: e < j < |parts| && !AllSpace(PartText(parts[j])))
  }

  lemma {:induction false} NoOpenAiText(events: seq<Value>)
    requires forall event <- events :: FirstChoice(event).Nothing?
    ensures OpenAiText(events) == ""
  {
    if events != [] {
      assert events[0] in events;
      NoOpenAiText(events[1..]);
    }
  }

  lemma {:induction false} SqueezedParts(s: seq<Maybe<string>>, parts: seq<Value>)
    requires |s| == |parts| && forall i | 0 <= i < |s| :: Conveys(s[i], parts[i])
    ensures Squeezed(Said(s)) == PartTexts(parts)
  {
    hide PartText;
    if s != [] {
      SqueezedParts(s[1..], parts[1..]);
      SqueezedJoin(Listed(s[0]), Said(s[1..]));
      if s[0].Just? { SqueezedOne(s[0].value); }
      assert Conveys(s[0], parts[0]);
    }
  }

  lemma SandwichedParts(s: seq<Maybe<string>>, events: seq<Value>, parts: seq<Value>)
    requires |s| == |parts|
    requires forall i: nat | i < |parts| :: s[i] == Delivered(events, Index(i as real)) && Conveys(s[i], parts[i])
    ensures Sandwiched(s) <==> exists e :: 0 <= e < |parts| && Interrupts(events, parts, e)
  {
    hide PartText, Delivered, AllSpace;
    NothingIsSpace();
    forall i: nat | i < |parts|
      ensures Silent(s[i]) <==> AllSpace(PartText(parts[i]))
    {
      assert Conveys(s[i], parts[i]);
    }
    forall e: nat | e < |parts|
      ensures EmptyBetween(s, e) <==> Interrupts(events, parts, e)
    {
      assert s[e] == Delivered(events, Index(e as real));
    }
  }

  lemma NothingIsSpace()
    ensures AllSpace("")
  {
  }

  /** What is heard of a stream that carries a content list. */
  lemma CarriedBlocks(events: seq<Value>, parts: seq<Value>) returns (s: seq<Maybe<string>>)
    requires Carries(events, parts)
    ensures |s| == |parts|
    ensures forall i: nat | i < |parts| :: s[i] == Delivered(events, Index(i as real)) && Conveys(s[i], parts[i])
    ensures Ascending(TextBlocks(events)) == Said(s)
  {
    hide TextBlocks, Delivered, Ascending, PartText, Said;
    var blocks := TextBlocks(events);
    s := Heard(blocks, 0, |parts|);
    forall k | k in blocks ensures IsPosition(k, 0, |parts|) { BlocksAreDelivered(events, k); }
    forall i: nat | i < |parts|
      ensures s[i] == Delivered(events, Index(i as real)) && Conveys(s[i], parts[i])
    {
      BlocksAreDelivered(events, Index(i as real));
      assert s[i] == BlockAt(blocks, 0 + i);
      assert Conveys(Delivered(events, Index(i as real)), parts[i]);
    }
    HeardAscends(blocks, 0, |parts|);
  }

  /** Streaming agrees with not streaming, for content blocks, exactly when no empty block that gets a delta stands
      between text to read. */
  lemma StreamedContentAgrees(reply: Value, parts: seq<Value>, events: seq<Value>, other: seq<Value>)
    requires reply.Obj? && FirstChoice(reply).Nothing? && Get(reply, "content") == List(parts)
    requires Carries(events, parts)
    ensures ResponseTurn(Body(Nothing, events)) == ResponseTurn(Body(Just(reply), other))
       <==> !exists e :: 0 <= e < |parts| && Interrupts(events, parts, e)
  {
    hide TrimStart, TrimEnd, Ascending, PartTexts, TextBlocks, Join, Delivered, FirstChoice, Said, Squeezed, Sandwiched,
      Interrupts, Conveys;
    NoOpenAiText(events);
    var s := CarriedBlocks(events, parts);
    SqueezedParts(s, parts);
    SandwichedParts(s, events, parts);
    SqueezingIsHarmless(s);
    TrimEmptyIff("");
    forall event <- events
      ensures !Breaks(event)
    {
      assert FirstChoice(event).Nothing?;
    }
    assert ResponseTurn(Body(Nothing, events)) == Got(Reply(Join(Said(s), "\n")));
    assert ResponseTurn(Body(Just(reply), other)) == Got(Reply(Join(PartTexts(parts), "\n")));
  }

  /** Each event carries the string given for it, or no string where an empty one is given. */
  ghost predicate Utters(events: seq<Value>, texts: seq<string>) {
    |texts| == |events|
    && forall i | 0 <= i < |events| ::
         Speaks(events[i], texts[i]) || (texts[i] == "" && forall t :: !Speaks(events[i], t))
  }

  lemma {:induction false} UtteredText(events: seq<Value>, texts: seq<string>)
    requires Utters(events, texts)
    ensures OpenAiText(events) == Join(texts, "")
  {
    hide Speaks, OpenAiDelta;
    if events != [] {
      forall i | 0 <= i < |events[1..]|
        ensures Speaks(events[1..][i], texts[1..][i])
                || (texts[1..][i] == "" && forall t :: !Speaks(events[1..][i], t))
      {
        assert events[1..][i] == events[i + 1] && texts[1..][i] == texts[i + 1];
      }
      UtteredText(events[1..], texts[1..]);
      ChunkText(events[0], texts[0]);
      if |texts| == 1 { assert texts[1..] == []; }
    }
  }

  lemma {:induction false} NoDeltasNoBlocks(events: seq<Value>)
    requires forall e <- events :: TextDelta(e) == NoDelta
    ensures TextBlocks(events) == map[]
    decreases |events|
  {
    hide TextDelta;
    if events != [] {
      assert events[|events| - 1] in events;
      NoDeltasNoBlocks(events[..|events| - 1]);
    }
  }

  /** Streaming agrees with not streaming, for the chat-completion vocabulary: whatever other chunks stand between, the
      turn is that of the whole reply whose content, a text or a list of parts, is the strings of the chunks put
      together. Text deltas of the other vocabulary count only when that is blank. */
  lemma StreamedChatAgrees(reply: Value, first: Value, message: Value, content: Value, more: seq<Value>,
                           events: seq<Value>, texts: seq<string>, other: seq<Value>)
    requires Utters(events, texts) && forall e <- events :: !IsNullChoice(e)
    requires Trim(Join(texts, "")) == "" ==> forall e <- events, at, t :: !Adds(e, at, t)
    requires Has(reply, "choices", List([first] + more)) && Has(first, "message", message) && message.Obj?
    requires Has(message, "content", content) && HasText(content, Join(texts, ""))
    ensures ResponseTurn(Body(Nothing, events)) == ResponseTurn(Body(Just(reply), other))
         == Got(if Trim(Join(texts, "")) == "" then Nothing else Just(Turn(Assistant, Trim(Join(texts, "")))))
  {
    hide TrimStart, TrimEnd, Trim, TextDelta, Adds, IsNullChoice, OpenAiText, TextBlocks, Speaks, PartTexts, Join;
    forall e | e in events
      ensures !Breaks(e) && (Trim(Join(texts, "")) == "" ==> TextDelta(e) == NoDelta)
    {
      ChunkText(e, "");
      if TextDelta(e).Delta? { TextDeltaExactly(e, TextDelta(e).index.at, TextDelta(e).text); }
    }
    UtteredText(events, texts);
    if Trim(Join(texts, "")) == "" { NoDeltasNoBlocks(events); }
    FirstChoiceIs(reply, first);
    TrimEmptyIff("");
    NoBlocks();
    JoinNothing();
    WholeGivesReply(events);
  }

  /** A stream gives no turn and throws exactly when some chunk's first choice is null. */
  lemma NullChoiceThrows(events: seq<Value>)
    ensures ResponseTurn(Body(Nothing, events)).Threw? <==> exists e <- events :: IsNullChoice(e)
  {
    hide StreamReply, OpenAiText, TextBlocks, Breaks, IsNullChoice;
    forall e | e in events ensures Breaks(e) <==> IsNullChoice(e) { ChunkText(e, ""); }
    if Whole(events) { WholeGivesReply(events); }
  }

  /** A whole reply with choices is read by the first of them alone: without a message it gives no turn, whatever else
      it holds. */
  lemma ChoicesDecide(reply: Value, first: Value, more: seq<Value>, other: seq<Value>)
    requires Has(reply, "choices", List([first] + more)) && first != Null
    requires !Truthy(Get(first, "message"))
    ensures ResponseTurn(Body(Just(reply), other)) == Got(Nothing)
  {
    FirstChoiceIs(reply, first);
  }

  lemma JoinNothing()
    ensures Join([], "\n") == ""
  {
  }

  function TextPart(s: string): (r: Value) {
    Obj(map["type" := Str("text"), "text" := Str(s)])
  }

  function DeltaEvent(index: Decimal, s: string): (r: Value) {
    Obj(map["type" := Str("content_block_delta"), "index" := Num(index),
            "delta" := Obj(map["type" := Str("text_delta"), "text" := Str(s)])])
  }

  lemma DeltaOf(index: Decimal, s: string)
    ensures var e := DeltaEvent(index, s);
            TextDelta(e) == Delta(Index(index.ToReal()), s) && FirstChoice(e).Nothing?
  {
  }

  lemma AscendingThree(a: string, b: string, c: string)
    ensures Ascending(map[Index(0.0) := a, Index(1.0) := b, Index(2.0) := c]) == [a, b, c]
  {
    hide Ascending;
    var blocks := map[Index(0.0) := a, Index(1.0) := b, Index(2.0) := c];
    AscendingStep(blocks, Index(0.0));
    assert blocks - {Index(0.0)} == map[Index(1.0) := b, Index(2.0) := c];
    AscendingStep(map[Index(1.0) := b, Index(2.0) := c], Index(1.0));
    assert map[Index(1.0) := b, Index(2.0) := c] - {Index(1.0)} == map[Index(2.0) := c];
    AscendingStep(map[Index(2.0) := c], Index(2.0));
    assert map[Index(2.0) := c] - {Index(2.0)} == map[];
    NoBlocks();
  }

  const ZERO := Decimal(false, "", 0)
  const ONE := Decimal(false, "1", 1)
  const TWO := Decimal(false, "2", 1)

  lemma SmallNumbers()
    ensures ZERO.ToReal() == 0.0 && ONE.ToReal() == 1.0 && TWO.ToReal() == 2.0
  {
    assert NatOf("") == 0;
    assert NatOf("1") == NatOf("1"[..0]) * 10 + 1 && "1"[..0] == "";
    assert NatOf("2") == NatOf("2"[..0]) * 10 + 2 && "2"[..0] == "";
  }

  lemma ThreeBlocks(a: string, b: string, c: string)
    ensures var events := [DeltaEvent(ZERO, a), DeltaEvent(ONE, b), DeltaEvent(TWO, c)];
            && Whole(events) && OpenAiText(events) == ""
            && TextBlocks(events) == map[Index(0.0) := a, Index(1.0) := b, Index(2.0) := c]
  {
    hide TextDelta, FirstChoice, DeltaEvent;
    var events := [DeltaEvent(ZERO, a), DeltaEvent(ONE, b), DeltaEvent(TWO, c)];
    SmallNumbers();
    DeltaOf(ZERO, a);
    DeltaOf(ONE, b);
    DeltaOf(TWO, c);
    NoOpenAiText(events);
    NoEvents();
    assert events[..0] == [] && events[..3] == events;
    assert "" + a == a && "" + b == b && "" + c == c;
    BlocksSnoc(events, 0);
    BlocksSnoc(events, 1);
    BlocksSnoc(events, 2);
  }

  /** The condition on empty blocks is needed: an empty text block that does get a delta, between two others,
      puts a blank line into the streamed turn and none into the whole one. */
  lemma EmptyBlockDiffers()
    ensures var events := [DeltaEvent(ZERO, "a"), DeltaEvent(ONE, ""), DeltaEvent(TWO, "b")];
            var reply := Obj(map["content" := List([TextPart("a"), TextPart(""), TextPart("b")])]);
            && ResponseTurn(Body(Nothing, events)) == Got(Just(Turn(Assistant, "a\n\nb")))
            && ResponseTurn(Body(Just(reply), [])) == Got(Just(Turn(Assistant, "a\nb")))
  {
    hide ResponseTurn, DeltaEvent, TextPart;
    StreamedThree();
    WholeThree();
  }

  lemma StreamedThree()
    ensures var events := [DeltaEvent(ZERO, "a"), DeltaEvent(ONE, ""), DeltaEvent(TWO, "b")];
            ResponseTurn(Body(Nothing, events)) == Got(Just(Turn(Assistant, "a\n\nb")))
  {
    hide TrimStart, TrimEnd, Trim, Ascending, TextBlocks, OpenAiText, DeltaEvent, Join, Whole;
    var events := [DeltaEvent(ZERO, "a"), DeltaEvent(ONE, ""), DeltaEvent(TWO, "b")];
    ThreeBlocks("a", "", "b");
    AscendingThree("a", "", "b");
    JoinedTexts();
    TrimOfTrimmed("a\n\nb");
    TrimEmptyIff("");
    WholeGivesReply(events);
  }

  lemma WholeGivesReply(events: seq<Value>)
    requires Whole(events)
    ensures ResponseTurn(Body(Nothing, events)) == Got(StreamReply(OpenAiText(events), TextBlocks(events)))
  {
    hide StreamReply, OpenAiText, TextBlocks, FirstChoice;
  }

  lemma WholeThree()
    ensures var reply := Obj(map["content" := List([TextPart("a"), TextPart(""), TextPart("b")])]);
            ResponseTurn(Body(Just(reply), [])) == Got(Just(Turn(Assistant, "a\nb")))
  {
    hide TrimStart, TrimEnd, Trim, FirstChoice, PartTexts, Join, TextPart;
    ThreeParts();
    JoinedTexts();
    TrimOfTrimmed("a\nb");
  }

  lemma JoinedTexts()
    ensures Join(["a", "", "b"], "\n") == "a\n\nb" && Join(["a", "b"], "\n") == "a\nb"
  {
    assert ["a", "", "b"][1..] == ["", "b"] && ["", "b"][1..] == ["b"] && ["a", "b"][1..] == ["b"];
  }

  lemma ThreeParts()
    ensures PartTexts([TextPart("a"), TextPart(""), TextPart("b")]) == ["a", "b"]
    ensures FirstChoice(Obj(map["content" := List([TextPart("a"), TextPart(""), TextPart("b")])])).Nothing?
  {
    var parts := [TextPart("a"), TextPart(""), TextPart("b")];
    assert parts[1..] == [TextPart(""), TextPart("b")] && parts[1..][1..] == [TextPart("b")];
    assert [TextPart("b")][1..] == [];
  }
}
