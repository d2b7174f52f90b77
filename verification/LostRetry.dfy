/** A reply whose transcript could not be written, sent again: the input on which the window of src/capture/proxy.ts
    drops an exchange that was never spooled. */
module LostRetry {
  import opened Options
  import opened Text
  import opened Json
  import opened Turns
  import opened Framing
  import opened Gate
  import opened Capture

  // ---- the reply's text ----

  function ObjectText(name: string, text: string): (r: string) {
    "{" + Quote(name) + ":" + text + "}"
  }

  predicate Visible(text: string) {
    text != "" && text[0] in {'{', '[', '\"'}
  }

  lemma SkipNothing(text: string)
    requires text != "" && text[0] in {'{', '[', '\"', ':', '}', ']'}
    ensures SkipWs(text) == text
  {
  }

  lemma ParseObjectText(name: string, text: string, v: Value, tail: string)
    requires Visible(text) && ParseValue(text + ("}" + tail)) == Ok(v, "}" + tail)
    ensures ParseValue(ObjectText(name, text) + tail) == Ok(Obj(map[name := v]), tail)
  {
    hide Escape, ParseStringBody;
    var rest := text + ("}" + tail);
    var members := "\"" + (Escape(name) + "\"" + (":" + rest));
    assert ObjectText(name, text) + tail == "{" + members;
    StringRoundTrip(name, ":" + rest);
    SkipNothing(members);
    SkipNothing(":" + rest);
    SkipNothing(rest);
    SkipNothing("}" + tail);
    assert members[1..] == Escape(name) + "\"" + (":" + rest);
    assert (":" + rest)[1..] == rest && ("}" + tail)[1..] == tail && ("{" + members)[1..] == members;
  }

  lemma ParseListText(text: string, v: Value, tail: string)
    requires Visible(text) && ParseValue(text + ("]" + tail)) == Ok(v, "]" + tail)
    ensures ParseValue("[" + text + "]" + tail) == Ok(List([v]), tail)
  {
    var items := text + ("]" + tail);
    assert "[" + text + "]" + tail == "[" + items;
    SkipNothing(items);
    SkipNothing("]" + tail);
    assert ("[" + items)[1..] == items && ("]" + tail)[1..] == tail;
  }

  /** `{"choices":[{"message":{"content":"r"}}]}` */
  const MESSAGE := ObjectText("message", ObjectText("content", Quote("r")))
  const REPLY := ObjectText("choices", "[" + MESSAGE + "]")
  const REPLY_VALUE := Obj(map["choices" := List([Obj(map["message" := Obj(map["content" := Str("r")])])])])

  lemma ReplyParses()
    ensures ParseJson(REPLY) == Just(REPLY_VALUE) && Trimmed(REPLY) && REPLY != ""
  {
    hide ParseValue, Quote;
    var content := ObjectText("content", Quote("r"));
    QuoteIsVisible("r");
    ParseQuoted("r", "}" + ("}" + ("]" + "}")));
    ParseObjectText("content", Quote("r"), Str("r"), "}" + ("]" + "}"));
    ParseObjectText("message", content, Obj(map["content" := Str("r")]), "]" + "}");
    assert "}" + "" == "}";
    ParseListText(MESSAGE, Obj(map["message" := Obj(map["content" := Str("r")])]), "}" + "");
    assert "[" + MESSAGE + "]" + ("}" + "") == "[" + MESSAGE + "]" + "}";
    ParseObjectText("choices", "[" + MESSAGE + "]", REPLY_VALUE.fields["choices"], "");
    assert REPLY + "" == REPLY;
    SkipNothing(REPLY);
  }

  lemma QuoteIsVisible(s: string)
    ensures Visible(Quote(s))
  {
  }

  // ---- the exchange ----

  const PLAIN := Env(0, 1, 1, (s: string) => s, (s: string) => s, (s: string) => 0, (s: string) => false)
  const HERE := CaptureEnv(PLAIN, (b: Bytes) => if b == [] then "" else REPLY, (s: nat) => Writes(true, true))
  const ANSWER := Turn(Assistant, "r")

  lemma ReplyIsAnswer()
    ensures ResponseTurn(ReplyBody(REPLY)) == Got(Just(ANSWER))
  {
    hide TrimStart, TrimEnd, Trim, ParseJson, Events, REPLY, REPLY_VALUE, JsonTurn;
    ReplyParses();
    TrimOfTrimmed(REPLY);
    ReplyTurn();
  }

  lemma ReplyTurn()
    ensures JsonTurn(REPLY_VALUE) == Just(Just(ANSWER))
  {
    hide TrimStart, TrimEnd, Trim;
    RIsTrimmed();
    assert FirstChoice(REPLY_VALUE) == Just(Obj(map["message" := Obj(map["content" := Str("r")])]));
  }

  lemma RIsTrimmed()
    ensures Trim("r") == "r"
  {
    TrimOfTrimmed("r");
  }

  lemma NoRequest()
    ensures RequestTurns(RequestBody("")) == []
  {
  }

  lemma AnswerSurvives()
    ensures Survivors(PLAIN, [ANSWER], [], {}) == [ANSWER]
  {
    hide TrimStart, TrimEnd, Collapsed;
    RIsTrimmed();
    assert [ANSWER][1..] == [];
  }

  /** The first write throws and the second would work: nothing is ever spooled, although the exchange would have
      been, had it come once with a working write. */
  lemma FailedWriteLosesRetry()
    ensures var x := Exchange([], [0], Writes(true, false));
            var retry := x.(writes := Writes(true, true));
            && Session(HERE, [x, retry]).spool == []
            && Session(HERE, [retry]).spool == [[ANSWER]]
  {
    hide ResponseTurn, ReplyBody, RequestBody, Survivors, REPLY, RecordedAll, UsageIn;
    var x := Exchange([], [0], Writes(true, false));
    var retry := x.(writes := Writes(true, true));
    ReplyIsAnswer();
    NoRequest();
    AnswerSurvives();
    assert Session(HERE, []) == NOTHING_YET;
    assert [] + [ANSWER] == [ANSWER];
    assert [ANSWER][0].role == Assistant;
    assert Gated(HERE, [], x) == Just([ANSWER]) == Gated(HERE, [], retry);
    RetryIsDiscarded(HERE, [], x, Writes(true, true));
    assert [] + [x, retry] == [x, retry];
    assert [retry][..0] == [];
  }
}
