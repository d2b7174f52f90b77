/** Token usage of one exchange, as src/capture/proxy.ts reads it from the parsed bodies. */
module UsageMetadata {
  import opened Options
  import opened Json
  import opened Decimals
  import opened Turns

  datatype Provider = Anthropic | OpenAi

  /** `Nothing` is the code's `null`: the body does not say. */
  datatype Usage = Usage(
    provider: Provider, input: Maybe<Decimal>, output: Maybe<Decimal>, total: Maybe<Decimal>,
    cacheCreation: Maybe<Decimal>, cacheRead: Maybe<Decimal>, stopReason: Maybe<string>)

  datatype Metadata = Metadata(usage: Usage, model: Maybe<string>, truncated: bool)

  function NumberOrNull(v: Value): (r: Maybe<Decimal>) {
    if v.Num? then Just(v.num) else Nothing
  }

  function StringOrNull(v: Value): (r: Maybe<string>) {
    if v.Str? then Just(v.s) else Nothing
  }

  /** `asRecord(v)?.[name]`: nothing is read off a value that is not an object. */
  function Field(v: Value, name: string): (r: Value) {
    if IsObject(v) then Get(v, name) else Undefined
  }

  /** `x ?? y` */
  function OrElse<T>(a: Maybe<T>, b: Maybe<T>): (r: Maybe<T>) {
    if a.Just? then a else b
  }

  // ---- the stream ----

  /** The accumulators of the loop. */
  datatype Acc = Acc(
    sawOpenAi: bool, sawAnthropic: bool,
    openAiIn: Maybe<Decimal>, openAiOut: Maybe<Decimal>, openAiTotal: Maybe<Decimal>, finish: Maybe<string>,
    input: Maybe<Decimal>, output: Maybe<Decimal>, creation: Maybe<Decimal>, read: Maybe<Decimal>, stop: Maybe<string>)

  const START := Acc(false, false, Nothing, Nothing, Nothing, Nothing, Nothing, Nothing, Nothing, Nothing, Nothing)

  predicate IsChunk(e: Value) {
    IsObject(e) && Get(e, "choices").List?
  }

  predicate IsOfType(e: Value, kind: string) {
    IsObject(e) && !IsChunk(e) && Get(e, "type") == Str(kind)
  }

  function FinishReason(e: Value): (r: Maybe<string>)
    requires IsChunk(e)
  {
    var choices := Get(e, "choices").items;
    if choices == [] then Nothing else StringOrNull(Field(choices[0], "finish_reason"))
  }

  /** The usage object of a `message_start` payload. */
  function StartUsage(e: Value): (r: Value) {
    Field(Field(e, "message"), "usage")
  }

  function StartOutput(e: Value): (r: Maybe<Decimal>) {
    if IsOfType(e, "message_start") then NumberOrNull(Field(StartUsage(e), "output_tokens")) else Nothing
  }

  function DeltaOutput(e: Value): (r: Maybe<Decimal>) {
    if IsOfType(e, "message_delta") then NumberOrNull(Field(Get(e, "usage"), "output_tokens")) else Nothing
  }

  function DeltaStop(e: Value): (r: Maybe<string>) {
    if IsOfType(e, "message_delta") then StringOrNull(Field(Get(e, "delta"), "stop_reason")) else Nothing
  }

  function Step(a: Acc, e: Value): (r: Acc) {
    if IsChunk(e) then
      var u := Get(e, "usage");
      var b := a.(sawOpenAi := true, finish := OrElse(FinishReason(e), a.finish));
      if IsObject(u) then
        b.(openAiIn := NumberOrNull(Get(u, "prompt_tokens")), openAiOut := NumberOrNull(Get(u, "completion_tokens")),
           openAiTotal := NumberOrNull(Get(u, "total_tokens")))
      else b
    else if IsOfType(e, "message_start") then
      var u := StartUsage(e);
      var b := a.(sawAnthropic := true);
      if IsObject(u) then
        b.(input := NumberOrNull(Get(u, "input_tokens")),
           creation := NumberOrNull(Get(u, "cache_creation_input_tokens")),
           read := NumberOrNull(Get(u, "cache_read_input_tokens")), output := OrElse(a.output, StartOutput(e)))
      else b
    else if IsOfType(e, "message_delta") then
      a.(sawAnthropic := true, stop := OrElse(DeltaStop(e), a.stop), output := OrElse(DeltaOutput(e), a.output))
    else a
  }

  function Accumulate(events: seq<Value>): (r: Acc) {
    if events == [] then START else Step(Accumulate(events[..|events| - 1]), events[|events| - 1])
  }

  /** Anthropic wins when both vocabularies appear. */
  function Summary(a: Acc): (r: Maybe<Usage>) {
    if a.sawAnthropic then Just(Usage(Anthropic, a.input, a.output, Nothing, a.creation, a.read, a.stop))
    else if a.sawOpenAi then Just(Usage(OpenAi, a.openAiIn, a.openAiOut, a.openAiTotal, Nothing, Nothing, a.finish))
    else Nothing
  }

  /** One payload of the stream, by the branches of the loop. */
  method TakePayload(a: Acc, e: Value) returns (acc: Acc)
    ensures acc == Step(a, e)
  {
    acc := a;
    if !IsObject(e) { return; }
    var choices := Get(e, "choices");
    if choices.List? {
      acc := acc.(sawOpenAi := true);
      if |choices.items| > 0 {
        var finishReason := Field(choices.items[0], "finish_reason");
        if finishReason.Str? { acc := acc.(finish := Just(finishReason.s)); }
      }
      var usage := Get(e, "usage");
      if IsObject(usage) {
        acc := acc.(openAiIn := NumberOrNull(Get(usage, "prompt_tokens")));
        acc := acc.(openAiOut := NumberOrNull(Get(usage, "completion_tokens")));
        acc := acc.(openAiTotal := NumberOrNull(Get(usage, "total_tokens")));
      }
      return;
    }
    var kind := Get(e, "type");
    if kind == Str("message_start") {
      acc := acc.(sawAnthropic := true);
      var usage := Field(Field(e, "message"), "usage");
      if IsObject(usage) {
        acc := acc.(input := NumberOrNull(Get(usage, "input_tokens")));
        acc := acc.(creation := NumberOrNull(Get(usage, "cache_creation_input_tokens")));
        acc := acc.(read := NumberOrNull(Get(usage, "cache_read_input_tokens")));
        if acc.output == Nothing { acc := acc.(output := NumberOrNull(Get(usage, "output_tokens"))); }
      }
    } else if kind == Str("message_delta") {
      acc := acc.(sawAnthropic := true);
      var stopReason := Field(Get(e, "delta"), "stop_reason");
      if stopReason.Str? { acc := acc.(stop := Just(stopReason.s)); }
      var outputTokens := NumberOrNull(Field(Get(e, "usage"), "output_tokens"));
      if outputTokens.Just? { acc := acc.(output := outputTokens); }
    }
  }

  method ExtractSseUsageMetadata(events: seq<Value>) returns (r: Maybe<Usage>)
    ensures r == Summary(Accumulate(events))
  {
    hide Step;
    var acc := START;
    for i := 0 to |events|
      invariant acc == Accumulate(events[..i])
    {
      assert events[..i + 1][..i] == events[..i];
      acc := TakePayload(acc, events[i]);
    }
    assert events[..|events|] == events;
    if acc.sawAnthropic {
      return Just(Usage(Anthropic, acc.input, acc.output, Nothing, acc.creation, acc.read, acc.stop));
    }
    if acc.sawOpenAi {
      return Just(Usage(OpenAi, acc.openAiIn, acc.openAiOut, acc.openAiTotal, Nothing, Nothing, acc.finish));
    }
    return Nothing;
  }

  // ---- the whole body ----

  function WholeUsage(v: Value): (r: Maybe<Usage>)
    requires v != Null
  {
    var choices, content, u := Get(v, "choices"), Get(v, "content"), Get(v, "usage");
    if choices.List? then
      Just(Usage(OpenAi, NumberOrNull(Field(u, "prompt_tokens")), NumberOrNull(Field(u, "completion_tokens")),
                 NumberOrNull(Field(u, "total_tokens")), Nothing, Nothing,
                 if choices.items == [] then Nothing else StringOrNull(Field(choices.items[0], "finish_reason"))))
    else if content.List? then
      Just(Usage(Anthropic, NumberOrNull(Field(u, "input_tokens")), NumberOrNull(Field(u, "output_tokens")), Nothing,
                 NumberOrNull(Field(u, "cache_creation_input_tokens")),
                 NumberOrNull(Field(u, "cache_read_input_tokens")),
                 StringOrNull(Get(v, "stop_reason"))))
    else Nothing
  }

  function RequestModel(req: Body): (r: Maybe<string>) {
    if req.Body? && req.whole.Just? && Get(req.whole.value, "model").Str? && Get(req.whole.value, "model").s != ""
    then Just(Get(req.whole.value, "model").s) else Nothing
  }

  function ReplyUsage(res: Body): (r: Maybe<Usage>) {
    if res.Blank? then Nothing
    else if res.whole.Just? && res.whole.value != Null then WholeUsage(res.whole.value)
    else Summary(Accumulate(res.events))
  }

  function Truncated(u: Usage): (r: bool) {
    u.stopReason == Just(if u.provider == Anthropic then "max_tokens" else "length")
  }

  /** `extractUsageMetadata` */
  function ExtractUsage(req: Body, res: Body): (r: Maybe<Metadata>) {
    match ReplyUsage(res)
    case Nothing => Nothing
    case Just(u) => Just(Metadata(u, RequestModel(req), Truncated(u)))
  }

  /** What is recorded besides the counts: the model the request names, and whether the reply stopped at its length
      limit, which each vocabulary calls by another name. */
  lemma ModelAndTruncation(req: Body, res: Body)
    requires ExtractUsage(req, res).Just?
    ensures var m := ExtractUsage(req, res).value;
            && (forall name | m.model == Just(name) :: name != "" && req.Body? && req.whole.Just?
                                                       && Has(req.whole.value, "model", Str(name)))
            && (forall name | name != "" && req.Body? && req.whole.Just? && Has(req.whole.value, "model", Str(name)) ::
                  m.model == Just(name))
            && (m.truncated <==> match m.usage.provider
                                 case Anthropic => m.usage.stopReason == Just("max_tokens")
                                 case OpenAi => m.usage.stopReason == Just("length"))
  {
    hide Summary, Accumulate, WholeUsage;
  }

  /** A whole reply of neither shape is not billed, whatever its lines would give. */
  lemma UnrecognisedReply(req: Body, reply: Value, other: seq<Value>)
    requires reply != Null && !Get(reply, "choices").List? && !Get(reply, "content").List?
    ensures ExtractUsage(req, Body(Just(reply), other)) == Nothing
  {
    hide RequestModel;
  }

  /** The stop reason of a whole reply, in either vocabulary. */
  lemma WholeStopReason(req: Body, reply: Value, first: Value, more: seq<Value>, reason: string, other: seq<Value>)
    ensures Has(reply, "choices", List([first] + more)) && Has(first, "finish_reason", Str(reason)) ==>
              var m := ExtractUsage(req, Body(Just(reply), other));
              m.Just? && m.value.usage.provider == OpenAi && m.value.usage.stopReason == Just(reason)
    ensures !Get(reply, "choices").List? && Get(reply, "content").List? && Has(reply, "stop_reason", Str(reason)) ==>
              var m := ExtractUsage(req, Body(Just(reply), other));
              m.Just? && m.value.usage.provider == Anthropic && m.value.usage.stopReason == Just(reason)
  {
    hide NumberOrNull, RequestModel;
  }

  // ---- what the accumulators mean ----

  /** The last value some payload gives. */
  function Last<T>(events: seq<Value>, f: Value -> Maybe<T>): (r: Maybe<T>) {
    if events == [] then Nothing else OrElse(f(events[|events| - 1]), Last(events[..|events| - 1], f))
  }

  function First<T>(events: seq<Value>, f: Value -> Maybe<T>): (r: Maybe<T>) {
    if events == [] then Nothing else OrElse(First(events[..|events| - 1], f), f(events[|events| - 1]))
  }

  /** The output count is the last number a `message_delta` reports, in whatever order the payloads come, and
      only without one the first number a `message_start` reports. The stop reason is the last one reported. */
  lemma {:induction false} OutputTokensRule(events: seq<Value>)
    ensures Accumulate(events).output == OrElse(Last(events, e => DeltaOutput(e)), First(events, e => StartOutput(e)))
    ensures Accumulate(events).stop == Last(events, e => DeltaStop(e))
    decreases |events|
  {
    hide StartOutput, DeltaOutput, DeltaStop, Step;
    if events != [] {
      var n := |events| - 1;
      OutputTokensRule(events[..n]);
      StepOutput(Accumulate(events[..n]), events[n]);
    }
  }

  lemma StepOutput(a: Acc, e: Value)
    ensures Step(a, e).output == OrElse(DeltaOutput(e), OrElse(a.output, StartOutput(e)))
    ensures Step(a, e).stop == OrElse(DeltaStop(e), a.stop)
  {
    hide StringOrNull, StartUsage;
  }

  /** Which usage object a stream's input counts come from. */
  function StartRecord(e: Value): (r: Maybe<Value>) {
    if IsOfType(e, "message_start") && IsObject(StartUsage(e)) then Just(StartUsage(e)) else Nothing
  }

  lemma {:induction false} InputTokensRule(events: seq<Value>)
    ensures var a, u := Accumulate(events), Last(events, e => StartRecord(e));
            && a.input == (if u.Just? then NumberOrNull(Get(u.value, "input_tokens")) else Nothing)
            && a.creation == (if u.Just? then NumberOrNull(Get(u.value, "cache_creation_input_tokens")) else Nothing)
            && a.read == (if u.Just? then NumberOrNull(Get(u.value, "cache_read_input_tokens")) else Nothing)
    decreases |events|
  {
    if events != [] {
      InputTokensRule(events[..|events| - 1]);
    }
  }

  lemma {:induction false} SawAnthropicRule(events: seq<Value>)
    ensures Accumulate(events).sawAnthropic
       <==> exists e <- events :: IsOfType(e, "message_start") || IsOfType(e, "message_delta")
    decreases |events|
  {
    hide IsOfType;
    if events != [] {
      var n := |events| - 1;
      SawAnthropicRule(events[..n]);
      assert events == events[..n] + [events[n]];
      StepSees(Accumulate(events[..n]), events[n]);
    }
  }

  lemma StepSees(a: Acc, e: Value)
    ensures Step(a, e).sawAnthropic <==> a.sawAnthropic || IsOfType(e, "message_start") || IsOfType(e, "message_delta")
  {
  }

  /** Where a chunk's usage and finish reason come from. */
  function ChunkUsage(e: Value): (r: Maybe<Value>) {
    if IsChunk(e) && IsObject(Get(e, "usage")) then Just(Get(e, "usage")) else Nothing
  }

  function ChunkFinish(e: Value): (r: Maybe<string>) {
    if IsChunk(e) then FinishReason(e) else Nothing
  }

  /** In the chat-completion vocabulary all three counts come from the last chunk with a usage object, the finish
      reason from the last chunk that names one. */
  lemma {:induction false} ChatTokensRule(events: seq<Value>)
    ensures var a, u := Accumulate(events), Last(events, e => ChunkUsage(e));
            && a.openAiIn == (if u.Just? then NumberOrNull(Get(u.value, "prompt_tokens")) else Nothing)
            && a.openAiOut == (if u.Just? then NumberOrNull(Get(u.value, "completion_tokens")) else Nothing)
            && a.openAiTotal == (if u.Just? then NumberOrNull(Get(u.value, "total_tokens")) else Nothing)
    ensures Accumulate(events).finish == Last(events, e => ChunkFinish(e))
    decreases |events|
  {
    if events != [] {
      hide Step, ChunkUsage, ChunkFinish, NumberOrNull;
      var n := |events| - 1;
      ChatTokensRule(events[..n]);
      StepChat(Accumulate(events[..n]), events[n]);
    }
  }

  lemma StepChat(a: Acc, e: Value)
    ensures var b, u := Step(a, e), ChunkUsage(e);
            && b.finish == OrElse(ChunkFinish(e), a.finish)
            && b.openAiIn == (if u.Just? then NumberOrNull(Get(u.value, "prompt_tokens")) else a.openAiIn)
            && b.openAiOut == (if u.Just? then NumberOrNull(Get(u.value, "completion_tokens")) else a.openAiOut)
            && b.openAiTotal == (if u.Just? then NumberOrNull(Get(u.value, "total_tokens")) else a.openAiTotal)
  {
    hide NumberOrNull, StringOrNull, StartUsage, StartOutput, DeltaOutput, DeltaStop;
  }

  lemma {:induction false} SawOpenAiRule(events: seq<Value>)
    ensures Accumulate(events).sawOpenAi <==> exists e <- events :: IsChunk(e)
    decreases |events|
  {
    hide IsChunk;
    if events != [] {
      var n := |events| - 1;
      SawOpenAiRule(events[..n]);
      assert events == events[..n] + [events[n]];
      StepSeesChunk(Accumulate(events[..n]), events[n]);
    }
  }

  lemma StepSeesChunk(a: Acc, e: Value)
    ensures Step(a, e).sawOpenAi <==> a.sawOpenAi || IsChunk(e)
  {
  }

  /** A streamed reply is billed as the same reply sent whole: its last `message_start` carries the reply's
      input counts, its last `message_delta` figures are the reply's output count and stop reason. */
  lemma StreamedUsageAgrees(req: Body, reply: Value, events: seq<Value>, other: seq<Value>)
    requires reply.Obj? && !Get(reply, "choices").List? && Get(reply, "content").List?
    requires var u := Get(reply, "usage");
             && Last(events, e => StartRecord(e)).Just?
             && (forall name | name in {"input_tokens", "cache_creation_input_tokens", "cache_read_input_tokens"} ::
                   NumberOrNull(Get(Last(events, e => StartRecord(e)).value, name)) == NumberOrNull(Field(u, name)))
             && Last(events, e => DeltaOutput(e)).Just?
             && Last(events, e => DeltaOutput(e)) == NumberOrNull(Field(u, "output_tokens"))
    requires Last(events, e => DeltaStop(e)) == StringOrNull(Get(reply, "stop_reason"))
    ensures ExtractUsage(req, Body(Nothing, events)) == ExtractUsage(req, Body(Just(reply), other))
  {
    hide IsOfType, Step;
    OutputTokensRule(events);
    InputTokensRule(events);
    SawAnthropicRule(events);
    var e := LastExists(events, (e: Value) => StartRecord(e));
    assert {"input_tokens", "cache_creation_input_tokens", "cache_read_input_tokens"} >= {"input_tokens"};
  }

  /** The same for a chat completion, whose counts may be missing on both sides. */
  lemma StreamedChatUsageAgrees(req: Body, reply: Value, events: seq<Value>, other: seq<Value>)
    requires IsChunk(reply)
    requires exists e <- events :: IsChunk(e)
    requires forall e <- events :: !IsOfType(e, "message_start") && !IsOfType(e, "message_delta")
    requires var u := Last(events, e => ChunkUsage(e));
             forall name | name in {"prompt_tokens", "completion_tokens", "total_tokens"} ::
               (if u.Just? then NumberOrNull(Get(u.value, name)) else Nothing)
               == NumberOrNull(Field(Get(reply, "usage"), name))
    requires Last(events, e => ChunkFinish(e)) == FinishReason(reply)
    ensures ExtractUsage(req, Body(Nothing, events)) == ExtractUsage(req, Body(Just(reply), other))
  {
    hide IsOfType, Step, NumberOrNull, Accumulate, Last, ChunkUsage, ChunkFinish;
    ChatTokensRule(events);
    SawAnthropicRule(events);
    SawOpenAiRule(events);
    assert {"prompt_tokens", "completion_tokens", "total_tokens"} >= {"prompt_tokens"};
  }

  lemma {:induction false} LastExists<T>(events: seq<Value>, f: Value -> Maybe<T>) returns (e: Value)
    requires Last(events, f).Just?
    ensures e in events && f(e).Just?
    decreases |events|
  {
    e := events[|events| - 1];
    if f(e).Nothing? {
      e := LastExists(events[..|events| - 1], f);
    }
  }
}
