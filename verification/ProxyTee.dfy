/** `createProxyCaptureTee` as the code has it: one shared set, and for every exchange its own chunk lists and flags. */
module ProxyTee {
  import opened Options
  import opened Turns
  import opened Framing
  import opened Gate
  import opened Capture
  import opened Interleaving
  import UsageMetadata

  /** `Buffer.concat` */
  function Concat(chunks: seq<Bytes>): (r: Bytes) {
    if chunks == [] then [] else Concat(chunks[..|chunks| - 1]) + chunks[|chunks| - 1]
  }

  lemma ConcatSnoc(chunks: seq<Bytes>, chunk: Bytes)
    ensures Concat(chunks + [chunk]) == Concat(chunks) + chunk
  {
    assert (chunks + [chunk])[..|chunks|] == chunks;
  }

  /** The variables one call of `createSink` closes over. */
  class Sink {
    ghost const exchange: nat
    var reqChunks: seq<Bytes>
    var resChunks: seq<Bytes>
    var reqEnded: bool
    var resEnded: bool
    var finished: bool

    constructor (ghost exchange: nat)
      ensures State() == FRESH && this.exchange == exchange
    {
      this.exchange := exchange;
      reqChunks, resChunks, reqEnded, resEnded, finished := [], [], false, false, false;
    }

    ghost function State(): (r: SinkState)
      reads this
    {
      SinkState(Concat(reqChunks), Concat(resChunks), reqEnded, resEnded, finished)
    }

    /** The sink proper, with `maybeFinish`; `schedules` tells that the completion is to be deferred. */
    method OnEvent(ev: Event) returns (schedules: bool)
      requires !ev.Fire?
      requires finished <==> reqEnded && resEnded
      modifies this
      ensures State() == SinkStep(old(State()), ev)
      ensures schedules <==> finished && !old(finished)
      ensures (finished <==> reqEnded && resEnded) && (old(finished) ==> finished)
    {
      if ev.Chunk? {
        if ev.dir == Req {
          ConcatSnoc(reqChunks, ev.bytes);
          reqChunks := reqChunks + [ev.bytes];
        } else {
          ConcatSnoc(resChunks, ev.bytes);
          resChunks := resChunks + [ev.bytes];
        }
        return false;
      }
      if ev.dir == Req { reqEnded := true; } else { resEnded := true; }
      if finished || !reqEnded || !resEnded { return false; }
      finished := true;
      return true;
    }
  }

  /** The tee: the shared set, what has been written, the sinks handed out and the callbacks set aside. */
  class Tee {
    const env: CaptureEnv
    var recentHashes: seq<Digest>
    var spool: seq<seq<Turn>>
    var costs: seq<UsageMetadata.Metadata>
    var sinks: map<nat, Sink>
    var immediates: seq<nat>
    ghost var handedOut: set<Sink>
    ghost var log: seq<Digest>
    ghost var fired: seq<nat>

    /** Distinct exchanges have distinct sinks, and every deferred callback belongs to a finished sink. */
    ghost predicate Valid()
      reads this, handedOut
    {
      && (forall s | s in sinks :: sinks[s] in handedOut && sinks[s].exchange == s)
      && (forall s | s in sinks :: sinks[s].finished <==> sinks[s].reqEnded && sinks[s].resEnded)
      && NoRepeat(immediates)
      && (forall s | s in immediates :: s in sinks && sinks[s].finished)
    }

    ghost function Written(): (r: Outputs)
      reads this
    {
      Outputs(recentHashes, log, spool, costs)
    }

    ghost function Sinks(): (r: map<nat, SinkState>)
      requires forall s | s in sinks :: sinks[s] in handedOut
      reads this, handedOut
    {
      map s | s in sinks :: sinks[s].State()
    }

    ghost function Abstract(): (r: State)
      requires forall s | s in sinks :: sinks[s] in handedOut
      reads this, handedOut
    {
      State(Written(), Sinks(), (set s | s in immediates), fired)
    }

    constructor (env: CaptureEnv)
      ensures Valid() && this.env == env && sinks == map[]
      ensures Abstract() == IDLE
    {
      this.env := env;
      recentHashes, spool, costs, sinks, immediates := [], [], [], map[], [];
      handedOut, log, fired := {}, [], [];
    }

    /** `finishCapture` on one sink: cost first, then the two phases of the transcript. A cost entry that cannot be
        written is passed over; a transcript that cannot be written throws to the deferred callback, which ends. */
    method FinishCapture(sink: Sink, writes: Writes)
      modifies this`recentHashes, this`spool, this`costs, this`log
      ensures Written() == Play(env, old(Written()), Exchange(old(sink.State()).req, old(sink.State()).res, writes))
    {
      hide GateRelevance, HashTurnText, UsageMetadata.ExtractUsage, Concat, Survivors, UserTurns, ResponseTurn;
      ghost var before := Written();
      ghost var x := Exchange(sink.State().req, sink.State().res, writes);
      var reqBytes := JoinChunks(sink.reqChunks);
      var resBytes := JoinChunks(sink.resChunks);
      var reqBody := RequestBody(env.decode(reqBytes));
      var resBody := ReadReply(env.decode(resBytes));
      var usageForCost := UsageMetadata.ExtractUsage(reqBody, resBody);
      if usageForCost.Just? && writes.cost {
        costs := costs + [usageForCost.value];
      }
      var turns := ExtractRequestTurns(reqBody);
      var assistantTurn := ExtractResponseTurn(resBody);
      NothingRecorded(before.recent, env.gate.dedupWindow);
      assert before.log + [] == before.log && before.spool + [] == before.spool && before.costs + [] == before.costs;
      if assistantTurn.Threw? { return; }
      if assistantTurn.value.Just? {
        turns := turns + [assistantTurn.value.value];
      }
      if |turns| == 0 {
        NoTurnsNoCapture(env.gate, before.recent);
        return;
      }
      var gated := GateTurns(env.gate, turns, recentHashes);
      var hasAssistant := HasAssistantTurn(gated);
      if !hasAssistant { return; }
      RecordAll(gated);
      if !writes.spool { return; }
      spool := spool + [gated];
    }

    /** The recording loop of phase two. */
    method RecordAll(gated: seq<Turn>)
      modifies this`recentHashes, this`log
      ensures recentHashes == RecordedAll(old(recentHashes), Hashes(env.gate, gated), env.gate.dedupWindow)
      ensures log == old(log) + Hashes(env.gate, gated)
    {
      hide HashTurnText, Recorded;
      ghost var hs := Hashes(env.gate, gated);
      assert hs[0..] == hs;
      for i := 0 to |gated|
        invariant log == old(log)
        invariant RecordedAll(recentHashes, hs[i..], env.gate.dedupWindow)
               == RecordedAll(old(recentHashes), hs, env.gate.dedupWindow)
      {
        assert hs[i..][0] == HashTurnText(env.gate, gated[i].text) && hs[i..][1..] == hs[i + 1..];
        recentHashes := RecordCapturedTurnHash(env.gate, recentHashes, gated[i].text);
      }
      assert hs[|gated|..] == [];
      log := log + hs;
    }

    /** `createSink`, unless the exchange has its sink already. */
    method CreateSink(s: nat) returns (sink: Sink)
      requires Valid()
      modifies this`sinks, this`handedOut
      ensures Valid() && s in sinks && sink == sinks[s] && fresh(handedOut - old(handedOut))
      ensures Sinks() == old(Sinks())[s := old(SinkOf(Abstract(), s))]
    {
      hide Play, Concat;
      if s in sinks { return sinks[s]; }
      sink := new Sink(s);
      sinks := sinks[s := sink];
      handedOut := handedOut + {sink};
    }

    /** An event reaches a sink, which may set its completion aside. */
    method Deliver(sink: Sink, ev: Event)
      requires Valid() && !ev.Fire? && ev.sink in sinks && sink == sinks[ev.sink]
      modifies sink, this`immediates
      ensures Valid()
      ensures Sinks() == old(Sinks())[ev.sink := SinkStep(old(sink.State()), ev)]
      ensures immediates == old(immediates) + if sink.finished && !old(sink.finished) then [ev.sink] else []
    {
      hide Concat, NoRepeat, SinkStep;
      var schedules := sink.OnEvent(ev);
      if schedules {
        NoRepeatSnoc(immediates, ev.sink);
        immediates := immediates + [ev.sink];
      }
    }

    /** A chunk or an end reaches the sink of exchange `ev.sink`, handed out on its first event. */
    method OnEvent(ev: Event)
      requires Valid() && !ev.Fire?
      modifies this, handedOut
      ensures Valid() && fresh(handedOut - old(handedOut))
      ensures Abstract() == Step(env, old(Abstract()), ev)
    {
      hide Play, Concat, NoRepeat, SinkStep, Step;
      ghost var before := Abstract();
      var sink := CreateSink(ev.sink);
      assert sink.State() == Sinks()[ev.sink];
      ghost var finished := sink.finished;
      Deliver(sink, ev);
      assert sink.State() == Sinks()[ev.sink];
      StepShape(env, before, ev);
      assert Abstract().pending == before.pending + if sink.finished && !finished then {ev.sink} else {};
    }

    /** The oldest deferred callback runs. */
    method RunImmediate()
      requires Valid() && immediates != []
      modifies this
      ensures Valid() && handedOut == old(handedOut)
      ensures Abstract() == Step(env, old(Abstract()), Fire(old(immediates)[0]))
    {
      hide Play, Concat;
      ghost var before := Abstract();
      var s := immediates[0];
      FinishCapture(sinks[s], env.writes(s));
      ghost var queue := immediates;
      immediates := immediates[1..];
      assert queue == [s] + immediates;
      fired := fired + [s];
      assert Abstract().pending == before.pending - {s};
    }
  }

  lemma StepShape(env: CaptureEnv, st: State, ev: Event)
    requires !ev.Fire?
    ensures var k, k' := SinkOf(st, ev.sink), SinkStep(SinkOf(st, ev.sink), ev);
            Step(env, st, ev) == State(st.out, st.sinks[ev.sink := k'],
                                       st.pending + (if k'.finished && !k.finished then {ev.sink} else {}), st.fired)
  {
    hide SinkStep;
  }

  lemma NoRepeatSnoc(queue: seq<nat>, s: nat)
    requires NoRepeat(queue) && s !in queue
    ensures NoRepeat(queue + [s])
  {
  }

  method JoinChunks(chunks: seq<Bytes>) returns (all: Bytes)
    ensures all == Concat(chunks)
  {
    all := [];
    for i := 0 to |chunks|
      invariant all == Concat(chunks[..i])
    {
      assert chunks[..i + 1][..i] == chunks[..i];
      all := all + chunks[i];
    }
    assert chunks[..|chunks|] == chunks;
  }

  method HasAssistantTurn(turns: seq<Turn>) returns (found: bool)
    ensures found == HasAssistant(turns)
  {
    found := false;
    for i := 0 to |turns|
      invariant forall k | 0 <= k < i :: turns[k].role != Assistant
    {
      if turns[i].role == Assistant { return true; }
    }
  }

  lemma NoTurnsNoCapture(env: Env, recent: seq<Digest>)
    ensures !HasAssistant(Survivors(env, [], recent, {}))
  {
  }
}
