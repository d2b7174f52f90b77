/** `createProxyCaptureTee` of src/capture/proxy.ts: many exchanges at once, one dedup window, deferred completion. */
module Capture {
  import opened Options
  import opened Text
  import opened Json
  import opened Turns
  import opened Framing
  import opened Gate
  import UsageMetadata

  type Bytes = seq<nat>

  datatype Exchange = Exchange(req: Bytes, res: Bytes, writes: Writes)

  /** Whether the two writes of one exchange work; one that does not throws and leaves nothing. */
  datatype Writes = Writes(cost: bool, spool: bool)

  /** The surroundings of the capture: the gate's, decompression with UTF-8 decoding, and what becomes of the writes
      of each exchange. */
  datatype CaptureEnv = CaptureEnv(gate: Env, decode: Bytes -> string, writes: nat -> Writes)

  /** What completing one exchange does: the cost entry and the transcript it writes, and the hashes it records, in
      order. */
  datatype Effect = Effect(cost: Maybe<UsageMetadata.Metadata>, spooled: Maybe<seq<Turn>>, recorded: seq<Digest>)

  /** All turns of an exchange; nothing when reading the reply threw. */
  ghost function TurnsOf(req: Body, res: Body): (r: Maybe<seq<Turn>>) {
    match ResponseTurn(res)
    case Threw => Nothing
    case Got(Nothing) => Just(RequestTurns(req))
    case Got(Just(turn)) => Just(RequestTurns(req) + [turn])
  }

  predicate HasAssistant(turns: seq<Turn>) {
    exists t <- turns :: t.role == Assistant
  }

  /** `finishCapture` on the bytes of one exchange. */
  ghost function Finish(env: CaptureEnv, recent: seq<Digest>, x: Exchange): (r: Effect) {
    var gated := Gated(env, recent, x);
    Effect(if x.writes.cost then UsageIn(env, x) else Nothing,
           if x.writes.spool then gated else Nothing,
           if gated.Just? then Hashes(env.gate, gated.value) else [])
  }

  function UsageIn(env: CaptureEnv, x: Exchange): (r: Maybe<UsageMetadata.Metadata>) {
    UsageMetadata.ExtractUsage(RequestBody(env.decode(x.req)), ReplyBody(env.decode(x.res)))
  }

  /** The turns to be spooled: those that survive, if the reply is one of them. */
  ghost function Gated(env: CaptureEnv, recent: seq<Digest>, x: Exchange): (r: Maybe<seq<Turn>>) {
    match TurnsOf(RequestBody(env.decode(x.req)), ReplyBody(env.decode(x.res)))
    case Nothing => Nothing
    case Just(turns) =>
      var gated := Survivors(env.gate, turns, recent, {});
      if HasAssistant(gated) then Just(gated) else Nothing
  }

  // ---- what every spooled exchange looks like ----

  lemma {:induction false} UserTurnsAreUsers(messages: seq<Value>)
    ensures forall t <- UserTurns(messages) :: t.role == User
  {
    hide ContentText, TrimStart, TrimEnd;
    if messages != [] {
      UserTurnsAreUsers(messages[1..]);
    }
  }

  lemma ReplyIsAssistant(res: Body)
    ensures ResponseTurn(res).Got? && ResponseTurn(res).value.Just? ==> ResponseTurn(res).value.value.role == Assistant
  {
    hide TrimStart, TrimEnd, ContentText, Ascending;
  }

  /** Exactly one assistant turn, in last place, and pairwise distinct hashes, none of them in the window. */
  predicate Complete(env: Env, recent: seq<Digest>, turns: seq<Turn>) {
    && turns != [] && turns[|turns| - 1].role == Assistant
    && (forall i | 0 <= i < |turns| - 1 :: turns[i].role == User)
    && NoRepeat(Hashes(env, turns))
    && forall h <- Hashes(env, turns) :: h !in recent
  }

  /** What survives of prompts and one reply either holds no reply or is complete. */
  lemma SurvivorsAreComplete(env: Env, recent: seq<Digest>, users: seq<Turn>, reply: Turn)
    requires reply.role == Assistant && forall t <- users :: t.role == User
    ensures var gated := Survivors(env, users + [reply], recent, {});
            HasAssistant(gated) ==> Complete(env, recent, gated)
  {
    hide GateRelevance, HashTurnText;
    var turns := users + [reply];
    var gated := Survivors(env, turns, recent, {});
    SurvivorsAreNew(env, turns, recent, {});
    SurvivorsAreTurns(env, users, recent, {});
    var kept := Survivors(env, users, recent, {});
    var seen := SurvivorsSplit(env, users, [reply], recent, {});
    var tail := Survivors(env, [reply], recent, seen);
    assert gated == kept + tail;
    assert tail == [] || tail == [reply] by { assert [reply][1..] == []; }
    if tail == [] { assert gated == kept; }
  }

  /** No orphan prompts: whatever an exchange holds, if it is spooled then complete. */
  lemma NoOrphanPrompts(env: CaptureEnv, recent: seq<Digest>, x: Exchange)
    ensures var spooled := Finish(env, recent, x).spooled;
            spooled.Just? ==> Complete(env.gate, recent, spooled.value)
  {
    hide Gated, Complete;
    GatedIsComplete(env, recent, x);
  }

  lemma GatedIsComplete(env: CaptureEnv, recent: seq<Digest>, x: Exchange)
    ensures var gated := Gated(env, recent, x);
            gated.Just? ==> Complete(env.gate, recent, gated.value)
  {
    hide GateRelevance, HashTurnText, ResponseTurn, UserTurns, Survivors, Complete, RequestBody, ReplyBody;
    var req, res := RequestBody(env.decode(x.req)), ReplyBody(env.decode(x.res));
    var users := RequestTurns(req);
    if req.Body? && req.whole.Just? && Get(req.whole.value, "messages").List? {
      UserTurnsAreUsers(Get(req.whole.value, "messages").items);
    }
    ReplyIsAssistant(res);
    match ResponseTurn(res)
    case Threw =>
    case Got(Nothing) => SurvivorsAreTurns(env.gate, users, recent, {});
    case Got(Just(turn)) => SurvivorsAreComplete(env.gate, recent, users, turn);
  }

  // ---- exchanges one at a time ----

  /** What the process has written and remembers. The log of all recorded hashes is not kept by the code. */
  datatype Outputs = Outputs(
    recent: seq<Digest>, log: seq<Digest>, spool: seq<seq<Turn>>, costs: seq<UsageMetadata.Metadata>)

  const NOTHING_YET := Outputs([], [], [], [])

  ghost function Play(env: CaptureEnv, o: Outputs, x: Exchange): (r: Outputs) {
    var e := Finish(env, o.recent, x);
    Outputs(RecordedAll(o.recent, e.recorded, env.gate.dedupWindow), o.log + e.recorded,
            o.spool + Listed(e.spooled), o.costs + Listed(e.cost))
  }

  /** The exchanges run one after the other. */
  ghost function Session(env: CaptureEnv, xs: seq<Exchange>): (r: Outputs) {
    if xs == [] then NOTHING_YET else Play(env, Session(env, xs[..|xs| - 1]), xs[|xs| - 1])
  }

  /** Over any session the window is the last entries of the log, and equal hashes in the log stand more than
      the window's size apart. */
  lemma {:induction false} WindowRefinesLog(env: CaptureEnv, xs: seq<Exchange>)
    ensures var o := Session(env, xs);
            o.recent == LastN(o.log, env.gate.dedupWindow) && FarApart(o.log, env.gate.dedupWindow)
    decreases |xs|
  {
    if xs != [] {
      hide Finish, RecordedAll, LastN;
      var o, x := Session(env, xs[..|xs| - 1]), xs[|xs| - 1];
      WindowRefinesLog(env, xs[..|xs| - 1]);
      RecordedIsNew(env, o.recent, x);
      WindowIsLogSuffix(o.log, Finish(env, o.recent, x).recorded, env.gate.dedupWindow);
    } else {
      assert LastN<Digest>([], env.gate.dedupWindow) == [];
    }
  }

  lemma RecordedIsNew(env: CaptureEnv, recent: seq<Digest>, x: Exchange)
    ensures var hs := Finish(env, recent, x).recorded;
            NoRepeat(hs) && forall h <- hs :: h !in recent
  {
    hide TurnsOf, GateRelevance, HashTurnText, Survivors;
    var turns := TurnsOf(RequestBody(env.decode(x.req)), ReplyBody(env.decode(x.res)));
    if turns.Just? {
      SurvivorsAreNew(env.gate, turns.value, recent, {});
    }
  }

  /** The exchanges that are kept, given a mark for each. */
  function Kept(xs: seq<Exchange>, keep: seq<bool>): (r: seq<Exchange>)
    requires |keep| == |xs|
  {
    if xs == [] then []
    else
      var n := |xs| - 1;
      Kept(xs[..n], keep[..n]) + (if keep[n] then [xs[n]] else [])
  }

  /** No poisoning: deleting any of the exchanges that a session discards changes neither which others are
      spooled, nor their turns, nor the window. */
  lemma {:induction false} NoPoisoning(env: CaptureEnv, xs: seq<Exchange>, keep: seq<bool>)
    requires |keep| == |xs|
    requires forall i | 0 <= i < |xs| && !keep[i] :: Gated(env, Session(env, xs[..i]).recent, xs[i]).Nothing?
    ensures Session(env, Kept(xs, keep)).spool == Session(env, xs).spool
    ensures Session(env, Kept(xs, keep)).recent == Session(env, xs).recent
    ensures Session(env, Kept(xs, keep)).log == Session(env, xs).log
    decreases |xs|
  {
    hide RecordedAll, Gated, Finish;
    if xs != [] {
      var n := |xs| - 1;
      forall i | 0 <= i < n && !keep[..n][i]
        ensures Gated(env, Session(env, xs[..n][..i]).recent, xs[..n][i]).Nothing?
      {
        assert xs[..n][..i] == xs[..i];
      }
      NoPoisoning(env, xs[..n], keep[..n]);
      var kept := Kept(xs[..n], keep[..n]);
      if keep[n] {
        assert (kept + [xs[n]])[..|kept|] == kept;
        SameEffect(env, Session(env, kept), Session(env, xs[..n]), xs[n]);
      } else {
        DiscardedRecordsNothing(env, Session(env, xs[..n]), xs[n]);
        assert Kept(xs, keep) == kept;
      }
    }
  }

  /** Only the window decides what an exchange adds. */
  lemma SameEffect(env: CaptureEnv, o: Outputs, p: Outputs, x: Exchange)
    requires o.recent == p.recent && o.log == p.log && o.spool == p.spool
    ensures var o', p' := Play(env, o, x), Play(env, p, x);
            o'.recent == p'.recent && o'.log == p'.log && o'.spool == p'.spool
  {
    hide RecordedAll, Finish;
  }

  lemma DiscardedRecordsNothing(env: CaptureEnv, o: Outputs, x: Exchange)
    requires Gated(env, o.recent, x).Nothing?
    ensures var o' := Play(env, o, x);
            o'.recent == o.recent && o'.log == o.log && o'.spool == o.spool
  {
    hide Gated;
    NothingRecorded(o.recent, env.gate.dedupWindow);
    assert o.log + [] == o.log && o.spool + [] == o.spool;
  }

  /** Hashes are recorded before the transcript is written. So an exchange that is not spooled leaves the window
      alone exactly when it was discarded, or the window holds nothing anyway: not when its write threw. */
  lemma UnspooledPoisonsExactly(env: CaptureEnv, xs: seq<Exchange>, x: Exchange)
    ensures var o := Session(env, xs);
            Play(env, o, x).recent == o.recent <==> Gated(env, o.recent, x).Nothing? || env.gate.dedupWindow == 0
  {
    hide RecordedAll, Gated, LastN, FarApart, Session;
    var o, window := Session(env, xs), env.gate.dedupWindow;
    var hs := Finish(env, o.recent, x).recorded;
    WindowRefinesLog(env, xs);
    RecordedIsNew(env, o.recent, x);
    WindowIsLogSuffix(o.log, hs, window);
    if Gated(env, o.recent, x).Nothing? {
      DiscardedRecordsNothing(env, o, x);
    } else {
      LastHashIsReply(env, o.recent, x);
      LastOfWindow(o.log, hs, window);
    }
  }

  lemma LastOfWindow(log: seq<Digest>, hs: seq<Digest>, window: nat)
    requires hs != [] && forall h <- hs :: h !in LastN(log, window)
    ensures LastN(log + hs, window) == LastN(log, window) <==> window == 0
  {
    var r, h := LastN(log + hs, window), hs[|hs| - 1];
    assert h in hs;
    if window > 0 { assert r[|r| - 1] == h; }
  }

  /** What that costs: after a write that threw, the same exchange sent again is discarded as a duplicate of one that
      was never spooled. */
  lemma RetryIsDiscarded(env: CaptureEnv, xs: seq<Exchange>, x: Exchange, again: Writes)
    requires Gated(env, Session(env, xs).recent, x).Just? && !x.writes.spool && env.gate.dedupWindow > 0
    ensures Session(env, xs + [x, x.(writes := again)]).spool == Session(env, xs).spool
  {
    hide RecordedAll, LastN, FarApart, Session, Gated, Finish;
    var o, retry, window := Session(env, xs), x.(writes := again), env.gate.dedupWindow;
    var hs := Finish(env, o.recent, x).recorded;
    WindowRefinesLog(env, xs);
    RecordedIsNew(env, o.recent, x);
    WindowIsLogSuffix(o.log, hs, window);
    SessionOfTwo(env, xs, x, retry);
    var o' := Play(env, o, x);
    FailedWriteSpoolsNothing(env, o, x);
    LastHashIsReply(env, o.recent, x);
    NewestStays(o.log, hs, window);
    SameReply(env, x, retry);
    ReplyGatedOnce(env, o'.recent, retry);
    DiscardedRecordsNothing(env, o', retry);
  }

  lemma SameReply(env: CaptureEnv, x: Exchange, y: Exchange)
    requires x.res == y.res
    ensures ReplyOf(env, x) == ReplyOf(env, y)
  {
  }

  lemma SessionOfTwo(env: CaptureEnv, xs: seq<Exchange>, x: Exchange, y: Exchange)
    ensures Session(env, xs + [x, y]) == Play(env, Play(env, Session(env, xs), x), y)
  {
    hide Play;
    assert (xs + [x, y])[..|xs| + 1] == xs + [x] && (xs + [x])[..|xs|] == xs;
  }

  lemma FailedWriteSpoolsNothing(env: CaptureEnv, o: Outputs, x: Exchange)
    requires !x.writes.spool
    ensures Play(env, o, x).spool == o.spool
  {
    hide Gated, RecordedAll;
    assert o.spool + [] == o.spool;
  }

  lemma NewestStays(log: seq<Digest>, hs: seq<Digest>, window: nat)
    requires hs != [] && window > 0
    ensures hs[|hs| - 1] in LastN(log + hs, window)
  {
    var r := LastN(log + hs, window);
    assert r[|r| - 1] == hs[|hs| - 1];
  }

  ghost function ReplyOf(env: CaptureEnv, x: Exchange): (r: Outcome<Maybe<Turn>>) {
    ResponseTurn(ReplyBody(env.decode(x.res)))
  }

  /** The reply of an exchange is its only assistant turn. */
  lemma AssistantIsReply(env: CaptureEnv, recent: seq<Digest>, x: Exchange, t: Turn)
    requires Gated(env, recent, x).Just? && t in Gated(env, recent, x).value && t.role == Assistant
    ensures ReplyOf(env, x) == Got(Just(t))
  {
    hide GateRelevance, HashTurnText, ResponseTurn, UserTurns, Survivors, RequestBody, ReplyBody;
    var req, res := RequestBody(env.decode(x.req)), ReplyBody(env.decode(x.res));
    if req.Body? && req.whole.Just? && Get(req.whole.value, "messages").List? {
      UserTurnsAreUsers(Get(req.whole.value, "messages").items);
    }
    var turns := TurnsOf(req, res).value;
    SurvivorsAreTurns(env.gate, turns, recent, {});
  }

  /** The newest hash an exchange records is its reply's. */
  lemma LastHashIsReply(env: CaptureEnv, recent: seq<Digest>, x: Exchange)
    requires Gated(env, recent, x).Just?
    ensures ReplyOf(env, x).Got? && ReplyOf(env, x).value.Just?
    ensures var hs := Finish(env, recent, x).recorded;
            hs != [] && hs[|hs| - 1] == HashTurnText(env.gate, ReplyOf(env, x).value.value.text)
  {
    hide Gated, ReplyOf, HashTurnText;
    GatedIsComplete(env, recent, x);
    var gated := Gated(env, recent, x).value;
    AssistantIsReply(env, recent, x, gated[|gated| - 1]);
  }

  /** With its reply's hash in the window an exchange is discarded. */
  lemma ReplyGatedOnce(env: CaptureEnv, recent: seq<Digest>, x: Exchange)
    requires ReplyOf(env, x).Got? && ReplyOf(env, x).value.Just?
    requires HashTurnText(env.gate, ReplyOf(env, x).value.value.text) in recent
    ensures Gated(env, recent, x).Nothing?
  {
    hide Gated, ReplyOf, HashTurnText;
    if Gated(env, recent, x).Just? {
      LastHashIsReply(env, recent, x);
      RecordedIsNew(env, recent, x);
    }
  }

  lemma NothingRecorded(recent: seq<Digest>, window: nat)
    ensures RecordedAll(recent, [], window) == recent
  {
  }

  // ---- exactly what is spooled ----

  /** Some turn of the same hash is worth keeping. */
  predicate HasTwin(env: Env, turns: seq<Turn>, t: Turn) {
    var h := HashTurnText(env, t.text);
    exists i :: 0 <= i < |turns| && HashTurnText(env, turns[i].text) == h && Worth(env, turns[i])
  }

  function Prompts(env: CaptureEnv, x: Exchange): (r: seq<Turn>) {
    RequestTurns(RequestBody(env.decode(x.req)))
  }

  /** The exchange has a reply, it is worth keeping, new to the window, and no repetition of a prompt worth keeping. */
  ghost predicate KeepsReply(env: CaptureEnv, recent: seq<Digest>, x: Exchange) {
    && ReplyOf(env, x).Got? && ReplyOf(env, x).value.Just?
    && var reply := ReplyOf(env, x).value.value;
       && Worth(env.gate, reply) && HashTurnText(env.gate, reply.text) !in recent
       && !HasTwin(env.gate, Prompts(env, x), reply)
  }

  /** An exchange is spooled exactly when its reply is such a turn and the write works; then its prompts that survive
      are spooled with it. */
  lemma SpooledExactly(env: CaptureEnv, recent: seq<Digest>, x: Exchange)
    ensures Finish(env, recent, x).spooled
         == if KeepsReply(env, recent, x) && x.writes.spool
            then Just(Survivors(env.gate, Prompts(env, x), recent, {}) + [ReplyOf(env, x).value.value])
            else Nothing
  {
    hide Survivors, Worth, HashTurnText, ResponseTurn, RequestTurns, RequestBody, ReplyBody;
    var users, gate := Prompts(env, x), env.gate;
    UsersOnly(RequestBody(env.decode(x.req)));
    SurvivorsAreTurns(gate, users, recent, {});
    if ReplyOf(env, x).Got? && ReplyOf(env, x).value.Just? {
      var reply := ReplyOf(env, x).value.value;
      ReplyIsAssistant(ReplyBody(env.decode(x.res)));
      SurvivorsSnoc(gate, users, reply, recent, {});
      var h := HashTurnText(gate, reply.text);
      if h !in recent { HashKept(gate, users, recent, h); }
      var before := Survivors(gate, users, recent, {});
      assert before + [] == before && (before + [reply])[|before|] == reply;
    }
  }

  lemma UsersOnly(body: Body)
    ensures forall t <- RequestTurns(body) :: t.role == User
  {
    hide UserTurns;
    if body.Body? && body.whole.Just? && Get(body.whole.value, "messages").List? {
      UserTurnsAreUsers(Get(body.whole.value, "messages").items);
    }
  }

  /** Over any session every spooled turn is worth keeping. */
  lemma {:induction false} SpooledAreWorth(env: CaptureEnv, xs: seq<Exchange>)
    ensures forall turns <- Session(env, xs).spool, t <- turns :: Worth(env.gate, t)
    decreases |xs|
  {
    hide Survivors, Worth, TurnsOf, RecordedAll, UsageIn;
    if xs != [] {
      var n := |xs| - 1;
      SpooledAreWorth(env, xs[..n]);
      var recent := Session(env, xs[..n]).recent;
      var turns := TurnsOf(RequestBody(env.decode(xs[n].req)), ReplyBody(env.decode(xs[n].res)));
      if turns.Just? { SurvivorsAreWorth(env.gate, turns.value, recent, {}); }
    }
  }

  /** The usage records of the exchanges that have any and whose cost entry could be written. */
  function UsageOf(env: CaptureEnv, xs: seq<Exchange>): (r: seq<UsageMetadata.Metadata>) {
    if xs == [] then []
    else
      var x := xs[|xs| - 1];
      var usage := UsageMetadata.ExtractUsage(RequestBody(env.decode(x.req)), ReplyBody(env.decode(x.res)));
      UsageOf(env, xs[..|xs| - 1]) + (if x.writes.cost then Listed(usage) else [])
  }

  /** There is one cost entry for each exchange with recognised usage whose entry could be written, in order, whether
      or not its transcript is spooled. */
  lemma {:induction false} OneCostPerExchange(env: CaptureEnv, xs: seq<Exchange>)
    ensures Session(env, xs).costs == UsageOf(env, xs)
    decreases |xs|
  {
    if xs != [] {
      hide RecordedAll, Gated, UsageMetadata.ExtractUsage;
      OneCostPerExchange(env, xs[..|xs| - 1]);
    }
  }
}
