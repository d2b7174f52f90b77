/** The waiting loops of src/cli/wait-health.ts and src/cli/reinstall.ts, over an explicit clock. Times are in
    milliseconds; what each request answers and how long everything takes is arbitrary. */
module BootGrace {
  import opened Arithmetic
  import opened Options

  type Time = real
  type Pause = Positive
  type Lapse = t: Time | t >= 0.0 witness 0.0

  // ---- waitForHealth ----

  /** One request: whether it answered well, how long it took, and how long the pause after it lasted. */
  datatype Poll = Poll(ok: bool, took: Lapse, slept: Pause)

  /** When request `k` starts, if all before it failed. */
  function PollStart(polls: nat -> Poll, start: Time, k: nat): (t: Time)
    ensures t >= start
  {
    if k == 0 then start else PollStart(polls, start, k - 1) + polls(k - 1).took + polls(k - 1).slept
  }

  /** The outcome of waiting from `start`: how many requests were made and when the wait ended. */
  datatype Waited = Waited(healthy: bool, end: Time, polls: nat)

  /** Some request that starts within the wait answers well. */
  ghost predicate AnswersInTime(polls: nat -> Poll, start: Time, timeout: Time) {
    exists k: nat :: PollStart(polls, start, k) < start + timeout && polls(k).ok
  }

  /** What a wait of `timeout` must come to. */
  ghost predicate IsWait(polls: nat -> Poll, start: Time, timeout: Time, r: Waited) {
    && (forall j | 0 <= j < r.polls - 1 :: !polls(j).ok)
    && (r.polls > 0 ==> PollStart(polls, start, r.polls - 1) < start + timeout)
    && (if r.healthy
        then r.polls > 0 && polls(r.polls - 1).ok
             && r.end == PollStart(polls, start, r.polls - 1) + polls(r.polls - 1).took
        else (forall j | 0 <= j < r.polls :: !polls(j).ok)
             && r.end == PollStart(polls, start, r.polls) && r.end >= start + timeout)
  }

  /** Enough pauses use up any time: the pauses of Node's timers do not shrink towards nothing. */
  ghost predicate Paced(polls: nat -> Poll, tick: Pause) {
    forall k: nat :: polls(k).slept >= tick
  }

  lemma {:induction false} PollsTakeTime(polls: nat -> Poll, start: Time, tick: Pause, k: nat)
    requires Paced(polls, tick)
    ensures PollStart(polls, start, k) >= start + Steps(k, tick)
  {
    hide Steps;
    StepsNext(0, tick);
    if k > 0 {
      PollsTakeTime(polls, start, tick, k - 1);
      StepsNext(k - 1, tick);
    }
  }

  /** `waitForHealth` */
  method WaitForHealth(polls: nat -> Poll, start: Time, timeout: Time, ghost tick: Pause) returns (r: Waited)
    requires Paced(polls, tick)
    ensures IsWait(polls, start, timeout, r)
  {
    hide StepsToCover, Steps;
    var deadline := start + timeout;
    var now := start;
    var k := 0;
    while now < deadline
      invariant now == PollStart(polls, start, k)
      invariant forall j | 0 <= j < k :: !polls(j).ok
      invariant k > 0 ==> PollStart(polls, start, k - 1) < deadline
      decreases StepsToCover(timeout, tick) - k
    {
      PollsTakeTime(polls, start, tick, k);
      BelowCover(k, tick, now - start, timeout);
      if polls(k).ok { return Waited(true, now + polls(k).took, k + 1); }
      now := now + polls(k).took + polls(k).slept;
      k := k + 1;
    }
    return Waited(false, now, k);
  }

  /** A wait fails exactly when every request that starts before the deadline fails; it then lasts at least its
      timeout, and over it by less than its last request and pause. */
  lemma FailedWait(polls: nat -> Poll, start: Time, timeout: Time, r: Waited, overrun: Time)
    requires IsWait(polls, start, timeout, r)
    requires forall k: nat :: polls(k).took + polls(k).slept <= overrun
    ensures r.healthy <==> AnswersInTime(polls, start, timeout)
    ensures !r.healthy ==> r.end >= start + timeout
    ensures timeout > 0.0 ==> r.end < start + timeout + overrun
  {
    if !r.healthy {
      forall j: nat | j >= r.polls
        ensures PollStart(polls, start, j) >= start + timeout
      {
        StartsGrow(polls, start, r.polls, j);
      }
      if r.polls > 0 {
        var last := r.polls - 1;
        assert PollStart(polls, start, last) < start + timeout && polls(last).took + polls(last).slept <= overrun;
      }
    } else {
      var last := r.polls - 1;
      assert PollStart(polls, start, last) < start + timeout && polls(last).ok;
      assert polls(last).took + polls(last).slept <= overrun;
    }
  }

  lemma {:induction false} StartsGrow(polls: nat -> Poll, start: Time, j: nat, k: nat)
    requires j <= k
    ensures PollStart(polls, start, j) <= PollStart(polls, start, k)
    decreases k
  {
    if j < k { StartsGrow(polls, start, j, k - 1); }
  }

  // ---- waitForVersion ----

  /** One request to /version: the version string in its answer, if there was one. */
  datatype Answer = Answer(version: Maybe<string>, took: Lapse, slept: Pause)

  datatype VersionResult = VersionResult(ok: bool, served: Maybe<string>, responded: bool)

  function AnswerStart(answers: nat -> Answer, start: Time, k: nat): (r: Time) {
    if k == 0 then start else AnswerStart(answers, start, k - 1) + answers(k - 1).took + answers(k - 1).slept
  }

  /** The last version among the first `k` answers. */
  function LastServed(answers: nat -> Answer, k: nat): (r: Maybe<string>) {
    if k == 0 then Nothing
    else if answers(k - 1).version.Just? then answers(k - 1).version
    else LastServed(answers, k - 1)
  }

  lemma {:induction false} AnswersTakeTime(answers: nat -> Answer, start: Time, tick: Pause, k: nat)
    requires forall j: nat :: answers(j).slept >= tick
    ensures AnswerStart(answers, start, k) >= start + Steps(k, tick)
  {
    hide Steps;
    StepsNext(0, tick);
    if k > 0 {
      AnswersTakeTime(answers, start, tick, k - 1);
      StepsNext(k - 1, tick);
    }
  }

  /** `waitForVersion`, with the number of requests it made. */
  method WaitForVersion(answers: nat -> Answer, start: Time, expected: string, timeout: Time, ghost tick: Pause)
      returns (r: VersionResult, asked: nat)
    requires forall j: nat :: answers(j).slept >= tick
    ensures asked > 0 ==> AnswerStart(answers, start, asked - 1) < start + timeout
    ensures r.ok <==> exists j | 0 <= j < asked :: answers(j).version == Just(expected)
    ensures r.ok ==> r.served == Just(expected)
    ensures !r.ok ==> AnswerStart(answers, start, asked) >= start + timeout
    ensures r.served == LastServed(answers, asked) && (r.responded <==> r.served.Just?)
  {
    hide StepsToCover, Steps;
    var deadline := start + timeout;
    var now := start;
    var served: Maybe<string> := Nothing;
    var responded := false;
    asked := 0;
    while now < deadline
      invariant now == AnswerStart(answers, start, asked)
      invariant forall j | 0 <= j < asked :: answers(j).version != Just(expected)
      invariant asked > 0 ==> AnswerStart(answers, start, asked - 1) < deadline
      invariant served == LastServed(answers, asked) && (responded <==> served.Just?)
      decreases StepsToCover(timeout, tick) - asked
    {
      AnswersTakeTime(answers, start, tick, asked);
      BelowCover(asked, tick, now - start, timeout);
      var body := answers(asked);
      asked := asked + 1;
      if body.version.Just? {
        responded := true;
        served := body.version;
        if body.version.value == expected { return VersionResult(true, served, true), asked; }
      }
      now := now + body.took + body.slept;
    }
    return VersionResult(false, served, responded), asked;
  }

  // ---- isDaemonInstanceAlive ----

  const IDENTITY_TOLERANCE := 60000.0

  /** The lock file's holder: when it says it started, if that can be read as a date. */
  datatype Lock = Lock(pid: nat, startedAt: Maybe<Time>)

  /** What looking at the holder shows: the lock, whether its pid is alive, and when that process really started. */
  datatype Sight = Sight(lock: Maybe<Lock>, pidAlive: bool, actualStart: Maybe<Time>)

  function IsDaemonInstanceAlive(lock: Lock, pidAlive: bool, actualStart: Maybe<Time>): (r: bool) {
    if !pidAlive then false
    else if lock.startedAt.Nothing? || actualStart.Nothing? then true
    else
      var drift := actualStart.value - lock.startedAt.value;
      (if drift < 0.0 then -drift else drift) <= IDENTITY_TOLERANCE
  }

  /** The holder is gone, or is proven to be another process. */
  predicate ProvenDead(s: Sight) {
    || s.lock.Nothing?
    || !s.pidAlive
    || (s.lock.value.startedAt.Just? && s.actualStart.Just?
        && (s.actualStart.value > s.lock.value.startedAt.value + IDENTITY_TOLERANCE
            || s.actualStart.value < s.lock.value.startedAt.value - IDENTITY_TOLERANCE))
  }

  // ---- waitForHealthWithBootGrace ----

  datatype Reason = DaemonDead | HardCap
  datatype GraceResult = GraceResult(healthy: bool, elapsed: Time, gaveUp: Maybe<Reason>)

  /** The surroundings of one chunk: the delay before its wait begins, its requests, and the look at the lock
      afterwards with the time that takes. */
  datatype Chunk = Chunk(delay: Lapse, polls: nat -> Poll, sight: Sight, looking: Lapse)

  function Min(a: Time, b: Time): (r: Time) {
    if a < b then a else b
  }

  /** How long the chunks are after `k` of them: at least so much of the cap is used up. */
  lemma CapUsed(k: nat, chunk: Time, cap: Time, elapsed: Time, elapsed': Time)
    requires chunk > 0.0 && elapsed < cap
    requires elapsed >= Min(Steps(k, chunk), cap)
    requires elapsed' >= elapsed + Min(chunk, cap - elapsed)
    ensures elapsed' >= Min(Steps(k + 1, chunk), cap)
  {
    StepsNext(k, chunk);
  }

  /** No single request with its pause, after the delay before the wait, and no look at the lock takes longer. */
  ghost predicate Overheads(c: Chunk, overrun: Time) {
    c.looking <= overrun && forall k: nat :: c.polls(k).took + c.polls(k).slept <= overrun - c.delay
  }

  /** The wait of a chunk that comes up at `at`: the rest of the cap, if that is less than a whole chunk. */
  ghost predicate IsChunkWait(c: Chunk, at: Time, chunkMs: Time, hardCapMs: Time, w: Waited) {
    IsWait(c.polls, at + c.delay, Min(chunkMs, hardCapMs - at), w)
  }

  /** When the next chunk comes up: after the last wait and the look at the lock. */
  function NextAt(chunks: nat -> Chunk, waits: seq<Waited>): (r: Time) {
    if waits == [] then 0.0 else waits[|waits| - 1].end + chunks(|waits| - 1).looking
  }

  /** One chunk after the other, each waited for as `waitForHealth` does. */
  ghost predicate Chained(chunks: nat -> Chunk, chunkMs: Time, hardCapMs: Time, at: seq<Time>, waits: seq<Waited>)
    requires |at| == |waits|
  {
    forall c | 0 <= c < |at| ::
      at[c] == NextAt(chunks, waits[..c]) && IsChunkWait(chunks(c), at[c], chunkMs, hardCapMs, waits[c])
  }

  lemma NothingChained(chunks: nat -> Chunk, chunkMs: Time, hardCapMs: Time)
    ensures Chained(chunks, chunkMs, hardCapMs, [], [])
  {
  }

  lemma ChainedSnoc(chunks: nat -> Chunk, chunkMs: Time, hardCapMs: Time, at: seq<Time>, waits: seq<Waited>,
                    t: Time, w: Waited)
    requires |at| == |waits| && Chained(chunks, chunkMs, hardCapMs, at, waits)
    requires t == NextAt(chunks, waits) && IsChunkWait(chunks(|at|), t, chunkMs, hardCapMs, w)
    ensures Chained(chunks, chunkMs, hardCapMs, at + [t], waits + [w])
  {
    hide NextAt, IsChunkWait;
    var waits' := waits + [w];
    forall c | 0 <= c < |waits'|
      ensures waits'[..c] == if c < |waits| then waits[..c] else waits
    {
    }
  }

  /** Some request within the wait of chunk `c` answers well, when that chunk comes up at `at`. */
  ghost predicate ChunkAnswers(c: Chunk, at: Time, chunkMs: Time, hardCapMs: Time) {
    AnswersInTime(c.polls, at + c.delay, Min(chunkMs, hardCapMs - at))
  }

  /** The loop over chunks, with the number of chunks it waited for and when each came up. Nothing bounds it but
      the cap: it waits for no more chunks than cover the cap, over the cap by no more than one call's overrun. It
      reports health exactly when some request in some chunk answered in time, gives the daemon up for dead only on
      proof, and for stuck only when the cap is used up. */
  method WaitForHealthWithBootGrace(chunks: nat -> Chunk, chunkMs: Time, hardCapMs: Time,
                                    ghost tick: Pause, ghost overrun: Time)
      returns (r: GraceResult, waited: nat, ghost at: seq<Time>, ghost waits: seq<Waited>)
    requires chunkMs > 0.0
    requires forall c: nat :: Paced(chunks(c).polls, tick)
    requires forall c: nat :: Overheads(chunks(c), overrun)
    ensures waited <= StepsToCover(hardCapMs, chunkMs)
    ensures hardCapMs > 0.0 ==> r.elapsed < hardCapMs + overrun
    ensures r.healthy <==> r.gaveUp.Nothing?
    ensures r.gaveUp == Just(DaemonDead) ==> waited > 0 && ProvenDead(chunks(waited - 1).sight) && r.elapsed < hardCapMs
    ensures r.gaveUp == Just(HardCap) ==> r.elapsed >= hardCapMs
    ensures forall c | 0 <= c < waited - 1 :: !ProvenDead(chunks(c).sight)
    ensures |at| == |waits| == waited && Chained(chunks, chunkMs, hardCapMs, at, waits)
    ensures r.healthy <==> exists c | 0 <= c < waited :: ChunkAnswers(chunks(c), at[c], chunkMs, hardCapMs)
  {
    hide StepsToCover, Steps, IsWait, AnswersInTime, Chained;
    NothingChained(chunks, chunkMs, hardCapMs);
    StepsNext(0, chunkMs);
    var elapsed := 0.0;
    waited, at, waits := 0, [], [];
    while true
      invariant elapsed >= Min(Steps(waited, chunkMs), hardCapMs) || elapsed >= hardCapMs
      invariant waited > 0 ==> elapsed < hardCapMs + overrun
      invariant waited == 0 ==> elapsed == 0.0
      invariant waited <= StepsToCover(hardCapMs, chunkMs)
      invariant |at| == |waits| == waited && Chained(chunks, chunkMs, hardCapMs, at, waits)
      invariant elapsed == NextAt(chunks, waits)
      invariant forall c | 0 <= c < waited ::
                  !ProvenDead(chunks(c).sight) && !ChunkAnswers(chunks(c), at[c], chunkMs, hardCapMs)
      decreases StepsToCover(hardCapMs, chunkMs) - waited
    {
      var remaining := hardCapMs - elapsed;
      if remaining <= 0.0 { return GraceResult(false, elapsed, Just(HardCap)), waited, at, waits; }
      BelowCover(waited, chunkMs, elapsed, hardCapMs);
      var chunk := chunks(waited);
      var timeout := Min(chunkMs, remaining);
      var w := WaitForHealth(chunk.polls, elapsed + chunk.delay, timeout, tick);
      assert Overheads(chunk, overrun);
      FailedWait(chunk.polls, elapsed + chunk.delay, timeout, w, overrun - chunk.delay);
      ghost var before := elapsed;
      ChainedSnoc(chunks, chunkMs, hardCapMs, at, waits, before, w);
      elapsed := w.end;
      waited, at, waits := waited + 1, at + [before], waits + [w];
      if w.healthy { return GraceResult(true, elapsed, Nothing), waited, at, waits; }
      if elapsed >= hardCapMs { return GraceResult(false, elapsed, Just(HardCap)), waited, at, waits; }
      if chunk.sight.lock.Nothing? { return GraceResult(false, elapsed, Just(DaemonDead)), waited, at, waits; }
      if !IsDaemonInstanceAlive(chunk.sight.lock.value, chunk.sight.pidAlive, chunk.sight.actualStart) {
        return GraceResult(false, elapsed, Just(DaemonDead)), waited, at, waits;
      }
      CapUsed(waited - 1, chunkMs, hardCapMs, before, elapsed);
      elapsed := elapsed + chunk.looking;
    }
  }

  /** The verdict on the holder is dead exactly on proof. */
  lemma DeadOnlyOnProof(s: Sight)
    ensures ProvenDead(s) <==> s.lock.Nothing? || !IsDaemonInstanceAlive(s.lock.value, s.pidAlive, s.actualStart)
  {
  }
}
