/** Any interleaving of exchanges against the same exchanges one at a time. */
module Interleaving {
  import opened Gate
  import opened Capture

  datatype Dir = Req | Res

  /** What reaches the capture: a chunk or the end of one direction of one exchange, and the deferred callback
      of an exchange. */
  datatype Event = Chunk(sink: nat, dir: Dir, bytes: Bytes) | End(sink: nat, dir: Dir) | Fire(sink: nat)

  /** The variables of one sink's closure; the chunks are held joined. */
  datatype SinkState = SinkState(req: Bytes, res: Bytes, reqEnded: bool, resEnded: bool, finished: bool)

  const FRESH := SinkState([], [], false, false, false)

  datatype State = State(out: Outputs, sinks: map<nat, SinkState>, pending: set<nat>, fired: seq<nat>)

  const IDLE := State(NOTHING_YET, map[], {}, [])

  function SinkOf(st: State, s: nat): (r: SinkState) {
    if s in st.sinks then st.sinks[s] else FRESH
  }

  /** What a chunk or an end does to its own sink. */
  function SinkStep(k: SinkState, ev: Event): (r: SinkState) {
    match ev
    case Chunk(_, Req, bytes) => k.(req := k.req + bytes)
    case Chunk(_, Res, bytes) => k.(res := k.res + bytes)
    case End(_, dir) =>
      var k' := if dir == Req then k.(reqEnded := true) else k.(resEnded := true);
      if k'.reqEnded && k'.resEnded then k'.(finished := true) else k'
    case Fire(_) => k
  }

  /** One event. A chunk or an end changes its sink, and the second end defers the sink's callback; a deferred
      callback completes its exchange on whatever bytes the sink holds then. */
  ghost function Step(env: CaptureEnv, st: State, ev: Event): (r: State) {
    var s := ev.sink;
    var k := SinkOf(st, s);
    match ev
    case Fire(_) =>
      if s !in st.pending then st
      else State(Play(env, st.out, Exchange(k.req, k.res, env.writes(s))), st.sinks, st.pending - {s}, st.fired + [s])
    case _ =>
      var k' := SinkStep(k, ev);
      State(st.out, st.sinks[s := k'], if k'.finished && !k.finished then st.pending + {s} else st.pending, st.fired)
  }

  ghost function Run(env: CaptureEnv, tr: seq<Event>): (r: State) {
    if tr == [] then IDLE else Step(env, Run(env, tr[..|tr| - 1]), tr[|tr| - 1])
  }

  // ---- each sink on its own ----

  /** The sink's state as its own events determine it. */
  function SinkAfter(tr: seq<Event>, s: nat): (r: SinkState) {
    if tr == [] then FRESH
    else
      var k, ev := SinkAfter(tr[..|tr| - 1], s), tr[|tr| - 1];
      if ev.sink == s then SinkStep(k, ev) else k
  }

  /** The sinks never share or corrupt each other's bytes; and for any event sequence at all, each exchange
      completes at most once, and only after both of its directions have ended. */
  lemma {:induction false} SinksAreIndependent(env: CaptureEnv, tr: seq<Event>)
    ensures var st := Run(env, tr);
            && (forall s: nat :: SinkOf(st, s) == SinkAfter(tr, s))
            && (forall s: nat :: s in st.pending <==> SinkAfter(tr, s).finished && s !in st.fired)
            && (forall s: nat | s in st.fired :: SinkAfter(tr, s).finished)
            && NoRepeat(st.fired)
            && (forall s: nat :: var k := SinkAfter(tr, s); k.finished <==> k.reqEnded && k.resEnded)
    decreases |tr|
  {
    if tr != [] {
      hide Play, Session;
      var before, ev := tr[..|tr| - 1], tr[|tr| - 1];
      SinksAreIndependent(env, before);
      var st, st' := Run(env, before), Run(env, tr);
      assert st' == Step(env, st, ev);
      forall s: nat
        ensures SinkOf(st', s) == SinkAfter(tr, s)
        ensures s in st'.pending <==> SinkAfter(tr, s).finished && s !in st'.fired
        ensures s in st'.fired ==> SinkAfter(tr, s).finished
        ensures var k := SinkAfter(tr, s); k.finished <==> k.reqEnded && k.resEnded
      {
        assert SinkOf(st, s) == SinkAfter(before, s);
        assert s in st'.fired <==> s in st.fired || (ev == Fire(s) && s in st.pending);
      }
    }
  }

  // ---- what a sink holds ----

  /** The bytes of one direction of one exchange as the trace has them, in order of arrival. */
  function Arrived(tr: seq<Event>, s: nat, dir: Dir): (r: Bytes) {
    if tr == [] then []
    else
      (match tr[0] case Chunk(sink, d, bytes) => if sink == s && d == dir then bytes else [] case _ => [])
      + Arrived(tr[1..], s, dir)
  }

  predicate Ended(tr: seq<Event>, s: nat, dir: Dir) {
    exists i :: 0 <= i < |tr| && tr[i] == End(s, dir)
  }

  lemma {:induction false} ArrivedJoin(a: seq<Event>, b: seq<Event>, s: nat, dir: Dir)
    ensures Arrived(a + b, s, dir) == Arrived(a, s, dir) + Arrived(b, s, dir)
  {
    if a == [] {
      assert a + b == b;
    } else {
      assert (a + b)[1..] == a[1..] + b;
      ArrivedJoin(a[1..], b, s, dir);
    }
  }

  lemma ArrivedOne(ev: Event, s: nat, dir: Dir)
    ensures Arrived([ev], s, dir) == if ev.Chunk? && ev.sink == s && ev.dir == dir then ev.bytes else []
  {
    assert [ev][1..] == [];
  }

  lemma EndedSnoc(tr: seq<Event>, ev: Event, s: nat, dir: Dir)
    ensures Ended(tr + [ev], s, dir) <==> Ended(tr, s, dir) || ev == End(s, dir)
  {
    var all := tr + [ev];
    assert all[|tr|] == ev;
    assert forall i | 0 <= i < |tr| :: all[i] == tr[i];
  }

  /** A sink holds exactly the chunks of its exchange, each direction in order of arrival, and knows which of its
      directions have ended. */
  lemma {:induction false} SinkHolds(tr: seq<Event>, s: nat)
    ensures var k := SinkAfter(tr, s);
            && k.req == Arrived(tr, s, Req) && k.res == Arrived(tr, s, Res)
            && (k.reqEnded <==> Ended(tr, s, Req)) && (k.resEnded <==> Ended(tr, s, Res))
            && (k.finished <==> Ended(tr, s, Req) && Ended(tr, s, Res))
    decreases |tr|
  {
    if tr != [] {
      hide Ended;
      var n := |tr| - 1;
      var before, ev := tr[..n], tr[n];
      SinkHolds(before, s);
      assert tr == before + [ev];
      forall dir: Dir
        ensures Arrived(tr, s, dir)
             == Arrived(before, s, dir) + if ev.Chunk? && ev.sink == s && ev.dir == dir then ev.bytes else []
        ensures Ended(tr, s, dir) <==> Ended(before, s, dir) || ev == End(s, dir)
      {
        ArrivedJoin(before, [ev], s, dir);
        ArrivedOne(ev, s, dir);
        EndedSnoc(before, ev, s, dir);
      }
    }
  }

  /** The machine's own state says the same. */
  lemma CapturedInOrder(env: CaptureEnv, tr: seq<Event>, s: nat)
    ensures var k := SinkOf(Run(env, tr), s);
            && k.req == Arrived(tr, s, Req) && k.res == Arrived(tr, s, Res)
            && (k.finished <==> Ended(tr, s, Req) && Ended(tr, s, Res))
  {
    hide Run, SinkAfter, Arrived, Ended;
    SinksAreIndependent(env, tr);
    SinkHolds(tr, s);
    assert SinkOf(Run(env, tr), s) == SinkAfter(tr, s);
  }

  lemma {:induction false} SameFromThere(env: CaptureEnv, a: seq<Event>, a': seq<Event>, b: seq<Event>)
    requires Run(env, a) == Run(env, a')
    ensures Run(env, a + b) == Run(env, a' + b)
    decreases |b|
  {
    hide Step;
    if b == [] {
      assert a + b == a && a' + b == a';
    } else {
      var n := |b| - 1;
      SameFromThere(env, a, a', b[..n]);
      assert a + b == (a + b[..n]) + [b[n]] && a' + b == (a' + b[..n]) + [b[n]];
      RunSnoc(env, a + b[..n], b[n]);
      RunSnoc(env, a' + b[..n], b[n]);
    }
  }

  /** Where the network cuts a chunk makes no difference to anything. */
  lemma ChunkingIsInvisible(env: CaptureEnv, before: seq<Event>, s: nat, dir: Dir, x: Bytes, y: Bytes,
                            after: seq<Event>)
    ensures Run(env, before + [Chunk(s, dir, x + y)] + after)
         == Run(env, before + [Chunk(s, dir, x), Chunk(s, dir, y)] + after)
  {
    hide Run, Play;
    var whole, first, second := Chunk(s, dir, x + y), Chunk(s, dir, x), Chunk(s, dir, y);
    RunSnoc(env, before, whole);
    RunSnoc(env, before, first);
    RunSnoc(env, before + [first], second);
    assert before + [first, second] == before + [first] + [second];
    TwoChunks(env, Run(env, before), s, dir, x, y);
    SameFromThere(env, before + [whole], before + [first, second], after);
  }

  lemma TwoChunks(env: CaptureEnv, st: State, s: nat, dir: Dir, x: Bytes, y: Bytes)
    ensures Step(env, st, Chunk(s, dir, x + y)) == Step(env, Step(env, st, Chunk(s, dir, x)), Chunk(s, dir, y))
  {
    hide Play;
    var k := SinkOf(st, s);
    assert k.req + x + y == k.req + (x + y) && k.res + x + y == k.res + (x + y);
    var k1 := SinkStep(k, Chunk(s, dir, x));
    assert st.sinks[s := k1][s := SinkStep(k1, Chunk(s, dir, y))] == st.sinks[s := SinkStep(k, Chunk(s, dir, x + y))];
  }

  // ---- serializability ----

  /** No chunk comes after the end of its direction. */
  predicate ChunksBeforeEnds(tr: seq<Event>) {
    forall i, j | 0 <= i < j < |tr| && tr[i].End? && tr[j].Chunk? ::
      tr[i].sink != tr[j].sink || tr[i].dir != tr[j].dir
  }

  /** The exchange as the whole trace has it, with what becomes of its writes. */
  function Collected(env: CaptureEnv, tr: seq<Event>, s: nat): (r: Exchange) {
    Exchange(Arrived(tr, s, Req), Arrived(tr, s, Res), env.writes(s))
  }

  lemma CollectedIsHeld(env: CaptureEnv, tr: seq<Event>, s: nat)
    ensures Collected(env, tr, s) == Exchange(SinkAfter(tr, s).req, SinkAfter(tr, s).res, env.writes(s))
  {
    SinkHolds(tr, s);
  }

  function AllCollected(env: CaptureEnv, tr: seq<Event>, order: seq<nat>): (xs: seq<Exchange>)
    ensures |xs| == |order| && forall i :: 0 <= i < |order| ==> xs[i] == Collected(env, tr, order[i])
  {
    seq(|order|, i requires 0 <= i < |order| => Collected(env, tr, order[i]))
  }

  lemma {:induction false} EndedByEvent(tr: seq<Event>, s: nat)
    ensures SinkAfter(tr, s).reqEnded ==> exists i :: 0 <= i < |tr| && tr[i] == End(s, Req)
    ensures SinkAfter(tr, s).resEnded ==> exists i :: 0 <= i < |tr| && tr[i] == End(s, Res)
    decreases |tr|
  {
    if tr != [] {
      var n := |tr| - 1;
      EndedByEvent(tr[..n], s);
      assert tr[n] == End(s, Req) || tr[n] == End(s, Res)
             || SinkAfter(tr, s).reqEnded == SinkAfter(tr[..n], s).reqEnded;
      if i :| 0 <= i < |tr[..n]| && tr[..n][i] == End(s, Req) {
        assert tr[i] == End(s, Req);
      }
      if i :| 0 <= i < |tr[..n]| && tr[..n][i] == End(s, Res) {
        assert tr[i] == End(s, Res);
      }
    }
  }

  lemma ChunkNotAfterEnd(tr: seq<Event>, i: nat, j: nat)
    requires ChunksBeforeEnds(tr) && i < j < |tr| && tr[i].End? && tr[i].sink == tr[j].sink
    ensures tr[j].Chunk? ==> tr[j].dir != tr[i].dir
  {
  }

  /** Once both directions have ended, the bytes of an exchange are settled. */
  lemma FinishedIsSettled(env: CaptureEnv, tr: seq<Event>, n: nat, s: nat)
    requires n + 1 == |tr| && ChunksBeforeEnds(tr)
    requires SinkAfter(tr[..n], s).reqEnded && SinkAfter(tr[..n], s).resEnded
    ensures Collected(env, tr, s) == Collected(env, tr[..n], s)
  {
    CollectedIsHeld(env, tr, s);
    CollectedIsHeld(env, tr[..n], s);
    EndedByEvent(tr[..n], s);
    var i :| 0 <= i < n && tr[..n][i] == End(s, Req);
    var j :| 0 <= j < n && tr[..n][j] == End(s, Res);
    assert tr[i] == End(s, Req) && tr[j] == End(s, Res);
    hide ChunksBeforeEnds;
    if tr[n].sink == s {
      ChunkNotAfterEnd(tr, i, n);
      ChunkNotAfterEnd(tr, j, n);
    }
  }

  /** Serializability: whatever the interleaving, the writes and the final window are those of the exchanges
      run one at a time in the order their deferred callbacks fired. */
  lemma {:induction false} Serializable(env: CaptureEnv, tr: seq<Event>)
    requires ChunksBeforeEnds(tr)
    ensures Run(env, tr).out == Session(env, AllCollected(env, tr, Run(env, tr).fired))
    decreases |tr|
  {
    hide Play, ChunksBeforeEnds, Collected, SinkAfter;
    if tr != [] {
      var n := |tr| - 1;
      var before, ev := tr[..n], tr[n];
      PrefixChunks(tr, n);
      Serializable(env, before);
      SinksAreIndependent(env, before);
      var st := Run(env, before);
      var order, order' := st.fired, Run(env, tr).fired;
      forall s | s in order
        ensures Collected(env, tr, s) == Collected(env, before, s)
      {
        FinishedIsSettled(env, tr, n, s);
      }
      var xs, xs' := AllCollected(env, before, order), AllCollected(env, tr, order');
      assert xs == AllCollected(env, tr, order);
      if ev.Fire? && ev.sink in st.pending {
        FinishedIsSettled(env, tr, n, ev.sink);
        FiredCollected(env, before, ev.sink);
        assert xs' == xs + [Collected(env, tr, ev.sink)];
        assert xs'[..|xs|] == xs;
      }
    }
  }

  lemma PrefixChunks(tr: seq<Event>, n: nat)
    requires n <= |tr| && ChunksBeforeEnds(tr)
    ensures ChunksBeforeEnds(tr[..n])
  {
  }

  lemma FiredCollected(env: CaptureEnv, tr: seq<Event>, s: nat)
    ensures var k := SinkOf(Run(env, tr), s); Collected(env, tr, s) == Exchange(k.req, k.res, env.writes(s))
  {
    SinksAreIndependent(env, tr);
    CollectedIsHeld(env, tr, s);
    assert SinkOf(Run(env, tr), s) == SinkAfter(tr, s);
  }

  // ---- the serial run as a run of the same machine ----

  /** The chunks and ends of one exchange, in order. */
  function Own(tr: seq<Event>, s: nat): (r: seq<Event>) {
    if tr == [] then []
    else
      var ev := tr[|tr| - 1];
      Own(tr[..|tr| - 1], s) + (if ev.sink == s && !ev.Fire? then [ev] else [])
  }

  /** Each exchange's own events and then its callback, exchange after exchange. */
  function OneAtATime(tr: seq<Event>, order: seq<nat>): (r: seq<Event>) {
    if order == [] then []
    else
      var s := order[|order| - 1];
      OneAtATime(tr, order[..|order| - 1]) + Own(tr, s) + [Fire(s)]
  }

  lemma {:induction false} OwnEvents(tr: seq<Event>, s: nat)
    ensures forall ev <- Own(tr, s) :: ev.sink == s && !ev.Fire?
    ensures SinkAfter(Own(tr, s), s) == SinkAfter(tr, s)
    decreases |tr|
  {
    if tr != [] {
      var n := |tr| - 1;
      OwnEvents(tr[..n], s);
      var own := Own(tr[..n], s);
      if tr[n].sink == s && !tr[n].Fire? {
        assert Own(tr, s) == own + [tr[n]] && (own + [tr[n]])[..|own|] == own;
      } else {
        assert Own(tr, s) == own;
      }
    }
  }

  lemma {:induction false} SinkAfterOthers(a: seq<Event>, b: seq<Event>, s: nat)
    requires forall ev <- b :: ev.sink != s || ev.Fire?
    ensures SinkAfter(a + b, s) == SinkAfter(a, s)
    decreases |b|
  {
    if b == [] {
      assert a + b == a;
    } else {
      var n := |b| - 1;
      assert b[n] in b;
      assert (a + b)[..|a + b| - 1] == a + b[..n] && (a + b)[|a + b| - 1] == b[n];
      SinkAfterOthers(a, b[..n], s);
    }
  }

  lemma {:induction false} SinkAfterFresh(a: seq<Event>, b: seq<Event>, s: nat)
    requires SinkAfter(a, s) == FRESH
    ensures SinkAfter(a + b, s) == SinkAfter(b, s)
    decreases |b|
  {
    if b == [] {
      assert a + b == a;
    } else {
      var n := |b| - 1;
      assert (a + b)[..|a + b| - 1] == a + b[..n] && (a + b)[|a + b| - 1] == b[n];
      SinkAfterFresh(a, b[..n], s);
    }
  }

  lemma {:induction false} UnplayedIsFresh(tr: seq<Event>, order: seq<nat>, s: nat)
    requires s !in order
    ensures SinkAfter(OneAtATime(tr, order), s) == FRESH
    decreases |order|
  {
    if order != [] {
      var n := |order| - 1;
      var before, own := OneAtATime(tr, order[..n]), Own(tr, order[n]);
      UnplayedIsFresh(tr, order[..n], s);
      OwnEvents(tr, order[n]);
      SinkAfterOthers(before, own + [Fire(order[n])], s);
      assert before + (own + [Fire(order[n])]) == OneAtATime(tr, order);
    }
  }

  /** Chunks and ends write nothing. */
  lemma {:induction false} NothingFires(env: CaptureEnv, a: seq<Event>, b: seq<Event>)
    requires forall ev <- b :: !ev.Fire?
    ensures Run(env, a + b).out == Run(env, a).out && Run(env, a + b).fired == Run(env, a).fired
    decreases |b|
  {
    hide Play;
    if b == [] {
      assert a + b == a;
    } else {
      var n := |b| - 1;
      assert b[n] in b;
      assert (a + b)[..|a + b| - 1] == a + b[..n] && (a + b)[|a + b| - 1] == b[n];
      NothingFires(env, a, b[..n]);
    }
  }

  lemma RunSnoc(env: CaptureEnv, tr: seq<Event>, ev: Event)
    ensures Run(env, tr + [ev]) == Step(env, Run(env, tr), ev)
  {
    hide Step;
    assert (tr + [ev])[..|tr|] == tr;
  }

  lemma CollectedSnoc(env: CaptureEnv, tr: seq<Event>, order: seq<nat>)
    requires order != []
    ensures AllCollected(env, tr, order)
         == AllCollected(env, tr, order[..|order| - 1]) + [Collected(env, tr, order[|order| - 1])]
  {
    hide Collected;
  }

  lemma FiringCompletes(env: CaptureEnv, tr: seq<Event>, s: nat)
    requires SinkAfter(tr, s).finished && s !in Run(env, tr).fired
    ensures var st, st' := Run(env, tr), Run(env, tr + [Fire(s)]);
            st'.fired == st.fired + [s] && st'.out == Play(env, st.out, Collected(env, tr, s))
  {
    hide Play, SinkAfter, Run;
    SinksAreIndependent(env, tr);
    CollectedIsHeld(env, tr, s);
    assert SinkOf(Run(env, tr), s) == SinkAfter(tr, s);
    RunSnoc(env, tr, Fire(s));
  }

  /** The serial trace, played on the same machine, completes the exchanges in the given order. */
  lemma {:induction false} SerialTrace(env: CaptureEnv, tr: seq<Event>, order: seq<nat>)
    requires NoRepeat(order) && forall s <- order :: SinkAfter(tr, s).finished
    ensures var st := Run(env, OneAtATime(tr, order));
            st.fired == order && st.out == Session(env, AllCollected(env, tr, order))
    decreases |order|
  {
    hide Play, SinkAfter, Own, OneAtATime, AllCollected, Session, Run;
    if order == [] {
      SerialNothing(env, tr);
    } else {
      var n := |order| - 1;
      var s, shorter := order[n], order[..n];
      SerialTrace(env, tr, shorter);
      var before, own := OneAtATime(tr, shorter), Own(tr, s);
      OwnEvents(tr, s);
      UnplayedIsFresh(tr, shorter, s);
      SinkAfterFresh(before, own, s);
      NothingFires(env, before, own);
      CollectedIsHeld(env, tr, s);
      CollectedIsHeld(env, before + own, s);
      FiringCompletes(env, before + own, s);
      SerialSnoc(tr, order);
      CollectedSnoc(env, tr, order);
      SessionSnoc(env, AllCollected(env, tr, shorter), Collected(env, tr, s));
    }
  }

  lemma SerialNothing(env: CaptureEnv, tr: seq<Event>)
    ensures var st := Run(env, OneAtATime(tr, []));
            st.fired == [] && st.out == Session(env, AllCollected(env, tr, []))
  {
  }

  lemma SerialSnoc(tr: seq<Event>, order: seq<nat>)
    requires order != []
    ensures var s, shorter := order[|order| - 1], order[..|order| - 1];
            order == shorter + [s] && OneAtATime(tr, order) == OneAtATime(tr, shorter) + Own(tr, s) + [Fire(s)]
  {
    hide Own;
  }

  lemma SessionSnoc(env: CaptureEnv, xs: seq<Exchange>, x: Exchange)
    ensures Session(env, xs + [x]) == Play(env, Session(env, xs), x)
  {
    hide Play;
    assert (xs + [x])[..|xs|] == xs;
  }

  /** Any interleaving does exactly what the same machine does when the same exchanges arrive one after the
      other, each with all of its own events, in the order the callbacks fired. */
  lemma InterleavingIsSerial(env: CaptureEnv, tr: seq<Event>)
    requires ChunksBeforeEnds(tr)
    ensures var st := Run(env, tr);
            var serial := Run(env, OneAtATime(tr, st.fired));
            serial.out == st.out && serial.fired == st.fired
  {
    hide Run, Session, OneAtATime, SinkAfter, ChunksBeforeEnds;
    SinksAreIndependent(env, tr);
    Serializable(env, tr);
    SerialTrace(env, tr, Run(env, tr).fired);
  }
}
