/** src/cli/reembed-dim.ts: re-embedding a live database at another dimension, resumable after a cut anywhere. */
module Reembed {
  import opened Arithmetic
  import opened Options

  type Id = string

  datatype Provider = Provider(name: string, model: string)

  /** A stored vector, and the provider it came from (which the table itself does not hold). */
  datatype Vec = Vec(data: seq<real>, provider: Provider)
  datatype Memory = Memory(id: Id, text: string)
  datatype Columns = Columns(provider: Provider, dim: nat)

  /** `memories_vec`, whose dimension is fixed when it is created. */
  datatype Table = Table(dim: nat, vectors: map<Id, Vec>)

  /** The three tables: vectors, memories in order of creation with their embedding columns, and the checkpoints
      of each target dimension. */
  datatype Db = Db(table: Maybe<Table>, memories: seq<Memory>, columns: map<Id, Columns>, progress: map<nat, set<Id>>)

  // ---- what may happen ----

  datatype Embedded = NoAnswer | NoVector | Vector(data: seq<real>) | Gone

  /** One memory's provider call and three writes. */
  datatype Attempt = Attempt(embed: Embedded, upsert: Fate, update: Fate, checkpoint: Fate)

  /** One run's surroundings; running out of attempts is a cut. */
  datatype World = World(drop: Fate, create: Fate, select: Fate, provider: Provider, attempts: seq<Attempt>)

  datatype JsNumber = NaN | Infinity | Finite(value: real)

  datatype Report = Report(
    totalCandidates: nat, alreadyDone: nat, reembedded: nat, failed: seq<Id>, schemaRecreated: bool)
  datatype Outcome = Died | Threw | Completed(report: Report)

  // ---- one memory ----

  datatype Verdict = Embeds | Skips | Ends

  function Done(db: Db, dim: nat): (r: set<Id>) {
    if dim in db.progress then db.progress[dim] else {}
  }

  function Fits(db: Db, dim: nat): (r: bool) {
    db.table.Just? && db.table.value.dim == dim
  }

  function Upserted(db: Db, id: Id, vec: Vec): (r: Db)
    requires db.table.Just?
  {
    db.(table := Just(db.table.value.(vectors := db.table.value.vectors[id := vec])))
  }

  function Updated(db: Db, id: Id, provider: Provider, dim: nat): (r: Db) {
    db.(columns := db.columns[id := Columns(provider, dim)])
  }

  function Checkpointed(db: Db, id: Id, dim: nat): (r: Db) {
    db.(progress := db.progress[dim := Done(db, dim) + {id}])
  }

  /** The `try` block: each write stands by itself; whatever throws leaves the earlier writes in place. */
  function OnMemory(db: Db, m: Memory, dim: nat, provider: Provider, a: Attempt): (r: (Db, Verdict)) {
    if a.embed.Gone? then (db, Ends)
    else if !a.embed.Vector? || |a.embed.data| != dim then (db, Skips)
    else if a.upsert.Cut? then (db, Ends)
    else if a.upsert.Fails? || !Fits(db, dim) then (db, Skips)
    else
      var db1 := Upserted(db, m.id, Vec(a.embed.data, provider));
      if a.update.Cut? then (db1, Ends)
      else if a.update.Fails? then (db1, Skips)
      else
        var db2 := Updated(db1, m.id, provider, dim);
        if a.checkpoint.Cut? then (db2, Ends)
        else if a.checkpoint.Fails? || m.id in Done(db2, dim) then (db2, Skips)
        else (Checkpointed(db2, m.id, dim), Embeds)
  }

  /** The loops over the candidates: nothing when the process ended on the way. */
  datatype Progress = Stopped | At(reembedded: nat, failed: seq<Id>)

  function OnAll(db: Db, ms: seq<Memory>, dim: nat, provider: Provider, attempts: seq<Attempt>): (r: (Db, Progress))
    decreases |ms|
  {
    if ms == [] then (db, At(0, []))
    else
      var n := |ms| - 1;
      var (db', p) := OnAll(db, ms[..n], dim, provider, attempts);
      if p.Stopped? || n >= |attempts| then (db', Stopped)
      else
        var (db'', v) := OnMemory(db', ms[n], dim, provider, attempts[n]);
        match v
        case Ends => (db'', Stopped)
        case Embeds => (db'', At(p.reembedded + 1, p.failed))
        case Skips => (db'', At(p.reembedded, p.failed + [ms[n].id]))
  }

  // ---- one run ----

  function Candidates(ms: seq<Memory>, done: set<Id>): (r: seq<Memory>) {
    if ms == [] then []
    else
      var n := |ms| - 1;
      Candidates(ms[..n], done) + if ms[n].id in done then [] else [ms[n]]
  }

  predicate PositiveInteger(x: JsNumber) {
    x.Finite? && x.value == x.value.Floor as real && x.value > 0.0
  }

  /** Before the loops: the destructive step, when no checkpoint exists for the dimension. */
  function Recreate(db: Db, dim: nat, w: World): (r: (Db, Fate)) {
    if Done(db, dim) != {} then (db, Works)
    else if !w.drop.Works? then (db, w.drop)
    else
      var dropped := db.(table := Nothing);
      if w.create.Works? then (dropped.(table := Just(Table(dim, map[]))), Works) else (dropped, w.create)
  }

  /** What the batch loop gets to: with a step that is not a number it stops after one empty batch. */
  function Visited(ms: seq<Memory>, batchSize: JsNumber): (r: seq<Memory>) {
    if batchSize.NaN? then [] else ms
  }

  /** A run whose loop ends, which `LoopEndsExactly` below is about. */
  function Run(db: Db, targetDim: JsNumber, batchSize: JsNumber, w: World): (r: (Db, Outcome)) {
    if !PositiveInteger(targetDim) then (db, Threw)
    else RunAt(db, targetDim.value.Floor, batchSize, w)
  }

  function RunAt(db: Db, dim: nat, batchSize: JsNumber, w: World): (r: (Db, Outcome)) {
    var (db1, fate) := Recreate(db, dim, w);
    if fate.Cut? then (db1, Died)
    else if fate.Fails? then (db1, Threw)
    else if w.select.Cut? then (db1, Died)
    else if w.select.Fails? then (db1, Threw)
    else
      var candidates := Candidates(db1.memories, Done(db1, dim));
      var (db2, p) := OnAll(db1, Visited(candidates, batchSize), dim, w.provider, w.attempts);
      if p.Stopped? then (db2, Died)
      else (db2, Completed(Report(|candidates|, |Done(db1, dim)|, p.reembedded, p.failed, Done(db, dim) == {})))
  }

  // ---- truth of the checkpoints ----

  /** Every checkpoint of a dimension is true: the memory has a vector of that dimension in a table of that
      dimension, and its columns name the provider and dimension of that vector. */
  predicate Backed(db: Db, dim: nat) {
    forall id <- Done(db, dim) :: BackedId(db, dim, id)
  }

  predicate BackedId(db: Db, dim: nat, id: Id) {
    && Fits(db, dim) && id in db.table.value.vectors
    && var v := db.table.value.vectors[id];
       |v.data| == dim && id in db.columns && db.columns[id] == Columns(v.provider, dim)
  }

  /** What holds at every moment: the dimension the table has is the one whose checkpoints are true, and
      checkpoints are only of memories. */
  ghost predicate Sound(db: Db) {
    && (db.table.Just? ==> Backed(db, db.table.value.dim))
    && Owned(db.progress, db.memories)
    && Distinct(db.memories)
  }

  predicate Owned(progress: map<nat, set<Id>>, ms: seq<Memory>) {
    forall dim | dim in progress :: progress[dim] <= Ids(ms)
  }

  function Ids(ms: seq<Memory>): (r: set<Id>) {
    set m | m in ms :: m.id
  }

  predicate Distinct(ms: seq<Memory>) {
    forall i, j | 0 <= i < j < |ms| :: ms[i].id != ms[j].id
  }

  /** How a database may change during the loops of a run for `dim`. */
  ghost predicate Advanced(db: Db, db': Db, dim: nat) {
    && db.memories <= db'.memories
    && Done(db, dim) <= Done(db', dim)
    && (forall other: nat | other != dim :: Done(db', other) == Done(db, other))
    && db'.table.Just? == db.table.Just?
    && (db.table.Just? ==> db'.table.value.dim == db.table.value.dim
                           && db.table.value.vectors.Keys <= db'.table.value.vectors.Keys)
    && (forall id | id in Done(db, dim) && BackedId(db, dim, id) :: SameRecord(db, db', id))
  }

  /** The vector and the columns of a memory are the same in both. */
  predicate SameRecord(db: Db, db': Db, id: Id) {
    && db.table.Just? && db'.table.Just? && id in db.table.value.vectors && id in db'.table.value.vectors
    && db'.table.value.vectors[id] == db.table.value.vectors[id]
    && id in db.columns && id in db'.columns && db'.columns[id] == db.columns[id]
  }

  lemma OnMemorySafe(db: Db, m: Memory, dim: nat, provider: Provider, a: Attempt)
    requires Sound(db) && m in db.memories && m.id !in Done(db, dim)
    ensures var (db', v) := OnMemory(db, m, dim, provider, a);
            && Sound(db') && Advanced(db, db', dim)
            && Done(db', dim) == Done(db, dim) + if v.Embeds? then {m.id} else {}
  {
    hide OnMemory, Advanced;
    OnMemoryAdvances(db, m, dim, provider, a);
    OnMemoryBacks(db, m, dim, provider, a);
    OnMemoryOwns(db, m, dim, provider, a);
    KeepsMemories(db, m, dim, provider, a);
  }

  lemma OnMemoryAdvances(db: Db, m: Memory, dim: nat, provider: Provider, a: Attempt)
    requires m.id !in Done(db, dim)
    ensures var (db', v) := OnMemory(db, m, dim, provider, a);
            && Advanced(db, db', dim)
            && Done(db', dim) == Done(db, dim) + if v.Embeds? then {m.id} else {}
  {
  }

  lemma OnMemoryBacks(db: Db, m: Memory, dim: nat, provider: Provider, a: Attempt)
    requires m.id !in Done(db, dim) && (db.table.Just? ==> Backed(db, db.table.value.dim))
    ensures var db' := OnMemory(db, m, dim, provider, a).0;
            db'.table.Just? ==> Backed(db', db'.table.value.dim)
  {
    var db' := OnMemory(db, m, dim, provider, a).0;
    forall id | id in Done(db, dim)
      ensures BackedId(db, dim, id) ==> BackedId(db', dim, id)
    {
    }
  }

  lemma OnMemoryOwns(db: Db, m: Memory, dim: nat, provider: Provider, a: Attempt)
    requires m in db.memories && Owned(db.progress, db.memories)
    ensures var db' := OnMemory(db, m, dim, provider, a).0;
            Owned(db'.progress, db'.memories)
  {
    assert m.id in Ids(db.memories);
  }

  lemma AdvancedTrans(a: Db, b: Db, c: Db, dim: nat)
    requires Advanced(a, b, dim) && Advanced(b, c, dim)
    ensures Advanced(a, c, dim)
  {
    forall id | id in Done(a, dim) && BackedId(a, dim, id)
      ensures SameRecord(a, c, id)
    {
      assert SameRecord(a, b, id) && BackedId(b, dim, id);
    }
  }

  lemma AdvancedRefl(db: Db, dim: nat)
    ensures Advanced(db, db, dim)
  {
  }

  /** The loops, wherever they end: sound at that point, and nothing checkpointed is touched. */
  lemma {:induction false} OnAllSafe(db: Db, ms: seq<Memory>, dim: nat, provider: Provider, attempts: seq<Attempt>)
    requires Sound(db) && Distinct(ms)
    requires forall m <- ms :: m in db.memories && m.id !in Done(db, dim)
    ensures var db' := OnAll(db, ms, dim, provider, attempts).0;
            && Sound(db') && Advanced(db, db', dim) && db'.memories == db.memories
            && Done(db', dim) <= Done(db, dim) + Ids(ms)
    decreases |ms|
  {
    hide Sound, Advanced, OnMemory, Distinct, Ids, Done;
    if ms == [] {
      AdvancedRefl(db, dim);
    } else {
      var n := |ms| - 1;
      LastIsNew(ms);
      IdsSnoc(ms);
      assert forall m <- ms[..n] :: m in ms;
      OnAllSafe(db, ms[..n], dim, provider, attempts);
      var (db', p) := OnAll(db, ms[..n], dim, provider, attempts);
      if p.At? && n < |attempts| {
        assert ms[n] in ms;
        OnMemorySafe(db', ms[n], dim, provider, attempts[n]);
        KeepsMemories(db', ms[n], dim, provider, attempts[n]);
        AdvancedTrans(db, db', OnMemory(db', ms[n], dim, provider, attempts[n]).0, dim);
      }
    }
  }

  /** Each candidate the loops finish with is either checkpointed or reported, never both. */
  lemma {:induction false} OnAllVerdicts(db: Db, ms: seq<Memory>, dim: nat, provider: Provider, attempts: seq<Attempt>)
    requires Sound(db) && Distinct(ms)
    requires forall m <- ms :: m in db.memories && m.id !in Done(db, dim)
    requires OnAll(db, ms, dim, provider, attempts).1.At?
    ensures var (db', p) := OnAll(db, ms, dim, provider, attempts);
            forall m <- ms :: m.id in Done(db', dim) <==> m.id !in p.failed
    decreases |ms|
  {
    hide Sound, Advanced, OnMemory, Distinct, Ids, Done;
    if ms != [] {
      var n := |ms| - 1;
      LastIsNew(ms);
      IdsSnoc(ms);
      assert forall m <- ms[..n] :: m in ms;
      OnAllVerdicts(db, ms[..n], dim, provider, attempts);
      OnAllSafe(db, ms[..n], dim, provider, attempts);
      assert ms[n] in ms;
      OnMemorySafe(OnAll(db, ms[..n], dim, provider, attempts).0, ms[n], dim, provider, attempts[n]);
      FailedAreVisited(db, ms[..n], dim, provider, attempts);
      forall m | m in ms
        ensures m == ms[n] || m in ms[..n]
      {
        assert ms == ms[..n] + [ms[n]];
      }
    }
  }

  lemma {:induction false} OnAllCounts(db: Db, ms: seq<Memory>, dim: nat, provider: Provider, attempts: seq<Attempt>)
    requires Sound(db) && Distinct(ms)
    requires forall m <- ms :: m in db.memories && m.id !in Done(db, dim)
    requires OnAll(db, ms, dim, provider, attempts).1.At?
    ensures var (db', p) := OnAll(db, ms, dim, provider, attempts);
            p.reembedded + |p.failed| == |ms| && |Done(db', dim)| == |Done(db, dim)| + p.reembedded
    decreases |ms|
  {
    hide Sound, Advanced, OnMemory, Distinct, Ids, Done;
    if ms != [] {
      var n := |ms| - 1;
      LastIsNew(ms);
      assert forall m <- ms[..n] :: m in ms;
      OnAllCounts(db, ms[..n], dim, provider, attempts);
      OnAllSafe(db, ms[..n], dim, provider, attempts);
      assert ms[n] in ms;
      OnMemorySafe(OnAll(db, ms[..n], dim, provider, attempts).0, ms[n], dim, provider, attempts[n]);
    }
  }

  lemma LastIsNew(ms: seq<Memory>)
    requires Distinct(ms) && ms != []
    ensures var n := |ms| - 1;
            Distinct(ms[..n]) && ms[n].id !in Ids(ms[..n]) && forall m <- ms[..n] :: m.id != ms[n].id
  {
  }

  lemma KeepsMemories(db: Db, m: Memory, dim: nat, provider: Provider, a: Attempt)
    ensures OnMemory(db, m, dim, provider, a).0.memories == db.memories
  {
  }

  lemma {:induction false} FailedAreVisited(db: Db, ms: seq<Memory>, dim: nat, provider: Provider,
                                            attempts: seq<Attempt>)
    ensures var p := OnAll(db, ms, dim, provider, attempts).1;
            p.At? ==> forall id <- p.failed :: id in Ids(ms)
    decreases |ms|
  {
    hide OnMemory, Ids;
    if ms != [] {
      var n := |ms| - 1;
      FailedAreVisited(db, ms[..n], dim, provider, attempts);
      IdsSnoc(ms);
    }
  }

  lemma {:induction false} CandidatesAreTheRest(ms: seq<Memory>, done: set<Id>)
    requires Distinct(ms)
    ensures var cs := Candidates(ms, done);
            Distinct(cs) && forall m :: m in cs <==> m in ms && m.id !in done
    decreases |ms|
  {
    hide Distinct;
    if ms == [] {
      NoneAreDistinct();
    } else {
      var n := |ms| - 1;
      LastIsNew(ms);
      CandidatesAreTheRest(ms[..n], done);
      assert ms == ms[..n] + [ms[n]];
      assert forall m | m in ms :: m in ms[..n] || m == ms[n];
      var front := Candidates(ms[..n], done);
      assert front + [] == front;
      if ms[n].id !in done { DistinctSnoc(front, ms[n]); }
    }
  }

  lemma NoneAreDistinct()
    ensures Distinct([])
  {
  }

  lemma DistinctSnoc(ms: seq<Memory>, m: Memory)
    requires Distinct(ms) && forall other <- ms :: other.id != m.id
    ensures Distinct(ms + [m])
  {
  }

  /** The candidates come in the order of the memories. */
  lemma {:induction false} CandidatesJoin(a: seq<Memory>, b: seq<Memory>, done: set<Id>)
    ensures Candidates(a + b, done) == Candidates(a, done) + Candidates(b, done)
    decreases |b|
  {
    if b == [] {
      assert a + b == a && Candidates(a, done) + [] == Candidates(a, done);
    } else {
      var n := |b| - 1;
      assert (a + b)[..|a + b| - 1] == a + b[..n] && (a + b)[|a + b| - 1] == b[n];
      CandidatesJoin(a, b[..n], done);
    }
  }

  lemma {:induction false} CandidatesCount(ms: seq<Memory>, done: set<Id>)
    requires Distinct(ms)
    ensures |Candidates(ms, done)| + |done * Ids(ms)| == |ms|
    decreases |ms|
  {
    if ms != [] {
      hide Candidates, Distinct;
      var n := |ms| - 1;
      LastIsNew(ms);
      CandidatesCount(ms[..n], done);
      IdsSnoc(ms);
      CandidatesSnoc(ms, done);
      if ms[n].id in done {
        assert done * Ids(ms) == done * Ids(ms[..n]) + {ms[n].id};
      } else {
        assert done * Ids(ms) == done * Ids(ms[..n]);
      }
    } else {
      assert done * Ids(ms) == {};
    }
  }

  lemma IdsSnoc(ms: seq<Memory>)
    requires ms != []
    ensures var n := |ms| - 1; Ids(ms) == Ids(ms[..n]) + {ms[n].id}
  {
    var n := |ms| - 1;
    assert ms == ms[..n] + [ms[n]];
  }

  lemma CandidatesSnoc(ms: seq<Memory>, done: set<Id>)
    requires ms != []
    ensures var n := |ms| - 1;
            |Candidates(ms, done)| == |Candidates(ms[..n], done)| + if ms[n].id in done then 0 else 1
  {
  }

  // ---- whole runs ----

  lemma RecreateSafe(db: Db, dim: nat, w: World)
    requires Sound(db)
    ensures var (db', fate) := Recreate(db, dim, w);
            && Sound(db') && db'.memories == db.memories && db'.progress == db.progress
            && (Done(db, dim) != {} ==> db' == db && fate.Works?)
            && (Done(db, dim) == {} && fate.Works? ==> Fits(db', dim))
  {
  }

  lemma LoopStart(db: Db, dim: nat, batchSize: JsNumber, w: World)
    requires Sound(db)
    ensures var db1 := Recreate(db, dim, w).0;
            var ms := Visited(Candidates(db1.memories, Done(db1, dim)), batchSize);
            && Sound(db1) && Distinct(ms) && (forall m <- ms :: m in db1.memories && m.id !in Done(db1, dim))
  {
    hide Sound, Recreate;
    RecreateSafe(db, dim, w);
    var db1 := Recreate(db, dim, w).0;
    SoundDistinct(db1);
    CandidatesAreTheRest(db1.memories, Done(db1, dim));
  }

  lemma SoundDistinct(db: Db)
    requires Sound(db)
    ensures Distinct(db.memories) && forall dim: nat :: Done(db, dim) <= Ids(db.memories)
  {
  }

  /** A run cut anywhere, with any failures, leaves a sound database; checkpoints only come; and once a
      dimension has a checkpoint, a run for it drops nothing and leaves checkpointed memories as they were. */
  lemma RunSafe(db: Db, dim: nat, batchSize: JsNumber, w: World)
    requires Sound(db)
    ensures var (db', _) := RunAt(db, dim, batchSize, w);
            && Sound(db') && db'.memories == db.memories
            && Done(db, dim) <= Done(db', dim)
            && (forall other: nat | other != dim :: Done(db', other) == Done(db, other))
            && (Done(db, dim) != {} ==> Advanced(db, db', dim))
            && (Done(db', dim) != {} && Done(db, dim) == {} ==> Fits(db', dim))
  {
    hide Sound, OnAll, Candidates;
    RecreateSafe(db, dim, w);
    LoopStart(db, dim, batchSize, w);
    AdvancedRefl(db, dim);
    var db1 := Recreate(db, dim, w).0;
    OnAllSafe(db1, Visited(Candidates(db1.memories, Done(db1, dim)), batchSize), dim, w.provider, w.attempts);
  }

  /** What a completed run visited: its candidates, or none of them. */
  lemma CompletedRun(db: Db, dim: nat, batchSize: JsNumber, w: World)
      returns (candidates: seq<Memory>, visited: seq<Memory>)
    requires Sound(db) && RunAt(db, dim, batchSize, w).1.Completed?
    ensures visited == Visited(candidates, batchSize)
    ensures forall m :: m in candidates <==> m in db.memories && m.id !in Done(db, dim)
    ensures |candidates| + |Done(db, dim)| == |db.memories|
    ensures var (db', out) := RunAt(db, dim, batchSize, w);
            && out.report.totalCandidates == |candidates| && out.report.alreadyDone == |Done(db, dim)|
            && (out.report.schemaRecreated <==> Done(db, dim) == {})
            && out.report.reembedded + |out.report.failed| == |visited|
            && Done(db, dim) <= Done(db', dim) <= Ids(db.memories)
            && Done(db', dim) <= Done(db, dim) + Ids(visited)
            && forall m <- visited :: m.id in Done(db', dim) <==> m.id !in out.report.failed
  {
    hide Sound, OnAll, Candidates, Visited, Distinct, Ids, Advanced;
    RecreateSafe(db, dim, w);
    LoopStart(db, dim, batchSize, w);
    RunSafe(db, dim, batchSize, w);
    var db1 := Recreate(db, dim, w).0;
    candidates := Candidates(db1.memories, Done(db1, dim));
    visited := Visited(candidates, batchSize);
    OnAllCounts(db1, visited, dim, w.provider, w.attempts);
    OnAllVerdicts(db1, visited, dim, w.provider, w.attempts);
    OnAllSafe(db1, visited, dim, w.provider, w.attempts);
    SoundDistinct(db);
    SoundDistinct(RunAt(db, dim, batchSize, w).0);
    CandidatesAreTheRest(db.memories, Done(db, dim));
    CandidatesCount(db.memories, Done(db, dim));
    assert Done(db, dim) * Ids(db.memories) == Done(db, dim);
  }

  /** A completed run accounts for every memory, unless the batch size is not a number and there was work to do. */
  lemma CountsAddUp(db: Db, dim: nat, batchSize: JsNumber, w: World)
    requires Sound(db) && RunAt(db, dim, batchSize, w).1.Completed?
    ensures var r := RunAt(db, dim, batchSize, w).1.report;
            && r.alreadyDone + r.totalCandidates == |db.memories|
            && (r.alreadyDone + r.reembedded + |r.failed| == |db.memories|
                <==> !batchSize.NaN? || r.totalCandidates == 0)
            && (r.schemaRecreated <==> r.alreadyDone == 0)
  {
    hide Sound, RunAt;
    var _, _ := CompletedRun(db, dim, batchSize, w);
  }

  /** A completed run that reports no failure covers every memory, unless its batch size is not a number: then it
      covers only what was covered before. */
  lemma CompletedCoversAll(db: Db, dim: nat, batchSize: JsNumber, w: World)
    requires Sound(db)
    requires RunAt(db, dim, batchSize, w).1.Completed? && RunAt(db, dim, batchSize, w).1.report.failed == []
    ensures var (db', out) := RunAt(db, dim, batchSize, w);
            Done(db', dim) == Ids(db.memories) <==> !batchSize.NaN? || out.report.totalCandidates == 0
  {
    hide Sound, RunAt, Done;
    var candidates, visited := CompletedRun(db, dim, batchSize, w);
    var db' := RunAt(db, dim, batchSize, w).0;
    if batchSize.NaN? && candidates != [] {
      assert candidates[0] in candidates;
      assert candidates[0].id in Ids(db.memories) && candidates[0].id !in Done(db', dim);
    } else {
      assert visited == candidates;
      forall m | m in db.memories
        ensures m.id in Done(db', dim)
      {
        if m.id !in Done(db, dim) { assert m in visited; }
      }
      assert Ids(db.memories) <= Done(db', dim);
    }
  }

  /** With a batch size that is not a number a run visits nothing, reports no failure, and still recreates the
      table, exactly when its dimension has no checkpoint: then every vector is lost. */
  lemma NotANumberRun(db: Db, dim: nat, w: World)
    requires RunAt(db, dim, NaN, w).1.Completed?
    ensures var (db', out) := RunAt(db, dim, NaN, w);
            && out.report.reembedded == 0 && out.report.failed == []
            && db' == db.(table := if Done(db, dim) == {} then Just(Table(dim, map[])) else db.table)
  {
    hide Candidates;
  }

  /** The input that fails: `--batch-size abc` on a database with a vector, for a new dimension. */
  lemma VectorsLostWithoutWork(provider: Provider)
    ensures var vector := Vec([0.0], provider);
            var db := Db(Just(Table(1, map["m" := vector])), [Memory("m", "text")],
                         map["m" := Columns(provider, 1)], map[]);
            var w := World(Works, Works, Works, provider, []);
            var batchSize := BatchFromArg(Just(NaN));
            var (db', out) := Run(db, Finite(2.0), batchSize, w);
            && out == Completed(Report(1, 0, 0, [], true))
            && db'.table == Just(Table(2, map[]))
  {
    assert [Memory("m", "text")][..0] == [];
    assert Candidates([Memory("m", "text")], {}) == [Memory("m", "text")];
    assert 2.0.Floor == 2;
  }

  /** The three writes are not one transaction: a memory gets its vector and no checkpoint exactly when the upsert
      works and the update or the checkpoint does not. */
  lemma VectorWithoutCheckpoint(db: Db, m: Memory, dim: nat, provider: Provider, a: Attempt)
    requires Fits(db, dim) && m.id !in db.table.value.vectors && m.id !in Done(db, dim)
    ensures var db' := OnMemory(db, m, dim, provider, a).0;
            (db'.table.Just? && m.id in db'.table.value.vectors && m.id !in Done(db', dim))
            <==> a.embed.Vector? && |a.embed.data| == dim && a.upsert.Works?
                 && !(a.update.Works? && a.checkpoint.Works?)
  {
  }

  /** An input that shows it: a run cut between the second and the third write. */
  lemma CutBeforeCheckpoint(provider: Provider)
    ensures var db := Db(Nothing, [Memory("m", "text")], map[], map[]);
            var w := World(Works, Works, Works, provider, [Attempt(Vector([0.0]), Works, Works, Cut)]);
            var (db', out) := RunAt(db, 1, Finite(20.0), w);
            && out.Died? && db'.table == Just(Table(1, map["m" := Vec([0.0], provider)]))
            && db'.columns == map["m" := Columns(provider, 1)] && Done(db', 1) == {}
  {
    hide OnAll, OnMemory;
    var m := Memory("m", "text");
    var a := Attempt(Vector([0.0]), Works, Works, Cut);
    var db1 := Db(Just(Table(1, map[])), [m], map[], map[]);
    OneCandidate(m);
    CutBeforeThird(db1, m, 1, [0.0], provider);
    OneStops(db1, m, 1, provider, a);
  }

  lemma CutBeforeThird(db: Db, m: Memory, dim: nat, v: seq<real>, provider: Provider)
    requires Fits(db, dim) && |v| == dim
    ensures OnMemory(db, m, dim, provider, Attempt(Vector(v), Works, Works, Cut))
         == (Updated(Upserted(db, m.id, Vec(v, provider)), m.id, provider, dim), Ends)
  {
  }

  lemma OneStops(db: Db, m: Memory, dim: nat, provider: Provider, a: Attempt)
    requires OnMemory(db, m, dim, provider, a).1.Ends?
    ensures OnAll(db, [m], dim, provider, [a]) == (OnMemory(db, m, dim, provider, a).0, Stopped)
  {
    hide OnMemory;
    assert [m][..0] == [];
    assert OnAll(db, [m][..0], dim, provider, [a]) == (db, At(0, []));
  }

  // ---- histories ----

  /** What happens to the database between now and later: runs for any dimension, and new memories. */
  datatype Event = Reembeds(dim: nat, batchSize: JsNumber, w: World) | Remembers(m: Memory)

  function Happen(db: Db, e: Event): (r: Db) {
    match e
    case Reembeds(dim, batchSize, w) => RunAt(db, dim, batchSize, w).0
    case Remembers(m) => if m.id in Ids(db.memories) then db else db.(memories := db.memories + [m])
  }

  function After(db: Db, history: seq<Event>): (r: Db) {
    if history == [] then db else Happen(After(db, history[..|history| - 1]), history[|history| - 1])
  }

  lemma RemembersSafe(db: Db, m: Memory, dim: nat)
    requires Sound(db)
    ensures Sound(Happen(db, Remembers(m))) && Advanced(db, Happen(db, Remembers(m)), dim)
  {
    var db' := Happen(db, Remembers(m));
    assert Ids(db.memories) <= Ids(db'.memories) by {
      forall k | k in db.memories ensures k in db'.memories {}
    }
    if m.id !in Ids(db.memories) {
      forall k | k in db.memories ensures k.id != m.id { assert k.id in Ids(db.memories); }
      assert Distinct(db'.memories) by {
        forall i | 0 <= i < |db.memories| ensures db.memories[i].id != m.id { assert db.memories[i] in db.memories; }
      }
    }
    forall d: nat, id | id in Done(db, d) && BackedId(db, d, id)
      ensures SameRecord(db, db', id) && BackedId(db', d, id)
    {
    }
  }

  /** Runs for any dimensions in any order: the database stays sound. */
  lemma {:induction false} AlwaysSound(db: Db, history: seq<Event>)
    requires Sound(db)
    ensures Sound(After(db, history))
    decreases |history|
  {
    hide Sound, RunAt;
    if history != [] {
      var n := |history| - 1;
      AlwaysSound(db, history[..n]);
      var now := After(db, history[..n]);
      match history[n]
      case Reembeds(dim, batchSize, w) => RunSafe(now, dim, batchSize, w);
      case Remembers(m) => RemembersSafe(now, m, 0);
    }
  }

  /** In a sound database the checkpoints of a dimension are true exactly when the table has that dimension, or
      when there are none. */
  lemma BackedExactly(db: Db, dim: nat)
    requires Sound(db)
    ensures Backed(db, dim) <==> Done(db, dim) == {} || Fits(db, dim)
  {
    if Backed(db, dim) && Done(db, dim) != {} {
      var id :| id in Done(db, dim);
      assert BackedId(db, dim, id);
    }
  }

  predicate OnlyFor(history: seq<Event>, dim: nat) {
    forall e <- history :: e.Reembeds? ==> e.dim == dim
  }

  /** Resumable: over any runs for one dimension, starting without checkpoints for it, each cut off anywhere and
      with any failures, every checkpoint is true at every moment. */
  lemma {:induction false} ResumesSafely(db: Db, history: seq<Event>, dim: nat)
    requires Sound(db) && Done(db, dim) == {} && OnlyFor(history, dim)
    ensures Backed(After(db, history), dim)
    decreases |history|
  {
    hide Sound, RunAt, Backed, Fits;
    AlwaysSound(db, history);
    BackedExactly(After(db, history), dim);
    if history != [] {
      var n := |history| - 1;
      assert forall e <- history[..n] :: e in history;
      assert history[n] in history;
      ResumesSafely(db, history[..n], dim);
      AlwaysSound(db, history[..n]);
      var now := After(db, history[..n]);
      BackedExactly(now, dim);
      match history[n]
      case Reembeds(_, batchSize, w) =>
        RunSafe(now, dim, batchSize, w);
        if Done(now, dim) != {} { AdvancedFits(now, After(db, history), dim); }
      case Remembers(m) =>
        RemembersSafe(now, m, dim);
        AdvancedFits(now, After(db, history), dim);
    }
  }

  lemma AdvancedFits(db: Db, db': Db, dim: nat)
    requires Advanced(db, db', dim)
    ensures Fits(db, dim) ==> Fits(db', dim)
  {
  }

  /** Never undone: once a dimension has a checkpoint, no run for it drops the table, checkpoints stay, and
      every vector and column they vouch for stays as it is. */
  lemma {:induction false} NeverUndone(db: Db, history: seq<Event>, dim: nat)
    requires Sound(db) && Done(db, dim) != {} && OnlyFor(history, dim)
    ensures Advanced(db, After(db, history), dim)
    decreases |history|
  {
    hide Sound, RunAt;
    if history == [] {
      AdvancedRefl(db, dim);
    } else {
      var n := |history| - 1;
      assert forall e <- history[..n] :: e in history;
      assert history[n] in history;
      NeverUndone(db, history[..n], dim);
      AlwaysSound(db, history[..n]);
      var now := After(db, history[..n]);
      match history[n]
      case Reembeds(_, batchSize, w) =>
        RunSafe(now, dim, batchSize, w);
        AdvancedTrans(db, now, After(db, history), dim);
      case Remembers(m) =>
        RemembersSafe(now, m, dim);
        AdvancedTrans(db, now, After(db, history), dim);
    }
  }

  /** Over more than one dimension the checkpoints can lie: going to another dimension and back completes with
      nothing to do and nothing failed, while the checkpointed vectors have the other dimension. */
  lemma BackToTheOldDimension(provider: Provider)
    ensures var db := Db(Nothing, [Memory("m", "text")], map[], map[]);
            var w := (v: seq<real>) => World(Works, Works, Works, provider, [Attempt(Vector(v), Works, Works, Works)]);
            var db2 := RunAt(RunAt(db, 1, Finite(20.0), w([0.0])).0, 2, Finite(20.0), w([0.0, 0.0])).0;
            var (db3, out) := RunAt(db2, 1, Finite(20.0), w([0.0]));
            out == Completed(Report(0, 1, 0, [], false)) && !Backed(db3, 1)
  {
    var m := Memory("m", "text");
    var db := Db(Nothing, [m], map[], map[]);
    var db1 := OneMemoryRun(db, m, 1, [0.0], provider);
    var db2 := OneMemoryRun(db1, m, 2, [0.0, 0.0], provider);
    assert Done(db2, 1) == {"m"};
    assert [m][..0] == [];
    assert Candidates([m], {"m"}) == [];
    assert !BackedId(db2, 1, "m");
  }

  lemma OneMemoryRun(db: Db, m: Memory, dim: nat, v: seq<real>, provider: Provider) returns (db': Db)
    requires db.memories == [m] && Done(db, dim) == {} && |v| == dim
    ensures var w := World(Works, Works, Works, provider, [Attempt(Vector(v), Works, Works, Works)]);
            db' == RunAt(db, dim, Finite(20.0), w).0
    ensures db'.memories == [m] && Done(db', dim) == {m.id} && Fits(db', dim)
    ensures forall d: nat | d != dim :: Done(db', d) == Done(db, d)
  {
    hide OnAll, OnMemory;
    var a := Attempt(Vector(v), Works, Works, Works);
    var w := World(Works, Works, Works, provider, [a]);
    var db1 := db.(table := Just(Table(dim, map[])));
    OneCandidate(m);
    OneWorks(db1, m, dim, v, provider);
    OneVisited(db1, m, dim, provider, a);
    db' := RunAt(db, dim, Finite(20.0), w).0;
  }

  lemma OneCandidate(m: Memory)
    ensures Candidates([m], {}) == [m]
  {
    assert [m][..0] == [];
  }

  lemma OneWorks(db: Db, m: Memory, dim: nat, v: seq<real>, provider: Provider)
    requires Fits(db, dim) && |v| == dim && m.id !in Done(db, dim)
    ensures var (db', verdict) := OnMemory(db, m, dim, provider, Attempt(Vector(v), Works, Works, Works));
            && verdict.Embeds? && db'.memories == db.memories && Fits(db', dim)
            && db'.progress == db.progress[dim := Done(db, dim) + {m.id}]
  {
  }

  lemma OneVisited(db: Db, m: Memory, dim: nat, provider: Provider, a: Attempt)
    ensures OnAll(db, [m], dim, provider, [a]).0 == OnMemory(db, m, dim, provider, a).0
  {
    hide OnMemory;
    assert [m][..0] == [];
    assert OnAll(db, [m][..0], dim, provider, [a]) == (db, At(0, []));
  }

  // ---- the code ----

  /** The command's batch size: `Math.max(1, Number(arg))`, or 20 without an argument. */
  function BatchFromArg(arg: Maybe<JsNumber>): (size: JsNumber)
    ensures size.Finite? ==> size.value >= 1.0
    ensures Advances(size)
    ensures size.NaN? <==> arg == Just(NaN)
    ensures arg.Nothing? ==> size == Finite(20.0)
    ensures arg.Just? && arg.value.Finite? && arg.value.value >= 1.0 ==> size == arg.value
  {
    match arg
    case Nothing => Finite(20.0)
    case Just(Finite(v)) => Finite(if v < 1.0 then 1.0 else v)
    case Just(x) => x
  }

  function Plus(a: JsNumber, b: JsNumber): (r: JsNumber) {
    if a.NaN? || b.NaN? then NaN else if a.Infinity? || b.Infinity? then Infinity else Finite(a.value + b.value)
  }

  predicate Below(a: JsNumber, n: nat) {
    a.Finite? && a.value < n as real
  }

  /** The position `Array.slice` makes of a number that is not negative. */
  function SliceIndex(x: JsNumber, len: nat): (k: nat)
    ensures k <= len
  {
    if x.NaN? || (x.Finite? && x.value < 0.0) then 0
    else if x.Infinity? || x.value.Floor >= len then len
    else x.value.Floor
  }

  /** The batch sizes with which the loop ends. */
  predicate Advances(batchSize: JsNumber) {
    batchSize.Finite? ==> batchSize.value > 0.0
  }

  /** A run gets to its loop with something to do. */
  predicate ReachesWork(db: Db, targetDim: JsNumber, w: World) {
    PositiveInteger(targetDim) &&
    var dim := targetDim.value.Floor;
    Recreate(db, dim, w).1.Works? && w.select.Works? && Candidates(db.memories, Done(db, dim)) != []
  }

  /** The loop variable after `k` turns. */
  function Turned(batchSize: JsNumber, k: nat): (i: JsNumber) {
    if k == 0 then Finite(0.0) else Plus(Turned(batchSize, k - 1), batchSize)
  }

  /** The loop over `n` candidates ends exactly when there are none, or the batch size is positive or no number: with
      zero or less its condition never becomes false. */
  lemma LoopEndsExactly(batchSize: JsNumber, n: nat)
    ensures (exists k: nat :: !Below(Turned(batchSize, k), n)) <==> n == 0 || Advances(batchSize)
  {
    if n == 0 {
      assert !Below(Turned(batchSize, 0), n);
    } else if !Advances(batchSize) {
      forall k: nat ensures Below(Turned(batchSize, k), n) { NeverPast(batchSize, k); }
    } else if batchSize.Finite? {
      var k := StepsToCover(n as real, batchSize.value);
      TurnedIsSteps(batchSize, k);
      assert !Below(Turned(batchSize, k), n);
    } else {
      assert Turned(batchSize, 1) == Plus(Turned(batchSize, 0), batchSize);
      assert !Below(Turned(batchSize, 1), n);
    }
  }

  lemma {:induction false} NeverPast(batchSize: JsNumber, k: nat)
    requires batchSize.Finite? && batchSize.value <= 0.0
    ensures Turned(batchSize, k).Finite? && Turned(batchSize, k).value <= 0.0
  {
    if k > 0 { NeverPast(batchSize, k - 1); }
  }

  lemma {:induction false} TurnedIsSteps(batchSize: JsNumber, k: nat)
    requires batchSize.Finite?
    ensures Turned(batchSize, k) == Finite(Steps(k, batchSize.value))
  {
    hide Steps;
    StepsNext(0, batchSize.value);
    if k > 0 {
      TurnedIsSteps(batchSize, k - 1);
      StepsNext(k - 1, batchSize.value);
    }
  }

  class Database {
    var table: Maybe<Table>
    var memories: seq<Memory>
    var columns: map<Id, Columns>
    var progress: map<nat, set<Id>>

    ghost function Contents(): (r: Db)
      reads this
    {
      Db(table, memories, columns, progress)
    }

    function Checkpoints(dim: nat): (done: set<Id>)
      reads this
      ensures done == Done(Contents(), dim)
    {
      if dim in progress then progress[dim] else {}
    }

    /** `maybeRecreateVecSchema` */
    method MaybeRecreateVecSchema(dim: nat, w: World) returns (recreated: bool, fate: Fate)
      modifies this`table
      ensures (Contents(), fate) == Recreate(old(Contents()), dim, w)
      ensures recreated == (Done(old(Contents()), dim) == {} && fate.Works?)
    {
      if Checkpoints(dim) != {} { return false, Works; }
      if !w.drop.Works? { return false, w.drop; }
      table := Nothing;
      if !w.create.Works? { return false, w.create; }
      table := Just(Table(dim, map[]));
      return true, Works;
    }

    /** The `try` block for one memory. */
    method ReembedMemory(m: Memory, dim: nat, provider: Provider, a: Attempt) returns (v: Verdict)
      modifies this`table, this`columns, this`progress
      ensures (Contents(), v) == OnMemory(old(Contents()), m, dim, provider, a)
    {
      if a.embed.Gone? { return Ends; }
      if !a.embed.Vector? { return Skips; }
      if |a.embed.data| != dim { return Skips; }
      if a.upsert.Cut? { return Ends; }
      if a.upsert.Fails? || table.Nothing? || table.value.dim != dim { return Skips; }
      table := Just(table.value.(vectors := table.value.vectors[m.id := Vec(a.embed.data, provider)]));
      if a.update.Cut? { return Ends; }
      if a.update.Fails? { return Skips; }
      columns := columns[m.id := Columns(provider, dim)];
      if a.checkpoint.Cut? { return Ends; }
      if a.checkpoint.Fails? || m.id in Checkpoints(dim) { return Skips; }
      progress := progress[dim := Checkpoints(dim) + {m.id}];
      return Embeds;
    }

    /** The inner loop over one batch, from position `lo` to position `hi` of the candidates. */
    method ReembedBatch(candidates: seq<Memory>, lo: nat, hi: nat, dim: nat, w: World, reembedded: nat, failed: seq<Id>,
                        ghost start: Db)
        returns (p: Progress)
      requires lo <= hi <= |candidates|
      requires (Contents(), At(reembedded, failed)) == OnAll(start, candidates[..lo], dim, w.provider, w.attempts)
      modifies this`table, this`columns, this`progress
      ensures p.At? ==> (Contents(), p) == OnAll(start, candidates[..hi], dim, w.provider, w.attempts)
      ensures p.Stopped? ==> (Contents(), p) == OnAll(start, candidates, dim, w.provider, w.attempts)
    {
      hide OnMemory;
      p := At(reembedded, failed);
      for k := lo to hi
        invariant p.At? && (Contents(), p) == OnAll(start, candidates[..k], dim, w.provider, w.attempts)
      {
        assert candidates[..k + 1][..k] == candidates[..k];
        if k >= |w.attempts| {
          StaysStopped(start, candidates, k + 1, dim, w.provider, w.attempts);
          return Stopped;
        }
        var v := ReembedMemory(candidates[k], dim, w.provider, w.attempts[k]);
        match v
        case Ends =>
          StaysStopped(start, candidates, k + 1, dim, w.provider, w.attempts);
          return Stopped;
        case Embeds => p := At(p.reembedded + 1, p.failed);
        case Skips => p := At(p.reembedded, p.failed + [candidates[k].id]);
      }
    }

    /** `runReembedDim`, wherever its loop ends. */
    method RunReembedDim(targetDim: JsNumber, batchSize: JsNumber, w: World) returns (out: Outcome)
      requires Advances(batchSize) || !ReachesWork(Contents(), targetDim, w)
      modifies this
      ensures (Contents(), out) == Run(old(Contents()), targetDim, batchSize, w)
    {
      hide OnMemory, OnAll, Recreate, StepsToCover, Steps;
      if !PositiveInteger(targetDim) { return Threw; }
      var dim := targetDim.value.Floor;
      var schemaRecreated, fate := MaybeRecreateVecSchema(dim, w);
      RecreateKeeps(old(Contents()), dim, w);
      if fate.Cut? || (fate.Works? && w.select.Cut?) { return Died; }
      if fate.Fails? || w.select.Fails? { return Threw; }
      var candidates := SelectCandidates(memories, Checkpoints(dim));
      var alreadyDoneBefore := |Checkpoints(dim)|;
      ghost var start := Contents();
      var p := At(0, []);
      var i := Finite(0.0);
      ghost var k: nat, turns: nat := 0, 0;
      assert candidates == [] || Advances(batchSize);
      if batchSize.Finite? { StepsNext(0, batchSize.value); }
      NoneYet(start, candidates, dim, w);
      while Below(i, |candidates|)
        invariant p.At? && k <= |candidates|
        invariant (Contents(), p) == OnAll(start, candidates[..k], dim, w.provider, w.attempts)
        invariant i.Finite? ==> i.value >= 0.0
        invariant if batchSize.NaN? then k == 0 else k == SliceIndex(i, |candidates|)
        invariant batchSize.NaN? || !i.NaN?
        invariant batchSize.Finite? ==> i == Finite(Steps(turns, batchSize.value))
        decreases i.Finite?,
                  if batchSize.Finite? && batchSize.value > 0.0
                  then StepsToCover(|candidates| as real, batchSize.value) - turns else 0
      {
        if batchSize.Finite? {
          BelowCover(turns, batchSize.value, i.value, |candidates| as real);
          StepsNext(turns, batchSize.value);
        }
        turns := turns + 1;
        var next := Plus(i, batchSize);
        var lo, hi := SliceIndex(i, |candidates|), SliceIndex(next, |candidates|);
        if lo < hi {
          p := ReembedBatch(candidates, lo, hi, dim, w, p.reembedded, p.failed, start);
          if p.Stopped? { return Died; }
          k := hi;
        }
        i := next;
      }
      assert candidates[..|candidates|] == candidates;
      return Completed(Report(|candidates|, alreadyDoneBefore, p.reembedded, p.failed, schemaRecreated));
    }
  }

  lemma RecreateKeeps(db: Db, dim: nat, w: World)
    ensures Recreate(db, dim, w).0.progress == db.progress && Recreate(db, dim, w).0.memories == db.memories
  {
  }

  lemma NoneYet(start: Db, candidates: seq<Memory>, dim: nat, w: World)
    ensures OnAll(start, candidates[..0], dim, w.provider, w.attempts) == (start, At(0, []))
  {
  }

  lemma {:induction false} StaysStopped(db: Db, ms: seq<Memory>, k: nat, dim: nat, provider: Provider,
                                        attempts: seq<Attempt>)
    requires k <= |ms| && OnAll(db, ms[..k], dim, provider, attempts).1.Stopped?
    ensures OnAll(db, ms, dim, provider, attempts) == OnAll(db, ms[..k], dim, provider, attempts)
    decreases |ms|
  {
    hide OnMemory;
    if k == |ms| {
      assert ms[..k] == ms;
    } else {
      assert ms[..|ms| - 1][..k] == ms[..k];
      StaysStopped(db, ms[..|ms| - 1], k, dim, provider, attempts);
    }
  }

  method SelectCandidates(memories: seq<Memory>, done: set<Id>) returns (candidates: seq<Memory>)
    ensures candidates == Candidates(memories, done)
  {
    candidates := [];
    for i := 0 to |memories|
      invariant candidates == Candidates(memories[..i], done)
    {
      assert memories[..i + 1][..i] == memories[..i];
      if memories[i].id !in done { candidates := candidates + [memories[i]]; }
    }
    assert memories[..|memories|] == memories;
  }
}
