/** src/cli/restore.ts: the override gate, and swapping a snapshot in for the live database. */
module Restore {
  import opened Options

  // ---- the override gate ----

  /** Why stopping the daemon failed; the list may grow. */
  datatype Reason = IdentityUnverifiable | IdentityMismatch | SignalFailed | StopTimeout | Unrecognised

  datatype StopResult = StopResult(ok: bool, reason: Maybe<Reason>)

  const WEAK_OVERRIDE_REASONS := {IdentityUnverifiable}

  function Proceeds(stop: StopResult, force: bool, forceUnsafe: bool): (r: bool) {
    if stop.ok then true
    else
      var needsStrongOverride := stop.reason.Nothing? || stop.reason.value !in WEAK_OVERRIDE_REASONS;
      force && (!needsStrongOverride || forceUnsafe)
  }

  /** What the header promises: no flag is needed after a clean stop; an undetermined identity yields to --force;
      everything else, known or not, yields only to both flags. */
  lemma GateByRisk(stop: StopResult, force: bool, forceUnsafe: bool)
    ensures Proceeds(stop, force, forceUnsafe)
       <==> stop.ok || (force && forceUnsafe) || (force && stop.reason == Just(IdentityUnverifiable))
  {
  }

  // ---- the directory ----

  /** What a path holds: nothing, a complete database, or a copy that did not finish. */
  datatype Content = Absent | Whole(db: string) | Partial

  /** The live path, the path the old database is set aside at, the temporary copy, and the live path's write-ahead
      log and shared memory, which belong to the old database. */
  datatype Dir = Dir(live: Content, aside: Content, tmp: Content, wal: bool, shm: bool)

  /** One attempt's statements, and the cleanup after a failure. A copy that does not work may leave part of a file. */
  datatype World = World(
    copy: Fate, leavesPart: bool, removeAside: Fate, setAside: Fate, removeWal: Fate, removeShm: Fate,
                         swapIn: Fate, cleanUp: Fate)

  datatype Result = Swapped | Failed | Died

  function Copied(d: Dir, snapshot: string, w: World): (r: Dir) {
    if w.copy.Works? then d.(tmp := Whole(snapshot)) else if w.leavesPart then d.(tmp := Partial) else d
  }

  /** The `catch` block. */
  function CleanedUp(d: Dir, fate: Fate, w: World): (r: (Dir, Result)) {
    if fate.Cut? then (d, Died)
    else if w.cleanUp.Works? then (d.(tmp := Absent), Failed)
    else (d, if w.cleanUp.Cut? then Died else Failed)
  }

  /** Setting the old database aside, with its logs removed; how far it got. */
  function SetAside(d: Dir, w: World): (r: (Dir, Fate)) {
    if d.live.Absent? then (d, Works)
    else if !w.removeAside.Works? then (d, w.removeAside)
    else
      var d1 := d.(aside := Absent);
      if !w.setAside.Works? then (d1, w.setAside)
      else
        var d2 := d1.(aside := d1.live, live := Absent);
        if !w.removeWal.Works? then (d2, w.removeWal)
        else
          var d3 := d2.(wal := false);
          if !w.removeShm.Works? then (d3, w.removeShm) else (d3.(shm := false), Works)
  }

  /** One attempt, to its end or to wherever it is cut. */
  function Swap(d: Dir, snapshot: string, w: World): (r: (Dir, Result)) {
    var d1 := Copied(d, snapshot, w);
    if !w.copy.Works? then CleanedUp(d1, w.copy, w)
    else
      var (d2, fate) := SetAside(d1, w);
      if !fate.Works? then CleanedUp(d2, fate, w)
      else if !w.swapIn.Works? then CleanedUp(d2, w.swapIn, w)
      else (d2.(live := d2.tmp, tmp := Absent), Swapped)
  }

  // ---- any number of attempts ----

  datatype Attempt = Attempt(snapshot: string, w: World)

  function After(d: Dir, attempts: seq<Attempt>): (r: Dir) {
    if attempts == [] then d
    else
      var n := |attempts| - 1;
      Swap(After(d, attempts[..n]), attempts[n].snapshot, attempts[n].w).0
  }

  /** No attempt gets to its final rename. */
  predicate NoneSwaps(d: Dir, attempts: seq<Attempt>) {
    forall i | 0 <= i < |attempts| :: !Swap(After(d, attempts[..i]), attempts[i].snapshot, attempts[i].w).1.Swapped?
  }

  /** The database `db` is complete at the live path, or complete at the aside path with nothing live. */
  predicate Kept(d: Dir, db: string) {
    d.live == Whole(db) || (d.live.Absent? && d.aside == Whole(db))
  }

  lemma OneAttemptKeeps(d: Dir, snapshot: string, w: World, db: string)
    requires Kept(d, db)
    ensures var (d', r) := Swap(d, snapshot, w);
            if r.Swapped? then d'.live == Whole(snapshot) && d'.aside == Whole(db) else Kept(d', db)
  {
  }

  /** Crash safety: over any number of attempts, each cut or failing anywhere before its final rename, the
      original database is complete at the live or the aside path, and the live path holds nothing else. */
  lemma {:induction false} AttemptsKeep(d: Dir, attempts: seq<Attempt>, db: string)
    requires d.live == Whole(db) && NoneSwaps(d, attempts)
    ensures Kept(After(d, attempts), db)
    decreases |attempts|
  {
    if attempts != [] {
      var n := |attempts| - 1;
      forall i | 0 <= i < n
        ensures !Swap(After(d, attempts[..n][..i]), attempts[..n][i].snapshot, attempts[..n][i].w).1.Swapped?
      {
        assert attempts[..n][..i] == attempts[..i];
      }
      AttemptsKeep(d, attempts[..n], db);
      OneAttemptKeeps(After(d, attempts[..n]), attempts[n].snapshot, attempts[n].w, db);
    }
  }

  /** And the attempt that gets through puts the whole snapshot live and leaves the original aside. */
  lemma LastAttempt(d: Dir, attempts: seq<Attempt>, last: Attempt, db: string)
    requires d.live == Whole(db) && NoneSwaps(d, attempts)
    requires Swap(After(d, attempts), last.snapshot, last.w).1.Swapped?
    ensures var d' := Swap(After(d, attempts), last.snapshot, last.w).0;
            d'.live == Whole(last.snapshot) && d'.aside == Whole(db) && d'.tmp == Absent
  {
    hide Swap;
    AttemptsKeep(d, attempts, db);
    OneAttemptKeeps(After(d, attempts), last.snapshot, last.w, db);
    SwapTakesTmp(After(d, attempts), last.snapshot, last.w);
  }

  lemma SwapTakesTmp(d: Dir, snapshot: string, w: World)
    ensures Swap(d, snapshot, w).1.Swapped? ==> Swap(d, snapshot, w).0.tmp == Absent
  {
  }

  // ---- the old database's logs ----

  /** The snapshot goes live beside a write-ahead log of the old database exactly when the attempt started with
      nothing at the live path and that log still there; likewise for the shared memory. */
  lemma LogsBesideSnapshot(d: Dir, snapshot: string, w: World)
    requires Swap(d, snapshot, w).1.Swapped?
    ensures var d' := Swap(d, snapshot, w).0;
            (d'.wal <==> d.live.Absent? && d.wal) && (d'.shm <==> d.live.Absent? && d.shm)
  {
  }

  /** An attempt sets the old database aside. */
  predicate SetsAside(d: Dir, w: World) {
    !d.live.Absent? && w.copy.Works? && w.removeAside.Works? && w.setAside.Works?
  }

  /** How an attempt that sets the old database aside may leave its log, or its shared memory, behind. */
  predicate StopsBeforeWal(w: World) {
    !w.removeWal.Works?
  }

  predicate StopsBeforeShm(w: World) {
    !w.removeWal.Works? || !w.removeShm.Works?
  }

  /** Some attempt of the history sets the database aside. */
  predicate SetsAsideAt(d: Dir, attempts: seq<Attempt>, i: nat)
    requires i < |attempts|
  {
    SetsAside(After(d, attempts[..i]), attempts[i].w)
  }

  predicate Stranding(d: Dir, attempts: seq<Attempt>) {
    exists i :: 0 <= i < |attempts| && SetsAsideAt(d, attempts, i) && StopsBeforeWal(attempts[i].w)
  }

  predicate StrandingShm(d: Dir, attempts: seq<Attempt>) {
    exists i :: 0 <= i < |attempts| && SetsAsideAt(d, attempts, i) && StopsBeforeShm(attempts[i].w)
  }

  lemma StrandingSnoc(d: Dir, attempts: seq<Attempt>)
    requires attempts != []
    ensures var n := |attempts| - 1;
            var last := SetsAsideAt(d, attempts, n);
            && (Stranding(d, attempts) <==> Stranding(d, attempts[..n]) || (last && StopsBeforeWal(attempts[n].w)))
            && (StrandingShm(d, attempts)
                <==> StrandingShm(d, attempts[..n]) || (last && StopsBeforeShm(attempts[n].w)))
            && (NoneSwaps(d, attempts) ==>
                  && NoneSwaps(d, attempts[..n])
                  && !Swap(After(d, attempts[..n]), attempts[n].snapshot, attempts[n].w).1.Swapped?)
  {
    hide Swap, SetsAside, StopsBeforeWal, StopsBeforeShm, After;
    var n := |attempts| - 1;
    forall i | 0 <= i < n
      ensures attempts[..n][..i] == attempts[..i]
    {
    }
    forall i | 0 <= i < n
      ensures SetsAsideAt(d, attempts[..n], i) <==> SetsAsideAt(d, attempts, i)
    {
      assert attempts[..n][..i] == attempts[..i];
    }
  }

  /** Over a history of attempts that do not get through: the log, or the shared memory, lies beside an empty live
      path exactly when it was there at first and the attempt that set the database aside stopped before removing
      it. */
  lemma {:induction false} LogStranded(d: Dir, attempts: seq<Attempt>)
    requires !d.live.Absent? && NoneSwaps(d, attempts)
    ensures var d' := After(d, attempts);
            && ((d'.live.Absent? && d'.wal) <==> d.wal && Stranding(d, attempts))
            && ((d'.live.Absent? && d'.shm) <==> d.shm && StrandingShm(d, attempts))
            && (!d'.live.Absent? ==> d'.wal == d.wal && d'.shm == d.shm)
    decreases |attempts|
  {
    hide Swap, SetsAside, StopsBeforeWal, StopsBeforeShm, Stranding, StrandingShm, NoneSwaps;
    if attempts == [] {
      NothingStranded(d);
    } else {
      var n := |attempts| - 1;
      StrandingSnoc(d, attempts);
      LogStranded(d, attempts[..n]);
      StepStrands(After(d, attempts[..n]), attempts[n]);
      NothingToSetAside(After(d, attempts[..n]), attempts[n].w);
    }
  }

  lemma NothingStranded(d: Dir)
    ensures !Stranding(d, []) && !StrandingShm(d, [])
  {
  }

  lemma NothingToSetAside(d: Dir, w: World)
    ensures d.live.Absent? ==> !SetsAside(d, w)
  {
  }

  lemma StepStrands(d: Dir, a: Attempt)
    requires !Swap(d, a.snapshot, a.w).1.Swapped?
    ensures var d' := Swap(d, a.snapshot, a.w).0;
            && (d.live.Absent? ==> d'.live.Absent? && d'.wal == d.wal && d'.shm == d.shm)
            && (!d.live.Absent? ==> (d'.live.Absent? <==> SetsAside(d, a.w)))
            && (!d.live.Absent? && SetsAside(d, a.w) ==> (d'.wal <==> d.wal && StopsBeforeWal(a.w)))
            && (!d.live.Absent? && SetsAside(d, a.w) ==> (d'.shm <==> d.shm && StopsBeforeShm(a.w)))
            && (!d.live.Absent? && !SetsAside(d, a.w) ==> d'.wal == d.wal && d'.shm == d.shm)
  {
  }

  /** The input that fails: a first attempt cut right after the database was set aside, then one that works. */
  lemma SnapshotBesideOldLog(db: string, snapshot: string)
    ensures var d := Dir(Whole(db), Absent, Absent, true, true);
            var cut := World(Works, false, Works, Works, Cut, Works, Works, Works);
            var fine := World(Works, false, Works, Works, Works, Works, Works, Works);
            var d' := After(d, [Attempt(snapshot, cut), Attempt(snapshot, fine)]);
            d'.live == Whole(snapshot) && d'.wal
  {
    var d := Dir(Whole(db), Absent, Absent, true, true);
    var cut := Attempt(snapshot, World(Works, false, Works, Works, Cut, Works, Works, Works));
    var fine := Attempt(snapshot, World(Works, false, Works, Works, Works, Works, Works, Works));
    assert [cut, fine][..1] == [cut] && [cut][..0] == [];
    assert After(d, [cut]) == Dir(Absent, Whole(db), Whole(snapshot), true, true);
  }

  // ---- the database set aside ----

  /** An attempt gets past the removal of what an earlier one set aside. */
  predicate ClearsAside(w: World) {
    w.copy.Works? && w.removeAside.Works?
  }

  /** With something else live, a database set aside by an earlier attempt survives the next one, finished or not,
      exactly when that one does not get past the removal. */
  lemma AsideSurvives(d: Dir, snapshot: string, w: World, db: string)
    requires d.aside == Whole(db) && !d.live.Absent? && d.live != Whole(db)
    ensures var d' := Swap(d, snapshot, w).0;
            && (d'.aside == Whole(db) <==> !ClearsAside(w))
            && (!ClearsAside(w) ==> d'.live == d.live)
  {
  }

  /** Neither path a user is told of holds the database any more. */
  predicate Lost(d: Dir, db: string) {
    d.live != Whole(db) && d.aside != Whole(db)
  }

  /** An attempt completes with the database itself as its snapshot. */
  predicate BringsBack(d: Dir, a: Attempt, db: string) {
    a.snapshot == db && Swap(d, a.snapshot, a.w).1.Swapped?
  }

  /** With something else live, an attempt gets past clearing the aside path and does not bring the database back. */
  predicate Loses(d: Dir, a: Attempt, db: string) {
    !d.live.Absent? && d.live != Whole(db) && ClearsAside(a.w) && !BringsBack(d, a, db)
  }

  /** One attempt, with any snapshot, the database itself included: a database that is still there is lost exactly
      as `Loses` says, and a lost one is there again exactly when the attempt brings it back. */
  lemma OneAttemptLoses(d: Dir, a: Attempt, db: string)
    ensures var d' := Swap(d, a.snapshot, a.w).0;
            Lost(d', db) <==> if Lost(d, db) then !BringsBack(d, a, db) else Loses(d, a, db)
  {
  }

  /** Some attempt loses the database and no later one brings it back. */
  predicate LostFor(d: Dir, attempts: seq<Attempt>, db: string) {
    exists i | 0 <= i < |attempts| :: LosesAt(d, attempts, i, db)
                                      && forall k | i < k < |attempts| :: !BringsBackAt(d, attempts, k, db)
  }

  predicate LosesAt(d: Dir, attempts: seq<Attempt>, i: nat, db: string)
    requires i < |attempts|
  {
    Loses(After(d, attempts[..i]), attempts[i], db)
  }

  predicate BringsBackAt(d: Dir, attempts: seq<Attempt>, i: nat, db: string)
    requires i < |attempts|
  {
    BringsBack(After(d, attempts[..i]), attempts[i], db)
  }

  lemma LostForSnoc(d: Dir, attempts: seq<Attempt>, db: string)
    requires attempts != []
    ensures var n := |attempts| - 1;
            var now, last := After(d, attempts[..n]), attempts[n];
            LostFor(d, attempts, db)
            <==> Loses(now, last, db) || (LostFor(d, attempts[..n], db) && !BringsBack(now, last, db))
  {
    hide Loses, BringsBack, After;
    var n := |attempts| - 1;
    var front := attempts[..n];
    forall i | 0 <= i < n
      ensures LosesAt(d, front, i, db) <==> LosesAt(d, attempts, i, db)
      ensures BringsBackAt(d, front, i, db) <==> BringsBackAt(d, attempts, i, db)
    {
      assert front[..i] == attempts[..i];
    }
    assert LosesAt(d, attempts, n, db) <==> Loses(After(d, front), attempts[n], db);
    assert BringsBackAt(d, attempts, n, db) <==> BringsBack(After(d, front), attempts[n], db);
  }

  /** Over any attempts with any snapshots: the original is gone at the end exactly when one of them loses it and no
      later one brings it back. */
  lemma {:induction false} OriginalSurvives(d: Dir, attempts: seq<Attempt>, db: string)
    requires !Lost(d, db)
    ensures Lost(After(d, attempts), db) <==> LostFor(d, attempts, db)
    decreases |attempts|
  {
    hide Swap, Lost, Loses, BringsBack, LostFor;
    if attempts == [] {
      NothingLost(d, db);
    } else {
      var n := |attempts| - 1;
      var now := After(d, attempts[..n]);
      OriginalSurvives(d, attempts[..n], db);
      LostForSnoc(d, attempts, db);
      OneAttemptLoses(now, attempts[n], db);
      BroughtBackIsNotLost(now, attempts[n], db);
    }
  }

  lemma NothingLost(d: Dir, db: string)
    ensures !LostFor(d, [], db)
  {
  }

  lemma BroughtBackIsNotLost(d: Dir, a: Attempt, db: string)
    ensures BringsBack(d, a, db) ==> !Loses(d, a, db)
  {
  }

  /** Once the original is set aside for another snapshot, and as long as it is not itself restored, the attempts'
      own outcomes decide: the first one that gets past clearing the aside path loses it. */
  lemma {:induction false} ClearingLoses(d: Dir, attempts: seq<Attempt>, db: string)
    requires d.aside == Whole(db) && !d.live.Absent? && d.live != Whole(db)
    requires forall i | 0 <= i < |attempts| :: !BringsBackAt(d, attempts, i, db)
    ensures var d' := After(d, attempts);
            if exists a <- attempts :: ClearsAside(a.w) then Lost(d', db)
            else d'.aside == Whole(db) && d'.live == d.live
    decreases |attempts|
  {
    hide Swap, ClearsAside, BringsBack;
    if attempts != [] {
      var n := |attempts| - 1;
      var front, last := attempts[..n], attempts[n];
      assert attempts == front + [last] && last in attempts && forall a <- front :: a in attempts;
      assert !BringsBackAt(d, attempts, n, db);
      forall i | 0 <= i < n ensures !BringsBackAt(d, front, i, db) {
        assert front[..i] == attempts[..i] && !BringsBackAt(d, attempts, i, db);
      }
      ClearingLoses(d, front, db);
      var now := After(d, front);
      OneAttemptLoses(now, last, db);
      if !exists a <- front :: ClearsAside(a.w) {
        AsideSurvives(now, last.snapshot, last.w, db);
      }
    }
  }

  lemma {:induction false} AfterJoined(d: Dir, a: seq<Attempt>, b: seq<Attempt>)
    ensures After(d, a + b) == After(After(d, a), b)
    decreases |b|
  {
    hide Swap;
    if b == [] {
      assert a + b == a;
    } else {
      var n := |b| - 1;
      assert (a + b)[..|a + b| - 1] == a + b[..n] && (a + b)[|a + b| - 1] == b[n];
      AfterJoined(d, a, b[..n]);
    }
  }

  /** "The original DB is never deleted", over any history that starts with it live: it is not lost up to the first
      completed restore; from there on it is lost exactly when some attempt loses it and no later one brings it
      back; and while no attempt restores it itself, exactly when one gets past clearing the aside path. */
  lemma DeletedExactly(d: Dir, before: seq<Attempt>, first: Attempt, later: seq<Attempt>, db: string)
    requires d.live == Whole(db) && NoneSwaps(d, before)
    requires Swap(After(d, before), first.snapshot, first.w).1.Swapped?
    ensures !Lost(After(d, before), db) && !Lost(After(d, before + [first]), db)
    ensures var d1 := After(d, before + [first]);
            && (Lost(After(d, before + [first] + later), db) <==> LostFor(d1, later, db))
            && (first.snapshot != db && (forall i | 0 <= i < |later| :: !BringsBackAt(d1, later, i, db)) ==>
                  (Lost(After(d, before + [first] + later), db) <==> exists a <- later :: ClearsAside(a.w)))
  {
    hide Swap, ClearsAside, LostFor, BringsBackAt;
    AttemptsKeep(d, before, db);
    LastAttempt(d, before, first, db);
    var d1 := After(d, before + [first]);
    assert (before + [first])[..|before|] == before;
    AfterJoined(d, before + [first], later);
    OriginalSurvives(d1, later, db);
    if first.snapshot != db && forall i | 0 <= i < |later| :: !BringsBackAt(d1, later, i, db) {
      ClearingLoses(d1, later, db);
    }
  }

  /** The input that fails: after one completed restore, a second attempt that stops right after clearing the aside
      path has lost the original without changing what is live. Its snapshot may be anything, even the original
      itself, read from the very file that is cleared. */
  lemma LostByUnfinishedAttempt(db: string, first: string, second: string)
    requires db != first
    ensures var d := Dir(Whole(db), Absent, Absent, false, false);
            var fine := World(Works, false, Works, Works, Works, Works, Works, Works);
            var stuck := World(Works, false, Works, Fails, Works, Works, Works, Works);
            && After(d, [Attempt(first, fine)]) == Dir(Whole(first), Whole(db), Absent, false, false)
            && After(d, [Attempt(first, fine), Attempt(second, stuck)])
               == Dir(Whole(first), Absent, Absent, false, false)
  {
    var d := Dir(Whole(db), Absent, Absent, false, false);
    var fine := Attempt(first, World(Works, false, Works, Works, Works, Works, Works, Works));
    var stuck := Attempt(second, World(Works, false, Works, Fails, Works, Works, Works, Works));
    assert [fine, stuck][..1] == [fine] && [fine][..0] == [];
  }

  /** Restoring what is set aside: while it runs, the original exists at neither path from the clearing on. It ends
      live when the attempt gets through, and is lost when the attempt stops after the clearing. */
  lemma RestoringTheOriginal(d: Dir, w: World, db: string)
    requires d.aside == Whole(db) && !d.live.Absent? && d.live != Whole(db)
    ensures var (d', r) := Swap(d, db, w);
            && (r.Swapped? ==> d'.live == Whole(db) && d'.aside == d.live)
            && (Lost(d', db) <==> ClearsAside(w) && !r.Swapped?)
  {
  }

  /** A second completed restore leaves the first snapshot where the original was. */
  lemma SecondSwapDropsOriginal(d: Dir, first: Attempt, second: Attempt, db: string)
    requires d.live == Whole(db)
    requires Swap(d, first.snapshot, first.w).1.Swapped?
    requires Swap(Swap(d, first.snapshot, first.w).0, second.snapshot, second.w).1.Swapped?
    ensures var d' := Swap(Swap(d, first.snapshot, first.w).0, second.snapshot, second.w).0;
            d'.live == Whole(second.snapshot) && d'.aside == Whole(first.snapshot)
  {
    hide Swap;
    OneAttemptKeeps(d, first.snapshot, first.w, db);
    OneAttemptKeeps(Swap(d, first.snapshot, first.w).0, second.snapshot, second.w, first.snapshot);
  }

  // ---- the code ----

  datatype Outcome = Refused | SwapFailed | MigrationFailed | Restored | Gone

  /** What the command finds before it touches anything. */
  datatype Before = Before(snapshotExists: bool, inMemory: bool, snapshotVerifies: bool, stop: StopResult)

  class DataDir {
    var live: Content
    var aside: Content
    var tmp: Content
    var wal: bool
    var shm: bool

    ghost function Contents(): (r: Dir)
      reads this
    {
      Dir(live, aside, tmp, wal, shm)
    }

    method SetLiveAside(w: World) returns (fate: Fate)
      modifies this
      ensures (Contents(), fate) == SetAside(old(Contents()), w)
    {
      if live.Absent? { return Works; }
      if !w.removeAside.Works? { return w.removeAside; }
      aside := Absent;
      if !w.setAside.Works? { return w.setAside; }
      aside := live;
      live := Absent;
      if !w.removeWal.Works? { return w.removeWal; }
      wal := false;
      if !w.removeShm.Works? { return w.removeShm; }
      shm := false;
      return Works;
    }

    /** The `try` block and its `catch`. */
    method SwapIn(snapshot: string, w: World) returns (r: Result)
      modifies this
      ensures (Contents(), r) == Swap(old(Contents()), snapshot, w)
    {
      var fate := w.copy;
      if w.copy.Works? {
        tmp := Whole(snapshot);
        fate := SetLiveAside(w);
        if fate.Works? { fate := w.swapIn; }
        if fate.Works? {
          live := tmp;
          tmp := Absent;
          return Swapped;
        }
      } else if w.leavesPart {
        tmp := Partial;
      }
      if fate.Cut? { return Died; }
      if w.cleanUp.Works? { tmp := Absent; }
      return if w.cleanUp.Cut? then Died else Failed;
    }

    /** `restoreCommand` up to the restart: nothing changes unless the snapshot verified and the gate let it pass. */
    method RestoreCommand(args: seq<string>, before: Before, w: World, migrates: bool) returns (out: Outcome)
      modifies this
      ensures var path := SnapshotArg(args);
              var allowed := path.Just? && before.snapshotExists && !before.inMemory && before.snapshotVerifies
                             && Proceeds(before.stop, "--force" in args, "--force-unsafe" in args);
              && (!allowed <==> out == Refused)
              && (!allowed ==> Contents() == old(Contents()))
              && (allowed ==> var (d, r) := Swap(old(Contents()), path.value, w);
                              Contents() == d && (out.Gone? <==> r.Died?) && (out.SwapFailed? <==> r.Failed?)
                              && (out.Restored? <==> r.Swapped? && migrates))
    {
      var path := FindSnapshot(args);
      if path.Nothing? || !before.snapshotExists || before.inMemory || !before.snapshotVerifies { return Refused; }
      if !before.stop.ok {
        var needsStrongOverride := before.stop.reason.Nothing? || before.stop.reason.value !in WEAK_OVERRIDE_REASONS;
        var bypassed := "--force" in args && (!needsStrongOverride || "--force-unsafe" in args);
        if !bypassed { return Refused; }
      }
      var r := SwapIn(path.value, w);
      match r
      case Died => return Gone;
      case Failed => return SwapFailed;
      case Swapped => return if migrates then Restored else MigrationFailed;
    }
  }

  predicate IsFlag(arg: string) {
    arg != "" && arg[0] == '-'
  }

  /** The first argument that is no flag; an empty one counts as none. */
  function SnapshotArg(args: seq<string>): (r: Maybe<string>) {
    if args == [] then Nothing
    else if IsFlag(args[0]) then SnapshotArg(args[1..])
    else if args[0] == "" then Nothing
    else Just(args[0])
  }

  /** The snapshot is the first argument that does not start with a dash, wherever the flags stand. */
  lemma {:induction false} SnapshotAmongFlags(before: seq<string>, path: string, after: seq<string>)
    requires forall arg <- before :: arg != "" && arg[0] == '-'
    requires path == "" || path[0] != '-'
    ensures SnapshotArg(before + [path] + after) == if path == "" then Nothing else Just(path)
    ensures SnapshotArg(before) == Nothing
  {
    if before == [] {
      assert [] + [path] + after == [path] + after;
    } else {
      assert before[0] in before && forall arg <- before[1..] :: arg in before;
      assert (before + [path] + after)[1..] == before[1..] + [path] + after;
      SnapshotAmongFlags(before[1..], path, after);
    }
  }

  method FindSnapshot(args: seq<string>) returns (path: Maybe<string>)
    ensures path == SnapshotArg(args)
  {
    assert args[0..] == args;
    for i := 0 to |args|
      invariant SnapshotArg(args[i..]) == SnapshotArg(args)
    {
      assert args[i..][1..] == args[i + 1..];
      if !IsFlag(args[i]) { return if args[i] == "" then Nothing else Just(args[i]); }
    }
    return Nothing;
  }
}
