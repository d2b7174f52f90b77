/** src/cli/reinstall.ts: repointing current.json at a new build, and back again when anything goes wrong. */
module Reinstall {
  import opened Options

  /** What current.json names: a build's entry, and whether it is the mutable checkout. */
  datatype Pointer = Pointer(entryJs: string, devPinned: bool)
  datatype File = Missing | Corrupt | Names(pointer: Pointer)

  // ---- what may happen ----

  datatype Call = Returns | Throws
  datatype Stop = Stopped | Refused | StopThrows

  /** The installer rewrites the pointer last of the shim's files and registers the service after that. */
  datatype Install = ThrowsBeforePointer | ThrowsAfterPointer | Shortcut | Task
  datatype Version = Served | Mismatched | Silent

  /** Restoring writes the prior pointer and then stops the unverified daemon. */
  datatype Restore = Restore(write: Call, stop: Call)

  datatype World = World(
    readPrior: Call, stop: Stop, install: Install, timer: Call, start: Call, healthy: bool, version: Version,
    prune: Call,
    restore: Restore, restoreAgain: Restore)

  // ---- what is reported ----

  datatype StepName =
    | ParseArgs | ResolveConfig | MaterializeRelease | StopDaemon | InstallService | InstallBackupTimer | StartService
    | VerifyHealth | VerifyVersion | PruneReleases | Repoint | SelectTarget | ReadTargetManifest | ResolveCheckoutBuild

  datatype Step = Step(name: StepName, ok: bool, soft: bool)
  datatype Exit = Zero | One | Rejected

  function Good(name: StepName): (r: Step) {
    Step(name, true, false)
  }

  function Bad(name: StepName): (r: Step) {
    Step(name, false, false)
  }

  /** Some step failed that is not soft. */
  predicate HardFailure(steps: seq<Step>) {
    exists s <- steps :: !s.ok && !s.soft
  }

  lemma HardFailureSnoc(steps: seq<Step>, s: Step)
    ensures HardFailure(steps + [s]) <==> HardFailure(steps) || (!s.ok && !s.soft)
  {
    assert s in steps + [s];
    forall t | t in steps ensures t in steps + [s] {}
  }

  // ---- what a run comes to ----

  function PriorOf(file: File, w: World): (r: Maybe<Pointer>) {
    if file.Names? && w.readPrior.Returns? then Just(file.pointer) else Nothing
  }

  /** The new pointer gets written. */
  predicate Repoints(w: World) {
    w.stop.Stopped? && !w.install.ThrowsBeforePointer?
  }

  /** The service was registered, started, and served the expected version. */
  predicate Proven(w: World) {
    w.stop.Stopped? && w.install.Task? && w.start.Returns? && w.healthy && w.version.Served?
  }

  /** A failed restore is tried once more where an exception of the first try is caught: the shortcut branch. */
  predicate RestoreWrites(w: World) {
    w.restore.write.Returns? || (w.install.Shortcut? && w.restore.stop.Throws? && w.restoreAgain.write.Returns?)
  }

  function PlainFinal(file: File, release: Pointer, w: World): (r: File) {
    if !Repoints(w) then file
    else if Proven(w) then Names(release)
    else if PriorOf(file, w).Just? && RestoreWrites(w) then file
    else Names(release)
  }

  /** The run gets as far as a passed verify-version step. A build whose start failed can still pass it, when a
      daemon left over answers for it. */
  predicate PassesVersion(w: World) {
    && w.stop.Stopped? && w.healthy && w.version.Served?
    && match w.install {
         case Task => w.start.Returns? || w.restore.stop.Returns?
         case Shortcut => w.restore.stop.Returns?
         case _ => false
       }
  }

  function RepointFinal(file: File, target: Pointer, shim: Call, w: World): (r: File) {
    if !w.stop.Stopped? || shim.Throws? then file
    else if w.start.Returns? && w.healthy && w.version.Served? then Names(target)
    else if PriorOf(file, w).Just? && w.restore.write.Returns? then file
    else Names(target)
  }

  predicate RepointPasses(shim: Call, w: World) {
    w.stop.Stopped? && shim.Returns? && w.start.Returns? && w.healthy && w.version.Served?
  }

  // ---- rollback target ----

  datatype Release = Release(id: string, entryJs: string)

  /** `selectRollbackTarget`: of releases listed newest first, the first that is not the current one. */
  function SelectRollbackTarget(releases: seq<Release>, currentId: Maybe<string>): (r: Maybe<Release>) {
    if releases == [] then Nothing
    else if currentId != Just(releases[0].id) then Just(releases[0])
    else SelectRollbackTarget(releases[1..], currentId)
  }

  /** The target is never the current release, everything newer than it is, and there is none only when nothing
      but the current release is on disk. */
  lemma {:induction false} TargetIsNewestOther(releases: seq<Release>, currentId: Maybe<string>)
    ensures match SelectRollbackTarget(releases, currentId)
            case Nothing => forall r <- releases :: currentId == Just(r.id)
            case Just(t) => exists i :: 0 <= i < |releases| && releases[i] == t && currentId != Just(t.id)
                                        && forall j | 0 <= j < i :: currentId == Just(releases[j].id)
  {
    if releases != [] && currentId == Just(releases[0].id) {
      TargetIsNewestOther(releases[1..], currentId);
      var t := SelectRollbackTarget(releases[1..], currentId);
      if t.Just? {
        var i :| 0 <= i < |releases[1..]| && releases[1..][i] == t.value
                 && forall j | 0 <= j < i :: currentId == Just(releases[1..][j].id);
        assert releases[i + 1] == t.value;
        forall j | 0 <= j < i + 1 ensures currentId == Just(releases[j].id) {
          if j > 0 { assert releases[1..][j - 1] == releases[j]; }
        }
      }
    }
  }

  /** Rolling back from the newest release and then rolling back again returns to it. */
  lemma RollbackTwice(releases: seq<Release>)
    requires |releases| >= 2 && releases[0].id != releases[1].id
    ensures var t := SelectRollbackTarget(releases, Just(releases[0].id));
            t == Just(releases[1]) && SelectRollbackTarget(releases, Just(t.value.id)) == Just(releases[0])
  {
    assert releases[1..][0] == releases[1];
  }

  // ---- the code ----

  class Machine {
    var current: File
    var steps: seq<Step>
    var restored: bool
    ghost var triedRestore: bool
    ghost var verified: set<Pointer>

    /** The pointer as a run reads it; unreadable counts as absent. */
    method ReadPrior(w: World) returns (prior: Maybe<Pointer>)
      ensures prior == PriorOf(current, w)
    {
      prior := Nothing;
      if !current.Missing? {
        if current.Names? && w.readPrior.Returns? { prior := Just(current.pointer); }
      }
    }

    method Push(s: Step)
      modifies this`steps
      ensures steps == old(steps) + [s]
      ensures HardFailure(steps) <==> HardFailure(old(steps)) || (!s.ok && !s.soft)
    {
      HardFailureSnoc(steps, s);
      steps := steps + [s];
    }

    /** `finish` */
    method Finish() returns (exit: Exit)
      ensures exit == if HardFailure(steps) then One else Zero
    {
      exit := Zero;
      for i := 0 to |steps|
        invariant exit == Zero && forall k | 0 <= k < i :: steps[k].ok || steps[k].soft
      {
        if !steps[i].ok && !steps[i].soft { return One; }
      }
    }

    /** `restoreOnce`: writes back at most once, unless stopping the daemon throws before that is noted. */
    method RestoreOnce(prior: Maybe<Pointer>, r: Restore) returns (threw: bool)
      modifies this`current, this`restored, this`triedRestore
      ensures triedRestore
      ensures threw == (!old(restored) && r.stop.Throws?)
      ensures restored == (old(restored) || r.stop.Returns?)
      ensures current == if !old(restored) && prior.Just? && r.write.Returns? then Names(prior.value) else old(current)
    {
      triedRestore := true;
      threw := false;
      if !restored {
        if prior.Just? && r.write.Returns? { current := Names(prior.value); }
        if r.stop.Throws? { return true; }
        restored := true;
      }
    }

    /** Plain `reinstall`. `release` is what materializing gave, if it worked. */
    method ReinstallPlain(release: Maybe<Pointer>, noBackupTimer: bool, w: World) returns (exit: Exit)
      requires steps == [] && !restored && !triedRestore
      modifies this
      ensures current == if release.Just? then PlainFinal(old(current), release.value, w) else old(current)
      ensures exit.Zero? <==> release.Just? && Proven(w) && (noBackupTimer || w.timer.Returns?)
      ensures triedRestore <==> release.Just? && w.stop.Stopped? && !Proven(w)
      ensures verified == old(verified) + if release.Just? && PassesVersion(w) then {release.value} else {}
    {
      Push(Good(ResolveConfig));
      if release.Nothing? {
        Push(Bad(MaterializeRelease));
        exit := Finish();
        return;
      }
      Push(Good(MaterializeRelease));
      var prior := ReadPrior(w);
      if w.stop.StopThrows? { return Rejected; }
      Push(if w.stop.Stopped? then Good(StopDaemon) else Bad(StopDaemon));
      if w.stop.Refused? {
        exit := Finish();
        return;
      }
      var settled, early := RunInstaller(release.value, prior, noBackupTimer, w);
      if settled { return early; }
      if w.install.Task? {
        if w.start.Returns? {
          Push(Good(StartService));
        } else {
          var threw := RestoreOnce(prior, w.restore);
          if threw { return Rejected; }
          Push(Bad(StartService));
        }
      }
      exit := Verify(release.value, prior, w);
    }

    /** The `try` block around the installer, and its `catch`. */
    method RunInstaller(release: Pointer, prior: Maybe<Pointer>, noBackupTimer: bool, w: World)
        returns (settled: bool, exit: Exit)
      requires prior == PriorOf(current, w) && w.stop.Stopped? && !restored && !triedRestore
      requires !HardFailure(steps) && forall s <- steps :: s.name != VerifyVersion
      modifies this`current, this`steps, this`restored, this`triedRestore
      ensures settled ==> exit != Zero && !Proven(w) && !PassesVersion(w) && triedRestore
      ensures settled ==> current == PlainFinal(old(current), release, w)
      ensures !settled ==> (w.install.Task? || w.install.Shortcut?) && (restored <==> w.install.Shortcut?)
      ensures !settled ==> (triedRestore <==> restored)
      ensures !settled && w.install.Task? ==> current == Names(release)
                                              && (HardFailure(steps) <==> !noBackupTimer && w.timer.Throws?)
      ensures !settled && w.install.Shortcut? ==> w.restore.stop.Returns? && HardFailure(steps)
      ensures !settled && w.install.Shortcut?
          ==> current == (if prior.Just? && w.restore.write.Returns? then old(current) else Names(release))
      ensures forall s <- steps :: s.name != VerifyVersion
    {
      settled, exit := false, Zero;
      var threw := false;
      if w.install.ThrowsBeforePointer? {
        threw := true;
      } else {
        current := Names(release);
        match w.install
        case Task =>
          Push(Good(InstallService));
          if !noBackupTimer {
            Push(if w.timer.Returns? then Good(InstallBackupTimer) else Bad(InstallBackupTimer));
          }
        case Shortcut =>
          threw := RestoreOnce(prior, w.restore);
          if !threw { Push(Bad(InstallService)); }
        case _ => threw := true;
      }
      if threw {
        var again := RestoreOnce(prior, if w.install.Shortcut? then w.restoreAgain else w.restore);
        if again { return true, Rejected; }
        Push(Bad(InstallService));
        exit := Finish();
        settled := true;
      }
    }

    /** Health and version, pruning after success, and the exit code. */
    method Verify(release: Pointer, prior: Maybe<Pointer>, w: World) returns (exit: Exit)
      requires restored ==> triedRestore
      modifies this
      ensures exit.Zero? <==> w.healthy && w.version.Served? && !HardFailure(old(steps))
      ensures triedRestore == (old(triedRestore) || !w.healthy || !w.version.Served?)
      ensures verified == old(verified) + if w.healthy && w.version.Served? then {release} else {}
      ensures current == if (!w.healthy || !w.version.Served?) && !old(restored)
                            && prior.Just? && w.restore.write.Returns?
                         then Names(prior.value) else old(current)
    {
      if !w.healthy || !w.version.Served? {
        var threw := RestoreOnce(prior, w.restore);
        if threw { return Rejected; }
        Push(Bad(if w.healthy then VerifyVersion else VerifyHealth));
      } else {
        Push(Good(VerifyVersion));
        verified := verified + {release};
        Push(Step(PruneReleases, w.prune.Returns?, w.prune.Throws?));
      }
      exit := Finish();
    }

    /** `repointStopStartVerify`, which `--rollback` and `--dev` share, and then `finish`. */
    method RepointStopStartVerify(target: Pointer, shim: Call, w: World) returns (exit: Exit)
      requires !restored && !triedRestore && !HardFailure(steps)
      modifies this
      ensures current == RepointFinal(old(current), target, shim, w)
      ensures exit.Zero? <==> RepointPasses(shim, w)
      ensures triedRestore <==> w.stop.Stopped? && shim.Returns? && !RepointPasses(shim, w)
      ensures verified == old(verified) + if RepointPasses(shim, w) then {target} else {}
    {
      var prior := ReadPrior(w);
      if w.stop.StopThrows? { return Rejected; }
      Push(if w.stop.Stopped? then Good(StopDaemon) else Bad(StopDaemon));
      if w.stop.Refused? {
        exit := Finish();
        return;
      }
      if shim.Throws? {
        Push(Bad(Repoint));
        exit := Finish();
        return;
      }
      current := Names(target);
      Push(Good(Repoint));
      if w.start.Throws? || !w.healthy || !w.version.Served? {
        var failed := if w.start.Throws? then StartService else if !w.healthy then VerifyHealth else VerifyVersion;
        if w.start.Returns? { Push(Good(StartService)); }
        var threw := RestoreOnce(prior, w.restore);
        if threw { return Rejected; }
        Push(Bad(failed));
      } else {
        Push(Good(StartService));
        Push(Good(VerifyVersion));
        verified := verified + {target};
      }
      exit := Finish();
    }

    /** `reinstall --rollback`; `idOf` reads a release id off an entry path. */
    method ReinstallRollback(releases: seq<Release>, idOf: string -> Maybe<string>, manifest: Call, shim: Call,
                             w: World)
        returns (exit: Exit)
      requires steps == [] && !restored && !triedRestore
      modifies this
      ensures var target := RollbackTarget(old(current), releases, idOf, w);
              var runs := target.Just? && manifest.Returns?;
              && (runs ==> current == RepointFinal(old(current), Pointer(target.value.entryJs, false), shim, w))
              && (!runs ==> current == old(current))
              && (exit.Zero? <==> runs && RepointPasses(shim, w))
              && verified == old(verified) + if exit.Zero? then {Pointer(target.value.entryJs, false)} else {}
    {
      var currentPointer := ReadPrior(w);
      var currentId := if currentPointer.Just? then idOf(currentPointer.value.entryJs) else Nothing;
      var candidate := FindTarget(releases, currentId);
      if candidate.Nothing? {
        Push(Bad(SelectTarget));
        exit := Finish();
        return;
      }
      Push(Good(SelectTarget));
      if manifest.Throws? {
        Push(Bad(ReadTargetManifest));
        exit := Finish();
        return;
      }
      exit := RepointStopStartVerify(Pointer(candidate.value.entryJs, false), shim, w);
    }

    /** `reinstall --dev`: the checkout's own build, if it is there. */
    method ReinstallDev(checkout: Maybe<string>, shim: Call, w: World) returns (exit: Exit)
      requires steps == [] && !restored && !triedRestore
      modifies this
      ensures checkout.Just? ==> current == RepointFinal(old(current), Pointer(checkout.value, true), shim, w)
      ensures checkout.Nothing? ==> current == old(current)
      ensures exit.Zero? <==> checkout.Just? && RepointPasses(shim, w)
      ensures verified == old(verified) + if exit.Zero? then {Pointer(checkout.value, true)} else {}
    {
      if checkout.Nothing? {
        Push(Bad(ResolveCheckoutBuild));
        exit := Finish();
        return;
      }
      Push(Good(ResolveCheckoutBuild));
      exit := RepointStopStartVerify(Pointer(checkout.value, true), shim, w);
    }

    /** `reinstallCommand`: `--rollback` and `--dev` together are refused, either one decides, and neither is a
        plain reinstall. */
    method ReinstallCommand(run: Run) returns (exit: Exit)
      requires steps == [] && !restored && !triedRestore
      modifies this
      ensures State(current, verified) == After1(State(old(current), old(verified)), run)
      ensures exit.Zero? <==> Succeeds(old(current), run)
    {
      match run
      case Clash =>
        Push(Bad(ParseArgs));
        exit := Finish();
      case Rollback(releases, idOf, manifest, shim, w) => exit := ReinstallRollback(releases, idOf, manifest, shim, w);
      case Dev(checkout, shim, w) => exit := ReinstallDev(checkout, shim, w);
      case Plain(release, noBackupTimer, w) => exit := ReinstallPlain(release, noBackupTimer, w);
    }
  }

  function RollbackTarget(file: File, releases: seq<Release>, idOf: string -> Maybe<string>, w: World)
      : (r: Maybe<Release>)
  {
    var prior := PriorOf(file, w);
    SelectRollbackTarget(releases, if prior.Just? then idOf(prior.value.entryJs) else Nothing)
  }

  method FindTarget(releases: seq<Release>, currentId: Maybe<string>) returns (target: Maybe<Release>)
    ensures target == SelectRollbackTarget(releases, currentId)
  {
    target := Nothing;
    assert releases[0..] == releases;
    for i := 0 to |releases|
      invariant target.Nothing?
      invariant SelectRollbackTarget(releases[i..], currentId) == SelectRollbackTarget(releases, currentId)
    {
      assert releases[i..][1..] == releases[i + 1..];
      if currentId != Just(releases[i].id) { return Just(releases[i]); }
    }
    assert releases[|releases|..] == [];
  }

  // ---- any sequence of runs ----

  /** What a command line asks for, and what happens on the way; `Clash` is both flags at once. */
  datatype Run =
    | Clash
    | Plain(release: Maybe<Pointer>, noBackupTimer: bool, w: World)
    | Rollback(releases: seq<Release>, idOf: string -> Maybe<string>, manifest: Call, shim: Call, w: World)
    | Dev(checkout: Maybe<string>, shim: Call, w: World)

  /** The file and the builds that have passed verify-version. */
  datatype State = State(current: File, verified: set<Pointer>)

  /** What a command leaves behind. */
  function After1(st: State, run: Run): (r: State) {
    match run
    case Clash => st
    case Plain(release, _, w) =>
      if release.Nothing? then st
      else
        State(PlainFinal(st.current, release.value, w),
              st.verified + if PassesVersion(w) then {release.value} else {})
    case Rollback(releases, idOf, manifest, shim, w) =>
      var target := RollbackTarget(st.current, releases, idOf, w);
      if target.Nothing? || manifest.Throws? then st
      else
        var p := Pointer(target.value.entryJs, false);
        State(RepointFinal(st.current, p, shim, w), st.verified + if RepointPasses(shim, w) then {p} else {})
    case Dev(checkout, shim, w) =>
      if checkout.Nothing? then st
      else
        var p := Pointer(checkout.value, true);
        State(RepointFinal(st.current, p, shim, w), st.verified + if RepointPasses(shim, w) then {p} else {})
  }

  /** The command exits with zero. */
  predicate Succeeds(file: File, run: Run) {
    match run
    case Clash => false
    case Plain(release, noBackupTimer, w) => release.Just? && Proven(w) && (noBackupTimer || w.timer.Returns?)
    case Rollback(releases, idOf, manifest, shim, w) =>
      RollbackTarget(file, releases, idOf, w).Just? && manifest.Returns? && RepointPasses(shim, w)
    case Dev(checkout, shim, w) => checkout.Just? && RepointPasses(shim, w)
  }

  function After(st: State, runs: seq<Run>): (r: State) {
    if runs == [] then st else After1(After(st, runs[..|runs| - 1]), runs[|runs| - 1])
  }

  /** Reading the pointer works, and so does writing it back. */
  predicate Restores(runs: seq<Run>) {
    forall i | 0 <= i < |runs| && !runs[i].Clash? :: runs[i].w.readPrior.Returns? && runs[i].w.restore.write.Returns?
  }

  // ---- a run that succeeds has moved the pointer ----

  /** The build a run asks for: the materialized release, the newest release that is not the current one, or the
      checkout's own build. */
  function Asked(file: File, run: Run): (r: Maybe<Pointer>) {
    match run
    case Clash => Nothing
    case Plain(release, _, _) => release
    case Rollback(releases, idOf, _, _, w) =>
      (match RollbackTarget(file, releases, idOf, w)
       case Nothing => Nothing
       case Just(target) => Just(Pointer(target.entryJs, false)))
    case Dev(checkout, _, _) => if checkout.Just? then Just(Pointer(checkout.value, true)) else Nothing
  }

  /** A command that exits zero leaves current.json naming the build it asked for, and that build has passed
      verify-version. */
  lemma SuccessMovesPointer(st: State, run: Run)
    requires Succeeds(st.current, run)
    ensures var end := After1(st, run);
            && Asked(st.current, run).Just?
            && end.current == Names(Asked(st.current, run).value)
            && end.verified == st.verified + {Asked(st.current, run).value}
  {
  }

  /** A rollback or dev run that reaches its repoint: stopped daemon, a target, a written shim. */
  predicate Reaches(file: File, run: Run)
    requires run.Rollback? || run.Dev?
  {
    && Asked(file, run).Just? && (run.Rollback? ==> run.manifest.Returns?)
    && run.w.stop.Stopped? && run.shim.Returns?
  }

  predicate Serves(w: World) {
    w.start.Returns? && w.healthy && w.version.Served?
  }

  /** Such a run ends on the build it asked for exactly when it succeeds or cannot write the old pointer back (or
      they are the same); otherwise it ends on the file it found. It is verified only when it succeeds. */
  lemma RepointEndsExactly(st: State, run: Run)
    requires run.Rollback? || run.Dev?
    ensures var end := After1(st, run);
            if !Reaches(st.current, run) then end == st && !Succeeds(st.current, run)
            else
              var target := Asked(st.current, run).value;
              var writesBack := st.current.Names? && run.w.readPrior.Returns? && run.w.restore.write.Returns?;
              && (Succeeds(st.current, run) <==> Serves(run.w))
              && (end.current == Names(target) <==> Serves(run.w) || !writesBack || st.current == Names(target))
              && (end.current == st.current || end.current == Names(target))
              && end.verified == st.verified + if Serves(run.w) then {target} else {}
  {
  }

  /** How a plain run ends, field by field: it succeeds when the stopped service was registered as a task, started,
      answered and served the version, and the backup timer was set up or not wanted. The new pointer is written unless
      the stop or the installer stopped before it, and stays unless the run failed later and the old one could be read
      and written back, which after a fallback to the shortcut is tried twice when stopping the daemon throws. */
  lemma PlainEndsExactly(st: State, release: Pointer, noBackupTimer: bool, w: World)
    ensures var run := Plain(Just(release), noBackupTimer, w);
            var end := After1(st, run);
            var written := w.stop.Stopped? && !w.install.ThrowsBeforePointer?;
            var served := w.stop.Stopped? && w.install.Task? && w.start.Returns? && w.healthy && w.version.Served?;
            var wroteBack := st.current.Names? && w.readPrior.Returns?
                             && (w.restore.write.Returns?
                                 || (w.install.Shortcut? && w.restore.stop.Throws? && w.restoreAgain.write.Returns?));
            && (Succeeds(st.current, run) <==> served && (noBackupTimer || w.timer.Returns?))
            && end.current == (if written && (served || !wroteBack) then Names(release) else st.current)
            && (served ==> release in end.verified)
    ensures After1(st, Plain(Nothing, noBackupTimer, w)) == st
    ensures !Succeeds(st.current, Plain(Nothing, noBackupTimer, w))
  {
  }

  /** The entry paths name the releases. */
  predicate NamesReleases(releases: seq<Release>, idOf: string -> Maybe<string>) {
    forall r <- releases :: idOf(r.entryJs) == Just(r.id)
  }

  lemma RollbackAsks(st: State, run: Run, releases: seq<Release>, k: nat)
    requires run.Rollback? && run.releases == releases && NamesReleases(releases, run.idOf) && run.w.readPrior.Returns?
    requires |releases| >= 2 && releases[0].id != releases[1].id && k < 2
    requires st.current.Names? && st.current.pointer.entryJs == releases[k].entryJs
    ensures Asked(st.current, run) == Just(Pointer(releases[1 - k].entryJs, false))
  {
    var now := Just(releases[k].id);
    assert releases[k] in releases;
    assert run.idOf(releases[k].entryJs) == now;
    assert releases[1..][0] == releases[1];
    assert SelectRollbackTarget(releases, now) == Just(releases[1 - k]);
    assert RollbackTarget(st.current, releases, run.idOf, run.w) == SelectRollbackTarget(releases, now);
  }

  /** Two rollbacks that succeed, from the newest of at least two releases, end on the newest again, and both
      releases have passed verify-version. */
  lemma RollbackAndBack(st: State, first: Run, second: Run, releases: seq<Release>)
    requires |releases| >= 2 && releases[0].id != releases[1].id
    requires first.Rollback? && first.releases == releases && NamesReleases(releases, first.idOf)
    requires second.Rollback? && second.releases == releases && NamesReleases(releases, second.idOf)
    requires first.w.readPrior.Returns? && second.w.readPrior.Returns?
    requires st.current.Names? && st.current.pointer.entryJs == releases[0].entryJs
    requires Succeeds(st.current, first) && Succeeds(After(st, [first]).current, second)
    ensures var newest, older := Pointer(releases[0].entryJs, false), Pointer(releases[1].entryJs, false);
            && After(st, [first]).current == Names(older)
            && After(st, [first, second]).current == Names(newest)
            && After(st, [first, second]).verified == st.verified + {older, newest}
  {
    hide Succeeds, After1, Asked, NamesReleases;
    RollbackAsks(st, first, releases, 0);
    SuccessMovesPointer(st, first);
    AfterOne(st, first);
    var st1 := After1(st, first);
    RollbackAsks(st1, second, releases, 1);
    SuccessMovesPointer(st1, second);
    assert [first, second][..1] == [first];
    assert After(st, [first, second]) == After1(st1, second);
  }

  lemma AfterOne(st: State, run: Run)
    ensures After(st, [run]) == After1(st, run)
  {
    hide After1;
    assert [run][..0] == [];
  }

  // ---- safety over runs ----

  /** Pointer safety: whatever else fails in whatever run, current.json ends naming the build it started with
      or one that passed verify-version. */
  lemma {:induction false} PointerSafety(st: State, runs: seq<Run>)
    requires st.current.Names? && Restores(runs)
    ensures var end := After(st, runs);
            && end.current.Names?
            && (end.current == st.current || end.current.pointer in end.verified)
            && st.verified <= end.verified
    decreases |runs|
  {
    if runs != [] {
      var n := |runs| - 1;
      PointerSafety(st, runs[..n]);
    }
  }

  /** One plain run ends on the file it found or on a build that passed verify-version, exactly unless the new
      pointer was written, failed to pass, and the old one was unreadable or could not be written back. */
  lemma PlainSafeExactly(file: File, release: Pointer, w: World)
    ensures var end := PlainFinal(file, release, w);
            (end == file || (end == Names(release) && PassesVersion(w)))
            <==> !Repoints(w) || PassesVersion(w) || file == Names(release)
                 || (file.Names? && w.readPrior.Returns? && RestoreWrites(w))
  {
  }

  /** On a first install there is nothing to go back to: a build that never became healthy stays named. */
  lemma FirstInstallStaysUnproven(release: Pointer, w: World)
    requires w.stop.Stopped? && w.install.Task? && !w.healthy
    ensures var end := After(State(Missing, {}), [Plain(Just(release), true, w)]);
            end.current == Names(release) && release !in end.verified
  {
    var run := Plain(Just(release), true, w);
    assert [run][..0] == [];
    assert After(State(Missing, {}), [run]) == After1(State(Missing, {}), run);
  }

  /** A proven build stays in place whatever the backup timer does, but the exit code tells the timer's failure: it
      is zero exactly when the timer was not wanted or could be set up. */
  lemma TimerDecidesExit(st: State, release: Pointer, noBackupTimer: bool, w: World)
    requires Proven(w)
    ensures var run := Plain(Just(release), noBackupTimer, w);
            && After1(st, run) == State(Names(release), st.verified + {release})
            && (Succeeds(st.current, run) <==> noBackupTimer || w.timer.Returns?)
  {
  }

  /** Everything works but the backup timer. */
  lemma TimerFailsProvenRun(release: Pointer)
    ensures var restore := Restore(Returns, Returns);
            var w := World(Returns, Stopped, Task, Throws, Returns, true, Served, Returns, restore, restore);
            && Proven(w) && !Succeeds(Missing, Plain(Just(release), false, w))
            && After1(State(Missing, {}), Plain(Just(release), false, w)) == State(Names(release), {release})
  {
  }
}
