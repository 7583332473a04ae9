/**
 `write` itself, on a disk that may fail and in a process that may die at any call:
 a run of the publication protocol. And any number of writes, one after another.
 */
module Writing {
  import opened Integers
  import opened Wrappers
  import opened CheckpointFormat
  import opened Publication
  import opened Leftovers

  lemma NextIsOfAStage(a: Attempt, p: Phase, entry: Entry, file: File, q: Phase)
    requires Next(a, p, entry, file, q)
    ensures IsStaging(p)
  {
  }

  /** A failed write of a file, or one given up before it was begun. */
  lemma FailureIsAStep(s: Protocol, entry: Entry, file: File, q: Phase, t: Protocol)
    requires IsStaging(s.phase) && t == Protocol(t.fs, Failing, s.attempt, s.published)
    requires t.fs == s.fs || (Next(s.attempt, s.phase, entry, file, q) && Filed(s.fs, t.fs, entry, Torn))
    ensures Step(s, t)
  {
    hide Next, Filed, Ends, Begins, Clears, Publishes;
  }

  lemma LandingIsAStep(s: Protocol, t: Protocol)
    requires s.phase.Publishing? && t.phase.Cleaning? && t.attempt == s.attempt && t.published == Some(s.attempt)
    requires Renamed(s.fs, t.fs, Temporary, Canonical)
    ensures Publishes(s, t)
  {
  }

  /** Only what was published is ever set aside. */
  lemma BackupWasPublished(run: seq<Protocol>)
    requires IsRun(run) && Backup in run[|run| - 1].fs
    ensures run[|run| - 1].published.Some?
  {
    ReadersAreSafe(run, |run| - 1);
    hide IsRun, Target;
  }

  lemma RollingBackIsAStep(s: Protocol, t: Protocol)
    requires s.phase.Publishing? && t.phase.RollingBack?
    requires t.fs == s.fs && t.attempt == s.attempt && t.published == s.published
    ensures Publishes(s, t)
  {
  }

  lemma RestoringIsAStep(s: Protocol, t: Protocol)
    requires s.phase.RollingBack? && t.phase.Discarding? && t.attempt == s.attempt && t.published == s.published
    requires t.fs == s.fs || Renamed(s.fs, t.fs, Backup, Canonical)
    ensures Publishes(s, t)
  {
  }

  lemma DiscardingIsAStep(s: Protocol, t: Protocol)
    requires s.phase.Discarding? && t.phase.Discarding? && t.attempt == s.attempt && t.published == s.published
    requires Remnant(s.fs, t.fs, Temporary)
    ensures Publishes(s, t)
  {
  }

  // ----- `write`

  /** How one file system call ends: it works, it fails, or the process dies with it. */
  datatype Call = Done | Failed | Died

  datatype Outcome = Succeeded | Errored | Interrupted

  /** The backup, if there is one, in its place again. */
  function PutBack(fs: FileSystem): FileSystem {
    if Backup in fs then (fs - {Backup})[Canonical := fs[Backup]] else fs
  }

  /** All but the temporary directory. */
  function Others(fs: FileSystem): FileSystem {
    fs - {Temporary}
  }

  /** What a call of `write` leaves of a file system if nothing fails: the new directory
      alone in its place, or, if there is none, what was there before it. */
  function Written(fs: FileSystem, staged: Option<Dir>): FileSystem {
    if staged.Some? then (Others(fs) - {Backup})[Canonical := staged.value] else Others(fs)
  }

  /** What the steps of publishing do to a file system if nothing fails. */
  ghost predicate DropsStale(fs: FileSystem, gs: FileSystem) {
    gs == if Canonical in fs then fs - {Backup} else fs
  }

  ghost predicate SetsAside(fs: FileSystem, gs: FileSystem) {
    gs == if Canonical in fs then (fs - {Canonical})[Backup := fs[Canonical]] else fs
  }

  ghost predicate PutsInPlace(fs: FileSystem, gs: FileSystem) {
    gs == Written(fs, Some(TemporaryOf(fs)))
  }

  lemma RenamingPutsInPlace(fs: FileSystem, renamed: FileSystem, gs: FileSystem)
    requires Renamed(fs, renamed, Temporary, Canonical) && gs == renamed - {Backup}
    ensures PutsInPlace(fs, gs)
  {
  }

  lemma StepsPutInPlace(fs: FileSystem, dropped: FileSystem, aside: FileSystem, gs: FileSystem)
    requires DropsStale(fs, dropped) && SetsAside(dropped, aside) && PutsInPlace(aside, gs)
    ensures PutsInPlace(fs, gs)
  {
  }

  lemma WrittenElsewhere(fs: FileSystem, staged: FileSystem, gs: FileSystem)
    requires Others(staged) == Others(fs) && PutsInPlace(staged, gs) && Temporary in staged
    ensures gs == Written(fs, Some(staged[Temporary]))
  {
  }

  class Disk {
    var fs: FileSystem
    /** On a reliable disk no call fails that could succeed, and nothing dies. */
    const reliable: bool
    ghost var run: seq<Protocol>

    ghost predicate Valid()
      reads this
    {
      run != [] && IsRun(run) && Last().fs == fs
    }

    ghost function Last(): Protocol
      requires run != []
      reads this
    {
      run[|run| - 1]
    }

    /** The history went on, and nothing was published in it. */
    twostate predicate Quiet()
      reads this
    {
      && old(Valid()) && Valid() && old(run) <= run
      && Last().published == old(Last().published)
      && forall i :: |old(run)| <= i < |run| ==> run[i].published == old(Last().published)
    }

    constructor (reliable: bool)
      ensures Valid() && run == [Last()] && Last().phase.Idle? && Last().published == None
      ensures this.reliable == reliable && fs == map[]
    {
      this.reliable := reliable;
      fs := map[];
      ghost var r := Record(FORMAT_VERSION, "");
      ghost var nothing := Checkpoint(Manifest(FORMAT_VERSION, "", None, None, [], map[]), r, r,
                                      Optimizer(FORMAT_VERSION, "", [], 0), r, r, map[]);
      ghost var nobody := Request(Host(_ => "", _ => 0), nothing, map[], true);
      run := [Protocol(map[], Idle, Attempt(nobody, map[]), None)];
    }

    /** Where `write` is now, entered into the history. */
    ghost method Note(t: Protocol)
      requires run != [] && IsRun(run) && Step(Last(), t) && t.fs == fs
      modifies this`run
      ensures Valid() && run == old(run) + [t]
    {
      run := run + [t];
    }

    ghost method NotePublishing(t: Protocol)
      requires run != [] && IsRun(run) && Publishes(Last(), t) && t.fs == fs
      modifies this`run
      ensures Valid() && run == old(run) + [t]
    {
      hide IsRun, Publishes;
      Note(t);
    }

    ghost method NoteClearing(t: Protocol)
      requires run != [] && IsRun(run) && (Begins(Last(), t) || Clears(Last(), t)) && t.fs == fs
      modifies this`run
      ensures Valid() && run == old(run) + [t]
    {
      hide IsRun, Begins, Clears;
      Note(t);
    }

    /** Returning is always a step. */
    ghost method Finish()
      requires Valid()
      modifies this`run
      ensures Quiet() && Last() == old(Last()).(phase := Idle) && |run| == |old(run)| + 1
    {
      Note(Last().(phase := Idle));
    }

    /** The process may die after any call; whoever writes next starts over. */
    method Survives() returns (alive: bool)
      requires Valid()
      modifies this`run
      ensures Quiet()
      ensures alive ==> run == old(run)
      ensures !alive ==> Last() == old(Last()).(phase := Idle)
      ensures reliable ==> alive
    {
      alive := *;
      if reliable {
        alive := true;
      }
      if !alive {
        Finish();
      }
    }

    method Rename(from: Place, to: Place) returns (ok: bool)
      modifies this`fs
      ensures ok ==> Renamed(old(fs), fs, from, to)
      ensures !ok ==> fs == old(fs)
      ensures reliable && from in old(fs) && to !in old(fs) ==> ok
    {
      ok := *;
      if from !in fs || to in fs {
        ok := false;
      } else if reliable {
        ok := true;
      }
      if ok {
        fs := (fs - {from})[to := fs[from]];
      }
    }

    /** May stop anywhere; `remains` stands for what it did not get to. */
    method RemoveAll(place: Place) returns (ok: bool)
      modifies this`fs
      ensures Remnant(old(fs), fs, place)
      ensures ok ==> fs == old(fs) - {place}
      ensures place == Temporary ==> Others(fs) == Others(old(fs))
      ensures reliable ==> ok
    {
      ok := *;
      if reliable || ok {
        ok := true;
        fs := fs - {place};
      } else if place in fs {
        var remains: set<Entry> := *;
        fs := fs[place := map entry | entry in fs[place] && entry in remains :: fs[place][entry]];
      }
    }

    method CreateTemporary() returns (ok: bool)
      modifies this`fs
      ensures fs == if ok then old(fs)[Temporary := TemporaryOf(old(fs))] else old(fs)
      ensures Others(fs) == Others(old(fs))
      ensures reliable ==> ok
    {
      ok := *;
      if reliable {
        ok := true;
      }
      if ok && Temporary !in fs {
        fs := fs[Temporary := map[]];
      }
    }

    /** One file of the temporary directory; a failed write may leave it torn. */
    method WriteFile(entry: Entry, file: File) returns (ok: bool)
      requires Temporary in fs
      modifies this`fs
      ensures ok ==> Filed(old(fs), fs, entry, file)
      ensures !ok ==> fs == old(fs) || Filed(old(fs), fs, entry, Torn)
      ensures Others(fs) == Others(old(fs))
      ensures reliable ==> ok
    {
      ok := *;
      var torn: bool := *;
      if reliable || ok {
        ok := true;
        fs := fs[Temporary := fs[Temporary][entry := file]];
      } else if torn {
        fs := fs[Temporary := fs[Temporary][entry := Torn]];
      }
    }

    /** Stages the next file of the attempt. */
    method StageFile(entry: Entry, file: File, ghost q: Phase) returns (r: Call)
      requires Valid() && Next(Last().attempt, Last().phase, entry, file, q)
      modifies this`fs, this`run
      ensures Quiet() && Last().attempt == old(Last().attempt)
      ensures r.Done? ==> Last().phase == q
      ensures r.Failed? ==> Last().phase.Failing?
      ensures r.Died? ==> Last().phase.Idle?
      ensures Others(fs) == Others(old(fs))
      ensures reliable ==> r.Done?
    {
      hide IsRun, Step, Next, Filed, IsStageOf, Contents;
      ghost var s := Last();
      NextIsOfAStage(s.attempt, s.phase, entry, file, q);
      StagingEnd(run);
      var written := WriteFile(entry, file);
      ghost var t := Protocol(fs, if written then q else Failing, s.attempt, s.published);
      if written {
        WholeFileIsAStep(s, entry, file, t);
      } else {
        FailureIsAStep(s, entry, file, q, t);
      }
      Note(t);
      var alive := Survives();
      r := if !alive then Died else if written then Done else Failed;
    }

    /** The payload writer: one file after another, in no particular order. */
    method StagePayloads(payloads: map<string, seq<byte>>) returns (r: Call)
      requires Valid() && Last().phase == Payloads(map[]) && Last().attempt.request.payloads == payloads
      modifies this`fs, this`run
      ensures Quiet() && Last().attempt == old(Last().attempt)
      ensures r.Done? ==> Last().phase == Payloads(payloads)
      ensures r.Failed? ==> Last().phase.Failing?
      ensures r.Died? ==> Last().phase.Idle?
      ensures Others(fs) == Others(old(fs))
      ensures reliable ==> r.Done?
    {
      hide IsRun;
      var names := payloads.Keys;
      ghost var done: map<string, seq<byte>> := map[];
      r := Done;
      while names != {}
        invariant Quiet() && Last().attempt == old(Last().attempt) && Last().phase == Payloads(done)
        invariant Others(fs) == Others(old(fs))
        invariant names <= payloads.Keys && done == payloads - names
        decreases names
      {
        var name :| name in names;
        ghost var more := done[name := payloads[name]];
        r := StageFile(Member(name), Raw(payloads[name]), Payloads(more));
        if !r.Done? {
          return;
        }
        done := more;
        names := names - {name};
      }
      r := Done;
      assert done == payloads;
    }

    method StageArtifacts(artifacts: map<string, seq<byte>>) returns (r: Call)
      requires Valid() && Last().phase == Artifacts(map[]) && GoesOn(Last().attempt)
      requires Last().attempt.request.checkpoint.artifacts == artifacts
      modifies this`fs, this`run
      ensures Quiet() && Last().attempt == old(Last().attempt)
      ensures r.Done? ==> Last().phase == Artifacts(artifacts)
      ensures r.Failed? ==> Last().phase.Failing?
      ensures r.Died? ==> Last().phase.Idle?
      ensures Others(fs) == Others(old(fs))
      ensures reliable ==> r.Done?
    {
      hide IsRun, GoesOn, Contents, ManifestOver;
      var names := artifacts.Keys;
      ghost var done: map<string, seq<byte>> := map[];
      r := Done;
      while names != {}
        invariant Quiet() && Last().attempt == old(Last().attempt) && Last().phase == Artifacts(done)
        invariant Others(fs) == Others(old(fs))
        invariant names <= artifacts.Keys && done == artifacts - names
        decreases names
      {
        var name :| name in names;
        ghost var more := done[name := artifacts[name]];
        r := StageFile(Artifact(name), Raw(artifacts[name]), Artifacts(more));
        if !r.Done? {
          return;
        }
        done := more;
        names := names - {name};
      }
      r := Done;
      assert done == artifacts;
    }

    method StageState(c: Checkpoint) returns (r: Call)
      requires Valid() && Last().phase == Documents(0) && GoesOn(Last().attempt)
      requires Last().attempt.request.checkpoint == c
      modifies this`fs, this`run
      ensures Quiet() && Last().attempt == old(Last().attempt)
      ensures r.Done? ==> Last().phase == Documents(5)
      ensures r.Failed? ==> Last().phase.Failing?
      ensures r.Died? ==> Last().phase.Idle?
      ensures Others(fs) == Others(old(fs))
      ensures reliable ==> r.Done?
    {
      hide IsRun, GoesOn, StateFiles;
      var files := StateFiles(c);
      r := Done;
      for i := 0 to 5
        invariant Others(fs) == Others(old(fs))
        invariant Quiet() && Last().attempt == old(Last().attempt) && Last().phase == Documents(i) && r == Done
      {
        r := StageFile(files[i].0, files[i].1, Documents(i + 1));
        if !r.Done? {
          return;
        }
      }
    }

    /** From one group of files to the next. */
    ghost method Turn(q: Phase)
      requires Valid() && IsStaging(Last().phase) && Turns(Last().attempt, Last().phase, q)
      modifies this`run
      ensures Quiet() && Last().attempt == old(Last().attempt) && Last().phase == q
    {
      ghost var t := Protocol(fs, q, Last().attempt, Last().published);
      assert Stages(Last(), t);
      hide Stages, IsRun, Ends, Begins, Clears, Publishes;
      Note(t);
    }

    /** The files `write_into` writes itself, the manifest last. */
    method StageDocuments(host: Host, c: Checkpoint) returns (r: Call)
      requires Valid() && GoesOn(Last().attempt) && Last().phase == Payloads(Last().attempt.request.payloads)
      requires Last().attempt.request.host == host && Last().attempt.request.checkpoint == c
      modifies this`fs, this`run
      ensures Quiet() && Last().attempt == old(Last().attempt)
      ensures r.Done? ==> Last().phase.Ready?
      ensures r.Failed? ==> Last().phase.Failing?
      ensures r.Died? ==> Last().phase.Idle?
      ensures Others(fs) == Others(old(fs))
      ensures reliable ==> r.Done?
    {
      hide IsRun, GoesOn, Turns, Contents, Completed, IsStageOf, Next, Step;
      ghost var a := Last().attempt;
      FirstTurn(a);
      Turn(Documents(0));
      r := StageState(c);
      if !r.Done? {
        return;
      }
      Turn(Artifacts(map[]));
      r := StageArtifacts(c.artifacts);
      if !r.Done? {
        return;
      }
      StagingEnd(run);
      ManifestIsNext(a);
      r := StageFile(Member(MANIFEST_FILE), ManifestDoc(Completed(host, c.manifest, fs[Temporary])), Ready);
    }

    /** The temporary directory of this attempt, emptied as far as that goes. */
    method ClearTemporary() returns (r: Call)
      requires Valid() && Last().phase.Clearing?
      modifies this`fs, this`run
      ensures Quiet() && Last().attempt.request == old(Last().attempt.request)
      ensures r.Done? ==> Last().phase == Payloads(map[])
      ensures r.Failed? ==> Last().phase.Clearing?
      ensures r.Died? ==> Last().phase.Idle?
      ensures Others(fs) == Others(old(fs))
      ensures reliable ==> r.Done? && Last().attempt.leftover == map[]
    {
      hide IsRun, Step, IsPartOf, Others;
      ghost var request, published := Last().attempt.request, Last().published;
      var removed := RemoveAll(Temporary);
      NoteClearing(Protocol(fs, Clearing, Attempt(request, TemporaryOf(fs)), published));
      var created := CreateTemporary();
      if created {
        NoteClearing(Protocol(fs, Payloads(map[]), Last().attempt, published));
      }
      hide Clears, Begins;
      var alive := Survives();
      r := if !alive then Died else if created then Done else Failed;
    }

    /** `write_into`. What could not be removed of an earlier attempt is staged over. It
        ends with the whole directory, or, unless another manifest was there, with one
        that a loader refuses, or died with it whole. Nothing else is touched. */
    method WriteInto(request: Request) returns (r: Call)
      requires Valid() && Last().phase.Clearing? && Last().attempt.request == request
      modifies this`fs, this`run
      ensures Quiet() && Last().attempt.request == request
      ensures r.Done? ==> Last().phase.Ready? && Temporary in fs && Target(Last().attempt) == Some(fs[Temporary])
      ensures r.Failed? ==> Last().phase.Clearing? || Last().phase.Failing?
      ensures r.Died? ==> Last().phase.Idle?
      ensures BringsNoOtherManifest(Last().attempt) ==> OnlyWholeLoads(fs, Target(Last().attempt))
      ensures reliable ==> !r.Died? && Last().attempt.leftover == map[]
      ensures Others(fs) == Others(old(fs))
      ensures reliable && GoesOn(Attempt(request, map[])) ==> r.Done?
    {
      hide IsRun, Step, GoesOn, Target, OnlyWholeLoads, BringsNoOtherManifest, ReaderIsSafe;
      r := StageAll(request);
      InvariantAtTheEnd(run);
    }

    method StageAll(request: Request) returns (r: Call)
      requires Valid() && Last().phase.Clearing? && Last().attempt.request == request
      modifies this`fs, this`run
      ensures Quiet() && Last().attempt.request == request
      ensures r.Done? ==> Last().phase.Ready?
      ensures r.Failed? ==> Last().phase.Clearing? || Last().phase.Failing?
      ensures r.Died? ==> Last().phase.Idle?
      ensures reliable ==> !r.Died? && Last().attempt.leftover == map[]
      ensures Others(fs) == Others(old(fs))
      ensures reliable && GoesOn(Attempt(request, map[])) ==> r.Done?
    {
      hide IsRun, Step, PayloadsLanded, WithPayloads;
      r := ClearTemporary();
      if !r.Done? {
        return;
      }
      r := StagePayloads(request.payloads);
      if !r.Done? {
        return;
      }
      StagingEnd(run);
      if request.writerFails || !PayloadsLanded(request.host, request.checkpoint, fs[Temporary]) {
        GiveUp();
        return Failed;
      }
      r := StageDocuments(request.host, request.checkpoint);
    }

    /** An error before the next file. */
    ghost method GiveUp()
      requires Valid() && IsStaging(Last().phase)
      modifies this`run
      ensures Quiet() && Last().attempt == old(Last().attempt) && Last().phase.Failing?
    {
      hide IsRun, Step;
      ghost var s := Last();
      ghost var t := Protocol(fs, Failing, s.attempt, s.published);
      FailureIsAStep(s, Member(""), Torn, Idle, t);
      Note(t);
    }

    /** A backup beside the canonical directory is stale and goes first. */
    method DropStaleBackup() returns (r: Call)
      requires Valid() && Last().phase.Ready?
      modifies this`fs, this`run
      ensures Quiet() && Last().attempt == old(Last().attempt)
      ensures r.Done? ==> Last().phase.Retiring?
      ensures !r.Done? ==> Last().phase.Idle?
      ensures reliable ==> DropsStale(old(fs), fs)
      ensures reliable ==> r.Done?
    {
      hide IsRun, IsPartOf;
      ghost var attempt, published := Last().attempt, Last().published;
      if !(Canonical in fs && Backup in fs) {
        NotePublishing(Protocol(fs, Retiring, attempt, published));
        return Done;
      }
      var removed := RemoveAll(Backup);
      NotePublishing(Protocol(fs, if removed then Retiring else Ready, attempt, published));
      hide Publishes, Step;
      var alive := Survives();
      if alive && !removed {
        Finish();
      }
      r := if !alive then Died else if removed then Done else Failed;
    }

    /** Moves the previous checkpoint out of the way of the next. */
    method SetAside() returns (r: Call)
      requires Valid() && Last().phase.Retiring?
      modifies this`fs, this`run
      ensures Quiet() && Last().attempt == old(Last().attempt)
      ensures r.Done? ==> Last().phase.Publishing?
      ensures !r.Done? ==> Last().phase.Idle?
      ensures reliable ==> SetsAside(old(fs), fs)
      ensures reliable ==> r.Done?
    {
      hide IsRun;
      PublishingEnd(run);
      ghost var attempt, published := Last().attempt, Last().published;
      if Canonical in fs {
        var moved := Rename(Canonical, Backup);
        if !moved {
          Finish();
          return Failed;
        }
      }
      NotePublishing(Protocol(fs, Publishing, attempt, published));
      hide Publishes;
      var alive := Survives();
      r := if alive then Done else Died;
    }

    /** Renames the new directory into place and drops the backup; if the rename
        fails, puts the previous checkpoint back as far as that goes. An error in the
        removal is reported although the new directory is in place. */
    method PutInPlace() returns (r: Call, ghost landed: bool)
      requires Valid() && Last().phase.Publishing?
      modifies this`fs, this`run
      ensures Valid() && old(run) <= run && Last().phase.Idle? && Last().attempt == old(Last().attempt)
      ensures landed ==> Last().published == Some(Last().attempt)
      ensures !landed ==> Quiet()
      ensures forall i :: |old(run)| <= i < |run| ==>
                run[i].published == old(Last().published) || run[i].published == Some(Last().attempt)
      ensures ReaderFinds(fs, Last().published)
      ensures r.Failed? && landed ==> Backup in old(fs) && old(Last().published).Some?
      ensures r.Done? ==> landed && Canonical in fs && Backup !in fs && Temporary !in fs
      ensures reliable ==> PutsInPlace(old(fs), fs)
      ensures reliable ==> r.Done?
    {
      hide IsRun, Step, ReaderFinds, PutsInPlace, Target, Seen;
      PublishingEnd(run);
      ghost var before := fs;
      if Backup in fs {
        BackupWasPublished(run);
      }
      ghost var s, landing := Last(), Last().(phase := Cleaning, published := Some(Last().attempt));
      var moved := Rename(Temporary, Canonical);
      landed := moved;
      if !moved {
        r := RollBack();
      } else {
        landing := landing.(fs := fs);
        LandingIsAStep(s, landing);
        RenamingPutsInPlace(before, fs, fs - {Backup});
        hide Publishes, Renamed;
        NotePublishing(landing);
        r := CleanUp();
      }
      ReadersAreSafe(run, |run| - 1);
    }

    /** The new directory is in place: the backup may go. */
    method CleanUp() returns (r: Call)
      requires Valid() && Last().phase.Cleaning?
      modifies this`fs, this`run
      ensures Quiet() && Last().phase.Idle? && Last().attempt == old(Last().attempt)
      ensures SameExcept(old(fs), fs, Backup)
      ensures r.Done? ==> Backup !in fs
      ensures r.Failed? ==> Backup in old(fs)
      ensures reliable ==> fs == old(fs) - {Backup}
      ensures reliable ==> r.Done?
    {
      hide IsRun, IsPartOf;
      ghost var attempt, published := Last().attempt, Last().published;
      var survives := Survives();
      if !survives {
        return Died;
      }
      var removed := true;
      if Backup in fs {
        removed := RemoveAll(Backup);
        NotePublishing(Protocol(fs, Cleaning, attempt, published));
      }
      hide Publishes;
      var alive := Survives();
      if !alive {
        return Died;
      }
      Finish();
      r := if removed then Done else Failed;
    }

    /** A failed rename: the previous checkpoint is put back, the new directory discarded. */
    method RollBack() returns (r: Call)
      requires Valid() && Last().phase.Publishing?
      modifies this`fs, this`run
      ensures Quiet() && Last().phase.Idle? && Last().attempt == old(Last().attempt)
      ensures !r.Done?
      ensures reliable ==> fs == PutBack(old(fs)) - {Temporary}
    {
      hide IsRun, IsPartOf, Publishes;
      var alive := Restore();
      if !alive {
        return Died;
      }
      ghost var s := Last();
      var removed := RemoveAll(Temporary);
      DiscardingIsAStep(s, s.(fs := fs));
      NotePublishing(s.(fs := fs));
      Finish();
      return Failed;
    }

    method Restore() returns (alive: bool)
      requires Valid() && Last().phase.Publishing?
      modifies this`fs, this`run
      ensures Quiet() && Last().attempt == old(Last().attempt)
      ensures if alive then Last().phase.Discarding? else Last().phase.Idle?
      ensures reliable ==> alive && fs == PutBack(old(fs))
    {
      hide IsRun, Publishes;
      PublishingEnd(run);
      ghost var s, rolling, discarding := Last(), Last().(phase := RollingBack), Last().(phase := Discarding);
      RollingBackIsAStep(s, rolling);
      NotePublishing(rolling);
      alive := Survives();
      if !alive {
        return;
      }
      if Backup in fs {
        var restored := Rename(Backup, Canonical);
      }
      discarding := discarding.(fs := fs);
      RestoringIsAStep(rolling, discarding);
      NotePublishing(discarding);
      alive := Survives();
    }

    /** A failed attempt's directory, removed as far as that goes. */
    method DiscardStaged()
      requires Valid() && (Last().phase.Clearing? || Last().phase.Failing?)
      modifies this`fs, this`run
      ensures Quiet() && Last().phase.Idle? && Last().attempt.request == old(Last().attempt.request)
      ensures reliable ==> fs == Others(old(fs))
    {
      hide IsRun, IsPartOf;
      ghost var s := Last();
      var removed := RemoveAll(Temporary);
      if s.phase.Clearing? {
        NoteClearing(Protocol(fs, Clearing, Attempt(s.attempt.request, TemporaryOf(fs)), s.published));
      } else {
        NotePublishing(Protocol(fs, Failing, s.attempt, s.published));
      }
      Finish();
    }

    /** From a staged directory on: the stale backup goes, the previous checkpoint is
        set aside, the new one is put in its place. */
    method Publish() returns (r: Call, ghost landed: bool)
      requires Valid() && Last().phase.Ready?
      modifies this`fs, this`run
      ensures Valid() && old(run) <= run && Last().phase.Idle? && Last().attempt == old(Last().attempt)
      ensures landed ==> Last().published == Some(Last().attempt)
      ensures !landed ==> Quiet()
      ensures forall i :: |old(run)| <= i < |run| ==>
                run[i].published == old(Last().published) || run[i].published == Some(Last().attempt)
      ensures r.Failed? && landed ==> old(Last().published).Some?
      ensures r.Done? ==> landed && Canonical in fs && Backup !in fs && Temporary !in fs
      ensures reliable ==> PutsInPlace(old(fs), fs)
      ensures reliable ==> r.Done?
    {
      hide IsRun, DropsStale, SetsAside, PutsInPlace;
      landed := false;
      ghost var before := fs;
      r := DropStaleBackup();
      ghost var dropped := fs;
      if r.Done? {
        r := SetAside();
      }
      ghost var aside := fs;
      if r.Done? {
        r, landed := PutInPlace();
      }
      if reliable {
        StepsPutInPlace(before, dropped, aside, fs);
      }
    }

    /** `write`, from the empty temporary directory to the removal of the backup.
        However it ends, the history stays a run of the protocol, begun with this
        request. `landed` tells whether the new directory was renamed into place:
        nothing else is ever published, success means that it was and is in place,
        alone and whole, and a disk that does not fail publishes every checkpoint whose
        payloads land. The temporary directory, unless it brought another manifest,
        holds nothing a loader takes for any other checkpoint. On a disk that does not fail
        the whole outcome is known: the new directory alone in its place, or, if the
        payloads did not land, all as before and no temporary directory. */
    method Write(request: Request) returns (outcome: Outcome, ghost attempt: Attempt, ghost landed: bool)
      requires Valid() && Last().phase.Idle?
      modifies this`fs, this`run
      ensures Valid() && Last().phase.Idle? && Last().attempt == attempt && attempt.request == request
      ensures old(run) < run && run[|old(run)|].phase.Clearing? && run[|old(run)|].attempt.request == request
      ensures Last().published == if landed then Some(attempt) else old(Last().published)
      ensures forall i :: |old(run)| <= i < |run| ==>
                run[i].published == old(Last().published) || (landed && run[i].published == Some(attempt))
      ensures landed ==> Target(attempt).Some? && Seen(fs) == Target(attempt)
      ensures outcome.Succeeded? ==> landed && Canonical in fs && Backup !in fs && Temporary !in fs
      ensures outcome.Errored? && landed ==> old(Last().published).Some?
      ensures reliable ==> fs == Written(old(fs), Target(Attempt(request, map[])))
      ensures reliable && GoesOn(Attempt(request, map[])) ==> outcome.Succeeded? && attempt.leftover == map[]
      ensures BringsNoOtherManifest(attempt) ==> OnlyWholeLoads(fs, Target(attempt))
    {
      hide IsRun, Step, GoesOn, Target, Seen, OnlyWholeLoads, BringsNoOtherManifest, PhaseHolds;
      hide ReaderIsSafe, TemporaryIsSafe;
      Begin(request);
      landed := false;
      ghost var before := fs;
      var r := WriteInto(request);
      ghost var staged := fs;
      TargetExists(Attempt(request, map[]));
      if r.Failed? {
        DiscardStaged();
      } else if r.Done? {
        r, landed := Publish();
        if reliable {
          WrittenElsewhere(before, staged, fs);
        }
      }
      attempt := Last().attempt;
      outcome := match r case Done => Succeeded case Failed => Errored case Died => Interrupted;
      InvariantAtTheEnd(run);
      SafeMeans(Last());
    }

    ghost method Begin(request: Request)
      requires Valid() && Last().phase.Idle?
      modifies this`run
      ensures Valid() && |run| == |old(run)| + 1 && old(run) < run && Last().published == old(Last().published)
      ensures Last().phase.Clearing? && Last().attempt.request == request
    {
      hide IsRun;
      NoteClearing(Protocol(fs, Clearing, Attempt(request, TemporaryOf(fs)), Last().published));
    }
  }

  // ----- any number of writes

  /** Which of the attempts was renamed into place last. */
  function LastLanded(attempts: seq<Attempt>, landed: seq<bool>): Option<Attempt>
    requires |attempts| == |landed|
  {
    if attempts == [] then None
    else if landed[|landed| - 1] then Some(attempts[|attempts| - 1])
    else LastLanded(attempts[..|attempts| - 1], landed[..|landed| - 1])
  }

  ghost predicate PublishedIsOneOf(run: seq<Protocol>, attempts: seq<Attempt>) {
    forall i :: 0 <= i < |run| && run[i].published.Some? ==> run[i].published.value in attempts
  }

  ghost predicate IsBegun(run: seq<Protocol>, request: Request) {
    exists i :: 0 <= i < |run| && run[i].phase.Clearing? && run[i].attempt.request == request
  }

  /** How the requests so far went: each begun and with its outcome, everything ever
      published one of theirs, and published last what landed last. */
  ghost predicate IsHistory(run: seq<Protocol>, requests: seq<Request>, outcomes: seq<Outcome>,
                            attempts: seq<Attempt>, landed: seq<bool>, reliable: bool)
  {
    && run != [] && |outcomes| == |attempts| == |landed| == |requests|
    && (forall k :: 0 <= k < |requests| ==> attempts[k].request == requests[k] && IsBegun(run, requests[k]))
    && PublishedIsOneOf(run, attempts)
    && run[|run| - 1].published == LastLanded(attempts, landed)
    && (forall k :: 0 <= k < |requests| && outcomes[k].Succeeded? ==> landed[k])
    && (reliable ==>
          forall k :: 0 <= k < |requests| && GoesOn(Attempt(requests[k], map[])) ==> outcomes[k].Succeeded?)
  }

  lemma OneWriteMore(before: seq<Protocol>, run: seq<Protocol>, requests: seq<Request>, outcomes: seq<Outcome>,
                     attempts: seq<Attempt>, landed: seq<bool>, reliable: bool,
                     outcome: Outcome, attempt: Attempt, through: bool)
    requires IsHistory(before, requests, outcomes, attempts, landed, reliable) && before < run
    requires run[|before|].phase.Clearing? && run[|before|].attempt.request == attempt.request
    requires run[|run| - 1].published == if through then Some(attempt) else before[|before| - 1].published
    requires forall i :: |before| <= i < |run| ==>
               run[i].published == before[|before| - 1].published || (through && run[i].published == Some(attempt))
    requires outcome.Succeeded? ==> through
    requires reliable && GoesOn(Attempt(attempt.request, map[])) ==> outcome.Succeeded?
    ensures IsHistory(run, requests + [attempt.request], outcomes + [outcome], attempts + [attempt],
                      landed + [through], reliable)
  {
    hide GoesOn, IsBegun, PublishedIsOneOf, LastLanded;
    assert attempt.request == (requests + [attempt.request])[|requests|];
    forall k | 0 <= k <= |requests| ensures IsBegun(run, (requests + [attempt.request])[k]) {
      if k < |requests| {
        BegunStays(before, run, requests[k]);
      } else {
        BegunAt(run, |before|);
      }
    }
    LandedNow(attempts, landed, attempt, through);
    PublishedSoFar(before, run, attempts, attempt);
  }

  lemma BegunStays(before: seq<Protocol>, run: seq<Protocol>, request: Request)
    requires IsBegun(before, request) && before <= run
    ensures IsBegun(run, request)
  {
    var i :| 0 <= i < |before| && before[i].phase.Clearing? && before[i].attempt.request == request;
    assert run[i] == before[i];
  }

  lemma BegunAt(run: seq<Protocol>, i: nat)
    requires i < |run| && run[i].phase.Clearing?
    ensures IsBegun(run, run[i].attempt.request)
  {
  }

  lemma LandedNow(attempts: seq<Attempt>, landed: seq<bool>, attempt: Attempt, through: bool)
    requires |attempts| == |landed|
    ensures LastLanded(attempts + [attempt], landed + [through]) ==
            if through then Some(attempt) else LastLanded(attempts, landed)
  {
    assert (attempts + [attempt])[..|attempts|] == attempts && (landed + [through])[..|landed|] == landed;
  }

  lemma PublishedSoFar(before: seq<Protocol>, run: seq<Protocol>, attempts: seq<Attempt>, attempt: Attempt)
    requires before != [] && PublishedIsOneOf(before, attempts) && before <= run
    requires forall i :: |before| <= i < |run| ==>
               run[i].published == before[|before| - 1].published || run[i].published == Some(attempt)
    ensures PublishedIsOneOf(run, attempts + [attempt])
  {
    forall i | 0 <= i < |run| && run[i].published.Some? ensures run[i].published.value in attempts + [attempt] {
      assert before[|before| - 1].published.Some? ==> before[|before| - 1].published.value in attempts;
      assert i < |before| ==> run[i] == before[i];
    }
  }

  /** Any number of writes, one after another, on a disk that may fail and in
      processes that may die at any call. Each request is begun and has its outcome. At
      every moment readers are safe, and what they find is a directory one of these
      requests staged. In the end they find the one renamed into place last, or none;
      that includes every request that succeeded, and on a disk that does not fail every
      request whose payloads land succeeds. */
  method Lifetime(requests: seq<Request>, reliable: bool)
    returns (disk: Disk, outcomes: seq<Outcome>, ghost attempts: seq<Attempt>, ghost landed: seq<bool>)
    ensures fresh(disk) && disk.Valid() && disk.reliable == reliable && |outcomes| == |attempts| == |landed| == |requests|
    ensures forall k :: 0 <= k < |requests| ==> attempts[k].request == requests[k] && IsBegun(disk.run, requests[k])
    ensures forall i :: 0 <= i < |disk.run| ==> ReaderFinds(disk.run[i].fs, disk.run[i].published)
    ensures PublishedIsOneOf(disk.run, attempts)
    ensures ReaderFinds(disk.fs, LastLanded(attempts, landed))
    ensures forall k :: 0 <= k < |requests| && outcomes[k].Succeeded? ==> landed[k]
    ensures reliable ==> forall k :: 0 <= k < |requests| && GoesOn(Attempt(requests[k], map[])) ==> outcomes[k].Succeeded?
  {
    hide IsRun, Step, Target, Seen, OnlyWholeLoads, BringsNoOtherManifest, GoesOn, ReaderIsSafe, TemporaryIsSafe;
    hide LastLanded, PublishedIsOneOf, IsBegun, IsHistory, ReaderFinds;
    disk := new Disk(reliable);
    outcomes, attempts, landed := [], [], [];
    NothingWritten(disk.Last(), requests[..0], reliable);
    for k := 0 to |requests|
      invariant fresh(disk) && disk.Valid() && disk.Last().phase.Idle? && disk.reliable == reliable
      invariant |outcomes| == |attempts| == |landed| == k
      invariant IsHistory(disk.run, requests[..k], outcomes, attempts, landed, reliable)
    {
      ghost var before := disk.run;
      var outcome;
      ghost var attempt, through;
      outcome, attempt, through := disk.Write(requests[k]);
      OneWriteMore(before, disk.run, requests[..k], outcomes, attempts, landed, reliable, outcome, attempt, through);
      outcomes, attempts, landed := outcomes + [outcome], attempts + [attempt], landed + [through];
      assert requests[..k + 1] == requests[..k] + [requests[k]];
    }
    assert requests[..|requests|] == requests;
    AllReadersAreSafe(disk.run);
    InvariantAtTheEnd(disk.run);
    HistoryMeans(disk.run, requests, outcomes, attempts, landed, reliable);
  }

  lemma NothingWritten(s: Protocol, requests: seq<Request>, reliable: bool)
    requires requests == [] && s.published == None
    ensures IsHistory([s], requests, [], [], [], reliable)
  {
  }

  lemma HistoryMeans(run: seq<Protocol>, requests: seq<Request>, outcomes: seq<Outcome>,
                     attempts: seq<Attempt>, landed: seq<bool>, reliable: bool)
    requires IsHistory(run, requests, outcomes, attempts, landed, reliable)
    ensures run != [] && |outcomes| == |attempts| == |landed| == |requests|
    ensures forall k :: 0 <= k < |requests| ==> attempts[k].request == requests[k] && IsBegun(run, requests[k])
    ensures PublishedIsOneOf(run, attempts) && run[|run| - 1].published == LastLanded(attempts, landed)
    ensures forall k :: 0 <= k < |requests| && outcomes[k].Succeeded? ==> landed[k]
    ensures reliable ==> forall k :: 0 <= k < |requests| && GoesOn(Attempt(requests[k], map[])) ==> outcomes[k].Succeeded?
  {
    hide GoesOn, LastLanded, PublishedIsOneOf, IsBegun;
  }

  lemma AllReadersAreSafe(run: seq<Protocol>)
    requires IsRun(run)
    ensures forall i :: 0 <= i < |run| ==> ReaderFinds(run[i].fs, run[i].published)
  {
    hide IsRun, ReaderFinds;
    forall i | 0 <= i < |run| ensures ReaderFinds(run[i].fs, run[i].published) {
      ReadersAreSafe(run, i);
    }
  }
}
