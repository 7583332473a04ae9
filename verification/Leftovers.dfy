/**
 What a call of `write` that does not publish leaves in its temporary directory: when
 a loader pointed there would accept it, and as what.
 */
module Leftovers {
  import opened Integers
  import opened Wrappers
  import opened SlotTable
  import opened CheckpointFormat
  import opened Publication

  // ----- what an unpublished attempt leaves behind

  /** The last step of the run ends this attempt, by return or by death, with its
      directory not renamed into place. */
  ghost predicate EndsUnpublished(run: seq<Protocol>, a: Attempt) {
    && IsRun(run) && |run| >= 2
    && var s := run[|run| - 2];
       && s.attempt == a && !s.phase.Idle? && !s.phase.Cleaning?
       && run[|run| - 1] == s.(phase := Idle)
  }

  ghost predicate TemporaryLoads(fs: FileSystem) {
    Temporary in fs && Read(fs[Temporary]).Ok?
  }

  /** Some ending leaves a temporary directory that a loader accepts. */
  ghost predicate MayLeaveALoadableDirectory(a: Attempt) {
    exists run: seq<Protocol> :: EndsUnpublished(run, a) && TemporaryLoads(run[|run| - 1].fs)
  }

  lemma OnlyWholeReads(fs: FileSystem, staged: Option<Dir>)
    requires OnlyWholeLoads(fs, staged) && Temporary in fs
    ensures Read(fs[Temporary]) == Err(NotComplete) || staged.Some?
    ensures Read(fs[Temporary]).Ok? ==>
              && staged.Some? && Read(staged.value).Ok?
              && SameButRecreatable(Read(fs[Temporary]).value, Read(staged.value).value)
  {
    hide Read, HasManifest;
    NothingLoadsWithoutManifest(fs[Temporary]);
    if Read(fs[Temporary]).Ok? {
      PartsAreNeverReadPiecemeal(fs[Temporary], staged.value);
    }
  }

  /** At every moment of an attempt that brings no other manifest, and after it whatever
      its end, a loader pointed at its temporary directory is refused, or reads the
      checkpoint that the attempt stages. */
  lemma LeftoversReadWhole(run: seq<Protocol>, i: nat)
    requires IsRun(run) && i < |run| && BringsNoOtherManifest(run[i].attempt) && Temporary in run[i].fs
    ensures var (found, staged) := (Read(run[i].fs[Temporary]), Target(run[i].attempt));
            && (found == Err(NotComplete) || staged.Some?)
            && (found.Ok? ==>
                  && staged.Some? && Read(staged.value).Ok?
                  && SameButRecreatable(found.value, Read(staged.value).value))
  {
    RunsKeepInvariant(run, i);
    hide IsRun, Read, Target, OnlyWholeLoads, BringsNoOtherManifest, PhaseHolds, ReaderIsSafe;
    OnlyWholeReads(run[i].fs, Target(run[i].attempt));
  }

  lemma OneStepMore(run: seq<Protocol>, t: Protocol)
    requires IsRun(run) && Step(run[|run| - 1], t)
    ensures IsRun(run + [t])
  {
    hide Step;
  }

  ghost predicate RunsTo(run: seq<Protocol>, s: Protocol) {
    run != [] && IsRun(run) && run[|run| - 1] == s
  }

  lemma Goes(run: seq<Protocol>, s: Protocol, t: Protocol) returns (longer: seq<Protocol>)
    requires RunsTo(run, s) && Step(s, t)
    ensures RunsTo(longer, t)
  {
    hide Step;
    OneStepMore(run, t);
    longer := run + [t];
  }

  lemma WholeFileIsAStep(s: Protocol, entry: Entry, file: File, t: Protocol)
    requires IsStaging(s.phase) && t.attempt == s.attempt && t.published == s.published
    requires Next(s.attempt, s.phase, entry, file, t.phase) && Filed(s.fs, t.fs, entry, file)
    ensures Step(s, t)
  {
    hide Next, Filed, Ends, Begins, Clears, Publishes;
  }

  lemma StagingHolds(s: Protocol, entry: Entry, file: File, q: Phase)
    requires Invariant(s) && Next(s.attempt, s.phase, entry, file, q)
    ensures IsStaging(s.phase) && Temporary in s.fs
  {
  }

  /** A run goes on with one more file, whole. */
  lemma StageOn(run: seq<Protocol>, s: Protocol, entry: Entry, file: File, q: Phase)
    returns (longer: seq<Protocol>, t: Protocol)
    requires RunsTo(run, s) && Next(s.attempt, s.phase, entry, file, q)
    ensures RunsTo(longer, t) && t.phase == q && t.attempt == s.attempt
  {
    RunsKeepInvariant(run, |run| - 1);
    hide Next, IsRun, Invariant, Step;
    StagingHolds(s, entry, file, q);
    t := Protocol(s.fs[Temporary := s.fs[Temporary][entry := file]], q, s.attempt, s.published);
    WholeFileIsAStep(s, entry, file, t);
    longer := Goes(run, s, t);
  }

  lemma TurnOn(run: seq<Protocol>, s: Protocol, q: Phase) returns (longer: seq<Protocol>, t: Protocol)
    requires RunsTo(run, s) && IsStaging(s.phase) && Turns(s.attempt, s.phase, q)
    ensures RunsTo(longer, t) && t.phase == q && t.attempt == s.attempt
  {
    hide RunsTo;
    t := Protocol(s.fs, q, s.attempt, s.published);
    assert Stages(s, t);
    hide Turns, Stages;
    longer := Goes(run, s, t);
  }

  lemma OneLess(all: map<string, seq<byte>>, done: map<string, seq<byte>>, name: string)
    requires name in all && name !in done
    ensures name in all.Keys - done.Keys
    ensures all.Keys - done[name := all[name]].Keys == all.Keys - done.Keys - {name}
  {
  }

  lemma {:induction false} StageAllPayloads(run: seq<Protocol>, s: Protocol, done: map<string, seq<byte>>)
    returns (longer: seq<Protocol>, t: Protocol)
    requires RunsTo(run, s) && s.phase == Payloads(done) && IsSomeOf(done, s.attempt.request.payloads)
    ensures RunsTo(longer, t) && t.attempt == s.attempt && t.phase == Payloads(s.attempt.request.payloads)
    decreases s.attempt.request.payloads.Keys - done.Keys
  {
    hide RunsTo;
    var all := s.attempt.request.payloads;
    if name :| name in all && name !in done {
      longer, t := StageOn(run, s, Member(name), Raw(all[name]), Payloads(done[name := all[name]]));
      OneLess(all, done, name);
      longer, t := StageAllPayloads(longer, t, done[name := all[name]]);
    } else {
      assert done == all;
      longer, t := run, s;
    }
  }

  lemma {:induction false} StageAllArtifacts(run: seq<Protocol>, s: Protocol, done: map<string, seq<byte>>)
    returns (longer: seq<Protocol>, t: Protocol)
    requires RunsTo(run, s) && s.phase == Artifacts(done) && IsStageOf(s.attempt, s.phase)
    ensures RunsTo(longer, t) && t.attempt == s.attempt && t.phase == Artifacts(s.attempt.request.checkpoint.artifacts)
    decreases s.attempt.request.checkpoint.artifacts.Keys - done.Keys
  {
    hide RunsTo, GoesOn, Contents, ManifestOver;
    var all := s.attempt.request.checkpoint.artifacts;
    if name :| name in all && name !in done {
      longer, t := StageOn(run, s, Artifact(name), Raw(all[name]), Artifacts(done[name := all[name]]));
      OneLess(all, done, name);
      longer, t := StageAllArtifacts(longer, t, done[name := all[name]]);
    } else {
      assert done == all;
      longer, t := run, s;
    }
  }

  lemma {:induction false} StageAllDocuments(run: seq<Protocol>, s: Protocol, count: nat)
    returns (longer: seq<Protocol>, t: Protocol)
    requires RunsTo(run, s) && s.phase == Documents(count) && count <= 5 && GoesOn(s.attempt)
    ensures RunsTo(longer, t) && t.attempt == s.attempt && t.phase == Documents(5)
    decreases 5 - count
  {
    hide RunsTo, GoesOn, StateFiles;
    if count < 5 {
      var next := StateFiles(s.attempt.request.checkpoint)[count];
      longer, t := StageOn(run, s, next.0, next.1, Documents(count + 1));
      longer, t := StageAllDocuments(longer, t, count + 1);
    } else {
      longer, t := run, s;
    }
  }

  lemma Cleared(a: Attempt) returns (run: seq<Protocol>, s: Protocol)
    ensures RunsTo(run, s) && s.phase == Payloads(map[]) && s.attempt == a
  {
    var fs: FileSystem := map[Temporary := a.leftover];
    var s0, s1 := Protocol(fs, Idle, a, None), Protocol(fs, Clearing, a, None);
    s := Protocol(fs, Payloads(map[]), a, None);
    assert RunsTo([s0], s0);
    assert Step(s0, s1) && Step(s1, s);
    hide Step, RunsTo;
    run := Goes([s0], s0, s1);
    run := Goes(run, s1, s);
  }

  lemma FirstTurn(a: Attempt)
    requires GoesOn(a)
    ensures Turns(a, Payloads(a.request.payloads), Documents(0)) && Turns(a, Documents(5), Artifacts(map[]))
    ensures IsStageOf(a, Artifacts(map[]))
    ensures IsStageOf(a, Artifacts(a.request.checkpoint.artifacts))
  {
    hide GoesOn;
  }

  lemma ManifestIsNext(a: Attempt)
    requires IsStageOf(a, Artifacts(a.request.checkpoint.artifacts))
    ensures var p := Artifacts(a.request.checkpoint.artifacts);
            Next(a, p, Member(MANIFEST_FILE), ManifestOver(a, Contents(a, p)), Ready)
  {
    hide Contents, GoesOn, ManifestOver, IsSomeOf;
  }

  /** An attempt that gets past its payload writer can come to hold its whole directory. */
  lemma CanBeReady(a: Attempt) returns (run: seq<Protocol>, s: Protocol)
    requires GoesOn(a)
    ensures RunsTo(run, s) && s.phase.Ready? && s.attempt == a
  {
    hide RunsTo, GoesOn, Turns, Next, Contents, ManifestOver, IsStageOf;
    FirstTurn(a);
    run, s := Cleared(a);
    run, s := StageAllPayloads(run, s, map[]);
    run, s := TurnOn(run, s, Documents(0));
    run, s := StageAllDocuments(run, s, 0);
    run, s := TurnOn(run, s, Artifacts(map[]));
    run, s := StageAllArtifacts(run, s, map[]);
    ManifestIsNext(a);
    run, s := StageOn(run, s, Member(MANIFEST_FILE), ManifestOver(a, Contents(a, s.phase)), Ready);
  }

  /** An attempt may end, unpublished, with a directory that a loader accepts, if and
      only if it gets past its payload writer and `read` accepts what it stages: a
      process that dies, or a call that fails, between the manifest and the rename
      leaves it complete, and no other ending of it leaves anything that loads. */
  lemma WhenAnUnpublishedDirectoryLoads(a: Attempt)
    requires BringsNoOtherManifest(a)
    ensures MayLeaveALoadableDirectory(a) <==>
            GoesOn(a) && Accepted(a.request.checkpoint, a.leftover, a.request.payloads)
  {
    TargetExists(a);
    if MayLeaveALoadableDirectory(a) {
      var run: seq<Protocol> :| EndsUnpublished(run, a) && TemporaryLoads(run[|run| - 1].fs);
      LoadsOnlyIfAccepted(run, a);
    }
    if GoesOn(a) && Accepted(a.request.checkpoint, a.leftover, a.request.payloads) {
      LoadsIfAccepted(a);
    }
  }

  lemma TargetIsRead(a: Attempt)
    requires Target(a).Some?
    ensures Read(Target(a).value).Ok? <==> Accepted(a.request.checkpoint, a.leftover, a.request.payloads)
  {
    hide Read, Accepted, Staged;
    StagedIsRead(a.request.host, a.request.checkpoint, a.leftover, a.request.payloads, Target(a).value);
  }

  lemma LoadsOnlyIfAccepted(run: seq<Protocol>, a: Attempt)
    requires BringsNoOtherManifest(a) && EndsUnpublished(run, a) && TemporaryLoads(run[|run| - 1].fs)
    ensures Target(a).Some? && Accepted(a.request.checkpoint, a.leftover, a.request.payloads)
  {
    hide Read, Accepted, Target, BringsNoOtherManifest, IsRun;
    LeftoversReadWhole(run, |run| - 1);
    TargetIsRead(a);
  }

  /** The process dies here, or the call returns an error. */
  lemma EndsHere(run: seq<Protocol>, s: Protocol) returns (ended: seq<Protocol>)
    requires RunsTo(run, s) && !s.phase.Idle? && !s.phase.Cleaning?
    ensures EndsUnpublished(ended, s.attempt) && ended != [] && ended[|ended| - 1].fs == s.fs
  {
    var t := s.(phase := Idle);
    hide IsRun, Step;
    assert Ends(s, t);
    EndIsAStep(s, t);
    OneStepMore(run, t);
    ended := run + [t];
  }

  lemma EndIsAStep(s: Protocol, t: Protocol)
    requires Ends(s, t)
    ensures Step(s, t)
  {
    hide Begins, Clears, Stages, Publishes;
  }

  lemma LoadsIfAccepted(a: Attempt)
    requires GoesOn(a) && Accepted(a.request.checkpoint, a.leftover, a.request.payloads)
    ensures MayLeaveALoadableDirectory(a)
  {
    hide GoesOn, Accepted, Target, ReaderIsSafe, TemporaryIsSafe, EndsUnpublished, Read;
    var run, s := CanBeReady(a);
    hide IsRun;
    InvariantAtTheEnd(run);
    TargetIsRead(a);
    var ended := EndsHere(run, s);
    assert EndsUnpublished(ended, a) && TemporaryLoads(ended[|ended| - 1].fs);
  }

  /** The same over an emptied temporary directory, in terms of the request alone. */
  ghost predicate IsFitToLoad(r: Request) {
    var (c, payloads) := (r.checkpoint, r.payloads);
    && !r.writerFails
    && (forall name :: name in Declared(c) ==> name in payloads)
    && (c.optimizer.stateBytes > 0 ==> |payloads[OPTIMIZER_STATE_FILE]| == c.optimizer.stateBytes)
    && VersionsCurrent(c)
    && (forall name :: name in c.manifest.files ==> name in Produced(payloads))
    && ValidTable(c.optimizer.slots, c.optimizer.stateBytes)
    && (forall name :: name in c.manifest.artifacts && c.manifest.artifacts[name] == Required ==> name in c.artifacts)
  }

  lemma LandedOnNothing(r: Request)
    ensures var (c, landed) := (r.checkpoint, WithPayloads(map[], r.payloads));
            PayloadsLanded(r.host, c, landed) <==>
            && (forall name :: name in Declared(c) ==> name in r.payloads)
            && (c.optimizer.stateBytes > 0 ==> |r.payloads[OPTIMIZER_STATE_FILE]| == c.optimizer.stateBytes)
  {
    hide WithPayloads;
    var c, landed := r.checkpoint, WithPayloads(map[], r.payloads);
    assert c.optimizer.stateBytes > 0 ==> OPTIMIZER_STATE_FILE in Declared(c);
    hide Declared;
    forall name ensures Member(name) in landed <==> name in r.payloads {
    }
  }

  lemma FitToLoadIs(r: Request)
    ensures IsFitToLoad(r) <==>
            GoesOn(Attempt(r, map[])) && Accepted(r.checkpoint, map[], r.payloads)
  {
    LandedOnNothing(r);
    hide VersionsCurrent, ValidTable, Produced, PayloadsLanded, WithPayloads, Declared;
  }

  /** Over an emptied temporary directory, and with no payload under the manifest's
      name, "an interrupted write leaves no directory a loader would accept" is true of
      exactly the requests a caller can tell to be unfit. */
  lemma WhenAnInterruptedWriteLoads(r: Request)
    requires MANIFEST_FILE !in r.payloads
    ensures MayLeaveALoadableDirectory(Attempt(r, map[])) <==> IsFitToLoad(r)
  {
    hide GoesOn, Accepted, IsFitToLoad, MayLeaveALoadableDirectory;
    FitToLoadIs(r);
    WhenAnUnpublishedDirectoryLoads(Attempt(r, map[]));
  }

  // ----- where the conditions are needed

  /** A checkpoint with nothing but its state files, all of whose records say `body`. */
  function Plain(body: string): Checkpoint {
    var r := Record(FORMAT_VERSION, body);
    Checkpoint(Manifest(FORMAT_VERSION, "", None, None, [], map[]), r, r,
               Optimizer(FORMAT_VERSION, body, [], 0), r, r, map[])
  }

  lemma PlainIsAccepted(host: Host, body: string, leftover: Dir)
    ensures GoesOn(Attempt(Request(host, Plain(body), map[], false), leftover))
    ensures ReadsBack(Plain(body), leftover, map[]) && Accepted(Plain(body), leftover, map[])
  {
    hide WithPayloads;
    NothingDeclared(host, Plain(body), WithPayloads(leftover, map[]));
  }

  /** One state file written over an old directory: still that directory's manifest. */
  lemma OneNewFile(dir: Dir, c: Checkpoint, progress: Record)
    requires HoldsState(dir, c) && ReadDocument(dir, MANIFEST_FILE) == Some(ManifestDoc(c.manifest))
    ensures var mixed := dir[Member(PROGRESS_FILE) := ProgressDoc(progress)];
            && HoldsState(mixed, c.(progress := progress))
            && ReadDocument(mixed, MANIFEST_FILE) == Some(ManifestDoc(c.manifest))
  {
    FileNamesDiffer();
  }

  lemma PlainIsHeld(host: Host, body: string) returns (dir: Dir)
    ensures Target(Attempt(Request(host, Plain(body), map[], false), map[])) == Some(dir)
    ensures HoldsState(dir, Plain(body)) && ReadDocument(dir, MANIFEST_FILE) == Some(ManifestDoc(Plain(body).manifest))
  {
    PlainIsAccepted(host, body, map[]);
    var a := Attempt(Request(host, Plain(body), map[], false), map[]);
    TargetExists(a);
    hide GoesOn, Staged, HoldsState, ReadDocument, BeforeManifest;
    dir := Target(a).value;
    StagedMembers(host, Plain(body), map[], map[], dir);
  }

  lemma PlainReads(dir: Dir, c: Checkpoint)
    requires HoldsState(dir, c) && ReadDocument(dir, MANIFEST_FILE) == Some(ManifestDoc(c.manifest))
    requires VersionsCurrent(c) && c.manifest == Plain("").manifest && c.artifacts == map[]
    requires c.optimizer.slots == [] && c.optimizer.stateBytes == 0
    ensures Read(dir) == Ok(c)
  {
    ReadOfHeldState(dir, c.manifest, c);
    hide Read, HoldsState, ReadDocument;
    assert ReadArtifacts(dir, c.manifest) == map[];
  }

  lemma FirstFile(dir: Dir, files: seq<(Entry, File)>)
    requires files != []
    ensures WithFiles(dir, files[..1]) == dir[files[0].0 := files[0].1]
  {
    assert files[..1][..0] == [];
  }

  lemma NothingLands(a: Attempt)
    requires a.request.payloads == map[]
    ensures Landed(a) == a.leftover
  {
    NothingStaged(a.leftover);
  }

  lemma AfterOneFile(a: Attempt)
    requires GoesOn(a) && a.request.payloads == map[]
    ensures IsStageOf(a, Documents(1))
    ensures Contents(a, Documents(1)) == a.leftover[Member(PROGRESS_FILE) := ProgressDoc(a.request.checkpoint.progress)]
  {
    hide GoesOn, WithFiles, Landed;
    FirstFile(Landed(a), StateFiles(a.request.checkpoint));
    NothingLands(a);
  }

  lemma DiesAfterOneFile(a: Attempt) returns (run: seq<Protocol>)
    requires GoesOn(a) && a.request.payloads == map[]
    ensures EndsUnpublished(run, a)
    ensures run != []
            && var fs := run[|run| - 1].fs;
               && Temporary in fs
               && fs[Temporary] == a.leftover[Member(PROGRESS_FILE) := ProgressDoc(a.request.checkpoint.progress)]
  {
    hide GoesOn, IsRun, EndsUnpublished, Contents, IsStageOf;
    var s;
    run, s := Cleared(a);
    AfterOneFile(a);
    FirstTurn(a);
    run, s := TurnOn(run, s, Documents(0));
    var next := StateFiles(a.request.checkpoint)[0];
    DocumentIsNext(a, 0);
    run, s := StageOn(run, s, next.0, next.1, Documents(1));
    StagingEnd(run);
    run := EndsHere(run, s);
  }

  lemma DocumentIsNext(a: Attempt, count: nat)
    requires GoesOn(a) && count < 5
    ensures var next := StateFiles(a.request.checkpoint)[count];
            Next(a, Documents(count), next.0, next.1, Documents(count + 1))
  {
    hide GoesOn, StateFiles;
  }

  /** If the manifest of an earlier attempt could not be removed, which goes unnoticed,
      an attempt that dies after its first state file leaves a directory that loads as a
      checkpoint nobody wrote. */
  lemma AnOldManifestMayLoadAMix(host: Host) returns (run: seq<Protocol>, a: Attempt)
    ensures EndsUnpublished(run, a) && HasManifest(a.leftover)
    ensures a.request.checkpoint == Plain("new")
    ensures Target(Attempt(Request(host, Plain("old"), map[], false), map[])) == Some(a.leftover)
    ensures run != []
            && var fs := run[|run| - 1].fs;
               Temporary in fs && Read(fs[Temporary]) == Ok(Plain("old").(progress := Plain("new").progress))
  {
    hide GoesOn, Target, Accepted, ReadsBack, HoldsState, Read, EndsUnpublished;
    var dir := PlainIsHeld(host, "old");
    a := Attempt(Request(host, Plain("new"), map[], false), dir);
    PlainIsAccepted(host, "new", dir);
    run := DiesAfterOneFile(a);
    OneNewFile(dir, Plain("old"), Plain("new").progress);
    PlainReads(run[|run| - 1].fs[Temporary], Plain("old").(progress := Plain("new").progress));
  }

  lemma PublicationIsAStep(s: Protocol, t: Protocol)
    requires Publishes(s, t)
    ensures Step(s, t)
  {
    hide Ends, Begins, Clears, Stages, Publishes;
  }

  /** `write` reports an error when it cannot remove the backup, although the new
      directory is in place by then. */
  lemma AnErrorMayFollowTheRename(run: seq<Protocol>, s: Protocol) returns (longer: seq<Protocol>, t: Protocol)
    requires RunsTo(run, s) && s.phase.Publishing? && Backup in s.fs
    ensures RunsTo(longer, t) && t.phase.Idle? && Backup in t.fs
    ensures t.published == Some(s.attempt) && Seen(t.fs) == Target(s.attempt)
  {
    hide Target, Seen, IsRun, ReaderIsSafe, TemporaryIsSafe, Step;
    PublishingEnd(run);
    var renamed := Protocol((s.fs - {Temporary})[Canonical := s.fs[Temporary]], Cleaning, s.attempt, Some(s.attempt));
    t := renamed.(phase := Idle);
    PublicationIsAStep(s, renamed);
    EndIsAStep(renamed, t);
    longer := Goes(run, s, renamed);
    longer := Goes(longer, renamed, t);
    InvariantAtTheEnd(longer);
    SafeMeans(t);
  }
}
