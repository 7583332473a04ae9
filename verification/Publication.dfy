/**
 Publishing a checkpoint directory: the protocol of `write` as a state machine
 over its file system calls, and what readers see along any run of it.

 A call may fail, the process may die between any two calls, a file may be left
 torn, and removing a directory may stop half-way and leave any part of it. A
 rename is atomic.
 */
module Publication {
  import opened Integers
  import opened Wrappers
  import opened CheckpointFormat

  /** The three directories the protocol moves between. */
  datatype Place = Canonical | Backup | Temporary

  type FileSystem = map<Place, Dir>

  /** `readable_state_dir`. */
  function ReadablePlace(fs: FileSystem): Place {
    if Canonical in fs then Canonical
    else if Backup in fs then Backup
    else Canonical
  }

  /** What a reader finds there. */
  function Seen(fs: FileSystem): Option<Dir> {
    if ReadablePlace(fs) in fs then Some(fs[ReadablePlace(fs)]) else None
  }

  // ----- what one call of `write` is asked for, and what it stages

  datatype Request = Request(host: Host, checkpoint: Checkpoint, payloads: map<string, seq<byte>>, writerFails: bool)

  /** A request, and what could not be removed of an earlier attempt at the same temporary directory. */
  datatype Attempt = Attempt(request: Request, leftover: Dir)

  /** The directory once the payload writer is done. */
  function Landed(a: Attempt): Dir {
    WithPayloads(a.leftover, a.request.payloads)
  }

  /** `write_into` gets past the payload writer and the check behind it. */
  predicate GoesOn(a: Attempt) {
    !a.request.writerFails && PayloadsLanded(a.request.host, a.request.checkpoint, Landed(a))
  }

  /** The directory `write` publishes if nothing fails. */
  function Target(a: Attempt): Option<Dir> {
    if a.request.writerFails then None
    else Staged(a.request.host, a.request.checkpoint, a.leftover, a.request.payloads)
  }

  /** The state files in the order they are written. */
  function StateFiles(c: Checkpoint): (files: seq<(Entry, File)>)
    ensures |files| == 5
  {
    [(Member(PROGRESS_FILE), ProgressDoc(c.progress)), (Member(SCHEDULER_FILE), SchedulerDoc(c.scheduler)),
     (Member(OPTIMIZER_FILE), OptimizerDoc(c.optimizer)), (Member(RNG_FILE), RngDoc(c.rng)),
     (Member(DATASET_FILE), DatasetDoc(c.dataset))]
  }

  function WithFiles(dir: Dir, files: seq<(Entry, File)>): Dir {
    if files == [] then dir
    else
      var last := files[|files| - 1];
      WithFiles(dir, files[..|files| - 1])[last.0 := last.1]
  }

  // ----- the protocol

  /** Where a call of `write` is: emptying the temporary directory, staging one file
      after another, having failed to, and then the renames. */
  datatype Phase =
    | Idle
    | Clearing
    | Payloads(done: map<string, seq<byte>>)
    | Documents(count: nat)
    | Artifacts(done: map<string, seq<byte>>)
    | Failing
    | Ready
    | Retiring
    | Publishing
    | RollingBack
    | Discarding
    | Cleaning

  predicate IsStaging(p: Phase) {
    p.Payloads? || p.Documents? || p.Artifacts?
  }

  /** The call under way, or the last one, and the one whose directory was published last. */
  datatype Protocol = Protocol(fs: FileSystem, phase: Phase, attempt: Attempt, published: Option<Attempt>)

  predicate IsSomeOf(done: map<string, seq<byte>>, all: map<string, seq<byte>>) {
    forall name :: name in done ==> name in all && done[name] == all[name]
  }

  /** A stage the attempt can have reached. */
  predicate IsStageOf(a: Attempt, p: Phase) {
    match p
    case Payloads(done) => IsSomeOf(done, a.request.payloads)
    case Documents(count) => GoesOn(a) && count <= 5
    case Artifacts(done) => GoesOn(a) && IsSomeOf(done, a.request.checkpoint.artifacts)
    case _ => false
  }

  /** What the temporary directory holds at a stage. */
  function Contents(a: Attempt, p: Phase): Dir
    requires IsStageOf(a, p)
  {
    match p
    case Payloads(done) => WithPayloads(a.leftover, done)
    case Documents(count) => WithFiles(Landed(a), StateFiles(a.request.checkpoint)[..count])
    case Artifacts(done) => WithArtifacts(WithState(Landed(a), a.request.checkpoint), done)
  }

  /** The manifest as the attempt writes it over what it has staged. */
  function ManifestOver(a: Attempt, dir: Dir): File {
    ManifestDoc(Completed(a.request.host, a.request.checkpoint.manifest, dir))
  }

  /** `entry` is a file the attempt may write next, `file` what it writes there, and
      `q` where it is then. Payloads and artifacts come in any order. */
  ghost predicate Next(a: Attempt, p: Phase, entry: Entry, file: File, q: Phase) {
    IsStageOf(a, p) &&
    match p
    case Payloads(done) => NextPayload(a.request.payloads, done, entry, file, q)
    case Documents(count) =>
      count < 5 && (entry, file) == StateFiles(a.request.checkpoint)[count] && q == Documents(count + 1)
    case Artifacts(done) =>
      || NextArtifact(a.request.checkpoint.artifacts, done, entry, file, q)
      || (done == a.request.checkpoint.artifacts
          && entry == Member(MANIFEST_FILE) && file == ManifestOver(a, Contents(a, p)) && q == Ready)
  }

  predicate NextPayload(all: map<string, seq<byte>>, done: map<string, seq<byte>>, entry: Entry, file: File, q: Phase) {
    && entry.Member? && entry.name in all && entry.name !in done
    && file == Raw(all[entry.name]) && q == Payloads(done[entry.name := all[entry.name]])
  }

  predicate NextArtifact(all: map<string, seq<byte>>, done: map<string, seq<byte>>, entry: Entry, file: File, q: Phase) {
    && entry.Artifact? && entry.name in all && entry.name !in done
    && file == Raw(all[entry.name]) && q == Artifacts(done[entry.name := all[entry.name]])
  }

  /** From one group of files to the next. */
  ghost predicate Turns(a: Attempt, p: Phase, q: Phase) {
    || (p == Payloads(a.request.payloads) && GoesOn(a) && q == Documents(0))
    || (p == Documents(5) && q == Artifacts(map[]))
  }

  predicate SameExcept(fs: FileSystem, gs: FileSystem, place: Place) {
    forall other :: other != place ==>
      (other in fs <==> other in gs) && (other in fs ==> fs[other] == gs[other])
  }

  /** What an interrupted removal leaves: nothing, or some of the entries. */
  ghost predicate Remnant(fs: FileSystem, gs: FileSystem, place: Place) {
    && SameExcept(fs, gs, place)
    && (place in gs ==> place in fs && IsPartOf(gs[place], fs[place]))
  }

  predicate Renamed(fs: FileSystem, gs: FileSystem, from: Place, to: Place) {
    from in fs && to !in fs && gs == (fs - {from})[to := fs[from]]
  }

  function TemporaryOf(fs: FileSystem): Dir {
    if Temporary in fs then fs[Temporary] else map[]
  }

  /** The file system once one file of the temporary directory is written. */
  predicate Filed(fs: FileSystem, gs: FileSystem, entry: Entry, file: File) {
    Temporary in fs && gs == fs[Temporary := fs[Temporary][entry := file]]
  }

  /** The call returns, with or without an error, or dies. */
  ghost predicate Ends(s: Protocol, t: Protocol) {
    t == s.(phase := Idle)
  }

  ghost predicate Begins(s: Protocol, t: Protocol) {
    && s.phase.Idle? && t.phase.Clearing?
    && t.fs == s.fs && t.published == s.published && t.attempt.leftover == TemporaryOf(s.fs)
  }

  /** `remove_dir_all`, as far as it gets, and `create_dir_all`. */
  ghost predicate Clears(s: Protocol, t: Protocol) {
    && s.phase.Clearing? && t.attempt.request == s.attempt.request && t.published == s.published
    && (|| (t.phase.Clearing? && Remnant(s.fs, t.fs, Temporary) && t.attempt.leftover == TemporaryOf(t.fs))
        || (t.phase == Payloads(map[]) && t.attempt == s.attempt && t.fs == s.fs[Temporary := s.attempt.leftover]))
  }

  /** One file of this attempt, whole; or a failure, the file missing or torn. */
  ghost predicate Stages(s: Protocol, t: Protocol) {
    && IsStaging(s.phase) && t.attempt == s.attempt && t.published == s.published
    && (|| (exists entry, file :: Next(s.attempt, s.phase, entry, file, t.phase) && Filed(s.fs, t.fs, entry, file))
        || (Turns(s.attempt, s.phase, t.phase) && t.fs == s.fs)
        || (t.phase.Failing? && Fails(s, t)))
  }

  ghost predicate Fails(s: Protocol, t: Protocol) {
    t.fs == s.fs ||
    exists entry, file, q :: Next(s.attempt, s.phase, entry, file, q) && Filed(s.fs, t.fs, entry, Torn)
  }

  /** The renames, and the removals around them. */
  ghost predicate Publishes(s: Protocol, t: Protocol) {
    t.attempt == s.attempt &&
    match s.phase
    case Failing => t.phase.Failing? && t.published == s.published && Remnant(s.fs, t.fs, Temporary)
    case Ready =>
      && t.published == s.published
      && (if Canonical in s.fs && Backup in s.fs
          then Remnant(s.fs, t.fs, Backup) && (t.phase.Ready? || (t.phase.Retiring? && Backup !in t.fs))
          else t.phase.Retiring? && t.fs == s.fs)
    case Retiring =>
      && t.phase.Publishing? && t.published == s.published
      && (if Canonical in s.fs then Renamed(s.fs, t.fs, Canonical, Backup) else t.fs == s.fs)
    case Publishing =>
      || (t.phase.Cleaning? && Renamed(s.fs, t.fs, Temporary, Canonical) && t.published == Some(s.attempt))
      || (t.phase.RollingBack? && t.fs == s.fs && t.published == s.published)
    case RollingBack =>
      && t.phase.Discarding? && t.published == s.published
      && (t.fs == s.fs || Renamed(s.fs, t.fs, Backup, Canonical))
    case Discarding => t.phase.Discarding? && t.published == s.published && Remnant(s.fs, t.fs, Temporary)
    case Cleaning => t.phase.Cleaning? && t.published == s.published && Remnant(s.fs, t.fs, Backup)
    case _ => false
  }

  ghost predicate Step(s: Protocol, t: Protocol) {
    Ends(s, t) || Begins(s, t) || Clears(s, t) || Stages(s, t) || Publishes(s, t)
  }

  ghost predicate Initial(s: Protocol) {
    s.phase.Idle? && Canonical !in s.fs && Backup !in s.fs && s.published == None
    && s.attempt.leftover == TemporaryOf(s.fs)
  }

  /** Any sequence of writes, failures and crashes. */
  ghost predicate IsRun(run: seq<Protocol>) {
    && run != [] && Initial(run[0])
    && forall i :: 0 <= i < |run| - 1 ==> Step(run[i], run[i + 1])
  }

  // ----- the invariant

  /** A reader finds the whole directory of `last`, or, before anything was published,
      no directory. */
  ghost predicate ReaderFinds(fs: FileSystem, last: Option<Attempt>) {
    match last
    case Some(a) => Target(a).Some? && Seen(fs) == Target(a)
    case None => Seen(fs) == None
  }

  /** What a reader may rely on. */
  ghost predicate ReaderIsSafe(s: Protocol) {
    ReaderFinds(s.fs, s.published)
  }

  /** The attempt brings no manifest but its own: none was left behind, and no payload
      goes by its name. */
  predicate BringsNoOtherManifest(a: Attempt) {
    !HasManifest(a.leftover) && MANIFEST_FILE !in a.request.payloads
  }

  /** A loader pointed at the temporary directory finds no checkpoint there, or the
      one of `staged`, or what a removal left of that. */
  ghost predicate OnlyWholeLoads(fs: FileSystem, staged: Option<Dir>) {
    Temporary in fs && HasManifest(fs[Temporary]) ==> staged.Some? && IsPartOf(fs[Temporary], staged.value)
  }

  ghost predicate TemporaryIsSafe(s: Protocol) {
    BringsNoOtherManifest(s.attempt) ==> OnlyWholeLoads(s.fs, Target(s.attempt))
  }

  ghost predicate Waits(s: Protocol) {
    Temporary in s.fs && Target(s.attempt) == Some(s.fs[Temporary])
  }

  ghost predicate PhaseHolds(s: Protocol) {
    match s.phase
    case Clearing => s.attempt.leftover == TemporaryOf(s.fs)
    case Payloads(_) => IsStagedSoFar(s)
    case Documents(_) => IsStagedSoFar(s)
    case Artifacts(_) => IsStagedSoFar(s)
    case Ready => Waits(s)
    case Retiring => Waits(s) && (Canonical in s.fs ==> Backup !in s.fs)
    case Publishing => Waits(s) && Canonical !in s.fs
    case RollingBack => Canonical !in s.fs
    case Cleaning => Canonical in s.fs
    case _ => true
  }

  /** The temporary directory holds exactly what the stage says. */
  predicate IsStagedSoFar(s: Protocol) {
    IsStageOf(s.attempt, s.phase) && Temporary in s.fs && s.fs[Temporary] == Contents(s.attempt, s.phase)
  }

  ghost predicate Invariant(s: Protocol) {
    ReaderIsSafe(s) && TemporaryIsSafe(s) && PhaseHolds(s)
  }

  lemma OneMoreStagedPayload(dir: Dir, done: map<string, seq<byte>>, name: string, bytes: seq<byte>)
    ensures WithPayloads(dir, done[name := bytes]) == WithPayloads(dir, done)[Member(name) := Raw(bytes)]
  {
    hide WithPayloads;
    var more, once := WithPayloads(dir, done[name := bytes]), WithPayloads(dir, done)[Member(name) := Raw(bytes)];
    assert forall e :: e in more <==> e in once;
    assert forall e :: e in more ==> more[e] == once[e];
  }

  lemma OneMoreArtifact(dir: Dir, done: map<string, seq<byte>>, name: string, bytes: seq<byte>)
    ensures WithArtifacts(dir, done[name := bytes]) == WithArtifacts(dir, done)[Artifact(name) := Raw(bytes)]
  {
    hide WithArtifacts;
    var more, once := WithArtifacts(dir, done[name := bytes]), WithArtifacts(dir, done)[Artifact(name) := Raw(bytes)];
    assert forall e :: e in more <==> e in once;
    assert forall e :: e in more ==> more[e] == once[e];
  }

  lemma NothingStaged(dir: Dir)
    ensures WithPayloads(dir, map[]) == dir && WithArtifacts(dir, map[]) == dir && WithFiles(dir, []) == dir
  {
  }

  lemma OneMoreFile(dir: Dir, files: seq<(Entry, File)>, n: nat)
    requires n < |files|
    ensures WithFiles(dir, files[..n + 1]) == WithFiles(dir, files[..n])[files[n].0 := files[n].1]
  {
    assert files[..n + 1][..n] == files[..n];
  }

  lemma StateInOrder(dir: Dir, c: Checkpoint)
    ensures WithFiles(dir, StateFiles(c)) == WithState(dir, c)
  {
    hide WithFiles, WithPayloads, WithArtifacts;
    var files := StateFiles(c);
    NothingStaged(dir);
    assert files[..0] == [] && files[..5] == files;
    OneMoreFile(dir, files, 0);
    OneMoreFile(dir, files, 1);
    OneMoreFile(dir, files, 2);
    OneMoreFile(dir, files, 3);
    OneMoreFile(dir, files, 4);
  }

  lemma TargetExists(a: Attempt)
    ensures Target(a).Some? <==> GoesOn(a)
  {
    hide PayloadsLanded, WithPayloads, BeforeManifest, Completed;
  }

  // ----- staging keeps to the plan

  lemma NextPayloadContents(a: Attempt, done: map<string, seq<byte>>, entry: Entry, file: File, q: Phase)
    requires IsSomeOf(done, a.request.payloads) && NextPayload(a.request.payloads, done, entry, file, q)
    ensures IsStageOf(a, q) && Contents(a, q) == Contents(a, Payloads(done))[entry := file]
  {
    hide WithPayloads;
    OneMoreStagedPayload(a.leftover, done, entry.name, a.request.payloads[entry.name]);
  }

  lemma NextArtifactContents(a: Attempt, done: map<string, seq<byte>>, entry: Entry, file: File, q: Phase)
    requires IsStageOf(a, Artifacts(done)) && NextArtifact(a.request.checkpoint.artifacts, done, entry, file, q)
    ensures IsStageOf(a, q) && Contents(a, q) == Contents(a, Artifacts(done))[entry := file]
  {
    hide WithPayloads, WithState, WithArtifacts, GoesOn;
    var c := a.request.checkpoint;
    OneMoreArtifact(WithState(Landed(a), c), done, entry.name, c.artifacts[entry.name]);
  }

  lemma ManifestCompletes(a: Attempt)
    requires IsStageOf(a, Artifacts(a.request.checkpoint.artifacts))
    ensures var before := Contents(a, Artifacts(a.request.checkpoint.artifacts));
            Target(a) == Some(before[Member(MANIFEST_FILE) := ManifestOver(a, before)])
  {
    hide WithPayloads, WithState, WithArtifacts, Completed, PayloadsLanded;
  }

  /** Writing one file brings the directory to the next stage. */
  lemma NextContents(a: Attempt, p: Phase, entry: Entry, file: File, q: Phase)
    requires Next(a, p, entry, file, q)
    ensures q.Ready? ==> Target(a) == Some(Contents(a, p)[entry := file])
    ensures !q.Ready? ==> IsStageOf(a, q) && Contents(a, q) == Contents(a, p)[entry := file]
  {
    hide WithPayloads, WithFiles, WithArtifacts, WithState, Target, GoesOn, ManifestOver, IsSomeOf;
    if p.Payloads? {
      NextPayloadContents(a, p.done, entry, file, q);
    } else if p.Documents? {
      OneMoreFile(Landed(a), StateFiles(a.request.checkpoint), p.count);
    } else if q.Ready? {
      ManifestCompletes(a);
    } else {
      NextArtifactContents(a, p.done, entry, file, q);
    }
  }

  lemma TurnContents(a: Attempt, p: Phase, q: Phase)
    requires IsStageOf(a, p) && Turns(a, p, q)
    ensures IsStageOf(a, q) && Contents(a, q) == Contents(a, p)
  {
    hide WithPayloads, WithFiles, WithArtifacts, WithState, GoesOn;
    var files := StateFiles(a.request.checkpoint);
    assert files[..0] == [] && files[..5] == files;
    NothingStaged(Landed(a));
    NothingStaged(WithState(Landed(a), a.request.checkpoint));
    StateInOrder(Landed(a), a.request.checkpoint);
  }

  lemma {:induction false} FilesBringNoManifest(dir: Dir, files: seq<(Entry, File)>)
    requires !HasManifest(dir) && forall i :: 0 <= i < |files| ==> files[i].0 != Member(MANIFEST_FILE)
    ensures !HasManifest(WithFiles(dir, files))
    decreases |files|
  {
    if files != [] {
      FilesBringNoManifest(dir, files[..|files| - 1]);
    }
  }

  lemma PayloadsBringNoManifest(a: Attempt, done: map<string, seq<byte>>)
    requires BringsNoOtherManifest(a) && IsSomeOf(done, a.request.payloads)
    ensures !HasManifest(WithPayloads(a.leftover, done))
  {
    hide WithPayloads;
  }

  lemma StateFilesAreNoManifest(c: Checkpoint)
    ensures forall i :: 0 <= i < 5 ==> StateFiles(c)[i].0 != Member(MANIFEST_FILE)
  {
    FileNamesDiffer();
  }

  /** Until it writes its own, the attempt's directory has no manifest. */
  lemma NoManifestYet(a: Attempt, p: Phase)
    requires BringsNoOtherManifest(a) && IsStageOf(a, p)
    ensures !HasManifest(Contents(a, p))
  {
    hide WithPayloads, WithFiles, WithState, WithArtifacts, HasManifest, GoesOn, StateFiles;
    var c := a.request.checkpoint;
    StateFilesAreNoManifest(c);
    if p.Payloads? {
      PayloadsBringNoManifest(a, p.done);
    } else {
      PayloadsBringNoManifest(a, a.request.payloads);
      if p.Documents? {
        FilesBringNoManifest(Landed(a), StateFiles(c)[..p.count]);
      } else {
        FilesBringNoManifest(Landed(a), StateFiles(c));
        StateInOrder(Landed(a), c);
        ArtifactsAreNoManifest(WithState(Landed(a), c), p.done);
      }
    }
  }

  lemma ArtifactsAreNoManifest(dir: Dir, artifacts: map<string, seq<byte>>)
    ensures HasManifest(WithArtifacts(dir, artifacts)) <==> HasManifest(dir)
  {
    hide WithArtifacts;
  }

  lemma TornIsNoManifest(dir: Dir, entry: Entry)
    requires !HasManifest(dir)
    ensures !HasManifest(dir[entry := Torn])
  {
  }

  // ----- every step keeps the invariant

  /** The temporary directory only loses files, if it changes at all. */
  ghost predicate Shrinks(fs: FileSystem, gs: FileSystem) {
    Temporary in gs ==> Temporary in fs && IsPartOf(gs[Temporary], fs[Temporary])
  }

  lemma ShrunkLoads(fs: FileSystem, gs: FileSystem, staged: Option<Dir>)
    requires Shrinks(fs, gs) && OnlyWholeLoads(fs, staged)
    ensures OnlyWholeLoads(gs, staged)
  {
  }

  lemma SeenElsewhere(fs: FileSystem, gs: FileSystem)
    requires SameExcept(fs, gs, Temporary)
    ensures Seen(fs) == Seen(gs)
  {
  }

  lemma ClearingKeepsInvariant(s: Protocol, t: Protocol)
    requires Invariant(s) && Clears(s, t)
    ensures Invariant(t)
  {
    hide Target, HasManifest, IsPartOf, PhaseHolds, IsStageOf, Contents;
    SeenElsewhere(s.fs, t.fs);
    ClearedPhaseHolds(s, t);
    hide Seen;
  }

  lemma ClearedPhaseHolds(s: Protocol, t: Protocol)
    requires PhaseHolds(s) && Clears(s, t)
    ensures PhaseHolds(t) && (Temporary in t.fs ==> t.fs[Temporary] == t.attempt.leftover)
  {
    hide Remnant, WithPayloads, WithFiles, WithState, WithArtifacts, GoesOn;
    NothingStaged(t.attempt.leftover);
  }

  lemma StagingKeepsInvariant(s: Protocol, t: Protocol)
    requires Invariant(s) && Stages(s, t)
    ensures Invariant(t)
  {
    hide Target, HasManifest, Contents, Next, Turns, IsStageOf, IsPartOf;
    var a := s.attempt;
    SeenElsewhere(s.fs, t.fs);
    if BringsNoOtherManifest(a) {
      NoManifestYet(a, s.phase);
    }
    if entry, file :| Next(a, s.phase, entry, file, t.phase) && Filed(s.fs, t.fs, entry, file) {
      NextContents(a, s.phase, entry, file, t.phase);
      NextIsStaging(a, s.phase, entry, file, t.phase);
      if BringsNoOtherManifest(a) && !t.phase.Ready? {
        NoManifestYet(a, t.phase);
      }
      WholeIsPart(t.fs);
    } else if Turns(a, s.phase, t.phase) && t.fs == s.fs {
      TurnContents(a, s.phase, t.phase);
      TurnIsStaging(a, s.phase, t.phase);
    } else if entry, file, q :| Next(a, s.phase, entry, file, q) && Filed(s.fs, t.fs, entry, Torn) {
      if BringsNoOtherManifest(a) {
        TornIsNoManifest(s.fs[Temporary], entry);
      }
    }
  }

  lemma NextIsStaging(a: Attempt, p: Phase, entry: Entry, file: File, q: Phase)
    requires Next(a, p, entry, file, q)
    ensures IsStaging(q) || q.Ready?
  {
  }

  lemma TurnIsStaging(a: Attempt, p: Phase, q: Phase)
    requires Turns(a, p, q)
    ensures IsStaging(q)
  {
  }

  lemma WholeIsPart(fs: FileSystem)
    ensures Temporary in fs ==> IsPartOf(fs[Temporary], fs[Temporary])
  {
  }

  lemma PublishingKeepsInvariant(s: Protocol, t: Protocol)
    requires Invariant(s) && Publishes(s, t)
    ensures Invariant(t)
  {
    hide Target, HasManifest, IsPartOf;
    assert t.phase.Cleaning? || Shrinks(s.fs, t.fs) by { PublishingShrinks(s, t); }
    if Shrinks(s.fs, t.fs) && BringsNoOtherManifest(s.attempt) {
      ShrunkLoads(s.fs, t.fs, Target(s.attempt));
    }
  }

  lemma PublishingShrinks(s: Protocol, t: Protocol)
    requires Publishes(s, t)
    ensures Shrinks(s.fs, t.fs)
  {
  }

  lemma StepKeepsInvariant(s: Protocol, t: Protocol)
    requires Invariant(s) && Step(s, t)
    ensures Invariant(t)
  {
    if Clears(s, t) {
      ClearingKeepsInvariant(s, t);
    } else if Stages(s, t) {
      StagingKeepsInvariant(s, t);
    } else if Publishes(s, t) {
      PublishingKeepsInvariant(s, t);
    } else {
      hide Clears, Stages, Publishes, Target, HasManifest, IsPartOf;
    }
  }

  lemma InitialIsInvariant(s: Protocol)
    requires Initial(s)
    ensures Invariant(s)
  {
    hide Target;
  }

  lemma {:induction false} RunsKeepInvariant(run: seq<Protocol>, i: nat)
    requires IsRun(run) && i < |run|
    ensures Invariant(run[i])
  {
    hide Step, Invariant;
    if i == 0 {
      InitialIsInvariant(run[0]);
    } else {
      RunsKeepInvariant(run, i - 1);
      assert Step(run[i - 1], run[i - 1 + 1]);
      StepKeepsInvariant(run[i - 1], run[i]);
    }
  }

  // ----- what readers see

  /** Whatever writes, failures and crashes came before, at every moment a reader
      finds the whole directory published last, and as long as nothing was published
      it finds no directory at all. */
  lemma ReadersAreSafe(run: seq<Protocol>, i: nat)
    requires IsRun(run) && i < |run|
    ensures ReaderFinds(run[i].fs, run[i].published)
  {
    RunsKeepInvariant(run, i);
    hide IsRun, Target, Seen;
  }

  lemma PublishedChangesInOneStep(s: Protocol, t: Protocol)
    requires Step(s, t)
    ensures t.published == s.published
            || (s.phase.Publishing? && t.phase.Cleaning? && t.published == Some(s.attempt) && t.attempt == s.attempt)
  {
    hide Remnant, Next, Turns, Renamed;
  }

  /** What a reader finds changes in one way only: to the directory a write was about
      to publish, complete, in the step that renames it into place. */
  lemma OnlyPublishingChangesWhatReadersSee(run: seq<Protocol>, i: nat)
    requires IsRun(run) && i + 1 < |run|
    ensures Seen(run[i + 1].fs) == Seen(run[i].fs)
            || (run[i].phase.Publishing? && run[i + 1].phase.Cleaning?
                && Target(run[i].attempt).Some? && Seen(run[i + 1].fs) == Target(run[i].attempt))
  {
    ReadersAreSafe(run, i);
    ReadersAreSafe(run, i + 1);
    assert Step(run[i], run[i + 1]);
    PublishedChangesInOneStep(run[i], run[i + 1]);
    hide IsRun, Step, Target, Seen;
  }

  /** The step in which what is published at `i` was renamed into place. */
  lemma {:induction false} LastPublication(run: seq<Protocol>, i: nat) returns (j: nat)
    requires IsRun(run) && i < |run| && run[i].published.Some?
    ensures j < i && run[j].phase.Publishing?
    ensures forall m :: j < m <= i ==> run[m].published == Some(run[j].attempt)
  {
    hide Step, Initial;
    if i == 0 {
      assert Initial(run[0]);
      InitiallyNothing(run[0]);
    } else {
      assert Step(run[i - 1], run[i - 1 + 1]);
      PublishedChangesInOneStep(run[i - 1], run[i]);
      if run[i].published == run[i - 1].published {
        j := LastPublication(run, i - 1);
      } else {
        j := i - 1;
      }
    }
  }

  lemma InitiallyNothing(s: Protocol)
    requires Initial(s)
    ensures s.published == None && s.phase.Idle?
  {
  }

  lemma StepsOfOneCall(s: Protocol, t: Protocol)
    requires Step(s, t) && !t.phase.Idle?
    ensures if s.phase.Idle? then t.phase.Clearing? else t.attempt.request == s.attempt.request
  {
    hide Remnant, Next, Turns, Renamed, Fails, Filed;
  }

  /** `k` is the step before the call of `write` that is under way at `j`. */
  ghost predicate IsCall(run: seq<Protocol>, k: nat, j: nat) {
    && k < j < |run| && run[k].phase.Idle? && run[k + 1].phase.Clearing?
    && forall m :: k < m <= j ==> !run[m].phase.Idle? && run[m].attempt.request == run[j].attempt.request
  }

  /** Whatever is under way was begun by a call, with the same request. */
  lemma {:induction false} CallOf(run: seq<Protocol>, j: nat) returns (k: nat)
    requires IsRun(run) && j < |run| && !run[j].phase.Idle?
    ensures IsCall(run, k, j)
  {
    hide Step, Initial;
    if j == 0 {
      assert Initial(run[0]);
      InitiallyNothing(run[0]);
    } else {
      assert Step(run[j - 1], run[j - 1 + 1]);
      StepsOfOneCall(run[j - 1], run[j]);
      if run[j - 1].phase.Idle? {
        k := j - 1;
      } else {
        k := CallOf(run, j - 1);
      }
    }
  }

  /** So a reader gets back what a call of `write` in this run was given: the last one
      to rename its directory into place. `read` accepts it, and returns the checkpoint
      of that call, exactly under the conditions of the directory format. */
  lemma ReadersReadACompletedWrite(run: seq<Protocol>, i: nat) returns (k: nat, j: nat)
    requires IsRun(run) && i < |run| && run[i].published.Some?
    ensures IsCall(run, k, j) && j < i && run[j].phase.Publishing?
    ensures forall m :: j < m <= i ==> Seen(run[m].fs) == Target(run[j].attempt) && Seen(run[m].fs).Some?
    ensures var (r, leftover) := (run[j].attempt.request, run[j].attempt.leftover);
            var found := Read(Seen(run[i].fs).value);
            && (found.Ok? <==> Accepted(r.checkpoint, leftover, r.payloads))
            && (found.Ok? ==> GivenBack(r.host, Seen(run[i].fs).value, found.value, r.checkpoint))
            && (ReadsBack(r.checkpoint, leftover, r.payloads) <==>
                found.Ok? && found.value.artifacts == r.checkpoint.artifacts)
  {
    hide Read, ReadsBack, Accepted, Completed, BeforeManifest, Seen, GivenBack;
    j := LastPublication(run, i);
    k := CallOf(run, j);
    var r, leftover := run[j].attempt.request, run[j].attempt.leftover;
    forall m | j < m <= i ensures Seen(run[m].fs) == Target(run[j].attempt) && Seen(run[m].fs).Some? {
      ReadersAreSafe(run, m);
    }
    hide IsRun, IsCall;
    assert Staged(r.host, r.checkpoint, leftover, r.payloads) == Seen(run[i].fs);
    hide Staged;
    StagedIsRead(r.host, r.checkpoint, leftover, r.payloads, Seen(run[i].fs).value);
    WriteThenRead(r.host, r.checkpoint, leftover, r.payloads, Seen(run[i].fs).value);
  }

  lemma InvariantAtTheEnd(run: seq<Protocol>)
    requires IsRun(run)
    ensures ReaderIsSafe(run[|run| - 1]) && TemporaryIsSafe(run[|run| - 1]) && PhaseHolds(run[|run| - 1])
  {
    RunsKeepInvariant(run, |run| - 1);
    hide IsRun, ReaderIsSafe, TemporaryIsSafe, PhaseHolds;
  }

  lemma StagingEnd(run: seq<Protocol>)
    requires IsRun(run) && IsStaging(run[|run| - 1].phase)
    ensures IsStagedSoFar(run[|run| - 1])
  {
    hide IsRun, ReaderIsSafe, TemporaryIsSafe, IsStagedSoFar;
    InvariantAtTheEnd(run);
  }

  lemma PublishingEnd(run: seq<Protocol>)
    requires IsRun(run)
    ensures var s := run[|run| - 1];
            && (s.phase.Retiring? || s.phase.Publishing? ==> Temporary in s.fs)
            && (s.phase.Retiring? ==> !(Canonical in s.fs && Backup in s.fs))
            && (s.phase.Publishing? || s.phase.RollingBack? ==> Canonical !in s.fs)
  {
    hide IsRun, ReaderIsSafe, TemporaryIsSafe, IsStagedSoFar, Target;
    InvariantAtTheEnd(run);
  }

  lemma SafeMeans(s: Protocol)
    requires ReaderIsSafe(s) && TemporaryIsSafe(s)
    ensures s.published.Some? ==> Target(s.published.value).Some? && Seen(s.fs) == Target(s.published.value)
    ensures s.published.None? ==> Seen(s.fs) == None
    ensures BringsNoOtherManifest(s.attempt) ==> OnlyWholeLoads(s.fs, Target(s.attempt))
  {
  }
}
