/**
 What a checkpoint directory holds: the files `write_into` stages, in order, and
 what `read` makes of them.

 A state file is the document it encodes (decoding undoes encoding); hashing and
 the encoded length of a document are a parameter, `Host`.
 */
module CheckpointFormat {
  import opened Integers
  import opened Wrappers
  import opened SlotTable

  const FORMAT_VERSION: nat := 1

  const MANIFEST_FILE := "manifest.msgpack"
  const PROGRESS_FILE := "progress.msgpack"
  const SCHEDULER_FILE := "scheduler.msgpack"
  const OPTIMIZER_FILE := "optimizer.msgpack"
  const RNG_FILE := "rng.msgpack"
  const DATASET_FILE := "dataset.msgpack"
  const OPTIMIZER_STATE_FILE := "optimizer-state.bin"

  datatype ArtifactPolicy = Required | Recreatable

  datatype TrainableBundle = TrainableBundle(file: string, bytes: nat, fingerprint: string, signature: string)

  datatype Manifest = Manifest(formatVersion: nat, checkpointId: string, adapter: Option<string>,
                               trainable: Option<TrainableBundle>, files: seq<string>,
                               artifacts: map<string, ArtifactPolicy>)

  datatype Record = Record(version: nat, body: string)

  datatype Optimizer = Optimizer(version: nat, body: string, slots: seq<StateSlot>, stateBytes: u64)

  datatype Checkpoint = Checkpoint(manifest: Manifest, progress: Record, scheduler: Record, optimizer: Optimizer,
                                   rng: Record, dataset: Record, artifacts: map<string, seq<byte>>)

  datatype File =
    | Raw(bytes: seq<byte>)
    | ManifestDoc(manifest: Manifest)
    | ProgressDoc(record: Record)
    | SchedulerDoc(record: Record)
    | OptimizerDoc(optimizer: Optimizer)
    | RngDoc(record: Record)
    | DatasetDoc(record: Record)
    | Torn

  /** A file at the root of the directory, or one under `artifacts/`. */
  datatype Entry = Member(name: string) | Artifact(name: string)

  type Dir = map<Entry, File>

  datatype Host = Host(digest: File -> string, documentSize: File -> nat) {
    function Size(file: File): nat {
      if file.Raw? then |file.bytes| else documentSize(file)
    }
  }

  function ReadDocument(dir: Dir, name: string): Option<File> {
    if Member(name) in dir then Some(dir[Member(name)]) else None
  }

  // ----- writing

  /** The payload files a manifest declares. */
  function Declared(c: Checkpoint): set<string> {
    (if c.manifest.adapter.Some? then {c.manifest.adapter.value} else {})
    + (if c.manifest.trainable.Some? then {c.manifest.trainable.value.file} else {})
    + (if c.optimizer.stateBytes > 0 then {OPTIMIZER_STATE_FILE} else {})
  }

  function WithPayloads(leftover: Dir, payloads: map<string, seq<byte>>): (dir: Dir)
    ensures forall e :: e in dir <==> (e.Member? && e.name in payloads) || e in leftover
    ensures forall e :: e in dir ==>
              dir[e] == if e.Member? && e.name in payloads then Raw(payloads[e.name]) else leftover[e]
  {
    leftover + map name | name in payloads :: Member(name) := Raw(payloads[name])
  }

  /** The check between the payload writer and the state files. */
  predicate PayloadsLanded(host: Host, c: Checkpoint, dir: Dir) {
    && (forall name :: name in Declared(c) ==> Member(name) in dir)
    && (c.optimizer.stateBytes > 0 ==>
          Member(OPTIMIZER_STATE_FILE) in dir && host.Size(dir[Member(OPTIMIZER_STATE_FILE)]) == c.optimizer.stateBytes)
  }

  /** The state files go by different names, so none overwrites another. */
  lemma FileNamesDiffer()
    ensures PROGRESS_FILE != SCHEDULER_FILE && PROGRESS_FILE != OPTIMIZER_FILE && PROGRESS_FILE != RNG_FILE
    ensures PROGRESS_FILE != DATASET_FILE && SCHEDULER_FILE != OPTIMIZER_FILE && SCHEDULER_FILE != RNG_FILE
    ensures SCHEDULER_FILE != DATASET_FILE && OPTIMIZER_FILE != RNG_FILE && OPTIMIZER_FILE != DATASET_FILE
    ensures RNG_FILE != DATASET_FILE
    ensures MANIFEST_FILE !in {PROGRESS_FILE, SCHEDULER_FILE, OPTIMIZER_FILE, RNG_FILE, DATASET_FILE}
  {
  }

  ghost predicate HoldsState(dir: Dir, c: Checkpoint) {
    && ReadDocument(dir, PROGRESS_FILE) == Some(ProgressDoc(c.progress))
    && ReadDocument(dir, SCHEDULER_FILE) == Some(SchedulerDoc(c.scheduler))
    && ReadDocument(dir, OPTIMIZER_FILE) == Some(OptimizerDoc(c.optimizer))
    && ReadDocument(dir, RNG_FILE) == Some(RngDoc(c.rng))
    && ReadDocument(dir, DATASET_FILE) == Some(DatasetDoc(c.dataset))
  }

  function WithState(dir: Dir, c: Checkpoint): (r: Dir)
    ensures HoldsState(r, c)
    ensures forall name :: Member(name) in r <==>
              Member(name) in dir || name in {PROGRESS_FILE, SCHEDULER_FILE, OPTIMIZER_FILE, RNG_FILE, DATASET_FILE}
    ensures forall name :: Artifact(name) in r <==> Artifact(name) in dir
    ensures forall name :: Artifact(name) in dir ==> r[Artifact(name)] == dir[Artifact(name)]
  {
    FileNamesDiffer();
    dir[Member(PROGRESS_FILE) := ProgressDoc(c.progress)]
       [Member(SCHEDULER_FILE) := SchedulerDoc(c.scheduler)]
       [Member(OPTIMIZER_FILE) := OptimizerDoc(c.optimizer)]
       [Member(RNG_FILE) := RngDoc(c.rng)]
       [Member(DATASET_FILE) := DatasetDoc(c.dataset)]
  }

  function WithArtifacts(dir: Dir, artifacts: map<string, seq<byte>>): (r: Dir)
    ensures forall e :: e in r <==> (e.Artifact? && e.name in artifacts) || e in dir
    ensures forall e :: e in r ==>
              r[e] == if e.Artifact? && e.name in artifacts then Raw(artifacts[e.name]) else dir[e]
  {
    dir + map name | name in artifacts :: Artifact(name) := Raw(artifacts[name])
  }

  /** The manifest as it is written: the bundle's length and digest are read off the file that landed. */
  function Completed(host: Host, m: Manifest, dir: Dir): Manifest {
    match m.trainable
    case None => m
    case Some(bundle) =>
      if Member(bundle.file) in dir then
        var file := dir[Member(bundle.file)];
        m.(trainable := Some(bundle.(bytes := host.Size(file), fingerprint := host.digest(file))))
      else m
  }

  /** Everything but the manifest. */
  function BeforeManifest(c: Checkpoint, leftover: Dir, payloads: map<string, seq<byte>>): Dir {
    WithArtifacts(WithState(WithPayloads(leftover, payloads), c), c.artifacts)
  }

  /** The directory `write_into` leaves behind when nothing fails, staged over what
      an earlier attempt may have left in the temporary directory. */
  function Staged(host: Host, c: Checkpoint, leftover: Dir, payloads: map<string, seq<byte>>): Option<Dir> {
    if !PayloadsLanded(host, c, WithPayloads(leftover, payloads)) then None
    else
      var dir := BeforeManifest(c, leftover, payloads);
      Some(dir[Member(MANIFEST_FILE) := ManifestDoc(Completed(host, c.manifest, dir))])
  }

  // ----- reading

  datatype ReadError =
    | NotComplete
    | Version(what: string)
    | Missing(name: string)
    | Unreadable(name: string)
    | BadSlotTable
    | ArtifactMissing

  predicate AllPresent(dir: Dir, names: seq<string>) {
    forall name :: name in names ==> Member(name) in dir
  }

  /** The payload files a reader insists on. */
  predicate PayloadsPresent(dir: Dir, m: Manifest, optimizer: Optimizer) {
    && (m.adapter.Some? ==> Member(m.adapter.value) in dir)
    && (m.trainable.Some? ==> Member(m.trainable.value.file) in dir)
    && (optimizer.stateBytes > 0 ==> Member(OPTIMIZER_STATE_FILE) in dir)
  }

  predicate ReadableArtifact(dir: Dir, name: string) {
    Artifact(name) in dir && dir[Artifact(name)].Raw?
  }

  /** The declared artifacts that can be read. */
  function ReadArtifacts(dir: Dir, m: Manifest): map<string, seq<byte>> {
    map name | name in m.artifacts && ReadableArtifact(dir, name) :: dir[Artifact(name)].bytes
  }

  /** `read` of one directory, its checks in order. */
  ghost function Read(dir: Dir): Result<Checkpoint, ReadError> {
    match ReadDocument(dir, MANIFEST_FILE)
    case Some(ManifestDoc(m)) =>
      if m.formatVersion != FORMAT_VERSION then Err(Version("manifest"))
      else if !AllPresent(dir, m.files) then Err(Missing("a declared state file"))
      else ReadState(dir, m)
    case _ => Err(NotComplete)
  }

  ghost function ReadState(dir: Dir, m: Manifest): Result<Checkpoint, ReadError> {
    match ReadDocument(dir, PROGRESS_FILE)
    case Some(ProgressDoc(progress)) =>
      if progress.version != FORMAT_VERSION then Err(Version("progress")) else
      (match ReadDocument(dir, SCHEDULER_FILE)
       case Some(SchedulerDoc(scheduler)) =>
         if scheduler.version != FORMAT_VERSION then Err(Version("scheduler")) else
         (match ReadDocument(dir, OPTIMIZER_FILE)
          case Some(OptimizerDoc(optimizer)) =>
            if optimizer.version != FORMAT_VERSION then Err(Version("optimizer"))
            else ReadRest(dir, m, progress, scheduler, optimizer)
          case _ => Err(Unreadable(OPTIMIZER_FILE)))
       case _ => Err(Unreadable(SCHEDULER_FILE)))
    case _ => Err(Unreadable(PROGRESS_FILE))
  }

  ghost function ReadRest(dir: Dir, m: Manifest, progress: Record, scheduler: Record, optimizer: Optimizer)
    : Result<Checkpoint, ReadError>
  {
    match ReadDocument(dir, RNG_FILE)
    case Some(RngDoc(rng)) =>
      if rng.version != FORMAT_VERSION then Err(Version("rng")) else
      (match ReadDocument(dir, DATASET_FILE)
       case Some(DatasetDoc(dataset)) =>
         if dataset.version != FORMAT_VERSION then Err(Version("dataset"))
         else if !ValidTable(optimizer.slots, optimizer.stateBytes) then Err(BadSlotTable)
         else if !PayloadsPresent(dir, m, optimizer) then Err(Missing("a declared payload file"))
         else if RequiredArtifactMissing(dir, m) then Err(ArtifactMissing)
         else Ok(Checkpoint(m, progress, scheduler, optimizer, rng, dataset, ReadArtifacts(dir, m)))
       case _ => Err(Unreadable(DATASET_FILE)))
    case _ => Err(Unreadable(RNG_FILE))
  }

  // ----- parts of a directory

  /** Some of the files of `whole`, as an interrupted removal leaves them. */
  ghost predicate IsPartOf(part: Dir, whole: Dir) {
    forall entry :: entry in part ==> entry in whole && part[entry] == whole[entry]
  }

  /** The manifest landed whole. */
  predicate HasManifest(dir: Dir) {
    var found := ReadDocument(dir, MANIFEST_FILE);
    found.Some? && found.value.ManifestDoc?
  }

  /** Without its manifest a directory is no checkpoint, whatever else it holds. */
  lemma NothingLoadsWithoutManifest(dir: Dir)
    ensures !HasManifest(dir) <==> Read(dir) == Err(NotComplete)
  {
    hide ReadState;
    if HasManifest(dir) {
      var m := ReadDocument(dir, MANIFEST_FILE).value.manifest;
      StateIsNeverNotComplete(dir, m);
    }
  }

  lemma StateIsNeverNotComplete(dir: Dir, m: Manifest)
    ensures ReadState(dir, m) != Err(NotComplete)
  {
  }

  /** The same checkpoint, except that artifacts which can be recreated may be missing. */
  ghost predicate SameButRecreatable(part: Checkpoint, whole: Checkpoint) {
    && part.(artifacts := whole.artifacts) == whole
    && (forall name :: name in part.artifacts ==>
          name in whole.artifacts && part.artifacts[name] == whole.artifacts[name])
    && (forall name :: name in whole.artifacts && name !in part.artifacts ==>
          name in whole.manifest.artifacts && whole.manifest.artifacts[name] == Recreatable)
  }

  /** Losing files never yields a different checkpoint: what is left of a directory
      is refused, or it reads as the whole did. */
  lemma PartsAreNeverReadPiecemeal(part: Dir, whole: Dir)
    requires IsPartOf(part, whole) && Read(part).Ok?
    ensures Read(whole).Ok? && SameButRecreatable(Read(part).value, Read(whole).value)
  {
    var c := Read(part).value;
    PartHoldsState(part, c);
    assert HoldsState(whole, c) && ReadDocument(whole, MANIFEST_FILE) == Some(ManifestDoc(c.manifest));
    ReadOfHeldState(part, c.manifest, c);
    ReadOfHeldState(whole, c.manifest, c);
    hide Read, HoldsState, ReadDocument, ValidTable;
    RequiredArtifactsStay(part, whole, c.manifest);
  }

  lemma PartHoldsState(part: Dir, c: Checkpoint)
    requires Read(part) == Ok(c)
    ensures HoldsState(part, c) && ReadDocument(part, MANIFEST_FILE) == Some(ManifestDoc(c.manifest))
  {
    hide ReadDocument, AllPresent, ValidTable, PayloadsPresent, ReadArtifacts, RequiredArtifactMissing;
  }

  lemma RequiredArtifactsStay(part: Dir, whole: Dir, m: Manifest)
    requires IsPartOf(part, whole) && !RequiredArtifactMissing(part, m)
    ensures !RequiredArtifactMissing(whole, m)
    ensures forall name :: name in ReadArtifacts(part, m) ==>
              name in ReadArtifacts(whole, m) && ReadArtifacts(part, m)[name] == ReadArtifacts(whole, m)[name]
    ensures forall name :: name in ReadArtifacts(whole, m) && name !in ReadArtifacts(part, m) ==>
              m.artifacts[name] == Recreatable
  {
  }

  // ----- the round trip

  /** The files at the root of the directory that this write itself puts there. */
  function Produced(payloads: map<string, seq<byte>>): set<string> {
    payloads.Keys + {MANIFEST_FILE, PROGRESS_FILE, SCHEDULER_FILE, OPTIMIZER_FILE, RNG_FILE, DATASET_FILE}
  }

  ghost predicate VersionsCurrent(c: Checkpoint) {
    && c.manifest.formatVersion == FORMAT_VERSION
    && c.progress.version == FORMAT_VERSION && c.scheduler.version == FORMAT_VERSION
    && c.optimizer.version == FORMAT_VERSION && c.rng.version == FORMAT_VERSION
    && c.dataset.version == FORMAT_VERSION
  }

  /** Every artifact held is declared, every required one is held, and no declared
      one that is not held was left behind by an earlier attempt. */
  ghost predicate ArtifactsAgree(c: Checkpoint, leftover: Dir) {
    && (forall name :: name in c.artifacts ==> name in c.manifest.artifacts)
    && (forall name :: name in c.manifest.artifacts && name !in c.artifacts ==>
          c.manifest.artifacts[name] != Required && !ReadableArtifact(leftover, name))
  }

  /** Every required artifact is held, or was left behind by an earlier attempt. */
  ghost predicate RequiredHeld(c: Checkpoint, leftover: Dir) {
    forall name :: name in c.manifest.artifacts && c.manifest.artifacts[name] == Required ==>
      name in c.artifacts || ReadableArtifact(leftover, name)
  }

  /** Every state file the manifest names is one the write produces, or found there. */
  ghost predicate FilesNamed(c: Checkpoint, leftover: Dir, payloads: map<string, seq<byte>>) {
    forall name :: name in c.manifest.files ==> name in Produced(payloads) || Member(name) in leftover
  }

  /** When `read` accepts what `write` staged, which `write` itself does not check. */
  ghost predicate Accepted(c: Checkpoint, leftover: Dir, payloads: map<string, seq<byte>>) {
    && VersionsCurrent(c)
    && FilesNamed(c, leftover, payloads)
    && ValidTable(c.optimizer.slots, c.optimizer.stateBytes)
    && RequiredHeld(c, leftover)
  }

  /** The artifacts `read` returns: the declared ones that are there. */
  function DeclaredArtifacts(c: Checkpoint, leftover: Dir): map<string, seq<byte>> {
    map name | name in c.manifest.artifacts && (name in c.artifacts || ReadableArtifact(leftover, name)) ::
      if name in c.artifacts then c.artifacts[name] else leftover[Artifact(name)].bytes
  }

  /** When the checkpoint read is also the one written. */
  ghost predicate ReadsBack(c: Checkpoint, leftover: Dir, payloads: map<string, seq<byte>>) {
    && VersionsCurrent(c)
    && FilesNamed(c, leftover, payloads)
    && ValidTable(c.optimizer.slots, c.optimizer.stateBytes)
    && ArtifactsAgree(c, leftover)
  }

  lemma StagedMembers(host: Host, c: Checkpoint, leftover: Dir, payloads: map<string, seq<byte>>, dir: Dir)
    requires Staged(host, c, leftover, payloads) == Some(dir)
    ensures forall name :: Member(name) in dir <==> name in Produced(payloads) || Member(name) in leftover
    ensures forall name :: Artifact(name) in dir <==> name in c.artifacts || Artifact(name) in leftover
    ensures forall name :: name in c.artifacts ==> dir[Artifact(name)] == Raw(c.artifacts[name])
    ensures forall name :: Artifact(name) in dir && name !in c.artifacts ==> dir[Artifact(name)] == leftover[Artifact(name)]
    ensures HoldsState(dir, c)
    ensures ReadDocument(dir, MANIFEST_FILE) ==
            Some(ManifestDoc(Completed(host, c.manifest, BeforeManifest(c, leftover, payloads))))
  {
    hide WithPayloads, WithState, WithArtifacts, Completed, PayloadsLanded, BeforeManifest, HoldsState, ReadDocument;
    var before := BeforeManifest(c, leftover, payloads);
    var m := Completed(host, c.manifest, before);
    assert dir == before[Member(MANIFEST_FILE) := ManifestDoc(m)];
    hide *;
    StateIsHeldBefore(c, leftover, payloads, before);
    ManifestGoesLast(c, before, m, dir);
    ProducedAre(payloads);
  }

  lemma ManifestGoesLast(c: Checkpoint, before: Dir, m: Manifest, dir: Dir)
    requires HoldsState(before, c) && dir == before[Member(MANIFEST_FILE) := ManifestDoc(m)]
    ensures HoldsState(dir, c) && ReadDocument(dir, MANIFEST_FILE) == Some(ManifestDoc(m))
  {
  }

  lemma ProducedAre(payloads: map<string, seq<byte>>)
    ensures forall name :: name in Produced(payloads) <==>
              || name in payloads || name == MANIFEST_FILE
              || name in {PROGRESS_FILE, SCHEDULER_FILE, OPTIMIZER_FILE, RNG_FILE, DATASET_FILE}
  {
  }

  lemma StateIsHeldBefore(c: Checkpoint, leftover: Dir, payloads: map<string, seq<byte>>, before: Dir)
    requires before == BeforeManifest(c, leftover, payloads)
    ensures HoldsState(before, c)
    ensures forall name :: Member(name) in before <==>
              Member(name) in leftover || name in payloads
              || name in {PROGRESS_FILE, SCHEDULER_FILE, OPTIMIZER_FILE, RNG_FILE, DATASET_FILE}
    ensures forall name :: Artifact(name) in before <==> name in c.artifacts || Artifact(name) in leftover
    ensures forall name :: Artifact(name) in before ==>
              before[Artifact(name)] == if name in c.artifacts then Raw(c.artifacts[name]) else leftover[Artifact(name)]
  {
    hide WithPayloads, WithState, WithArtifacts;
    var state := WithState(WithPayloads(leftover, payloads), c);
    assert forall name :: ReadDocument(before, name) == ReadDocument(state, name);
  }

  lemma ReadArtifactsAre(c: Checkpoint, m: Manifest, leftover: Dir, dir: Dir)
    requires m.artifacts == c.manifest.artifacts
    requires forall name :: Artifact(name) in dir <==> name in c.artifacts || Artifact(name) in leftover
    requires forall name :: name in c.artifacts ==> dir[Artifact(name)] == Raw(c.artifacts[name])
    requires forall name :: Artifact(name) in dir && name !in c.artifacts ==> dir[Artifact(name)] == leftover[Artifact(name)]
    ensures ReadArtifacts(dir, m) == DeclaredArtifacts(c, leftover)
    ensures RequiredArtifactMissing(dir, m) <==> !RequiredHeld(c, leftover)
  {
    var got, expected := ReadArtifacts(dir, m), DeclaredArtifacts(c, leftover);
    forall name
      ensures ReadableArtifact(dir, name) <==> name in c.artifacts || ReadableArtifact(leftover, name)
      ensures name in got <==> name in expected
      ensures name in got ==> got[name] == expected[name]
    {
      OneArtifact(c, leftover, dir, name);
    }
    hide ReadableArtifact, ReadArtifacts, DeclaredArtifacts;
  }

  lemma OneArtifact(c: Checkpoint, leftover: Dir, dir: Dir, name: string)
    requires Artifact(name) in dir <==> name in c.artifacts || Artifact(name) in leftover
    requires name in c.artifacts ==> dir[Artifact(name)] == Raw(c.artifacts[name])
    requires Artifact(name) in dir && name !in c.artifacts ==> dir[Artifact(name)] == leftover[Artifact(name)]
    ensures ReadableArtifact(dir, name) <==> name in c.artifacts || ReadableArtifact(leftover, name)
    ensures name in c.artifacts ==> dir[Artifact(name)] == Raw(c.artifacts[name])
  {
  }

  lemma AgreementIsEquality(c: Checkpoint, leftover: Dir)
    ensures ArtifactsAgree(c, leftover) <==> RequiredHeld(c, leftover) && DeclaredArtifacts(c, leftover) == c.artifacts
  {
    var declared := DeclaredArtifacts(c, leftover);
    if ArtifactsAgree(c, leftover) {
      assert forall name :: name in declared <==> name in c.artifacts;
      assert forall name :: name in declared ==> declared[name] == c.artifacts[name];
    }
    if declared == c.artifacts {
      forall name | name in c.manifest.artifacts && name !in c.artifacts ensures !ReadableArtifact(leftover, name) {
        assert name !in declared;
      }
    }
  }

  lemma CompletedKeepsTheRest(host: Host, m: Manifest, dir: Dir)
    ensures var r := Completed(host, m, dir);
            && r.(trainable := None) == m.(trainable := None) && r.trainable.Some? == m.trainable.Some?
            && (m.trainable.Some? ==>
                  && r.trainable.value.file == m.trainable.value.file
                  && r.trainable.value.signature == m.trainable.value.signature)
  {
  }

  lemma DeclaredIsPresent(host: Host, c: Checkpoint, leftover: Dir, payloads: map<string, seq<byte>>, dir: Dir, m: Manifest)
    requires PayloadsLanded(host, c, WithPayloads(leftover, payloads))
    requires forall name :: Member(name) in dir <==> name in Produced(payloads) || Member(name) in leftover
    requires m.adapter == c.manifest.adapter && m.trainable.Some? == c.manifest.trainable.Some?
    requires m.trainable.Some? ==> m.trainable.value.file == c.manifest.trainable.value.file
    ensures PayloadsPresent(dir, m, c.optimizer)
  {
    forall name | name in Declared(c) ensures Member(name) in dir {
      assert Member(name) in WithPayloads(leftover, payloads);
    }
  }

  ghost predicate RequiredArtifactMissing(dir: Dir, m: Manifest) {
    exists name :: name in m.artifacts && m.artifacts[name] == Required && !ReadableArtifact(dir, name)
  }

  /** What `read` makes of a directory that holds the state of `c`. */
  lemma ReadOfHeldState(dir: Dir, m: Manifest, c: Checkpoint)
    requires HoldsState(dir, c) && ReadDocument(dir, MANIFEST_FILE) == Some(ManifestDoc(m))
    ensures Read(dir).Ok? <==>
            && VersionsCurrent(c.(manifest := m)) && AllPresent(dir, m.files)
            && ValidTable(c.optimizer.slots, c.optimizer.stateBytes)
            && PayloadsPresent(dir, m, c.optimizer) && !RequiredArtifactMissing(dir, m)
    ensures Read(dir).Ok? ==> Read(dir).value == c.(manifest := m, artifacts := ReadArtifacts(dir, m))
  {
    hide ReadDocument, AllPresent, ValidTable, PayloadsPresent, ReadArtifacts;
  }

  /** `found` is what `c` was, but for artifacts and for the length and digest of the
      bundle, which are those of the file found under its name. */
  ghost predicate GivenBack(host: Host, dir: Dir, found: Checkpoint, c: Checkpoint) {
    && found.progress == c.progress && found.scheduler == c.scheduler && found.optimizer == c.optimizer
    && found.rng == c.rng && found.dataset == c.dataset
    && found.manifest.(trainable := None) == c.manifest.(trainable := None)
    && BundleGivenBack(host, dir, found.manifest.trainable, c.manifest.trainable)
  }

  ghost predicate BundleGivenBack(host: Host, dir: Dir, found: Option<TrainableBundle>, given: Option<TrainableBundle>) {
    if given.None? then found.None?
    else
      && found.Some? && found.value.file == given.value.file && found.value.signature == given.value.signature
      && (given.value.file != MANIFEST_FILE ==>
            && Member(given.value.file) in dir
            && found.value.bytes == host.Size(dir[Member(given.value.file)])
            && found.value.fingerprint == host.digest(dir[Member(given.value.file)]))
  }

  lemma CompletedIsGivenBack(host: Host, c: Checkpoint, leftover: Dir, payloads: map<string, seq<byte>>, dir: Dir,
                             found: Checkpoint)
    requires Staged(host, c, leftover, payloads) == Some(dir)
    requires found == c.(manifest := Completed(host, c.manifest, BeforeManifest(c, leftover, payloads)),
                         artifacts := found.artifacts)
    ensures GivenBack(host, dir, found, c)
  {
    CompletedKeepsTheRest(host, c.manifest, BeforeManifest(c, leftover, payloads));
    if c.manifest.trainable.Some? && c.manifest.trainable.value.file != MANIFEST_FILE {
      BundleIsRecordedAsFound(host, c, leftover, payloads, dir);
    }
    StagedMembers(host, c, leftover, payloads, dir);
    hide Staged, Completed, BeforeManifest, Produced, HoldsState;
  }

  /** `read` accepts a staged directory if and only if the checkpoint meets `Accepted`,
      and then returns it with its manifest completed and the artifacts that are declared. */
  lemma StagedIsRead(host: Host, c: Checkpoint, leftover: Dir, payloads: map<string, seq<byte>>, dir: Dir)
    requires Staged(host, c, leftover, payloads) == Some(dir)
    ensures Read(dir).Ok? <==> Accepted(c, leftover, payloads)
    ensures Read(dir).Ok? ==>
              var m := Completed(host, c.manifest, BeforeManifest(c, leftover, payloads));
              Read(dir).value == c.(manifest := m, artifacts := DeclaredArtifacts(c, leftover))
    ensures Read(dir).Ok? ==> GivenBack(host, dir, Read(dir).value, c)
  {
    var m := Completed(host, c.manifest, BeforeManifest(c, leftover, payloads));
    CompletedKeepsTheRest(host, c.manifest, BeforeManifest(c, leftover, payloads));
    StagedMembers(host, c, leftover, payloads, dir);
    DeclaredIsPresent(host, c, leftover, payloads, dir, m);
    FilesArePresent(c, leftover, payloads, dir, m);
    hide Staged, BeforeManifest, ValidTable, ReadArtifacts, DeclaredArtifacts, Produced, HoldsState, ReadDocument, Read;
    hide PayloadsPresent, Completed, PayloadsLanded, AllPresent, RequiredArtifactMissing, RequiredHeld, FilesNamed;
    ReadArtifactsAre(c, m, leftover, dir);
    ReadOfHeldState(dir, m, c);
    if Read(dir).Ok? {
      CompletedIsGivenBack(host, c, leftover, payloads, dir, Read(dir).value);
    }
  }

  lemma SameButCompleted(host: Host, c: Checkpoint, leftover: Dir, payloads: map<string, seq<byte>>, dir: Dir)
    requires Staged(host, c, leftover, payloads) == Some(dir)
    ensures var m := Completed(host, c.manifest, BeforeManifest(c, leftover, payloads));
            Read(dir) == Ok(c.(manifest := m)) <==> ReadsBack(c, leftover, payloads)
  {
    StagedIsRead(host, c, leftover, payloads, dir);
    AgreementIsEquality(c, leftover);
    hide Staged, BeforeManifest, Completed, Read, ValidTable, DeclaredArtifacts, ArtifactsAgree, RequiredHeld, FilesNamed;
    hide VersionsCurrent, GivenBack;
    var m := Completed(host, c.manifest, BeforeManifest(c, leftover, payloads));
    assert c.(manifest := m, artifacts := c.artifacts) == c.(manifest := m);
  }

  /** A staged directory reads back with everything its writer gave, artifacts included, if
      and only if the checkpoint meets `ReadsBack`; of the manifest only the bundle's length
      and digest are not the writer's, so without a bundle it is the same checkpoint. */
  lemma WriteThenRead(host: Host, c: Checkpoint, leftover: Dir, payloads: map<string, seq<byte>>, dir: Dir)
    requires Staged(host, c, leftover, payloads) == Some(dir)
    ensures ReadsBack(c, leftover, payloads) <==>
            && Read(dir).Ok? && GivenBack(host, dir, Read(dir).value, c) && Read(dir).value.artifacts == c.artifacts
    ensures c.manifest.trainable.None? ==> (Read(dir) == Ok(c) <==> ReadsBack(c, leftover, payloads))
  {
    StagedIsRead(host, c, leftover, payloads, dir);
    SameButCompleted(host, c, leftover, payloads, dir);
    CompletedKeepsTheRest(host, c.manifest, BeforeManifest(c, leftover, payloads));
    hide Staged, BeforeManifest, Completed, Read, ReadsBack, Accepted, DeclaredArtifacts, BundleGivenBack;
    if c.manifest.trainable.None? {
      SameManifest(c.manifest, Completed(host, c.manifest, BeforeManifest(c, leftover, payloads)));
    }
  }

  lemma SameManifest(m: Manifest, n: Manifest)
    requires m.(trainable := None) == n.(trainable := None) && m.trainable.None? && n.trainable.None?
    ensures m == n
  {
  }

  lemma FilesArePresent(c: Checkpoint, leftover: Dir, payloads: map<string, seq<byte>>, dir: Dir, m: Manifest)
    requires m.files == c.manifest.files
    requires forall name :: Member(name) in dir <==> name in Produced(payloads) || Member(name) in leftover
    ensures AllPresent(dir, m.files) <==> FilesNamed(c, leftover, payloads)
  {
  }

  lemma NothingDeclared(host: Host, c: Checkpoint, dir: Dir)
    requires c.manifest.adapter.None? && c.manifest.trainable.None? && c.optimizer.stateBytes == 0
    ensures PayloadsLanded(host, c, dir)
  {
  }

  lemma OtherVersionsAreRefused(host: Host, c: Checkpoint, leftover: Dir, payloads: map<string, seq<byte>>, dir: Dir)
    requires Staged(host, c, leftover, payloads) == Some(dir) && c.manifest.formatVersion != FORMAT_VERSION
    ensures Read(dir) == Err(Version("manifest"))
  {
    var m := Completed(host, c.manifest, BeforeManifest(c, leftover, payloads));
    StagedMembers(host, c, leftover, payloads, dir);
    CompletedKeepsTheRest(host, c.manifest, BeforeManifest(c, leftover, payloads));
    hide Staged, BeforeManifest, Completed, ReadDocument, ReadState, AllPresent, HoldsState, Produced;
  }

  /** `write` accepts a checkpoint of another schema version, which `read` refuses. */
  lemma SomeStagedCheckpointsAreUnreadable(host: Host) returns (c: Checkpoint, dir: Dir)
    ensures Staged(host, c, map[], map[]) == Some(dir) && Read(dir) == Err(Version("manifest"))
  {
    hide PayloadsLanded, WithPayloads, BeforeManifest, Completed, Read;
    var r := Record(FORMAT_VERSION, "");
    c := Checkpoint(Manifest(FORMAT_VERSION + 1, "", None, None, [], map[]), r, r,
                    Optimizer(FORMAT_VERSION, "", [], 0), r, r, map[]);
    NothingDeclared(host, c, WithPayloads(map[], map[]));
    dir := Staged(host, c, map[], map[]).value;
    OtherVersionsAreRefused(host, c, map[], map[], dir);
  }

  /** An artifact that is held and not declared is written and accepted, and lost. */
  lemma SomeAcceptedCheckpointsDiffer(host: Host) returns (c: Checkpoint, dir: Dir)
    ensures Staged(host, c, map[], map[]) == Some(dir) && Read(dir).Ok? && !ReadsBack(c, map[], map[])
    ensures Read(dir).value.artifacts != c.artifacts
  {
    hide PayloadsLanded, WithPayloads, BeforeManifest, Completed, Read;
    var r := Record(FORMAT_VERSION, "");
    c := Checkpoint(Manifest(FORMAT_VERSION, "", None, None, [], map[]), r, r,
                    Optimizer(FORMAT_VERSION, "", [], 0), r, r, map["notes" := []]);
    NothingDeclared(host, c, WithPayloads(map[], map[]));
    dir := Staged(host, c, map[], map[]).value;
    StagedIsRead(host, c, map[], map[], dir);
    assert "notes" in c.artifacts && "notes" !in DeclaredArtifacts(c, map[]);
  }

  // ----- all checks of `read` at once

  /** The directory holds the parts of `c`, at the current versions. */
  ghost predicate HoldsParts(dir: Dir, c: Checkpoint) {
    && ReadDocument(dir, MANIFEST_FILE) == Some(ManifestDoc(c.manifest)) && HoldsState(dir, c)
    && c.manifest.formatVersion == c.progress.version == c.scheduler.version == c.optimizer.version
       == c.rng.version == c.dataset.version == FORMAT_VERSION
  }

  /** Every file the checkpoint names is there: the state files listed, the adapter, the
      bundle, and the optimizer's payload, if it has one. */
  ghost predicate HoldsFiles(dir: Dir, c: Checkpoint) {
    && (forall i :: 0 <= i < |c.manifest.files| ==> Member(c.manifest.files[i]) in dir)
    && (forall name :: c.manifest.adapter == Some(name) ==> Member(name) in dir)
    && (forall bundle :: c.manifest.trainable == Some(bundle) ==> Member(bundle.file) in dir)
    && (c.optimizer.stateBytes != 0 ==> Member(OPTIMIZER_STATE_FILE) in dir)
  }

  /** The artifacts of `c` are those declared that can be read, every required one among them. */
  ghost predicate HoldsArtifacts(dir: Dir, c: Checkpoint) {
    && (forall name :: name in c.artifacts <==>
          name in c.manifest.artifacts && Artifact(name) in dir && dir[Artifact(name)].Raw?)
    && (forall name :: name in c.artifacts ==> dir[Artifact(name)] == Raw(c.artifacts[name]))
    && (forall name :: name in c.manifest.artifacts && c.manifest.artifacts[name] == Required ==> name in c.artifacts)
  }

  /** The checks `read` makes one after the other come to this: what it returns is exactly
      what the directory holds whole. */
  lemma ReadIsWhatTheDirectoryHolds(dir: Dir, c: Checkpoint)
    ensures Read(dir) == Ok(c) <==>
            && HoldsParts(dir, c) && HoldsFiles(dir, c) && HoldsArtifacts(dir, c)
            && ValidTable(c.optimizer.slots, c.optimizer.stateBytes)
  {
    if Read(dir) == Ok(c) {
      PartHoldsState(dir, c);
    }
    if HoldsState(dir, c) && ReadDocument(dir, MANIFEST_FILE) == Some(ManifestDoc(c.manifest)) {
      ReadOfHeldState(dir, c.manifest, c);
      FilesAreHeld(dir, c);
      ArtifactsAreHeld(dir, c);
    }
    hide Read, HoldsState, HoldsFiles, HoldsArtifacts, ValidTable, ReadArtifacts, RequiredArtifactMissing, AllPresent;
    hide PayloadsPresent, ReadDocument;
    assert c.(manifest := c.manifest) == c;
    assert c.(manifest := c.manifest, artifacts := ReadArtifacts(dir, c.manifest)) == c
           <==> ReadArtifacts(dir, c.manifest) == c.artifacts;
  }

  lemma FilesAreHeld(dir: Dir, c: Checkpoint)
    ensures HoldsFiles(dir, c) <==> AllPresent(dir, c.manifest.files) && PayloadsPresent(dir, c.manifest, c.optimizer)
  {
    if HoldsFiles(dir, c) {
      assert c.manifest.adapter.Some? ==> c.manifest.adapter == Some(c.manifest.adapter.value);
      assert c.manifest.trainable.Some? ==> c.manifest.trainable == Some(c.manifest.trainable.value);
    }
    forall i | 0 <= i < |c.manifest.files| && AllPresent(dir, c.manifest.files) ensures Member(c.manifest.files[i]) in dir {
      assert c.manifest.files[i] in c.manifest.files;
    }
  }

  lemma ArtifactsAreHeld(dir: Dir, c: Checkpoint)
    ensures HoldsArtifacts(dir, c) <==>
            !RequiredArtifactMissing(dir, c.manifest) && ReadArtifacts(dir, c.manifest) == c.artifacts
  {
    var read := ReadArtifacts(dir, c.manifest);
    if HoldsArtifacts(dir, c) {
      assert forall name :: name in read <==> name in c.artifacts;
      assert forall name :: name in read ==> read[name] == c.artifacts[name];
    }
  }

  /** `write` gets past its payload writer if and only if each payload it declares landed,
      or was there, and the optimizer's has the declared length. */
  lemma WhenStaged(host: Host, c: Checkpoint, leftover: Dir, payloads: map<string, seq<byte>>)
    ensures Staged(host, c, leftover, payloads).Some? <==>
            && (forall name :: c.manifest.adapter == Some(name) ==> name in payloads || Member(name) in leftover)
            && (forall bundle :: c.manifest.trainable == Some(bundle) ==>
                  bundle.file in payloads || Member(bundle.file) in leftover)
            && (c.optimizer.stateBytes != 0 ==>
                  if OPTIMIZER_STATE_FILE in payloads then |payloads[OPTIMIZER_STATE_FILE]| == c.optimizer.stateBytes
                  else Member(OPTIMIZER_STATE_FILE) in leftover
                       && host.Size(leftover[Member(OPTIMIZER_STATE_FILE)]) == c.optimizer.stateBytes)
  {
    hide WithPayloads;
    var dir := WithPayloads(leftover, payloads);
    DeclaredAre(c);
    if PayloadsLanded(host, c, dir) {
      forall name | name in Declared(c) ensures name in payloads || Member(name) in leftover {
        assert Member(name) in dir;
      }
    }
    hide Declared, BeforeManifest, Completed;
  }

  lemma DeclaredAre(c: Checkpoint)
    ensures forall name :: name in Declared(c) <==>
              || c.manifest.adapter == Some(name)
              || (c.manifest.trainable.Some? && c.manifest.trainable.value.file == name)
              || (c.optimizer.stateBytes != 0 && name == OPTIMIZER_STATE_FILE)
  {
  }

  // ----- the payload files

  /** The files at the root that `write` itself puts there. */
  const OWN_FILES: set<string> :=
    {MANIFEST_FILE, PROGRESS_FILE, SCHEDULER_FILE, OPTIMIZER_FILE, RNG_FILE, DATASET_FILE}

  /** A payload arrives untouched if and only if it goes by none of the names `write`
      uses itself; `write` accepts such a name and overwrites the payload. */
  lemma PayloadsSurviveUnderOtherNames(host: Host, c: Checkpoint, leftover: Dir, payloads: map<string, seq<byte>>,
                                       dir: Dir, name: string)
    requires Staged(host, c, leftover, payloads) == Some(dir) && name in payloads
    ensures ReadDocument(dir, name) == Some(Raw(payloads[name])) <==> name !in OWN_FILES
  {
    if name in OWN_FILES {
      StagedMembers(host, c, leftover, payloads, dir);
      var m := Completed(host, c.manifest, BeforeManifest(c, leftover, payloads));
      hide *;
      OwnFilesAreDocuments(dir, c, m, name);
    } else {
      hide *;
      OtherPayloadsAreKept(host, c, leftover, payloads, dir, name);
    }
  }

  lemma OwnFilesAreDocuments(dir: Dir, c: Checkpoint, m: Manifest, name: string)
    requires HoldsState(dir, c) && ReadDocument(dir, MANIFEST_FILE) == Some(ManifestDoc(m)) && name in OWN_FILES
    ensures ReadDocument(dir, name).Some? && !ReadDocument(dir, name).value.Raw?
  {
    hide ReadDocument;
  }

  lemma OtherPayloadsAreKept(host: Host, c: Checkpoint, leftover: Dir, payloads: map<string, seq<byte>>,
                             dir: Dir, name: string)
    requires Staged(host, c, leftover, payloads) == Some(dir) && name in payloads && name !in OWN_FILES
    ensures ReadDocument(dir, name) == Some(Raw(payloads[name]))
  {
    hide WithPayloads, WithState, WithArtifacts, PayloadsLanded, Completed, HoldsState;
    OtherNamesAreKept(WithPayloads(leftover, payloads), c, name);
  }

  lemma OtherNamesAreKept(dir: Dir, c: Checkpoint, name: string)
    requires Member(name) in dir && name !in OWN_FILES
    ensures Member(name) in WithState(dir, c) && WithState(dir, c)[Member(name)] == dir[Member(name)]
  {
  }

  /** The length and the digest the manifest records of the trainable bundle are those
      of the file found under its name, unless that name is the manifest's own. */
  lemma BundleIsRecordedAsFound(host: Host, c: Checkpoint, leftover: Dir, payloads: map<string, seq<byte>>, dir: Dir)
    requires Staged(host, c, leftover, payloads) == Some(dir)
    requires c.manifest.trainable.Some? && c.manifest.trainable.value.file != MANIFEST_FILE
    ensures var name := c.manifest.trainable.value.file;
            && Member(name) in dir
            && var found, recorded := dir[Member(name)], dir[Member(MANIFEST_FILE)];
               && recorded.ManifestDoc? && recorded.manifest.trainable.Some?
               && var bundle := recorded.manifest.trainable.value;
                  && bundle.file == name && bundle.bytes == host.Size(found)
                  && bundle.fingerprint == host.digest(found)
  {
    hide WithPayloads, WithState, WithArtifacts;
    var name := c.manifest.trainable.value.file;
    assert name in Declared(c);
    assert Member(name) in WithPayloads(leftover, payloads);
    hide Declared, PayloadsLanded;
    assert Member(name) in BeforeManifest(c, leftover, payloads);
  }
}
