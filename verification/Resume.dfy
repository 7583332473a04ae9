/**
 From the payload writer of one process to the optimizer of the next: publication,
 the directory format and the slot table together.
 */
module Resume {
  import opened Integers
  import opened Wrappers
  import opened Sequences
  import opened SlotTable
  import opened CheckpointFormat
  import opened Publication

  /** The optimizer payload of a checkpoint directory. */
  function PayloadFile(dir: Dir): Option<seq<byte>> {
    match ReadDocument(dir, OPTIMIZER_STATE_FILE)
    case Some(Raw(bytes)) => Some(bytes)
    case _ => None
  }

  lemma PayloadNameDiffers()
    ensures OPTIMIZER_STATE_FILE !in OWN_FILES
  {
    FileNamesDiffer();
    assert OPTIMIZER_STATE_FILE[0] == 'o' && OPTIMIZER_STATE_FILE[9] == '-' && OPTIMIZER_FILE[9] == '.';
  }

  lemma PayloadHasItsLength(host: Host, c: Checkpoint, leftover: Dir, payloads: map<string, seq<byte>>, dir: Dir)
    requires Staged(host, c, leftover, payloads) == Some(dir)
    requires c.optimizer.stateBytes > 0 && OPTIMIZER_STATE_FILE in payloads
    ensures |payloads[OPTIMIZER_STATE_FILE]| == c.optimizer.stateBytes
  {
    hide BeforeManifest, Completed, Declared;
  }

  /** The payload a readable checkpoint holds is the one its writer was asked for, of
      the declared length, and the slots of the checkpoint tile it. */
  lemma StagedPayloadIsTiled(host: Host, c: Checkpoint, leftover: Dir, payloads: map<string, seq<byte>>, dir: Dir)
    requires Staged(host, c, leftover, payloads) == Some(dir) && Accepted(c, leftover, payloads)
    requires c.optimizer.stateBytes > 0 && OPTIMIZER_STATE_FILE in payloads
    ensures var written := payloads[OPTIMIZER_STATE_FILE];
            && PayloadFile(dir) == Some(written) && |written| == c.optimizer.stateBytes
            && InFile(written, c.optimizer.slots)
            && Flatten(SlotTable.Payloads(written, c.optimizer.slots)) == written
  {
    hide Staged, ValidTable, FilesNamed, RequiredHeld;
    PayloadNameDiffers();
    PayloadsSurviveUnderOtherNames(host, c, leftover, payloads, dir, OPTIMIZER_STATE_FILE);
    PayloadHasItsLength(host, c, leftover, payloads, dir);
    RowsSpellThePayload(payloads[OPTIMIZER_STATE_FILE], c.optimizer.slots, c.optimizer.stateBytes);
  }

  /** Opens the payload of a directory as its own optimizer record describes it, and
      streams every slot. */
  method RestoreFrom(dir: Dir, staging: array<byte>) returns (received: Option<seq<byte>>)
    requires staging.Length > 0
    modifies staging
    ensures received ==
            match ReadDocument(dir, OPTIMIZER_FILE)
            case Some(OptimizerDoc(o)) =>
              if PayloadFile(dir).Some? && ValidTable(o.slots, o.stateBytes) && |PayloadFile(dir).value| == o.stateBytes
              then PayloadFile(dir) else None
            case _ => None
  {
    hide PayloadFile, ValidTable, ReadDocument;
    var found := ReadDocument(dir, OPTIMIZER_FILE);
    var file := PayloadFile(dir);
    if found.None? || !found.value.OptimizerDoc? || file.None? {
      return None;
    }
    var optimizer := found.value.optimizer;
    var checked := ValidateSlotTable(optimizer.slots, optimizer.stateBytes);
    if checked.Err? {
      return None;
    }
    var reader := OptimizerStateReader.Open(file.value, optimizer.stateBytes);
    if reader.None? {
      return None;
    }
    var bytes := Restore(reader.value, optimizer.slots, staging);
    return Some(bytes);
  }

  /** Resuming, whatever writes, failures and crashes came before: if the attempt that
      was published last is one `read` accepts, the directory a reader picks yields byte for
      byte the payload that attempt was given. */
  method ResumeAfter(ghost run: seq<Protocol>, ghost i: nat, fs: FileSystem, staging: array<byte>)
    returns (received: Option<seq<byte>>)
    requires IsRun(run) && i < |run| && run[i].fs == fs && run[i].published.Some? && staging.Length > 0
    requires var (r, leftover) := (run[i].published.value.request, run[i].published.value.leftover);
             && Accepted(r.checkpoint, leftover, r.payloads)
             && r.checkpoint.optimizer.stateBytes > 0 && OPTIMIZER_STATE_FILE in r.payloads
    modifies staging
    ensures received == Some(run[i].published.value.request.payloads[OPTIMIZER_STATE_FILE])
  {
    hide IsRun, Staged, Accepted, PayloadFile, ValidTable, ReadDocument;
    PublishedIsRead(run, i);
    ghost var r, leftover := run[i].published.value.request, run[i].published.value.leftover;
    ghost var dir := fs[ReadablePlace(fs)];
    StagedPayloadIsTiled(r.host, r.checkpoint, leftover, r.payloads, dir);
    HeldOptimizer(r.host, r.checkpoint, leftover, r.payloads, dir);
    received := RestoreFrom(fs[ReadablePlace(fs)], staging);
  }

  lemma PublishedIsRead(run: seq<Protocol>, i: nat)
    requires IsRun(run) && i < |run| && run[i].published.Some?
    ensures ReadablePlace(run[i].fs) in run[i].fs
    ensures var (r, leftover) := (run[i].published.value.request, run[i].published.value.leftover);
            Staged(r.host, r.checkpoint, leftover, r.payloads) == Some(run[i].fs[ReadablePlace(run[i].fs)])
  {
    ReadersAreSafe(run, i);
    hide IsRun, Staged;
  }

  lemma HeldOptimizer(host: Host, c: Checkpoint, leftover: Dir, payloads: map<string, seq<byte>>, dir: Dir)
    requires Staged(host, c, leftover, payloads) == Some(dir) && Accepted(c, leftover, payloads)
    ensures ReadDocument(dir, OPTIMIZER_FILE) == Some(OptimizerDoc(c.optimizer))
    ensures ValidTable(c.optimizer.slots, c.optimizer.stateBytes)
  {
    StagedMembers(host, c, leftover, payloads, dir);
    hide Staged, ReadDocument, BeforeManifest, Completed;
  }
}
