/**
 The optimizer payload of a checkpoint: the slot table that describes it, the
 chunked reader behind it, and the parameter assignment compared on resume.
 */
module SlotTable {
  import opened Integers
  import opened Wrappers
  import opened Sequences
  import opened StableSort

  datatype SlotScope = Parameter | Shared

  datatype StateSlot = StateSlot(scope: SlotScope, owner: string, slot: string, offset: u64, nBytes: u64)

  type SlotKey = (SlotScope, string, string)

  function Key(s: StateSlot): SlotKey {
    (s.scope, s.owner, s.slot)
  }

  datatype TableError =
    | DuplicateSlot(row: nat)
    | Misplaced(row: nat, continues: u64)
    | Overflows(row: nat)
    | WrongTotal(covered: u64)

  /** How many bytes the rows describe. */
  function Total(slots: seq<StateSlot>): nat {
    if slots == [] then 0 else Total(slots[..|slots| - 1]) + slots[|slots| - 1].nBytes
  }

  ghost predicate DistinctKeys(slots: seq<StateSlot>) {
    forall i, j :: 0 <= i < j < |slots| ==> Key(slots[i]) != Key(slots[j])
  }

  /** Every row starts where the rows before it end. */
  ghost predicate Contiguous(slots: seq<StateSlot>) {
    forall i :: 0 <= i < |slots| ==> slots[i].offset == Total(slots[..i])
  }

  ghost predicate GoodRows(slots: seq<StateSlot>) {
    DistinctKeys(slots) && Contiguous(slots) && Total(slots) < U64_END
  }

  ghost predicate ValidTable(slots: seq<StateSlot>, stateBytes: u64) {
    GoodRows(slots) && Total(slots) == stateBytes
  }

  lemma {:induction false} TotalGrows(slots: seq<StateSlot>, i: nat)
    requires i <= |slots|
    ensures Total(slots[..i]) <= Total(slots)
    decreases |slots|
  {
    if i == |slots| {
      assert slots[..i] == slots;
    } else {
      var front := slots[..|slots| - 1];
      TotalGrows(front, i);
      assert front[..i] == slots[..i];
    }
  }

  ghost predicate KeyOccurs(slots: seq<StateSlot>, key: SlotKey) {
    exists j :: 0 <= j < |slots| && Key(slots[j]) == key
  }

  lemma NextKey(slots: seq<StateSlot>, row: nat)
    requires row < |slots| && DistinctKeys(slots[..row])
    ensures DistinctKeys(slots[..row + 1]) <==> !KeyOccurs(slots[..row], Key(slots[row]))
  {
  }

  lemma NextOffset(slots: seq<StateSlot>, row: nat)
    requires row < |slots| && Contiguous(slots[..row])
    ensures Contiguous(slots[..row + 1]) <==> slots[row].offset == Total(slots[..row])
    ensures Total(slots[..row + 1]) == Total(slots[..row]) + slots[row].nBytes
  {
    hide Total;
    var before, through := slots[..row], slots[..row + 1];
    forall i | 0 <= i <= row ensures through[..i] == before[..i] {
    }
    assert before[..row] == before;
    assert forall i :: 0 <= i < row ==> through[i] == before[i];
    LastRow(slots, row);
  }

  lemma LastRow(slots: seq<StateSlot>, row: nat)
    requires row < |slots|
    ensures Total(slots[..row + 1]) == Total(slots[..row]) + slots[row].nBytes
  {
    assert slots[..row + 1][..row] == slots[..row];
  }

  /** When one more row keeps a good table good. */
  lemma NextRow(slots: seq<StateSlot>, row: nat)
    requires row < |slots| && GoodRows(slots[..row])
    ensures Total(slots[..row + 1]) == Total(slots[..row]) + slots[row].nBytes
    ensures GoodRows(slots[..row + 1]) <==>
            && !KeyOccurs(slots[..row], Key(slots[row]))
            && slots[row].offset == Total(slots[..row])
            && Total(slots[..row + 1]) < U64_END
  {
    hide DistinctKeys, Contiguous, Total, KeyOccurs;
    NextKey(slots, row);
    NextOffset(slots, row);
  }

  lemma PrefixesAreGood(slots: seq<StateSlot>, n: nat)
    requires n <= |slots| && GoodRows(slots)
    ensures GoodRows(slots[..n])
  {
    TotalGrows(slots, n);
    assert forall i :: 0 <= i < n ==> slots[..n][..i] == slots[..i];
  }

  // ----- the same in the fields of the rows

  /** Row `j` is a second one of the same scope, owner and slot. */
  ghost predicate IsSecondRow(slots: seq<StateSlot>, j: nat)
    requires j < |slots|
  {
    exists i :: 0 <= i < j && slots[i].scope == slots[j].scope && slots[i].owner == slots[j].owner
                && slots[i].slot == slots[j].slot
  }

  /** Where the rows end that come before row `j`. */
  function EndBefore(slots: seq<StateSlot>, j: nat): nat
    requires j <= |slots|
  {
    if j == 0 then 0 else slots[j - 1].offset + slots[j - 1].nBytes
  }

  /** Row `j` is no second one, and starts where the one before it ends, below 2^64. */
  ghost predicate IsNextRow(slots: seq<StateSlot>, j: nat)
    requires j < |slots|
  {
    !IsSecondRow(slots, j) && slots[j].offset == EndBefore(slots, j) && EndBefore(slots, j + 1) < U64_END
  }

  ghost predicate FollowOn(slots: seq<StateSlot>, n: nat)
    requires n <= |slots|
  {
    forall j: nat :: j < n ==> IsNextRow(slots, j)
  }

  lemma SecondRowIs(slots: seq<StateSlot>, j: nat)
    requires j < |slots|
    ensures IsSecondRow(slots, j) <==> KeyOccurs(slots[..j], Key(slots[j]))
  {
    if i :| 0 <= i < j && slots[i].scope == slots[j].scope && slots[i].owner == slots[j].owner
            && slots[i].slot == slots[j].slot {
      assert Key(slots[..j][i]) == Key(slots[j]);
    }
  }

  lemma OneMoreGoodRow(slots: seq<StateSlot>, n: nat)
    requires n < |slots| && GoodRows(slots[..n]) && Total(slots[..n]) == EndBefore(slots, n)
    ensures GoodRows(slots[..n + 1]) <==> IsNextRow(slots, n)
    ensures IsNextRow(slots, n) ==> Total(slots[..n + 1]) == EndBefore(slots, n + 1)
  {
    hide GoodRows, Total, IsSecondRow, KeyOccurs;
    NextRow(slots, n);
    SecondRowIs(slots, n);
  }

  lemma FewerRowsAreGood(slots: seq<StateSlot>, n: nat)
    requires n < |slots| && GoodRows(slots[..n + 1])
    ensures GoodRows(slots[..n])
  {
    PrefixesAreGood(slots[..n + 1], n);
    assert slots[..n + 1][..n] == slots[..n];
  }

  lemma OneMoreFollowsOn(slots: seq<StateSlot>, n: nat)
    requires n < |slots|
    ensures FollowOn(slots, n + 1) <==> FollowOn(slots, n) && IsNextRow(slots, n)
  {
    hide IsNextRow;
  }

  lemma {:induction false} GoodRowsFollowOn(slots: seq<StateSlot>, n: nat)
    requires n <= |slots|
    ensures GoodRows(slots[..n]) <==> FollowOn(slots, n)
    ensures GoodRows(slots[..n]) ==> Total(slots[..n]) == EndBefore(slots, n)
    decreases n
  {
    if n > 0 {
      hide *;
      OneMoreFollowsOn(slots, n - 1);
      GoodRowsFollowOn(slots, n - 1);
      if GoodRows(slots[..n]) {
        FewerRowsAreGood(slots, n - 1);
      }
      if GoodRows(slots[..n - 1]) {
        OneMoreGoodRow(slots, n - 1);
      }
    } else {
      assert slots[..0] == [];
    }
  }

  lemma ValidTableFollowsOn(slots: seq<StateSlot>, stateBytes: u64)
    ensures ValidTable(slots, stateBytes) <==> FollowOn(slots, |slots|) && EndBefore(slots, |slots|) == stateBytes
  {
    GoodRowsFollowOn(slots, |slots|);
    assert slots[..|slots|] == slots;
    hide GoodRows, FollowOn;
  }

  /** Accepts exactly the tables no two rows of which agree in scope, owner and slot, whose
      rows follow each other from byte 0 on, and which end at the declared length; otherwise
      reports the first row at fault and what is wrong with it, checked in this order. */
  method ValidateSlotTable(slots: seq<StateSlot>, stateBytes: u64) returns (r: Result<(), TableError>)
    ensures r.Ok? <==> ValidTable(slots, stateBytes)
    ensures r.Ok? <==> FollowOn(slots, |slots|) && EndBefore(slots, |slots|) == stateBytes
    ensures r.Err? && !r.error.WrongTotal? ==> r.error.row < |slots| && FollowOn(slots, r.error.row)
    ensures r.Err? && r.error.DuplicateSlot? ==> IsSecondRow(slots, r.error.row)
    ensures r.Err? && r.error.Misplaced? ==>
              && !IsSecondRow(slots, r.error.row)
              && r.error.continues == EndBefore(slots, r.error.row) != slots[r.error.row].offset
    ensures r.Err? && r.error.Overflows? ==>
              && !IsSecondRow(slots, r.error.row) && slots[r.error.row].offset == EndBefore(slots, r.error.row)
              && EndBefore(slots, r.error.row + 1) >= U64_END
    ensures r.Err? && r.error.WrongTotal? ==>
              FollowOn(slots, |slots|) && r.error.covered == EndBefore(slots, |slots|) != stateBytes
  {
    ValidTableFollowsOn(slots, stateBytes);
    hide ValidTable, IsSecondRow;
    var seen: set<SlotKey> := {};
    var next: u64 := 0;
    for row := 0 to |slots|
      invariant FollowOn(slots, row)
      invariant next == EndBefore(slots, row)
      invariant forall key :: key in seen <==> KeyOccurs(slots[..row], key)
    {
      var slot := slots[row];
      SeenGrows(slots, row);
      SecondRowIs(slots, row);
      hide KeyOccurs;
      assert IsNextRow(slots, row) <==>
             Key(slot) !in seen && slot.offset == next && next + slot.nBytes < U64_END;
      if Key(slot) in seen {
        return Err(DuplicateSlot(row));
      }
      seen := seen + {Key(slot)};
      if slot.offset != next {
        return Err(Misplaced(row, next));
      }
      if next + slot.nBytes >= U64_END {
        return Err(Overflows(row));
      }
      next := next + slot.nBytes;
    }
    if next != stateBytes {
      return Err(WrongTotal(next));
    }
    return Ok(());
  }

  lemma SeenGrows(slots: seq<StateSlot>, row: nat)
    requires row < |slots|
    ensures forall key :: KeyOccurs(slots[..row + 1], key) <==> KeyOccurs(slots[..row], key) || key == Key(slots[row])
  {
  }

  // ----- what a valid table says about the payload

  /** Byte `b` of the payload belongs to row `i`. */
  predicate Holds(slots: seq<StateSlot>, i: int, b: nat)
    requires 0 <= i < |slots|
  {
    slots[i].offset <= b < slots[i].offset + slots[i].nBytes
  }

  lemma RowEnds(slots: seq<StateSlot>, i: nat)
    requires Contiguous(slots) && i < |slots|
    ensures slots[i].offset + slots[i].nBytes == Total(slots[..i + 1]) <= Total(slots)
  {
    LastRow(slots, i);
    TotalGrows(slots, i + 1);
  }

  /** No row reaches past the payload, so no read through an accepted table can. */
  lemma NoRowReadsPastTheEnd(slots: seq<StateSlot>, stateBytes: u64)
    requires ValidTable(slots, stateBytes)
    ensures forall i :: 0 <= i < |slots| ==> slots[i].offset + slots[i].nBytes <= stateBytes
  {
    forall i | 0 <= i < |slots| ensures slots[i].offset + slots[i].nBytes <= stateBytes {
      RowEnds(slots, i);
    }
  }

  lemma {:induction false} SomeRowHolds(slots: seq<StateSlot>, b: nat) returns (i: nat)
    requires Contiguous(slots) && b < Total(slots)
    ensures i < |slots| && Holds(slots, i, b)
    decreases |slots|
  {
    var n := |slots| - 1;
    var front := slots[..n];
    assert slots[..n + 1] == slots;
    RowEnds(slots, n);
    if b >= Total(front) {
      i := n;
    } else {
      assert forall k :: 0 <= k < n ==> front[..k] == slots[..k];
      i := SomeRowHolds(front, b);
    }
  }

  /** The payload is tiled: every byte of it belongs to one row and to no other. */
  lemma EveryByteHasExactlyOneRow(slots: seq<StateSlot>, stateBytes: u64, b: nat)
    requires ValidTable(slots, stateBytes) && b < stateBytes
    ensures exists i :: 0 <= i < |slots| && Holds(slots, i, b)
    ensures forall i, j :: 0 <= i < j < |slots| ==> !(Holds(slots, i, b) && Holds(slots, j, b))
  {
    var row := SomeRowHolds(slots, b);
    forall i, j | 0 <= i < j < |slots| ensures !(Holds(slots, i, b) && Holds(slots, j, b)) {
      RowEnds(slots, i);
      TotalGrows(slots[..j], i + 1);
      assert slots[..j][..i + 1] == slots[..i + 1];
    }
  }

  function Payload(file: seq<byte>, slot: StateSlot): (r: seq<byte>)
    requires slot.offset + slot.nBytes <= |file|
    ensures |r| == slot.nBytes
  {
    file[slot.offset..slot.offset + slot.nBytes]
  }

  /** The payloads of the rows, in file order. */
  function Payloads(file: seq<byte>, slots: seq<StateSlot>): seq<seq<byte>>
    requires InFile(file, slots)
  {
    seq(|slots|, i requires 0 <= i < |slots| => Payload(file, slots[i]))
  }

  ghost predicate InFile(file: seq<byte>, slots: seq<StateSlot>) {
    forall i :: 0 <= i < |slots| ==> slots[i].offset + slots[i].nBytes <= |file|
  }

  lemma OneMorePayload(file: seq<byte>, slots: seq<StateSlot>, i: nat)
    requires InFile(file, slots) && i < |slots|
    ensures Flatten(Payloads(file, slots)[..i + 1]) == Flatten(Payloads(file, slots)[..i]) + Payload(file, slots[i])
  {
    var parts := Payloads(file, slots);
    var last := Payload(file, slots[i]);
    FlattenSnoc(parts[..i], last);
    assert parts[..i + 1] == parts[..i] + [last];
  }

  lemma FrontGrows(file: seq<byte>, slot: StateSlot, payload: seq<byte>)
    requires slot.offset + slot.nBytes <= |file| && payload == Payload(file, slot)
    ensures file[..slot.offset] + payload == file[..slot.offset + slot.nBytes]
  {
  }

  lemma {:induction false} PayloadsCoverTheFront(file: seq<byte>, slots: seq<StateSlot>, n: nat)
    requires Contiguous(slots) && Total(slots) <= |file| && InFile(file, slots) && n <= |slots|
    ensures Total(slots[..n]) <= |file|
    ensures Flatten(Payloads(file, slots)[..n]) == file[..Total(slots[..n])]
  {
    TotalGrows(slots, n);
    if n > 0 {
      PayloadsCoverTheFront(file, slots, n - 1);
      OneMorePayload(file, slots, n - 1);
      RowEnds(slots, n - 1);
      assert slots[n - 1].offset == Total(slots[..n - 1]);
      hide *;
      FrontGrows(file, slots[n - 1], Payload(file, slots[n - 1]));
    }
  }

  /** Read row by row, an accepted table yields the payload file byte for byte. */
  lemma RowsSpellThePayload(file: seq<byte>, slots: seq<StateSlot>, stateBytes: u64)
    requires ValidTable(slots, stateBytes) && |file| == stateBytes
    ensures InFile(file, slots) && Flatten(Payloads(file, slots)) == file
  {
    NoRowReadsPastTheEnd(slots, stateBytes);
    PayloadsCoverTheFront(file, slots, |slots|);
    assert slots[..|slots|] == slots && Payloads(file, slots)[..|slots|] == Payloads(file, slots);
    assert file[..|file|] == file;
  }

  // ----- the chunked reader

  /** One call of the closure a payload is streamed to. */
  datatype Chunk = Chunk(offset: nat, bytes: seq<byte>)

  /** What a payload comes out as from position `done` on, through a buffer of `size` bytes. */
  function Chunks(payload: seq<byte>, size: nat, done: nat): seq<Chunk>
    requires size > 0 && done <= |payload|
    decreases |payload| - done
  {
    if done == |payload| then []
    else
      var want := if |payload| - done < size then |payload| - done else size;
      [Chunk(done, payload[done..done + want])] + Chunks(payload, size, done + want)
  }

  /** The chunk that starts at `done`, read from the file. */
  function ChunkAt(file: seq<byte>, slot: StateSlot, size: nat, done: nat): (c: Chunk)
    requires slot.offset + slot.nBytes <= |file| && size > 0 && done < slot.nBytes
    ensures 0 < |c.bytes| <= slot.nBytes - done
  {
    var want := if slot.nBytes - done < size then slot.nBytes - done else size;
    Chunk(done, file[slot.offset + done..slot.offset + done + want])
  }

  lemma NextChunk(file: seq<byte>, slot: StateSlot, size: nat, done: nat)
    requires slot.offset + slot.nBytes <= |file| && size > 0 && done <= slot.nBytes
    ensures var rest := Chunks(Payload(file, slot), size, done);
            if done == slot.nBytes then rest == []
            else
              var chunk := ChunkAt(file, slot, size, done);
              rest == [chunk] + Chunks(Payload(file, slot), size, done + |chunk.bytes|)
  {
    if done < slot.nBytes {
      var want := |ChunkAt(file, slot, size, done).bytes|;
      SliceOfSlice(file, slot.offset, slot.offset + slot.nBytes, done, done + want);
    }
  }

  function Bytes(chunks: seq<Chunk>): seq<byte> {
    if chunks == [] then [] else chunks[0].bytes + Bytes(chunks[1..])
  }

  /** Chunks follow each other without gap or overlap, none is empty or larger than the
      buffer, and all but the last fill it. */
  ghost predicate Consecutive(chunks: seq<Chunk>, size: nat, from: nat) {
    chunks == [] ||
    (chunks[0].offset == from && 0 < |chunks[0].bytes| <= size
     && (|chunks| > 1 ==> |chunks[0].bytes| == size)
     && Consecutive(chunks[1..], size, from + |chunks[0].bytes|))
  }

  lemma FirstChunk(chunk: Chunk, rest: seq<Chunk>, size: nat)
    requires 0 < |chunk.bytes| <= size && (rest != [] ==> |chunk.bytes| == size)
    requires Consecutive(rest, size, chunk.offset + |chunk.bytes|)
    ensures Consecutive([chunk] + rest, size, chunk.offset)
    ensures Bytes([chunk] + rest) == chunk.bytes + Bytes(rest)
  {
    assert ([chunk] + rest)[1..] == rest;
  }

  lemma NoChunks(payload: seq<byte>, size: nat)
    requires size > 0
    ensures Chunks(payload, size, |payload|) == []
  {
  }

  lemma {:induction false} ChunksSpellThePayload(payload: seq<byte>, size: nat, done: nat)
    requires size > 0 && done <= |payload|
    ensures Bytes(Chunks(payload, size, done)) == payload[done..]
    ensures Consecutive(Chunks(payload, size, done), size, done)
    decreases |payload| - done
  {
    if done < |payload| {
      var want := if |payload| - done < size then |payload| - done else size;
      var next, rest := done + want, Chunks(payload, size, done + want);
      assert Chunks(payload, size, done) == [Chunk(done, payload[done..next])] + rest;
      ChunksSpellThePayload(payload, size, next);
      NoChunks(payload, size);
      hide Chunks, Consecutive, Bytes;
      FirstChunk(Chunk(done, payload[done..next]), rest, size);
      assert payload[done..] == payload[done..next] + payload[next..];
    }
  }

  /** The closure a payload is streamed to: it takes chunks until it refuses one. */
  class Applier {
    var taken: seq<Chunk>
    var accepts: nat

    constructor (accepts: nat)
      ensures taken == [] && this.accepts == accepts
    {
      taken := [];
      this.accepts := accepts;
    }

    method Apply(offset: nat, bytes: seq<byte>) returns (ok: bool)
      modifies this
      ensures ok <==> old(accepts) > 0
      ensures ok ==> taken == old(taken) + [Chunk(offset, bytes)] && accepts == old(accepts) - 1
      ensures !ok ==> taken == old(taken) && accepts == old(accepts)
    {
      ok := accepts > 0;
      if ok {
        taken := taken + [Chunk(offset, bytes)];
        accepts := accepts - 1;
      }
    }
  }

  datatype StreamError = EmptyStaging | RangeOverflows | PastTheEnd | Refused

  /** Why a slot cannot be streamed out of a file of `len` bytes at all. */
  function Unreadable(len: nat, slot: StateSlot, size: nat): Option<StreamError> {
    if size == 0 then Some(EmptyStaging)
    else if slot.offset + slot.nBytes >= U64_END then Some(RangeOverflows)
    else if slot.offset + slot.nBytes > len then Some(PastTheEnd)
    else None
  }

  /** Every chunk was taken, or `apply` took what it had room for and the stream stopped there. */
  ghost predicate Delivered(chunks: seq<Chunk>, room: nat, before: seq<Chunk>, after: seq<Chunk>,
                            r: Result<(), StreamError>)
  {
    if |chunks| <= room then r == Ok(()) && after == before + chunks
    else r == Err(Refused) && after == before + chunks[..room]
  }

  class OptimizerStateReader {
    const file: seq<byte>
    var position: nat

    /** `open`: refuses a file whose length is not the declared one. */
    static method Open(file: seq<byte>, stateBytes: u64) returns (r: Option<OptimizerStateReader>)
      ensures r.Some? <==> |file| == stateBytes
      ensures r.Some? ==> fresh(r.value) && r.value.file == file
    {
      if |file| != stateBytes {
        return None;
      }
      var reader := new OptimizerStateReader(file);
      return Some(reader);
    }

    constructor (file: seq<byte>)
      ensures this.file == file
    {
      this.file := file;
      position := 0;
    }

    /** `read_exact`: fills the first `want` bytes of the buffer from the current position. */
    method ReadExact(staging: array<byte>, want: nat)
      requires want <= staging.Length && position + want <= |file|
      modifies this, staging
      ensures position == old(position) + want
      ensures staging[..want] == file[old(position)..old(position) + want]
    {
      var i := 0;
      while i < want
        invariant 0 <= i <= want && position == old(position)
        invariant forall k :: 0 <= k < i ==> staging[k] == file[position + k]
      {
        staging[i] := file[position + i];
        i := i + 1;
      }
      position := position + want;
    }

    /** Feeds the payload of one slot to `apply`, one buffer at a time. */
    method Stream(slot: StateSlot, staging: array<byte>, apply: Applier) returns (r: Result<(), StreamError>)
      requires |file| < U64_END
      modifies this, staging, apply
      ensures match Unreadable(|file|, slot, staging.Length)
              case Some(e) => r == Err(e) && apply.taken == old(apply.taken)
              case None => Delivered(Chunks(Payload(file, slot), staging.Length, 0), old(apply.accepts),
                                     old(apply.taken), apply.taken, r)
    {
      if staging.Length == 0 {
        return Err(EmptyStaging);
      }
      var end := slot.offset + slot.nBytes;
      if end >= U64_END {
        return Err(RangeOverflows);
      }
      if end > |file| {
        return Err(PastTheEnd);
      }
      position := slot.offset;
      r := StreamChunks(slot, staging, apply);
    }

    /** The loop of `Stream`, once the range is known to lie in the file. */
    method StreamChunks(slot: StateSlot, staging: array<byte>, apply: Applier) returns (r: Result<(), StreamError>)
      requires slot.offset + slot.nBytes <= |file| && staging.Length > 0 && position == slot.offset
      modifies this, staging, apply
      ensures Delivered(Chunks(Payload(file, slot), staging.Length, 0), old(apply.accepts),
                        old(apply.taken), apply.taken, r)
    {
      hide Chunks, Payload, ChunkAt;
      var done: nat := 0;
      ghost var size, taken := staging.Length, apply.taken;
      ghost var all := Chunks(Payload(file, slot), size, 0);
      ghost var sent: seq<Chunk> := [];
      while done < slot.nBytes
        invariant done <= slot.nBytes && position == slot.offset + done
        invariant all == sent + Chunks(Payload(file, slot), size, done)
        invariant apply.taken == taken + sent
        invariant apply.accepts + |sent| == old(apply.accepts)
        decreases slot.nBytes - done
      {
        NextChunk(file, slot, size, done);
        ghost var chunk := ChunkAt(file, slot, size, done);
        var ok, want := StreamOne(slot, done, staging, apply);
        if !ok {
          assert all[..|sent|] == sent;
          return Err(Refused);
        }
        sent := sent + [chunk];
        done := done + want;
      }
      NextChunk(file, slot, size, done);
      return Ok(());
    }

    /** One turn of the loop: fill the buffer, hand over what was read. */
    method StreamOne(slot: StateSlot, done: nat, staging: array<byte>, apply: Applier) returns (ok: bool, want: nat)
      requires slot.offset + slot.nBytes <= |file| && staging.Length > 0 && done < slot.nBytes
      requires position == slot.offset + done
      modifies this, staging, apply
      ensures var chunk := ChunkAt(file, slot, staging.Length, done);
              && want == |chunk.bytes| && position == old(position) + want
              && (ok <==> old(apply.accepts) > 0)
              && (ok ==> apply.taken == old(apply.taken) + [chunk] && apply.accepts == old(apply.accepts) - 1)
              && (!ok ==> apply.taken == old(apply.taken) && apply.accepts == old(apply.accepts))
    {
      var remaining := slot.nBytes - done;
      want := if remaining < staging.Length then remaining else staging.Length;
      ReadExact(staging, want);
      ok := apply.Apply(done, staging[..want]);
    }
  }

  /** Streaming every slot of an accepted table, in file order, through any buffer
      that holds at least a byte: no slot is refused, and what arrives is the whole
      payload file. */
  method Restore(reader: OptimizerStateReader, slots: seq<StateSlot>, staging: array<byte>) returns (received: seq<byte>)
    requires |reader.file| < U64_END && ValidTable(slots, |reader.file|)
    requires staging.Length > 0
    modifies reader, staging
    ensures received == reader.file
  {
    RowsSpellThePayload(reader.file, slots, |reader.file|);
    received := [];
    var i := 0;
    while i < |slots|
      invariant 0 <= i <= |slots|
      invariant received == Flatten(Payloads(reader.file, slots)[..i])
    {
      hide ValidTable, Flatten, Chunks;
      var payload := Payload(reader.file, slots[i]);
      var apply := new Applier(|Chunks(payload, staging.Length, 0)|);
      var r := reader.Stream(slots[i], staging, apply);
      ChunksSpellThePayload(payload, staging.Length, 0);
      assert apply.taken == Chunks(payload, staging.Length, 0) && payload[0..] == payload;
      OneMorePayload(reader.file, slots, i);
      received := received + Bytes(apply.taken);
      i := i + 1;
    }
    assert Payloads(reader.file, slots)[..i] == Payloads(reader.file, slots);
  }

  // ----- parameter assignment

  datatype ParameterAssignment = ParameterAssignment(parameter: string, optimizer: string, layoutVersion: nat)

  predicate NameLeq(a: string, b: string) {
    a == "" || (b != "" && (a[0] < b[0] || (a[0] == b[0] && NameLeq(a[1..], b[1..]))))
  }

  predicate ByName(a: ParameterAssignment, b: ParameterAssignment) {
    NameLeq(a.parameter, b.parameter)
  }

  lemma {:induction false} NameOrder(a: string, b: string, c: string)
    ensures NameLeq(a, b) || NameLeq(b, a)
    ensures NameLeq(a, b) && NameLeq(b, c) ==> NameLeq(a, c)
    ensures NameLeq(a, b) && NameLeq(b, a) ==> a == b
  {
    if a != "" && b != "" {
      NameOrder(a[1..], b[1..], if c == "" then "" else c[1..]);
      assert a == [a[0]] + a[1..] && b == [b[0]] + b[1..];
    }
  }

  lemma ByNameOrders()
    ensures TotalPreorder(ByName)
    ensures forall a, b :: ByName(a, b) && ByName(b, a) <==> a.parameter == b.parameter
  {
    forall a: ParameterAssignment, b: ParameterAssignment, c: ParameterAssignment
      ensures (ByName(a, b) || ByName(b, a)) && (ByName(a, b) && ByName(b, c) ==> ByName(a, c))
      ensures ByName(a, b) && ByName(b, a) <==> a.parameter == b.parameter
    {
      NameOrder(a.parameter, b.parameter, c.parameter);
      NameOrder(a.parameter, a.parameter, a.parameter);
    }
  }

  /** The rows of one parameter, in table order. */
  function RowsOf(rows: seq<ParameterAssignment>, parameter: string): seq<ParameterAssignment> {
    if rows == [] then []
    else (if rows[0].parameter == parameter then [rows[0]] else []) + RowsOf(rows[1..], parameter)
  }

  /** `check_assignment`: both tables sorted by parameter are the same table. */
  predicate SameAssignment(saved: seq<ParameterAssignment>, expected: seq<ParameterAssignment>) {
    Sort(ByName, saved) == Sort(ByName, expected)
  }

  ghost predicate SameRows(saved: seq<ParameterAssignment>, expected: seq<ParameterAssignment>) {
    forall parameter :: RowsOf(saved, parameter) == RowsOf(expected, parameter)
  }

  lemma {:induction false} PeersAreRows(rows: seq<ParameterAssignment>, row: ParameterAssignment)
    ensures Peers(ByName, row, rows) == RowsOf(rows, row.parameter)
  {
    if rows != [] {
      ByNameOrders();
      PeersAreRows(rows[1..], row);
    }
  }

  /** The comparison is by parameter: two tables pass exactly when each parameter
      has the same rows in both, in the same order. The order of the parameters
      never matters; the order of two rows of one parameter does. */
  lemma AssignmentIsComparedByParameter(saved: seq<ParameterAssignment>, expected: seq<ParameterAssignment>)
    ensures SameAssignment(saved, expected) <==> SameRows(saved, expected)
  {
    ByNameOrders();
    if SameAssignment(saved, expected) {
      forall parameter ensures RowsOf(saved, parameter) == RowsOf(expected, parameter) {
        var row := ParameterAssignment(parameter, "", 0);
        SortIsStable(ByName, saved, row);
        SortIsStable(ByName, expected, row);
        PeersAreRows(saved, row);
        PeersAreRows(expected, row);
      }
    }
    if SameRows(saved, expected) {
      SortSorts(ByName, saved);
      SortSorts(ByName, expected);
      forall row ensures Peers(ByName, row, Sort(ByName, saved)) == Peers(ByName, row, Sort(ByName, expected)) {
        SortIsStable(ByName, saved, row);
        SortIsStable(ByName, expected, row);
        PeersAreRows(saved, row);
        PeersAreRows(expected, row);
      }
      PeersDetermineSorted(ByName, Sort(ByName, saved), Sort(ByName, expected));
    }
  }

  /** Two rows of one parameter, swapped, are another assignment. */
  lemma SwappedRowsDiffer(a: ParameterAssignment, b: ParameterAssignment)
    requires a.parameter == b.parameter && a != b
    ensures !SameAssignment([a, b], [b, a])
  {
    assert RowsOf([a, b], a.parameter)[0] == a && RowsOf([b, a], a.parameter)[0] == b;
    AssignmentIsComparedByParameter([a, b], [b, a]);
  }
}
