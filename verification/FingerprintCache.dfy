/**
 The process-wide cache of file fingerprints. The digest is a parameter; the clock
 of the file system is whatever the files say.
 */
module FingerprintCache {
  import opened Integers
  import opened Wrappers

  /** A file as one call finds it; the time is missing where the system keeps none. */
  datatype DiskFile = DiskFile(bytes: seq<byte>, modified: Option<nat>)

  /** Which file a call names, and what is there: nothing, if it cannot be read. */
  datatype Call = Call(path: string, found: Option<DiskFile>)

  datatype Entry = Entry(size: nat, modified: Option<nat>, fingerprint: string)

  type Entries = map<string, Entry>

  // ----- hashing in pieces

  /** A streaming digest: its state, and what is read off it at the end. */
  datatype Hash<!H(!new)> = Hash(start: H, absorb: (H, seq<byte>) -> H, finish: H -> string)
  {
    /** Absorbing in pieces is absorbing the whole. */
    ghost predicate Streams() {
      && (forall h :: absorb(h, []) == h)
      && (forall h, xs, ys :: absorb(absorb(h, xs), ys) == absorb(h, xs + ys))
    }

    function Of(bytes: seq<byte>): string {
      finish(absorb(start, bytes))
    }

    function Digest(): seq<byte> -> string {
      bytes => Of(bytes)
    }
  }

  /** `fingerprint_file`: reads of any size up to the buffer's, until one comes back empty. */
  method FingerprintFile<H(!new)>(hash: Hash<H>, bytes: seq<byte>, buffer: nat) returns (text: string)
    requires hash.Streams() && buffer > 0
    ensures text == hash.Of(bytes)
  {
    hide *;
    assert bytes[..0] == [];
    var digest := hash.start;
    AbsorbsNothing(hash);
    var at: nat := 0;
    while at < |bytes|
      invariant at <= |bytes| && digest == hash.absorb(hash.start, bytes[..at])
    {
      var read: nat :| 0 < read <= buffer && at + read <= |bytes|;
      AbsorbsOn(hash, bytes, at, at + read);
      digest := hash.absorb(digest, bytes[at..at + read]);
      at := at + read;
    }
    assert bytes[..at] == bytes;
    text := hash.finish(digest);
    DigestIs(hash, bytes);
  }

  lemma AbsorbsNothing<H(!new)>(hash: Hash<H>)
    requires hash.Streams()
    ensures hash.absorb(hash.start, []) == hash.start
  {
  }

  lemma AbsorbsOn<H(!new)>(hash: Hash<H>, bytes: seq<byte>, from: nat, to: nat)
    requires hash.Streams() && from <= to <= |bytes|
    ensures hash.absorb(hash.absorb(hash.start, bytes[..from]), bytes[from..to]) == hash.absorb(hash.start, bytes[..to])
  {
    assert bytes[..to] == bytes[..from] + bytes[from..to];
  }

  lemma DigestIs<H(!new)>(hash: Hash<H>, bytes: seq<byte>)
    ensures hash.Of(bytes) == hash.finish(hash.absorb(hash.start, bytes))
  {
  }

  // ----- the cache

  /** The size and time the cache goes by. */
  predicate SameIdentity(a: DiskFile, b: DiskFile) {
    |a.bytes| == |b.bytes| && a.modified == b.modified
  }

  /** What one call answers, and the cache after it. */
  function LookUp(digest: seq<byte> -> string, entries: Entries, call: Call): (r: (Option<string>, Entries)) {
    match call.found
    case None => (None, entries)
    case Some(file) =>
      if call.path in entries && entries[call.path].size == |file.bytes| && entries[call.path].modified == file.modified
      then (Some(entries[call.path].fingerprint), entries)
      else
        var fingerprint := digest(file.bytes);
        (Some(fingerprint), entries[call.path := Entry(|file.bytes|, file.modified, fingerprint)])
  }

  class Cache {
    var entries: Entries

    constructor ()
      ensures entries == map[]
    {
      entries := map[];
    }

    /** `fingerprint_file_cached`. */
    method Fingerprint<H(!new)>(hash: Hash<H>, call: Call, buffer: nat) returns (r: Option<string>)
      requires hash.Streams() && buffer > 0
      modifies this
      ensures (r, entries) == LookUp(hash.Digest(), old(entries), call)
    {
      if call.found.None? {
        return None;
      }
      var file := call.found.value;
      if call.path in entries {
        var cached := entries[call.path];
        if cached.size == |file.bytes| && cached.modified == file.modified {
          return Some(cached.fingerprint);
        }
      }
      var fingerprint := FingerprintFile(hash, file.bytes, buffer);
      entries := entries[call.path := Entry(|file.bytes|, file.modified, fingerprint)];
      return Some(fingerprint);
    }
  }

  /** The cache after a run of calls, and the answers given. */
  function After(digest: seq<byte> -> string, calls: seq<Call>): Entries {
    if calls == [] then map[]
    else LookUp(digest, After(digest, calls[..|calls| - 1]), calls[|calls| - 1]).1
  }

  function Answer(digest: seq<byte> -> string, calls: seq<Call>, i: nat): Option<string>
    requires i < |calls|
  {
    LookUp(digest, After(digest, calls[..i]), calls[i]).0
  }

  /** The calls of one process, through one cache. */
  method Run<H(!new)>(hash: Hash<H>, calls: seq<Call>, buffer: nat) returns (answers: seq<Option<string>>)
    requires hash.Streams() && buffer > 0
    ensures |answers| == |calls|
    ensures forall i :: 0 <= i < |calls| ==> answers[i] == Answer(hash.Digest(), calls, i)
  {
    var cache := new Cache();
    answers := [];
    for i := 0 to |calls|
      invariant |answers| == i && cache.entries == After(hash.Digest(), calls[..i])
      invariant forall k :: 0 <= k < i ==> answers[k] == Answer(hash.Digest(), calls, k)
    {
      assert calls[..i + 1][..i] == calls[..i];
      var answer := cache.Fingerprint(hash, calls[i], buffer);
      answers := answers + [answer];
    }
  }

  /** Every call that finds a file is answered with the digest of what it holds. */
  ghost predicate AnswersAreRight(digest: seq<byte> -> string, calls: seq<Call>) {
    forall i: nat :: i < |calls| ==> AnswerIsRight(digest, calls, i)
  }

  ghost predicate AnswerIsRight(digest: seq<byte> -> string, calls: seq<Call>, i: nat)
    requires i < |calls|
  {
    Answer(digest, calls, i) ==
      match calls[i].found case Some(file) => Some(digest(file.bytes)) case None => None
  }

  /** Call `i` is the last before `j` that found the file `j` finds. */
  ghost predicate LastSeen(calls: seq<Call>, i: nat, j: nat)
    requires i < j < |calls|
  {
    && calls[i].path == calls[j].path && calls[i].found.Some? && calls[j].found.Some?
    && forall k :: i < k < j && calls[k].found.Some? ==> calls[k].path != calls[j].path
  }

  /** Between two successive sightings of a file its content never changes to one of
      another digest without its size or its time changing too. */
  ghost predicate ChangesShow(digest: seq<byte> -> string, calls: seq<Call>) {
    forall i: nat, j: nat :: i < j < |calls| && LastSeen(calls, i, j) ==> ChangeShows(digest, calls, i, j)
  }

  ghost predicate ChangeShows(digest: seq<byte> -> string, calls: seq<Call>, i: nat, j: nat)
    requires i < j < |calls| && calls[i].found.Some? && calls[j].found.Some?
  {
    var (earlier, later) := (calls[i].found.value, calls[j].found.value);
    SameIdentity(earlier, later) ==> digest(earlier.bytes) == digest(later.bytes)
  }

  /** What the cache holds of a file is what the last call that saw it was told. */
  ghost predicate Remembers(digest: seq<byte> -> string, calls: seq<Call>, i: nat, path: string)
    requires i < |calls|
  {
    var entries := After(digest, calls);
    && calls[i].path == path && calls[i].found.Some? && path in entries
    && var (file, entry) := (calls[i].found.value, entries[path]);
       && entry.size == |file.bytes| && entry.modified == file.modified
       && Answer(digest, calls, i) == Some(entry.fingerprint)
       && forall k :: i < k < |calls| && calls[k].found.Some? ==> calls[k].path != path
  }

  ghost predicate NeverSeen(calls: seq<Call>, path: string) {
    forall k :: 0 <= k < |calls| && calls[k].found.Some? ==> calls[k].path != path
  }

  lemma {:induction false} CacheRemembersTheLastCall(digest: seq<byte> -> string, calls: seq<Call>, path: string)
    returns (seen: Option<nat>)
    ensures seen.None? ==> NeverSeen(calls, path) && path !in After(digest, calls)
    ensures seen.Some? ==> seen.value < |calls| && Remembers(digest, calls, seen.value, path)
    decreases |calls|
  {
    if calls == [] {
      seen := None;
    } else {
      var n := |calls| - 1;
      var front := calls[..n];
      if calls[n].path == path && calls[n].found.Some? {
        seen := Some(n);
      } else {
        seen := CacheRemembersTheLastCall(digest, front, path);
        if seen.Some? {
          assert front[..seen.value] == calls[..seen.value];
          assert forall k :: 0 <= k < n ==> front[k] == calls[k];
        }
      }
    }
  }

  /** One call answers from the cache exactly when the last call that saw the file saw
      it with the same size and time, and then repeats that call's answer. */
  lemma AnswerComesFromTheLastCall(digest: seq<byte> -> string, calls: seq<Call>, j: nat) returns (seen: Option<nat>)
    requires j < |calls| && calls[j].found.Some?
    ensures seen.None? ==> NeverSeen(calls[..j], calls[j].path)
    ensures seen.Some? ==> seen.value < j && LastSeen(calls, seen.value, j)
    ensures Answer(digest, calls, j) ==
            if seen.Some? && SameIdentity(calls[seen.value].found.value, calls[j].found.value)
            then Answer(digest, calls, seen.value) else Some(digest(calls[j].found.value.bytes))
  {
    var front := calls[..j];
    seen := CacheRemembersTheLastCall(digest, front, calls[j].path);
    hide After;
    if seen.Some? {
      assert front[..seen.value] == calls[..seen.value];
      assert forall k :: 0 <= k < j ==> front[k] == calls[k];
    }
  }

  lemma {:induction false} RightIfChangesShow(digest: seq<byte> -> string, calls: seq<Call>, j: nat)
    requires ChangesShow(digest, calls) && j < |calls|
    ensures AnswerIsRight(digest, calls, j)
  {
    if calls[j].found.Some? {
      var seen := AnswerComesFromTheLastCall(digest, calls, j);
      if seen.Some? {
        RightIfChangesShow(digest, calls, seen.value);
        assert ChangeShows(digest, calls, seen.value, j);
      }
    }
  }

  lemma OnlyOneIsLast(calls: seq<Call>, i: nat, k: nat, j: nat)
    requires i < j < |calls| && k < j && LastSeen(calls, i, j) && LastSeen(calls, k, j)
    ensures i == k
  {
  }

  /** In every run of calls all answers are the digests of what the files hold at the
      time if and only if no file ever changes its content while keeping both its size
      and its time, seen from one call about it to the next. Where the system keeps no
      times, only the size is left to tell. */
  lemma AnswersAreRightIffChangesShow(digest: seq<byte> -> string, calls: seq<Call>)
    ensures AnswersAreRight(digest, calls) <==> ChangesShow(digest, calls)
  {
    if ChangesShow(digest, calls) {
      forall j: nat | j < |calls| ensures AnswerIsRight(digest, calls, j) {
        RightIfChangesShow(digest, calls, j);
      }
    }
    if AnswersAreRight(digest, calls) {
      forall i: nat, j: nat | i < j < |calls| && LastSeen(calls, i, j) ensures ChangeShows(digest, calls, i, j) {
        var seen := AnswerComesFromTheLastCall(digest, calls, j);
        assert calls[..j][i] == calls[i];
        assert AnswerIsRight(digest, calls, i) && AnswerIsRight(digest, calls, j);
        if seen.Some? {
          OnlyOneIsLast(calls, i, seen.value, j);
        }
      }
    }
  }

  /** A file rewritten within one tick of the clock, at the same size, is answered
      from memory. */
  lemma ARewriteMayGoUnnoticed(digest: seq<byte> -> string) returns (calls: seq<Call>)
    requires digest([0]) != digest([1])
    ensures !AnswersAreRight(digest, calls)
  {
    calls := [Call("model", Some(DiskFile([0], Some(0)))), Call("model", Some(DiskFile([1], Some(0))))];
    assert LastSeen(calls, 0, 1) && !ChangeShows(digest, calls, 0, 1);
    AnswersAreRightIffChangesShow(digest, calls);
  }
}
