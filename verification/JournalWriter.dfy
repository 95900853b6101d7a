/** The journal writer and reader over the storage model: append, checkpoint and open. */
module JournalWriter {
  import opened Bytes
  import opened JournalFormat
  import opened DiskModel
  import opened JournalSafety

  const MIN_CHECKPOINT_BYTES: nat := 1024 * 1024

  /** What reopening gives once `delta` has been appended to the current frontier. */
  ghost function AppendOutcome<S, D>(codec: Codec<S, D>, d: Disk, delta: D): Option<S>
    requires Sound(codec.sha, d, EntryOf(d, CurrentName).current)
    requires StateAt(codec, d, CurrentFrontier(codec, d)).Some?
  {
    ApplyPayload(codec, StateAt(codec, d, CurrentFrontier(codec, d)).value, codec.encodeDelta(delta))
  }

  /** What reopening gives once `snapshot` has been written as a checkpoint. */
  function CheckpointOutcome<S, D>(codec: Codec<S, D>, snapshot: S): Option<S> {
    var decoded := codec.decodeSnapshot(codec.encodeSnapshot(snapshot));
    if decoded.None? then None else codec.restore(decoded.value)
  }

  /** Overwriting the placeholder completes the bytes of one frame. */
  lemma FrameAssembled(sha: bytes -> B256, f: Frontier, base: bytes, sequence: u64, parent: B256, payload: bytes)
    requires |payload| < U64_LIMIT
    ensures var head := FrameHead(f, sequence, parent);
            var parts := base + head + ZeroBytes(8) + payload + FrameDigest(sha, f, sequence, parent, payload);
            && |base| <= |parts|
            && Overwrite(parts, |base|, head + EncodeU64(|payload|))
               == base + EncodeFrame(sha, f, sequence, parent, payload)
  {
    PlaceholderOverwritten(base, FrameHead(f, sequence, parent), payload,
      FrameDigest(sha, f, sequence, parent, payload), EncodeU64(|payload|));
  }

  lemma PlaceholderOverwritten(base: bytes, head: bytes, payload: bytes, digest: bytes, len: bytes)
    requires |head| == 96 && |len| == 8
    ensures Overwrite(base + head + ZeroBytes(8) + payload + digest, |base|, head + len)
            == base + (head + len + payload + digest)
  {
    hide Overwrite;
    var zeros := ZeroBytes(8);
    hide ZeroBytes;
    OverwriteMiddle(base, head + zeros, head + len, payload + digest);
    assert base + head + zeros + payload + digest == base + (head + zeros) + (payload + digest);
    assert base + (head + len) + (payload + digest) == base + (head + len + payload + digest);
  }

  lemma OverwriteMiddle(a: bytes, b: bytes, b': bytes, c: bytes)
    requires |b| == |b'|
    ensures Overwrite(a + b + c, |a|, b') == a + b' + c
  {
    var all := a + b + c;
    assert all[..|a|] == a && all[|a| + |b|..] == c;
  }

  /** The frontier read from a safe disk is complete there. */
  lemma CurrentFacts<S, D>(codec: Codec<S, D>, d: Disk, outcomes: set<Option<S>>, f: Frontier)
    requires Safe(codec, d, outcomes)
    requires Read(d, CurrentName).Some? && DecodeFrontier(codec.sha, Read(d, CurrentName).value) == Some(f)
    ensures CurrentFrontier(codec, d) == f
    ensures GenerationComplete(d, f) && BoundaryOk(f)
    ensures var file := d.files[FileIdOf(d, JournalName(f.generation))];
            f.end <= file.StableLen() <= |file.content|
  {
  }

  /** A safe disk has a CURRENT that reads as its current frontier. */
  lemma CurrentReads<S, D>(codec: Codec<S, D>, d: Disk, outcomes: set<Option<S>>)
    requires Safe(codec, d, outcomes)
    ensures Read(d, CurrentName).Some?
    ensures DecodeFrontier(codec.sha, Read(d, CurrentName).value) == Some(CurrentFrontier(codec, d))
  {
  }

  /** Once the new frame is synced after the committed end, the extended frontier can be published. */
  lemma ExtendedPublishable<S, D>(codec: Codec<S, D>, d: Disk, outcomes: set<Option<S>>, f: Frontier, payload: bytes)
    requires Safe(codec, d, outcomes) && CurrentFrontier(codec, d) == f
    requires f.end + FRAME_OVERHEAD + |payload| < U64_LIMIT && f.sequence + 1 < U64_LIMIT
    requires StateAt(codec, d, f).Some? && ApplyPayload(codec, StateAt(codec, d, f).value, payload) in outcomes
    requires GenerationComplete(d, f)
    requires var file := d.files[FileIdOf(d, JournalName(f.generation))];
             && !file.dirty && f.end <= |file.content|
             && file.content == file.content[..f.end] + EncodeFrame(codec.sha, f, f.sequence + 1, f.digest, payload)
    ensures Publishable(codec, d, outcomes, Extended(codec.sha, f, payload))
    ensures StateAt(codec, d, Extended(codec.sha, f, payload))
            == ApplyPayload(codec, StateAt(codec, d, f).value, payload)
  {
    var next := Extended(codec.sha, f, payload);
    var checkpoint := d.files[FileIdOf(d, CheckpointName(f.generation))].content;
    var journal := d.files[FileIdOf(d, JournalName(f.generation))].content;
    assert journal[..next.end] == journal;
    OpenedExtended(codec, f, checkpoint, journal, journal, payload);
    forall t | t in EntryOf(d, CurrentName).possible
      ensures TargetSafe(codec, d, t, outcomes, next)
    {
      assert TargetSafe(codec, d, t, outcomes, f);
    }
  }

  /** The frontier of a generation without frames. */
  function NewFrontier(sha: bytes -> B256, g: Generation, sequence: u64, payload: bytes): (f: Frontier)
    requires |payload| + SNAPSHOT_HEADER_LEN < U64_LIMIT
    ensures BoundaryOk(f) && f.digest == BaseDigest(sha, f)
  {
    var f := Frontier(g, sequence, SnapshotIntegrity(sha, payload), JOURNAL_HEADER_LEN, sequence, ZERO_ROOT);
    f.(digest := BaseDigest(sha, f))
  }

  /** One more frame of `size` payload bytes in the same generation over the same checkpoint. */
  predicate Grown(before: Frontier, after: Frontier, size: nat) {
    && after.generation == before.generation && after.checkpoint == before.checkpoint
    && after.checkpointSequence == before.checkpointSequence
    && after.end as int == before.end as int + 136 + size && after.sequence as int == before.sequence as int + 1
  }

  /** An empty journal over a checkpoint of `size` payload bytes, at the same sequence. */
  predicate Emptied(before: Frontier, after: Frontier, g: Generation, size: nat) {
    && after.generation == g && after.checkpoint.encodedLen as int == size + 48 && after.end == 104
    && after.sequence == after.checkpointSequence == before.sequence
  }

  /** The name is bound to a synced file with this content. */
  ghost predicate BoundTo(d: Disk, name: Name, id: FileId, content: bytes) {
    && EntryOf(d, name).current == FileRef(id)
    && id in d.files && d.files[id] == File(content, |content|, false)
  }

  /** Sequence, end and frame length stay within 64 bits. */
  predicate Extensible(f: Frontier, payload: bytes) {
    f.sequence + 1 < U64_LIMIT && f.end + FRAME_OVERHEAD + |payload| < U64_LIMIT
  }

  /** The new generation's directory does not exist, and its checkpoint file fits 64 bits. */
  predicate Creatable<S, D>(codec: Codec<S, D>, d: Disk, g: Generation, snapshot: S) {
    && EntryOf(d, GenerationDir(g)).current == Absent
    && |codec.encodeSnapshot(snapshot)| + SNAPSHOT_HEADER_LEN < U64_LIMIT
  }

  class Journal<S, D> {
    const codec: Codec<S, D>
    const storage: Storage
    var frontier: Frontier

    constructor (codec: Codec<S, D>, storage: Storage, frontier: Frontier)
      ensures this.codec == codec && this.storage == storage && this.frontier == frontier
    {
      this.codec, this.storage, this.frontier := codec, storage, frontier;
    }

    predicate CheckpointDue()
      reads this
      requires frontier.end >= JOURNAL_HEADER_LEN
    {
      frontier.end - JOURNAL_HEADER_LEN >= Max(frontier.checkpoint.encodedLen, MIN_CHECKPOINT_BYTES)
    }

    /** Reading CURRENT back tells whether the generation the disk commits to is still the writer's. */
    method VerifyCurrent(ghost outcomes: set<Option<S>>) returns (ok: bool)
      requires Safe(codec, storage.disk, outcomes)
      ensures ok <==> CurrentFrontier(codec, storage.disk) == frontier
      ensures ok ==> BoundaryOk(frontier) && GenerationComplete(storage.disk, frontier)
      ensures ok ==> var file := storage.disk.files[FileIdOf(storage.disk, JournalName(frontier.generation))];
                     frontier.end <= file.StableLen() <= |file.content|
    {
      CurrentReads(codec, storage.disk, outcomes);
      var current := Read(storage.disk, CurrentName);
      ok := current.Some? && DecodeFrontier(codec.sha, current.value) == Some(frontier);
      if ok { CurrentFacts(codec, storage.disk, outcomes, frontier); }
    }

    /** The journal has the committed length and the writer's own header; so has any that opens. */
    method VerifyJournal(j: FileId) returns (ok: bool)
      requires j in storage.disk.files
      ensures ok ==> JOURNAL_HEADER_LEN <= frontier.end <= |storage.disk.files[j].content|
      ensures ok ==> JournalHeader(codec.sha, frontier) <= storage.disk.files[j].content
      ensures (&& EntryOf(storage.disk, JournalName(frontier.generation)).current == FileRef(j)
               && StateAt(codec, storage.disk, frontier).Some?) ==> ok
    {
      var journal := storage.disk.files[j].content;
      ok :=
        && JOURNAL_HEADER_LEN <= frontier.end <= |journal|
        && journal[..JOURNAL_HEADER_LEN] == JournalHeader(codec.sha, frontier);
    }

    /** Write and sync a new file that no name refers to yet. */
    method StageFile(content: bytes, ghost outcomes: set<Option<S>>) returns (ok: bool, id: FileId)
      requires storage.Valid() && Safe(codec, storage.disk, outcomes)
      modifies storage
      ensures storage.Valid() && Safe(codec, storage.disk, outcomes)
      ensures old(storage.trace) <= storage.trace && old(storage.faults) <= storage.faults
      ensures AllSafe(codec, storage.trace, |old(storage.trace)|, outcomes)
      ensures storage.faults == old(storage.faults) ==> ok
      ensures id !in old(storage.disk).files && Unbound(old(storage.disk), id)
      ensures id in storage.disk.files && Unbound(storage.disk, id)
      ensures storage.disk == WithFile(old(storage.disk), id, storage.disk.files[id])
      ensures ok ==> storage.disk.files[id] == File(content, |content|, false)
    {
      hide Safe;
      hide WellFormed;
      ghost var d0 := storage.disk;
      id := storage.Create();
      StagedChangeSafe(codec, d0, id, File([], 0, false), outcomes);
      ghost var d1 := storage.disk;
      ok := storage.Write(id, 0, content);
      assert Overwrite([], 0, []) == [] && Overwrite([], 0, content) == content;
      WithFileTwice(d0, id, File([], 0, false), File([], 0, true));
      WithFileTwice(d0, id, File([], 0, false), storage.disk.files[id]);
      StagedChangeSafe(codec, d0, id, File([], 0, true), outcomes);
      StagedChangeSafe(codec, d0, id, storage.disk.files[id], outcomes);
      if !ok { return; }
      ghost var written := storage.disk.files[id];
      ok := storage.Sync(id);
      WithFileTwice(d0, id, written, storage.disk.files[id]);
      StagedChangeSafe(codec, d0, id, storage.disk.files[id], outcomes);
    }

    /** Write, sync and rename a frontier onto CURRENT, then sync the directory. */
    method PublishFrontier(next: Frontier, ghost outcomes: set<Option<S>>) returns (ok: bool)
      requires storage.Valid() && Safe(codec, storage.disk, outcomes)
      requires BoundaryOk(next) && Publishable(codec, storage.disk, outcomes, next)
      modifies storage
      ensures storage.Valid() && Safe(codec, storage.disk, outcomes)
      ensures old(storage.trace) <= storage.trace && old(storage.faults) <= storage.faults
      ensures AllSafe(codec, storage.trace, |old(storage.trace)|, outcomes)
      ensures storage.faults == old(storage.faults) ==> ok
      ensures ok ==> Committed(codec, storage.disk, next)
      ensures ok ==> StateAt(codec, storage.disk, next) == old(StateAt(codec, storage.disk, next))
    {
      hide Safe;
      hide WellFormed;
      hide Publishable;
      var id;
      ghost var d0 := storage.disk;
      ok, id := StageFile(EncodeFrontier(codec.sha, next), outcomes);
      if !ok { return; }
      ghost var d1 := storage.disk;
      StagedChangePublishable(codec, d0, id, d1.files[id], outcomes, next);
      FrontierRoundTrip(codec.sha, next, d1.files[id].content);
      ok := RenameOntoCurrent(id, next, outcomes);
    }

    method RenameOntoCurrent(id: FileId, ghost next: Frontier, ghost outcomes: set<Option<S>>) returns (ok: bool)
      requires storage.Valid() && Safe(codec, storage.disk, outcomes) && Unbound(storage.disk, id)
      requires NamesFrontier(codec.sha, storage.disk, FileRef(id))
      requires FrontierAt(codec.sha, storage.disk, FileRef(id)) == next
      requires Publishable(codec, storage.disk, outcomes, next)
      modifies storage
      ensures storage.Valid() && Safe(codec, storage.disk, outcomes)
      ensures old(storage.trace) <= storage.trace && old(storage.faults) <= storage.faults
      ensures AllSafe(codec, storage.trace, |old(storage.trace)|, outcomes)
      ensures storage.faults == old(storage.faults) ==> ok
      ensures ok ==> Committed(codec, storage.disk, next)
      ensures ok ==> StateAt(codec, storage.disk, next) == old(StateAt(codec, storage.disk, next))
    {
      hide Safe;
      hide WellFormed;
      hide Publishable;
      ghost var d0 := storage.disk;
      ok := storage.Publish(CurrentName, FileRef(id));
      if !ok { return; }
      ghost var d1 := storage.disk;
      PublishSafe(codec, d0, id, next, outcomes);
      ok := storage.SyncDirectory(RootDir);
      if !ok { return; }
      SyncDirSafe(codec, d1, RootDir, outcomes);
    }

    /** Drop bytes after the committed end, so that the next frame starts there. */
    method RetireTail(j: FileId, ghost outcomes: set<Option<S>>) returns (ok: bool)
      requires JournalReady(j, outcomes)
      modifies storage
      ensures storage.Valid() && Safe(codec, storage.disk, outcomes)
      ensures old(storage.trace) <= storage.trace && old(storage.faults) <= storage.faults
      ensures AllSafe(codec, storage.trace, |old(storage.trace)|, outcomes)
      ensures storage.faults == old(storage.faults) ==> ok
      ensures j in storage.disk.files && storage.disk == WithFile(old(storage.disk), j, storage.disk.files[j])
      ensures ok ==> TailChange(old(storage.disk).files[j], storage.disk.files[j], frontier.end)
      ensures ok ==> |storage.disk.files[j].content| == frontier.end
    {
      hide Safe;
      hide WellFormed;
      ghost var d0 := storage.disk;
      if |storage.disk.files[j].content| == frontier.end {
        assert d0 == WithFile(d0, j, d0.files[j]);
        return true;
      }
      ok := storage.SetLen(j, frontier.end);
      if !ok {
        assert d0 == WithFile(d0, j, d0.files[j]);
        return;
      }
      ghost var cut := storage.disk.files[j];
      JournalChangeSafe(codec, d0, cut, outcomes);
      ok := storage.Sync(j);
      WithFileTwice(d0, j, cut, storage.disk.files[j]);
      JournalChangeSafe(codec, d0, storage.disk.files[j], outcomes);
    }

    /** The writer's frontier is the current one, and `j` is its journal file. */
    ghost predicate JournalReady(j: FileId, outcomes: set<Option<S>>)
      reads this, storage
    {
      && storage.Valid() && Safe(codec, storage.disk, outcomes)
      && CurrentFrontier(codec, storage.disk) == frontier
      && GenerationComplete(storage.disk, frontier)
      && j == FileIdOf(storage.disk, JournalName(frontier.generation))
      && frontier.end <= storage.disk.files[j].StableLen() <= |storage.disk.files[j].content|
    }

    /** Only the tail of the journal file `j` differs from the disk `d0`, which was ready to append. */
    ghost predicate OnlyTailDiffers(j: FileId, d0: Disk, outcomes: set<Option<S>>)
      reads this, storage
    {
      && storage.Valid() && Safe(codec, storage.disk, outcomes)
      && Safe(codec, d0, outcomes) && CurrentFrontier(codec, d0) == frontier && GenerationComplete(d0, frontier)
      && j == FileIdOf(d0, JournalName(frontier.generation)) && j in storage.disk.files
      && storage.disk == WithFile(d0, j, storage.disk.files[j])
      && TailChange(d0.files[j], storage.disk.files[j], frontier.end)
    }

    method WriteTail(j: FileId, offset: nat, data: bytes, ghost d0: Disk, ghost outcomes: set<Option<S>>)
      returns (ok: bool)
      requires OnlyTailDiffers(j, d0, outcomes)
      requires frontier.end <= offset <= |storage.disk.files[j].content|
      modifies storage
      ensures OnlyTailDiffers(j, d0, outcomes)
      ensures old(storage.trace) <= storage.trace && old(storage.faults) <= storage.faults
      ensures AllSafe(codec, storage.trace, |old(storage.trace)|, outcomes)
      ensures storage.faults == old(storage.faults) ==> ok
      ensures ok ==> storage.disk.files[j].content == Overwrite(old(storage.disk.files[j].content), offset, data)
    {
      hide Safe;
      hide WellFormed;
      ghost var before := storage.disk.files[j];
      ok := storage.Write(j, offset, data);
      ghost var started := WriteAt(old(storage.disk), j, offset, []).files[j];
      WithFileTwice(d0, j, before, started);
      WithFileTwice(d0, j, before, storage.disk.files[j]);
      assert TailChange(d0.files[j], started, frontier.end);
      assert TailChange(d0.files[j], storage.disk.files[j], frontier.end);
      JournalChangeSafe(codec, d0, started, outcomes);
      JournalChangeSafe(codec, d0, storage.disk.files[j], outcomes);
    }

    method SyncTail(j: FileId, ghost d0: Disk, ghost outcomes: set<Option<S>>) returns (ok: bool)
      requires OnlyTailDiffers(j, d0, outcomes)
      modifies storage
      ensures OnlyTailDiffers(j, d0, outcomes)
      ensures old(storage.trace) <= storage.trace && old(storage.faults) <= storage.faults
      ensures AllSafe(codec, storage.trace, |old(storage.trace)|, outcomes)
      ensures storage.faults == old(storage.faults) ==> ok
      ensures storage.disk.files[j].content == old(storage.disk.files[j].content)
      ensures ok ==> !storage.disk.files[j].dirty
    {
      hide Safe;
      hide WellFormed;
      ghost var before := storage.disk.files[j];
      ok := storage.Sync(j);
      WithFileTwice(d0, j, before, storage.disk.files[j]);
      JournalChangeSafe(codec, d0, storage.disk.files[j], outcomes);
    }

    /** Frame header with a zero length, payload and digest. */
    method WriteFrameParts(
      j: FileId, head: bytes, payload: bytes, digest: bytes, ghost d0: Disk, ghost outcomes: set<Option<S>>)
      returns (ok: bool)
      requires OnlyTailDiffers(j, d0, outcomes) && |storage.disk.files[j].content| == frontier.end
      requires |head| == 96
      modifies storage
      ensures OnlyTailDiffers(j, d0, outcomes)
      ensures old(storage.trace) <= storage.trace && old(storage.faults) <= storage.faults
      ensures AllSafe(codec, storage.trace, |old(storage.trace)|, outcomes)
      ensures storage.faults == old(storage.faults) ==> ok
      ensures ok ==>
                storage.disk.files[j].content
                == old(storage.disk.files[j].content) + head + ZeroBytes(8) + payload + digest
    {
      hide OnlyTailDiffers;
      hide Safe;
      assert j in storage.disk.files by { TailBound(j, d0, outcomes); }
      ghost var base := storage.disk.files[j].content;
      ok := WriteTail(j, frontier.end, head + ZeroBytes(8), d0, outcomes);
      if !ok { return; }
      TailBound(j, d0, outcomes);
      assert storage.disk.files[j].content == base + (head + ZeroBytes(8));
      ok := WriteTail(j, frontier.end + 104, payload, d0, outcomes);
      if !ok { return; }
      TailBound(j, d0, outcomes);
      assert storage.disk.files[j].content == base + (head + ZeroBytes(8)) + payload;
      ok := WriteTail(j, frontier.end + 104 + |payload|, digest, d0, outcomes);
    }

    lemma TailBound(j: FileId, d0: Disk, outcomes: set<Option<S>>)
      requires OnlyTailDiffers(j, d0, outcomes)
      ensures j in storage.disk.files
    {
    }

    /** The parts, then the full header over the placeholder, then one sync. */
    method WriteFrame(j: FileId, payload: bytes, ghost d0: Disk, ghost outcomes: set<Option<S>>) returns (ok: bool)
      requires OnlyTailDiffers(j, d0, outcomes) && |storage.disk.files[j].content| == frontier.end
      requires frontier.sequence + 1 < U64_LIMIT
      modifies storage
      ensures OnlyTailDiffers(j, d0, outcomes)
      ensures old(storage.trace) <= storage.trace && old(storage.faults) <= storage.faults
      ensures AllSafe(codec, storage.trace, |old(storage.trace)|, outcomes)
      ensures storage.faults == old(storage.faults) && frontier.end + FRAME_OVERHEAD + |payload| < U64_LIMIT ==> ok
      ensures ok ==> frontier.end + FRAME_OVERHEAD + |payload| < U64_LIMIT
      ensures ok ==> !storage.disk.files[j].dirty
      ensures ok ==> storage.disk.files[j].content
                     == old(storage.disk.files[j].content)
                        + EncodeFrame(codec.sha, frontier, frontier.sequence + 1, frontier.digest, payload)
    {
      hide OnlyTailDiffers;
      hide Safe;
      hide FrameHead;
      hide FrameDigest;
      hide EncodeFrame;
      hide EncodeU64;
      hide Overwrite;
      assert j in storage.disk.files by { TailBound(j, d0, outcomes); }
      ghost var base := storage.disk.files[j].content;
      if |payload| >= U64_LIMIT { return false; }
      var head := FrameHead(frontier, frontier.sequence + 1, frontier.digest);
      var digest := FrameDigest(codec.sha, frontier, frontier.sequence + 1, frontier.digest, payload);
      ok := WriteFrameParts(j, head, payload, digest, d0, outcomes);
      if !ok { return; }
      if frontier.end + FRAME_OVERHEAD + |payload| >= U64_LIMIT { return false; }
      TailBound(j, d0, outcomes);
      FrameAssembled(codec.sha, frontier, base, frontier.sequence + 1, frontier.digest, payload);
      ok := WriteTail(j, frontier.end, head + EncodeU64(|payload|), d0, outcomes);
      if !ok { return; }
      ok := SyncTail(j, d0, outcomes);
    }

    /** Append one delta. At every moment a crash or a reopen finds the state before or the
        state after; after success only the state after. A failure leaves the writer's frontier. */
    method Append(delta: D, ghost outcomes: set<Option<S>>) returns (ok: bool)
      requires storage.Valid() && Safe(codec, storage.disk, outcomes)
      requires StateAt(codec, storage.disk, CurrentFrontier(codec, storage.disk)).Some?
      requires AppendOutcome(codec, storage.disk, delta) in outcomes
      modifies this, storage
      ensures storage.Valid() && Safe(codec, storage.disk, outcomes)
      ensures old(storage.trace) <= storage.trace && old(storage.faults) <= storage.faults
      ensures AllSafe(codec, storage.trace, |old(storage.trace)|, outcomes)
      ensures (&& storage.faults == old(storage.faults) && old(CurrentFrontier(codec, storage.disk)) == old(frontier)
               && Extensible(old(frontier), codec.encodeDelta(delta))) ==> ok
      ensures ok ==> Committed(codec, storage.disk, frontier)
      ensures ok ==> StateAt(codec, storage.disk, frontier) == old(AppendOutcome(codec, storage.disk, delta))
      ensures ok ==> Grown(old(frontier), frontier, |codec.encodeDelta(delta)|)
      ensures !ok ==> frontier == old(frontier)
    {
      hide Safe;
      hide WellFormed;
      hide StateAt;
      hide ApplyPayload;
      ok := VerifyCurrent(outcomes);
      if !ok { return; }
      var j := FileIdOf(storage.disk, JournalName(frontier.generation));
      ok := VerifyJournal(j);
      if !ok { return; }
      ok := AppendFrame(j, codec.encodeDelta(delta), outcomes);
    }

    /** Retire the tail, write and sync the frame, publish the extended frontier. */
    method AppendFrame(j: FileId, payload: bytes, ghost outcomes: set<Option<S>>) returns (ok: bool)
      requires JournalReady(j, outcomes) && BoundaryOk(frontier)
      requires StateAt(codec, storage.disk, frontier).Some?
      requires ApplyPayload(codec, StateAt(codec, storage.disk, frontier).value, payload) in outcomes
      modifies this, storage
      ensures storage.Valid() && Safe(codec, storage.disk, outcomes)
      ensures old(storage.trace) <= storage.trace && old(storage.faults) <= storage.faults
      ensures AllSafe(codec, storage.trace, |old(storage.trace)|, outcomes)
      ensures storage.faults == old(storage.faults) && Extensible(old(frontier), payload) ==> ok
      ensures ok ==> Committed(codec, storage.disk, frontier)
      ensures ok ==>
                StateAt(codec, storage.disk, frontier)
                == old(ApplyPayload(codec, StateAt(codec, storage.disk, frontier).value, payload))
      ensures ok ==> Grown(old(frontier), frontier, |payload|)
      ensures !ok ==> frontier == old(frontier)
    {
      hide Safe;
      hide WellFormed;
      hide StateAt;
      hide ApplyPayload;
      hide EncodeFrame;
      hide Committed;
      ghost var d0 := storage.disk;
      ok := RetireTail(j, outcomes);
      if !ok { return; }
      if frontier.sequence + 1 >= U64_LIMIT { return false; }
      ok := WriteFrame(j, payload, d0, outcomes);
      if !ok { return; }
      FrameWritten(codec, d0, storage.disk.files[j], outcomes, frontier, payload);
      hide Publishable;
      hide GenerationComplete;
      var next := Extended(codec.sha, frontier, payload);
      ok := PublishFrontier(next, outcomes);
      if ok {
        frontier := next;
      }
    }

    /** Give a new, synced file a name in a generation that no possible CURRENT mentions. */
    method CreateNamed(name: Name, content: bytes, ghost outcomes: set<Option<S>>) returns (ok: bool, ghost id: FileId)
      requires storage.Valid() && Safe(codec, storage.disk, outcomes)
      requires !name.CurrentName? && Foreign(codec.sha, storage.disk, name.generation)
      modifies storage
      ensures storage.Valid() && Safe(codec, storage.disk, outcomes)
      ensures old(storage.trace) <= storage.trace && old(storage.faults) <= storage.faults
      ensures AllSafe(codec, storage.trace, |old(storage.trace)|, outcomes)
      ensures storage.faults == old(storage.faults) ==> ok
      ensures Foreign(codec.sha, storage.disk, name.generation)
      ensures forall k :: k in old(storage.disk).files ==>
                k in storage.disk.files && storage.disk.files[k] == old(storage.disk).files[k]
      ensures forall n | n != name :: EntryOf(storage.disk, n) == EntryOf(old(storage.disk), n)
      ensures ok ==> BoundTo(storage.disk, name, id, content)
    {
      hide Safe;
      hide WellFormed;
      ghost var d0 := storage.disk;
      var staged;
      ok, staged := StageFile(content, outcomes);
      id := staged;
      ForeignAfterStage(codec, d0, id, storage.disk.files[id], outcomes, name.generation);
      if !ok { return; }
      ghost var d1 := storage.disk;
      hide Foreign;
      ok := storage.Publish(name, FileRef(staged));
      if ok {
        ForeignBindSafe(codec, d1, name, FileRef(staged), outcomes);
      }
    }

    /** The directory, checkpoint and empty journal of a new generation, not yet synced into place. */
    method WriteGeneration(f: Frontier, payload: bytes, ghost outcomes: set<Option<S>>)
      returns (ok: bool, ghost c: FileId, ghost j: FileId)
      requires storage.Valid() && Safe(codec, storage.disk, outcomes)
      requires |payload| + SNAPSHOT_HEADER_LEN < U64_LIMIT
      requires EntryOf(storage.disk, GenerationDir(f.generation)).current == Absent
      modifies storage
      ensures storage.Valid() && Safe(codec, storage.disk, outcomes)
      ensures old(storage.trace) <= storage.trace && old(storage.faults) <= storage.faults
      ensures AllSafe(codec, storage.trace, |old(storage.trace)|, outcomes)
      ensures storage.faults == old(storage.faults) ==> ok
      ensures ok ==> Foreign(codec.sha, storage.disk, f.generation)
      ensures ok ==> EntryOf(storage.disk, GenerationDir(f.generation)).current == Subdirectory
      ensures ok ==> BoundTo(storage.disk, CheckpointName(f.generation), c, EncodeSnapshotFile(codec.sha, payload))
      ensures ok ==> BoundTo(storage.disk, JournalName(f.generation), j, JournalHeader(codec.sha, f))
    {
      hide Safe;
      hide WellFormed;
      hide EncodeSnapshotFile;
      hide JournalHeader;
      c, j := 0, 0;
      var g := f.generation;
      MissingIsForeign(codec, storage.disk, outcomes, g);
      ghost var d0 := storage.disk;
      ok := storage.Publish(GenerationDir(g), Subdirectory);
      if !ok { return; }
      ForeignBindSafe(codec, d0, GenerationDir(g), Subdirectory, outcomes);
      hide Foreign;
      ok, c := CreateNamed(CheckpointName(g), EncodeSnapshotFile(codec.sha, payload), outcomes);
      if !ok { return; }
      ok, j := CreateNamed(JournalName(g), JournalHeader(codec.sha, f), outcomes);
    }

    /** Write a whole generation: its directory, checkpoint and empty journal, all synced. */
    method CreateGeneration(g: Generation, snapshot: S, sequence: u64, ghost outcomes: set<Option<S>>)
      returns (ok: bool, next: Frontier)
      requires storage.Valid() && Safe(codec, storage.disk, outcomes)
      requires CheckpointOutcome(codec, snapshot) in outcomes
      modifies storage
      ensures storage.Valid() && Safe(codec, storage.disk, outcomes)
      ensures old(storage.trace) <= storage.trace && old(storage.faults) <= storage.faults
      ensures AllSafe(codec, storage.trace, |old(storage.trace)|, outcomes)
      ensures storage.faults == old(storage.faults) && old(Creatable(codec, storage.disk, g, snapshot)) ==> ok
      ensures ok ==> BoundaryOk(next) && next.generation == g && next.sequence == sequence
      ensures ok ==> next.checkpointSequence == sequence && next.end == JOURNAL_HEADER_LEN
      ensures ok ==> next.checkpoint.encodedLen as int == |codec.encodeSnapshot(snapshot)| + SNAPSHOT_HEADER_LEN
      ensures ok ==> Publishable(codec, storage.disk, outcomes, next)
      ensures ok ==> StateAt(codec, storage.disk, next) == CheckpointOutcome(codec, snapshot)
      ensures ok ==> g != old(CurrentFrontier(codec, storage.disk)).generation
    {
      hide WellFormed;
      hide Publishable;
      hide StateAt;
      hide CheckpointOutcome;
      var payload := codec.encodeSnapshot(snapshot);
      next := Frontier(g, sequence, Integrity(0, ZERO_ROOT), JOURNAL_HEADER_LEN, sequence, ZERO_ROOT);
      ok := EntryOf(storage.disk, GenerationDir(g)).current == Absent && |payload| + SNAPSHOT_HEADER_LEN < U64_LIMIT;
      if !ok { return; }
      MissingIsForeign(codec, storage.disk, outcomes, g);
      hide Safe;
      next := NewFrontier(codec.sha, g, sequence, payload);
      ghost var c, j;
      ok, c, j := WriteGeneration(next, payload, outcomes);
      if !ok { return; }
      ok := SyncGeneration(g, outcomes);
      if !ok { return; }
      NewGenerationPublishable(codec, storage.disk, sequence, g, snapshot, outcomes, c, j);
    }

    method SyncGeneration(g: Generation, ghost outcomes: set<Option<S>>) returns (ok: bool)
      requires storage.Valid() && Safe(codec, storage.disk, outcomes)
      requires Foreign(codec.sha, storage.disk, g)
      modifies storage
      ensures storage.Valid() && Safe(codec, storage.disk, outcomes)
      ensures old(storage.trace) <= storage.trace && old(storage.faults) <= storage.faults
      ensures AllSafe(codec, storage.trace, |old(storage.trace)|, outcomes)
      ensures storage.faults == old(storage.faults) ==> ok
      ensures Foreign(codec.sha, storage.disk, g)
      ensures storage.disk.files == old(storage.disk).files
      ensures ok ==> forall n: Name | !n.CurrentName? && n.generation == g ::
                Fixed(storage.disk, n, EntryOf(old(storage.disk), n).current)
    {
      hide Safe;
      hide WellFormed;
      hide Foreign;
      ghost var d0 := storage.disk;
      ok := storage.SyncDirectory(GenDir(g));
      if !ok { return; }
      SyncDirSafe(codec, d0, GenDir(g), outcomes);
      ForeignAfterSyncDir(codec, d0, GenDir(g), outcomes, g);
      ghost var d1 := storage.disk;
      ok := storage.SyncDirectory(RootDir);
      if !ok { return; }
      SyncDirSafe(codec, d1, RootDir, outcomes);
      ForeignAfterSyncDir(codec, d1, RootDir, outcomes, g);
      forall n: Name | !n.CurrentName? && n.generation == g
        ensures Fixed(storage.disk, n, EntryOf(d0, n).current)
      {
        EntryAfterSyncDir(d0, GenDir(g), n);
        EntryAfterSyncDir(d1, RootDir, n);
      }
    }

    /** Remove a retired generation; any step may fail, and nothing depends on success. */
    method CleanupGeneration(g: Generation, ghost outcomes: set<Option<S>>) returns (ok: bool)
      requires storage.Valid() && Safe(codec, storage.disk, outcomes)
      requires Committed(codec, storage.disk, frontier) && frontier.generation != g
      modifies storage
      ensures storage.Valid() && Safe(codec, storage.disk, outcomes)
      ensures old(storage.trace) <= storage.trace && old(storage.faults) <= storage.faults
      ensures AllSafe(codec, storage.trace, |old(storage.trace)|, outcomes)
      ensures Committed(codec, storage.disk, frontier)
      ensures StateAt(codec, storage.disk, frontier) == old(StateAt(codec, storage.disk, frontier))
    {
      hide Safe;
      hide WellFormed;
      hide StateAt;
      hide Sound;
      var names := [CheckpointName(g), JournalName(g), GenerationDir(g)];
      var i := 0;
      while i < |names|
        invariant 0 <= i <= |names|
        invariant storage.Valid() && Safe(codec, storage.disk, outcomes)
        invariant old(storage.trace) <= storage.trace && old(storage.faults) <= storage.faults
        invariant AllSafe(codec, storage.trace, |old(storage.trace)|, outcomes)
        invariant Committed(codec, storage.disk, frontier)
        invariant StateAt(codec, storage.disk, frontier) == old(StateAt(codec, storage.disk, frontier))
      {
        ghost var d := storage.disk;
        ok := storage.Publish(names[i], Absent);
        if !ok { return; }
        RetiredStep(codec, d, frontier, names[i], outcomes);
        i := i + 1;
      }
      ghost var d := storage.disk;
      ok := storage.SyncDirectory(RootDir);
      if ok {
        SyncDirSafe(codec, d, RootDir, outcomes);
      }
    }

    /** Replace the generation by a checkpoint of `snapshot`. At every moment a crash or a reopen
        finds the state before or the snapshot; cleanup of the old generation cannot undo it. */
    method Checkpoint(g: Generation, snapshot: S, ghost outcomes: set<Option<S>>) returns (ok: bool)
      requires storage.Valid() && Safe(codec, storage.disk, outcomes)
      requires CheckpointOutcome(codec, snapshot) in outcomes
      modifies this, storage
      ensures storage.Valid() && Safe(codec, storage.disk, outcomes)
      ensures old(storage.trace) <= storage.trace && old(storage.faults) <= storage.faults
      ensures AllSafe(codec, storage.trace, |old(storage.trace)|, outcomes)
      ensures (&& storage.faults == old(storage.faults) && old(CurrentFrontier(codec, storage.disk)) == old(frontier)
               && old(Creatable(codec, storage.disk, g, snapshot))) ==> ok
      ensures ok ==> Committed(codec, storage.disk, frontier)
      ensures ok ==> Emptied(old(frontier), frontier, g, |codec.encodeSnapshot(snapshot)|)
      ensures ok ==> StateAt(codec, storage.disk, frontier) == CheckpointOutcome(codec, snapshot)
      ensures !ok ==> frontier == old(frontier)
    {
      hide Safe;
      hide WellFormed;
      hide Publishable;
      hide StateAt;
      hide CheckpointOutcome;
      hide GenerationComplete;
      ok := VerifyCurrent(outcomes);
      if !ok { return; }
      var next;
      ok, next := CreateGeneration(g, snapshot, frontier.sequence, outcomes);
      if !ok { return; }
      ok := PublishFrontier(next, outcomes);
      if !ok { return; }
      var retired := frontier.generation;
      frontier := next;
      var _ := CleanupGeneration(retired, outcomes);
    }

    /** Opening is the whole-history check: it succeeds exactly when CURRENT, its checkpoint and
        every committed frame agree, and then returns the state they denote. */
    static method Open(codec: Codec<S, D>, storage: Storage) returns (r: Option<(Frontier, S)>)
      ensures r.Some? == Recover(codec, storage.disk).Some?
      ensures r.Some? ==> r.value.1 == Recover(codec, storage.disk).value
      ensures r.Some? ==> DecodeFrontier(codec.sha, Read(storage.disk, CurrentName).value) == Some(r.value.0)
    {
      var current := Read(storage.disk, CurrentName);
      if current.None? { return None; }
      var decoded := DecodeFrontier(codec.sha, current.value);
      if decoded.None? { return None; }
      if EntryOf(storage.disk, GenerationDir(decoded.value.generation)).current != Subdirectory { return None; }
      var f := decoded.value;
      var checkpoint := Read(storage.disk, CheckpointName(f.generation));
      if checkpoint.None? { return None; }
      var restored := RestoredCheckpoint(codec, f, checkpoint.value);
      var journal := Read(storage.disk, JournalName(f.generation));
      if restored.None? || journal.None? || |journal.value| < f.end { return None; }
      if journal.value[..JOURNAL_HEADER_LEN] != JournalHeader(codec.sha, f) { return None; }
      var final := ReplayLoop(codec, f, restored.value, journal.value);
      if final.None? || final.value.sequence != f.sequence || final.value.digest != f.digest { return None; }
      r := Some((f, final.value.state));
    }

    /** The loop over the committed bytes. */
    static method ReplayLoop(codec: Codec<S, D>, f: Frontier, state: S, journal: bytes) returns (r: Option<Cursor<S>>)
      requires JOURNAL_HEADER_LEN <= f.end <= |journal|
      ensures r == Replay(codec, f, StartCursor(codec.sha, f, state), journal[JOURNAL_HEADER_LEN..f.end])
    {
      hide ReplayFrame;
      hide FramePayloadLen;
      var cursor := StartCursor(codec.sha, f, state);
      var offset: nat := JOURNAL_HEADER_LEN;
      while offset < f.end
        invariant JOURNAL_HEADER_LEN <= offset <= f.end
        invariant Replay(codec, f, cursor, journal[offset..f.end])
                  == Replay(codec, f, StartCursor(codec.sha, f, state), journal[JOURNAL_HEADER_LEN..f.end])
      {
        var next, length := ReadFrame(codec, f, cursor, journal, offset);
        if next.None? { return None; }
        assert journal[offset..f.end][length..] == journal[offset + length..f.end];
        cursor := next.value;
        offset := offset + length;
      }
      r := Some(cursor);
    }

    /** One frame: its identity, sequence, parent digest, exact boundary and checksum, then its delta. */
    static method ReadFrame(codec: Codec<S, D>, f: Frontier, cursor: Cursor<S>, journal: bytes, offset: nat)
      returns (next: Option<Cursor<S>>, length: nat)
      requires offset < f.end <= |journal|
      ensures next == ReplayFrame(codec, f, cursor, journal[offset..f.end])
      ensures next.Some? ==> 0 < length <= f.end - offset
      ensures next.Some? ==> FramePayloadLen(f, cursor, journal[offset..f.end]).Some?
      ensures next.Some? ==> length == FRAME_OVERHEAD + FramePayloadLen(f, cursor, journal[offset..f.end]).value
    {
      hide FrameHead;
      hide FrameDigest;
      next, length := None, 0;
      ghost var rest := journal[offset..f.end];
      if f.end - offset < FRAME_OVERHEAD { return; }
      var head, lengthField := journal[offset..offset + 96], journal[offset + 96..offset + 104];
      SliceOfSlice(journal, offset, f.end, 0, 96);
      SliceOfSlice(journal, offset, f.end, 96, 104);
      assert rest[..96] == rest[0..96];
      if cursor.sequence + 1 >= U64_LIMIT || head != FrameHead(f, cursor.sequence + 1, cursor.digest) { return; }
      var len := DecodeU64(lengthField);
      if FRAME_OVERHEAD + len > f.end - offset { return; }
      var payload := journal[offset + 104..offset + 104 + len];
      var digest := journal[offset + 104 + len..offset + FRAME_OVERHEAD + len];
      SliceOfSlice(journal, offset, f.end, 104, 104 + len);
      SliceOfSlice(journal, offset, f.end, 104 + len, 136 + len);
      var delta := codec.decodeDelta(payload);
      if delta.None? || digest != FrameDigest(codec.sha, f, cursor.sequence + 1, cursor.digest, payload) { return; }
      var state := codec.replay(cursor.state, delta.value);
      if state.None? { return; }
      next := Some(Cursor(cursor.sequence + 1, digest, state.value));
      length := FRAME_OVERHEAD + len;
    }
  }

  /** A generation that has just been written opens to what its checkpoint decodes to. */
  lemma NewGenerationOpens<S, D>(codec: Codec<S, D>, sequence: u64, g: Generation, snapshot: S)
    requires |codec.encodeSnapshot(snapshot)| + SNAPSHOT_HEADER_LEN < U64_LIMIT
    ensures var payload := codec.encodeSnapshot(snapshot);
            var f := NewFrontier(codec.sha, g, sequence, payload);
            Opened(codec, f, EncodeSnapshotFile(codec.sha, payload), JournalHeader(codec.sha, f))
            == CheckpointOutcome(codec, snapshot)
  {
    var payload := codec.encodeSnapshot(snapshot);
    var f := NewFrontier(codec.sha, g, sequence, payload);
    SnapshotFileRoundTrip(codec.sha, payload, []);
    var journal := JournalHeader(codec.sha, f);
    assert journal[..JOURNAL_HEADER_LEN] == journal && journal[JOURNAL_HEADER_LEN..f.end] == [];
  }

  lemma NewGenerationPublishable<S, D>(
    codec: Codec<S, D>, d: Disk, sequence: u64, g: Generation, snapshot: S, outcomes: set<Option<S>>, c: FileId,
    j: FileId)
    requires |codec.encodeSnapshot(snapshot)| + SNAPSHOT_HEADER_LEN < U64_LIMIT
    requires Safe(codec, d, outcomes) && Foreign(codec.sha, d, g) && CheckpointOutcome(codec, snapshot) in outcomes
    requires Fixed(d, GenerationDir(g), Subdirectory)
    requires Fixed(d, CheckpointName(g), FileRef(c))
    requires Fixed(d, JournalName(g), FileRef(j))
    requires BoundTo(d, CheckpointName(g), c, EncodeSnapshotFile(codec.sha, codec.encodeSnapshot(snapshot)))
    requires var f := NewFrontier(codec.sha, g, sequence, codec.encodeSnapshot(snapshot));
             BoundTo(d, JournalName(g), j, JournalHeader(codec.sha, f))
    ensures var f := NewFrontier(codec.sha, g, sequence, codec.encodeSnapshot(snapshot));
            && Publishable(codec, d, outcomes, f)
            && StateAt(codec, d, f) == CheckpointOutcome(codec, snapshot)
  {
    hide Safe;
    hide Foreign;
    hide Opened;
    hide CheckpointOutcome;
    NewGenerationOpens(codec, sequence, g, snapshot);
    ForeignPublishable(codec, d, outcomes, NewFrontier(codec.sha, g, sequence, codec.encodeSnapshot(snapshot)));
  }

  /** A synced generation under a synced CURRENT is committed to the snapshot it was written from. */
  lemma CreatedIsSafe<S, D>(
    codec: Codec<S, D>, d: Disk, g: Generation, snapshot: S, c: FileId, j: FileId, id: FileId)
    requires WellFormed(d) && |codec.encodeSnapshot(snapshot)| + SNAPSHOT_HEADER_LEN < U64_LIMIT
    requires Fixed(d, GenerationDir(g), Subdirectory) && Fixed(d, CheckpointName(g), FileRef(c))
    requires Fixed(d, JournalName(g), FileRef(j)) && Fixed(d, CurrentName, FileRef(id))
    requires var payload := codec.encodeSnapshot(snapshot);
             var f := NewFrontier(codec.sha, g, 0, payload);
             && BoundTo(d, CheckpointName(g), c, EncodeSnapshotFile(codec.sha, payload))
             && BoundTo(d, JournalName(g), j, JournalHeader(codec.sha, f))
             && BoundTo(d, CurrentName, id, EncodeFrontier(codec.sha, f))
    ensures Recover(codec, d) == CheckpointOutcome(codec, snapshot)
    ensures Safe(codec, d, {CheckpointOutcome(codec, snapshot)})
    ensures Committed(codec, d, NewFrontier(codec.sha, g, 0, codec.encodeSnapshot(snapshot)))
  {
    hide WellFormed;
    hide Safe;
    hide Opened;
    hide CheckpointOutcome;
    hide EncodeFrontier;
    hide DecodeFrontier;
    hide JournalHeader;
    hide EncodeSnapshotFile;
    var f := NewFrontier(codec.sha, g, 0, codec.encodeSnapshot(snapshot));
    NewGenerationOpens(codec, 0, g, snapshot);
    FrontierRoundTrip(codec.sha, f, EncodeFrontier(codec.sha, f));
    SettledSafe(codec, d, FileRef(id));
  }

  /** Everything but the entry of one name is as it was; new files may have appeared. */
  ghost predicate OnlyNamed(before: Disk, after: Disk, name: Name) {
    && (forall n | n != name :: EntryOf(after, n) == EntryOf(before, n))
    && (forall k :: k in before.files ==> k in after.files && after.files[k] == before.files[k])
  }

  /** Write and sync a file, then give it its name. */
  method PlaceFile(storage: Storage, name: Name, content: bytes) returns (ok: bool, ghost id: FileId)
    requires storage.Valid()
    modifies storage
    ensures storage.Valid() && old(storage.faults) <= storage.faults
    ensures storage.faults == old(storage.faults) ==> ok
    ensures ok ==> OnlyNamed(old(storage.disk), storage.disk, name) && BoundTo(storage.disk, name, id, content)
  {
    hide WellFormed;
    var file := storage.Create();
    id := file;
    ghost var d1 := storage.disk;
    ok := storage.Write(file, 0, content);
    if !ok { return; }
    assert Overwrite([], 0, content) == content;
    assert storage.disk == WithFile(d1, file, storage.disk.files[file]);
    ok := storage.Sync(file);
    if !ok { return; }
    assert forall n :: EntryOf(storage.disk, n) == EntryOf(d1, n);
    ok := storage.Publish(name, FileRef(file));
  }

  /** Directory, checkpoint and empty journal of the first generation, both directories synced. */
  method PlaceGeneration(storage: Storage, g: Generation, checkpoint: bytes, journal: bytes)
    returns (ok: bool, ghost c: FileId, ghost j: FileId)
    requires storage.Valid()
    modifies storage
    ensures storage.Valid() && old(storage.faults) <= storage.faults
    ensures storage.faults == old(storage.faults) ==> ok
    ensures ok ==> Fixed(storage.disk, GenerationDir(g), Subdirectory)
    ensures ok ==>
              && Fixed(storage.disk, CheckpointName(g), FileRef(c))
              && BoundTo(storage.disk, CheckpointName(g), c, checkpoint)
    ensures ok ==> Fixed(storage.disk, JournalName(g), FileRef(j)) && BoundTo(storage.disk, JournalName(g), j, journal)
  {
    hide WellFormed;
    c, j := 0, 0;
    ok := storage.Publish(GenerationDir(g), Subdirectory);
    if !ok { return; }
    ok, c := PlaceFile(storage, CheckpointName(g), checkpoint);
    if !ok { return; }
    ok, j := PlaceFile(storage, JournalName(g), journal);
    if !ok { return; }
    ghost var d1 := storage.disk;
    ok := storage.SyncDirectory(GenDir(g));
    if !ok { return; }
    ghost var d2 := storage.disk;
    ok := storage.SyncDirectory(RootDir);
    if !ok { return; }
    forall n: Name | !n.CurrentName? && n.generation == g
      ensures Fixed(storage.disk, n, EntryOf(d1, n).current)
    {
      EntryAfterSyncDir(d1, GenDir(g), n);
      EntryAfterSyncDir(d2, RootDir, n);
    }
  }

  /** Create a journal inside an empty directory that no one else sees yet. */
  method CreateJournal<S, D>(codec: Codec<S, D>, storage: Storage, g: Generation, snapshot: S)
    returns (r: Option<Frontier>)
    requires storage.Valid()
    modifies storage
    ensures storage.Valid()
    ensures r.Some? ==>
              && Committed(codec, storage.disk, r.value) && r.value.sequence == 0
              && Recover(codec, storage.disk) == CheckpointOutcome(codec, snapshot)
              && Safe(codec, storage.disk, {CheckpointOutcome(codec, snapshot)})
    ensures (&& storage.faults == old(storage.faults)
             && (forall name :: name in old(storage.disk).entries ==> old(storage.disk).entries[name].current == Absent)
             && |codec.encodeSnapshot(snapshot)| + SNAPSHOT_HEADER_LEN < U64_LIMIT) ==> r.Some?
  {
    hide WellFormed;
    hide Safe;
    hide Recover;
    hide Committed;
    hide EncodeSnapshotFile;
    hide JournalHeader;
    hide EncodeFrontier;
    r := None;
    var payload := codec.encodeSnapshot(snapshot);
    if (exists name | name in storage.disk.entries :: storage.disk.entries[name].current != Absent)
       || |payload| + SNAPSHOT_HEADER_LEN >= U64_LIMIT { return; }
    var f := NewFrontier(codec.sha, g, 0, payload);
    ghost var c, j, id;
    var ok;
    ok, c, j := PlaceGeneration(storage, g, EncodeSnapshotFile(codec.sha, payload), JournalHeader(codec.sha, f));
    if !ok { return; }
    ok, id := PlaceFile(storage, CurrentName, EncodeFrontier(codec.sha, f));
    if !ok { return; }
    ghost var d := storage.disk;
    ok := storage.SyncDirectory(RootDir);
    if !ok { return; }
    EntryAfterSyncDir(d, RootDir, CurrentName);
    EntryAfterSyncDir(d, RootDir, GenerationDir(g));
    EntryAfterSyncDir(d, RootDir, CheckpointName(g));
    EntryAfterSyncDir(d, RootDir, JournalName(g));
    CreatedIsSafe(codec, storage.disk, g, snapshot, c, j, id);
    r := Some(f);
  }

  /** Unlinking a name of another generation leaves the committed state alone. */
  lemma RetiredStep<S, D>(codec: Codec<S, D>, d: Disk, f: Frontier, name: Name, outcomes: set<Option<S>>)
    requires Safe(codec, d, outcomes) && Committed(codec, d, f)
    requires !name.CurrentName? && name.generation != f.generation
    ensures var e := Bind(d, name, Absent);
            && Safe(codec, e, outcomes) && Committed(codec, e, f)
            && StateAt(codec, e, f) == StateAt(codec, d, f)
  {
    ForeignBindSafe(codec, d, name, Absent, outcomes);
  }

  lemma FrameWritten<S, D>(
    codec: Codec<S, D>, d0: Disk, file: File, outcomes: set<Option<S>>, f: Frontier, payload: bytes)
    requires Safe(codec, d0, outcomes) && CurrentFrontier(codec, d0) == f && GenerationComplete(d0, f) && BoundaryOk(f)
    requires f.end + FRAME_OVERHEAD + |payload| < U64_LIMIT && f.sequence + 1 < U64_LIMIT
    requires StateAt(codec, d0, f).Some? && ApplyPayload(codec, StateAt(codec, d0, f).value, payload) in outcomes
    requires TailChange(d0.files[FileIdOf(d0, JournalName(f.generation))], file, f.end) && !file.dirty
    requires file.content == file.content[..f.end] + EncodeFrame(codec.sha, f, f.sequence + 1, f.digest, payload)
    ensures var d := WithFile(d0, FileIdOf(d0, JournalName(f.generation)), file);
            var next := Extended(codec.sha, f, payload);
            && BoundaryOk(next) && Publishable(codec, d, outcomes, next)
            && StateAt(codec, d, next) == ApplyPayload(codec, StateAt(codec, d0, f).value, payload)
  {
    var j := FileIdOf(d0, JournalName(f.generation));
    var d := WithFile(d0, j, file);
    JournalChangeSafe(codec, d0, file, outcomes);
    assert GenerationComplete(d, f) by { JournalStillComplete(d0, f, file); }
    ExtendedPublishable(codec, d, outcomes, f, payload);
  }

  lemma JournalStillComplete(d0: Disk, f: Frontier, file: File)
    requires GenerationComplete(d0, f) && WellFormed(d0)
    requires TailChange(d0.files[FileIdOf(d0, JournalName(f.generation))], file, f.end)
    ensures var d := WithFile(d0, FileIdOf(d0, JournalName(f.generation)), file);
            && GenerationComplete(d, f)
            && FileIdOf(d, JournalName(f.generation)) == FileIdOf(d0, JournalName(f.generation))
  {
    var d := WithFile(d0, FileIdOf(d0, JournalName(f.generation)), file);
    assert EntryOf(d, GenerationDir(f.generation)) == EntryOf(d0, GenerationDir(f.generation));
    assert EntryOf(d, CheckpointName(f.generation)) == EntryOf(d0, CheckpointName(f.generation));
    assert EntryOf(d, JournalName(f.generation)) == EntryOf(d0, JournalName(f.generation));
    assert FileRef(FileIdOf(d0, CheckpointName(f.generation))) in EntryOf(d0, CheckpointName(f.generation)).possible;
    assert FileRef(FileIdOf(d0, JournalName(f.generation))) in EntryOf(d0, JournalName(f.generation)).possible;
  }
}
