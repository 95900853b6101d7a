/** The byte formats of the consensus journal: the CURRENT frontier, the checkpoint
    file and the hash-chained frames, and what replaying them means. */
module JournalFormat {
  import opened Bytes

  type Generation = g: bytes | |g| == 16 witness ZeroBytes(16)

  const CURRENT_MAGIC: bytes := [76, 88, 67, 76, 72, 68, 48, 49]
  const JOURNAL_MAGIC: bytes := [76, 88, 67, 76, 74, 82, 48, 49]
  const FRAME_MAGIC: bytes := [76, 88, 67, 76, 68, 76, 48, 49]
  const SNAPSHOT_MAGIC: bytes := [76, 88, 67, 76, 83, 78, 48, 49]

  const CURRENT_LEN: nat := 152
  const JOURNAL_HEADER_LEN: nat := 104
  const FRAME_OVERHEAD: nat := 136
  const SNAPSHOT_HEADER_LEN: nat := 48

  datatype Integrity = Integrity(encodedLen: u64, digest: B256)

  datatype Frontier = Frontier(
    generation: Generation,
    checkpointSequence: u64,
    checkpoint: Integrity,
    end: u64,
    sequence: u64,
    digest: B256)

  /** SHA-256, JSON and the snapshot semantics are supplied by other crates and modules. */
  datatype Codec<!S, !D> = Codec(
    sha: bytes -> B256,
    encodeSnapshot: S -> bytes,
    decodeSnapshot: bytes -> Option<S>,
    restore: S -> Option<S>,
    encodeDelta: D -> bytes,
    decodeDelta: bytes -> Option<D>,
    replay: (S, D) -> Option<S>)

  ghost predicate ShaCollisionFreeOn(sha: bytes -> B256, inputs: set<bytes>) {
    forall x, y :: x in inputs && y in inputs && sha(x) == sha(y) ==> x == y
  }

  // ---- CURRENT ----

  predicate BoundaryOk(f: Frontier) {
    f.end >= JOURNAL_HEADER_LEN && f.sequence >= f.checkpointSequence
  }

  /** Generation, sequence and checkpoint identity, shared by CURRENT and the journal header. */
  function Identity(f: Frontier): (r: bytes)
    ensures |r| == 64
  {
    f.generation + EncodeU64(f.checkpointSequence) + EncodeU64(f.checkpoint.encodedLen) + f.checkpoint.digest
  }

  function Position(f: Frontier): (r: bytes)
    ensures |r| == 48
  {
    EncodeU64(f.end) + EncodeU64(f.sequence) + f.digest
  }

  function FrontierBody(f: Frontier): (r: bytes)
    ensures |r| == 120
  {
    CURRENT_MAGIC + Identity(f) + Position(f)
  }

  function EncodeFrontier(sha: bytes -> B256, f: Frontier): (r: bytes)
    ensures |r| == CURRENT_LEN
  {
    FrontierBody(f) + sha(FrontierBody(f))
  }

  function ParseBody(b: bytes): Frontier
    requires |b| == 120
  {
    Frontier(b[8..24], DecodeU64(b[24..32]), Integrity(DecodeU64(b[32..40]), b[40..72]),
             DecodeU64(b[72..80]), DecodeU64(b[80..88]), b[88..120])
  }

  function DecodeFrontier(sha: bytes -> B256, b: bytes): Option<Frontier> {
    if |b| != CURRENT_LEN || b[..8] != CURRENT_MAGIC || sha(b[..120]) != b[120..] then None
    else
      var f := ParseBody(b[..120]);
      if BoundaryOk(f) then Some(f) else None
  }

  lemma ParseBodyOfBody(f: Frontier)
    ensures ParseBody(FrontierBody(f)) == f
  {
    var b := FrontierBody(f);
    assert b[8..72] == Identity(f);
    assert b[72..120] == Position(f);
    assert b[8..24] == Identity(f)[..16] == f.generation;
    assert b[24..32] == Identity(f)[16..24] == EncodeU64(f.checkpointSequence);
    assert b[32..40] == Identity(f)[24..32] == EncodeU64(f.checkpoint.encodedLen);
    assert b[40..72] == Identity(f)[32..64] == f.checkpoint.digest;
    assert b[72..80] == Position(f)[..8] == EncodeU64(f.end);
    assert b[80..88] == Position(f)[8..16] == EncodeU64(f.sequence);
    assert b[88..120] == Position(f)[16..48] == f.digest;
  }

  lemma BodyOfParseBody(b: bytes)
    requires |b| == 120 && b[..8] == CURRENT_MAGIC
    ensures FrontierBody(ParseBody(b)) == b
  {
    DecodeU64Canonical(b[24..32]);
    DecodeU64Canonical(b[32..40]);
    DecodeU64Canonical(b[72..80]);
    DecodeU64Canonical(b[80..88]);
    var f := ParseBody(b);
    assert Identity(f) == b[8..24] + b[24..32] + b[32..40] + b[40..72] == b[8..72];
    assert Position(f) == b[72..80] + b[80..88] + b[88..120] == b[72..120];
    assert b == b[..8] + b[8..72] + b[72..120];
  }

  /** CURRENT round-trips, and has exactly one accepted spelling per frontier. */
  lemma FrontierRoundTrip(sha: bytes -> B256, f: Frontier, b: bytes)
    ensures DecodeFrontier(sha, EncodeFrontier(sha, f)) == if BoundaryOk(f) then Some(f) else None
    ensures DecodeFrontier(sha, b) == Some(f) <==> b == EncodeFrontier(sha, f) && BoundaryOk(f)
  {
    ParseBodyOfBody(f);
    var e := EncodeFrontier(sha, f);
    assert e[..120] == FrontierBody(f) && e[120..] == sha(FrontierBody(f));
    assert e[..8] == FrontierBody(f)[..8] == CURRENT_MAGIC;
    if DecodeFrontier(sha, b) == Some(f) {
      assert b[..120][..8] == b[..8];
      BodyOfParseBody(b[..120]);
      assert b == b[..120] + b[120..];
    }
  }

  // ---- The checkpoint file ----

  function SnapshotIntegrity(sha: bytes -> B256, payload: bytes): Integrity
    requires |payload| + SNAPSHOT_HEADER_LEN < U64_LIMIT
  {
    Integrity(|payload| + SNAPSHOT_HEADER_LEN, sha(payload))
  }

  function EncodeSnapshotFile(sha: bytes -> B256, payload: bytes): (r: bytes)
    requires |payload| + SNAPSHOT_HEADER_LEN < U64_LIMIT
    ensures |r| == |payload| + SNAPSHOT_HEADER_LEN
  {
    SNAPSHOT_MAGIC + EncodeU64(|payload|) + sha(payload) + payload
  }

  /** The JSON payload of a structurally sound checkpoint file, with its integrity record. */
  function SnapshotPayload(sha: bytes -> B256, file: bytes): Option<(bytes, Integrity)> {
    if |file| < SNAPSHOT_HEADER_LEN || |file| >= U64_LIMIT || file[..8] != SNAPSHOT_MAGIC
       || DecodeU64(file[8..16]) != |file| - SNAPSHOT_HEADER_LEN || sha(file[48..]) != file[16..48]
    then None
    else Some((file[48..], Integrity(|file|, file[16..48])))
  }

  /** Acceptance of a checkpoint file means being the encoding of its payload. */
  lemma SnapshotFileRoundTrip(sha: bytes -> B256, payload: bytes, file: bytes)
    requires |payload| + SNAPSHOT_HEADER_LEN < U64_LIMIT
    ensures SnapshotPayload(sha, EncodeSnapshotFile(sha, payload)) == Some((payload, SnapshotIntegrity(sha, payload)))
    ensures SnapshotPayload(sha, file).Some? && SnapshotPayload(sha, file).value.0 == payload ==>
              file == EncodeSnapshotFile(sha, payload)
  {
    var e := EncodeSnapshotFile(sha, payload);
    assert e[..8] == SNAPSHOT_MAGIC;
    assert e[8..16] == EncodeU64(|payload|);
    assert e[16..48] == sha(payload);
    assert e[48..] == payload;
    if SnapshotPayload(sha, file).Some? && SnapshotPayload(sha, file).value.0 == payload {
      DecodeU64Canonical(file[8..16]);
      assert file == file[..8] + file[8..16] + file[16..48] + file[48..];
    }
  }

  // ---- The journal ----

  function HeaderPrefix(f: Frontier): (r: bytes)
    ensures |r| == 72
  {
    JOURNAL_MAGIC + Identity(f)
  }

  function JournalHeader(sha: bytes -> B256, f: Frontier): (r: bytes)
    ensures |r| == JOURNAL_HEADER_LEN
  {
    HeaderPrefix(f) + sha(HeaderPrefix(f))
  }

  function BaseDigest(sha: bytes -> B256, f: Frontier): B256 {
    sha(JournalHeader(sha, f))
  }

  /** The first 96 bytes of a frame: identity, sequence, checkpoint and parent digest. */
  function FrameHead(f: Frontier, sequence: u64, parent: B256): (r: bytes)
    ensures |r| == 96
  {
    FRAME_MAGIC + f.generation + EncodeU64(sequence) + f.checkpoint.digest + parent
  }

  function FrameInput(f: Frontier, sequence: u64, parent: B256, payload: bytes): bytes
    requires |payload| < U64_LIMIT
  {
    FrameHead(f, sequence, parent) + payload + EncodeU64(|payload|)
  }

  function FrameDigest(sha: bytes -> B256, f: Frontier, sequence: u64, parent: B256, payload: bytes): B256
    requires |payload| < U64_LIMIT
  {
    sha(FrameInput(f, sequence, parent, payload))
  }

  function EncodeFrame(sha: bytes -> B256, f: Frontier, sequence: u64, parent: B256, payload: bytes): (r: bytes)
    requires |payload| < U64_LIMIT
    ensures |r| == FRAME_OVERHEAD + |payload|
  {
    FrameHead(f, sequence, parent) + EncodeU64(|payload|) + payload + FrameDigest(sha, f, sequence, parent, payload)
  }

  datatype Cursor<+S> = Cursor(sequence: u64, digest: B256, state: S)

  /** Where the first frame of `rest` ends, if its header is well formed for this cursor. */
  function FramePayloadLen<S>(f: Frontier, cursor: Cursor<S>, rest: bytes): Option<nat> {
    if |rest| < FRAME_OVERHEAD || cursor.sequence + 1 >= U64_LIMIT
       || rest[..96] != FrameHead(f, cursor.sequence + 1, cursor.digest)
       || FRAME_OVERHEAD + DecodeU64(rest[96..104]) > |rest|
    then None
    else Some(DecodeU64(rest[96..104]))
  }

  /** One iteration of the replay loop. */
  function ReplayFrame<S, D>(codec: Codec<S, D>, f: Frontier, cursor: Cursor<S>, rest: bytes): Option<Cursor<S>> {
    var len := FramePayloadLen(f, cursor, rest);
    if len.None? || len.value >= U64_LIMIT then None
    else
      var payload := rest[104..104 + len.value];
      var delta := codec.decodeDelta(payload);
      var digest := rest[104 + len.value..136 + len.value];
      if delta.None? || digest != FrameDigest(codec.sha, f, cursor.sequence + 1, cursor.digest, payload) then None
      else
        var state := codec.replay(cursor.state, delta.value);
        if state.None? then None else Some(Cursor(cursor.sequence + 1, digest, state.value))
  }

  function Replay<S, D>(codec: Codec<S, D>, f: Frontier, cursor: Cursor<S>, rest: bytes): Option<Cursor<S>>
    decreases |rest|
  {
    if rest == [] then Some(cursor)
    else
      var next := ReplayFrame(codec, f, cursor, rest);
      if next.None? then None
      else Replay(codec, f, next.value, rest[FRAME_OVERHEAD + FramePayloadLen(f, cursor, rest).value..])
  }

  function RestoredCheckpoint<S, D>(codec: Codec<S, D>, f: Frontier, checkpointFile: bytes): Option<S> {
    var payload := SnapshotPayload(codec.sha, checkpointFile);
    if payload.None? then None
    else
      var snapshot := codec.decodeSnapshot(payload.value.0);
      if snapshot.None? || payload.value.1 != f.checkpoint then None else codec.restore(snapshot.value)
  }

  function StartCursor<S>(sha: bytes -> B256, f: Frontier, state: S): Cursor<S> {
    Cursor(f.checkpointSequence, BaseDigest(sha, f), state)
  }

  /** The state that a frontier denotes over a checkpoint file and a journal file. */
  function Opened<S, D>(codec: Codec<S, D>, f: Frontier, checkpointFile: bytes, journalFile: bytes): Option<S> {
    var restored := RestoredCheckpoint(codec, f, checkpointFile);
    if restored.None? || f.end < JOURNAL_HEADER_LEN || |journalFile| < f.end
       || journalFile[..JOURNAL_HEADER_LEN] != JournalHeader(codec.sha, f)
    then None
    else
      var final := Replay(codec, f, StartCursor(codec.sha, f, restored.value), journalFile[JOURNAL_HEADER_LEN..f.end]);
      if final.None? || final.value.sequence != f.sequence || final.value.digest != f.digest then None
      else Some(final.value.state)
  }

  // ---- Frames as a list of payloads ----

  function Frames(sha: bytes -> B256, f: Frontier, sequence: u64, parent: B256, payloads: seq<bytes>): bytes
    requires sequence + |payloads| < U64_LIMIT && Encodable(payloads)
    decreases |payloads|
  {
    if payloads == [] then []
    else EncodeFrame(sha, f, sequence + 1, parent, payloads[0])
         + Frames(sha, f, sequence + 1, FrameDigest(sha, f, sequence + 1, parent, payloads[0]), payloads[1..])
  }

  function ChainDigest(sha: bytes -> B256, f: Frontier, sequence: u64, parent: B256, payloads: seq<bytes>): B256
    requires sequence + |payloads| < U64_LIMIT && Encodable(payloads)
    decreases |payloads|
  {
    if payloads == [] then parent
    else ChainDigest(sha, f, sequence + 1, FrameDigest(sha, f, sequence + 1, parent, payloads[0]), payloads[1..])
  }

  function ChainInputs(sha: bytes -> B256, f: Frontier, sequence: u64, parent: B256, payloads: seq<bytes>): set<bytes>
    requires sequence + |payloads| < U64_LIMIT && Encodable(payloads)
    decreases |payloads|
  {
    if payloads == [] then {}
    else {FrameInput(f, sequence + 1, parent, payloads[0])}
         + ChainInputs(sha, f, sequence + 1, FrameDigest(sha, f, sequence + 1, parent, payloads[0]), payloads[1..])
  }

  predicate Encodable(payloads: seq<bytes>) {
    forall i :: 0 <= i < |payloads| ==> |payloads[i]| < U64_LIMIT
  }

  function ApplyPayload<S, D>(codec: Codec<S, D>, state: S, payload: bytes): Option<S> {
    var delta := codec.decodeDelta(payload);
    if delta.None? then None else codec.replay(state, delta.value)
  }

  /** Deltas applied in order, oldest first. */
  function FoldPayloads<S, D>(codec: Codec<S, D>, state: S, payloads: seq<bytes>): Option<S>
    decreases |payloads|
  {
    if payloads == [] then Some(state)
    else
      var next := ApplyPayload(codec, state, payloads[0]);
      if next.None? then None else FoldPayloads(codec, next.value, payloads[1..])
  }

  /** The cursor after all payloads. */
  function FoldCursor<S, D>(codec: Codec<S, D>, f: Frontier, cursor: Cursor<S>, payloads: seq<bytes>): Option<Cursor<S>>
    requires cursor.sequence + |payloads| < U64_LIMIT && Encodable(payloads)
    decreases |payloads|
  {
    if payloads == [] then Some(cursor)
    else
      var state := ApplyPayload(codec, cursor.state, payloads[0]);
      var digest := FrameDigest(codec.sha, f, cursor.sequence + 1, cursor.digest, payloads[0]);
      if state.None? then None
      else FoldCursor(codec, f, Cursor(cursor.sequence + 1, digest, state.value), payloads[1..])
  }

  /** Counting, chaining and folding are independent of each other. */
  lemma {:induction false} FoldCursorParts<S, D>(
    codec: Codec<S, D>, f: Frontier, cursor: Cursor<S>, payloads: seq<bytes>)
    requires cursor.sequence + |payloads| < U64_LIMIT && Encodable(payloads)
    ensures var final := FoldCursor(codec, f, cursor, payloads);
            var state := FoldPayloads(codec, cursor.state, payloads);
            && final.Some? == state.Some?
            && (final.Some? ==>
                  && final.value.sequence == cursor.sequence + |payloads|
                  && final.value.digest == ChainDigest(codec.sha, f, cursor.sequence, cursor.digest, payloads)
                  && final.value.state == state.value)
    decreases |payloads|
  {
    hide ApplyPayload;
    hide FrameDigest;
    if payloads != [] {
      var state := ApplyPayload(codec, cursor.state, payloads[0]);
      var digest := FrameDigest(codec.sha, f, cursor.sequence + 1, cursor.digest, payloads[0]);
      if state.Some? {
        FoldCursorParts(codec, f, Cursor(cursor.sequence + 1, digest, state.value), payloads[1..]);
      }
    }
  }

  lemma FrameLayout(f: Frontier, sha: bytes -> B256, sequence: u64, parent: B256, payload: bytes, rest: bytes)
    requires |payload| < U64_LIMIT
    ensures var b := EncodeFrame(sha, f, sequence, parent, payload) + rest;
            && b[..96] == FrameHead(f, sequence, parent)
            && b[96..104] == EncodeU64(|payload|)
            && b[104..104 + |payload|] == payload
            && b[104 + |payload|..136 + |payload|] == FrameDigest(sha, f, sequence, parent, payload)
            && b[136 + |payload|..] == rest
  {
  }

  lemma FrameFromParts(f: Frontier, sha: bytes -> B256, sequence: u64, parent: B256, rest: bytes, len: u64)
    requires |rest| >= FRAME_OVERHEAD + len
    requires rest[..96] == FrameHead(f, sequence, parent)
    requires DecodeU64(rest[96..104]) == len
    requires rest[104 + len..136 + len] == FrameDigest(sha, f, sequence, parent, rest[104..104 + len])
    ensures rest == EncodeFrame(sha, f, sequence, parent, rest[104..104 + len]) + rest[FRAME_OVERHEAD + len..]
  {
    DecodeU64Canonical(rest[96..104]);
    assert rest == rest[..96] + rest[96..104] + rest[104..104 + len] + rest[104 + len..136 + len] + rest[136 + len..];
  }

  /** One replay step succeeds exactly on the encoding of an applicable payload. */
  lemma ReplayEncodedFrame<S, D>(codec: Codec<S, D>, f: Frontier, cursor: Cursor<S>, payload: bytes, rest: bytes)
    requires |payload| < U64_LIMIT && cursor.sequence + 1 < U64_LIMIT
    ensures var b := EncodeFrame(codec.sha, f, cursor.sequence + 1, cursor.digest, payload) + rest;
            && FramePayloadLen(f, cursor, b) == Some(|payload|)
            && b[FRAME_OVERHEAD + |payload|..] == rest
            && ReplayFrame(codec, f, cursor, b) ==
               match ApplyPayload(codec, cursor.state, payload)
               case None => None
               case Some(state) =>
                 Some(Cursor(cursor.sequence + 1,
                             FrameDigest(codec.sha, f, cursor.sequence + 1, cursor.digest, payload), state))
  {
    FrameLayout(f, codec.sha, cursor.sequence + 1, cursor.digest, payload, rest);
  }

  lemma ReplayCons<S, D>(codec: Codec<S, D>, f: Frontier, cursor: Cursor<S>, payload: bytes, rest: bytes)
    requires |payload| < U64_LIMIT && cursor.sequence + 1 < U64_LIMIT
    ensures Replay(codec, f, cursor, EncodeFrame(codec.sha, f, cursor.sequence + 1, cursor.digest, payload) + rest) ==
            match ApplyPayload(codec, cursor.state, payload)
            case None => None
            case Some(state) =>
              var digest := FrameDigest(codec.sha, f, cursor.sequence + 1, cursor.digest, payload);
              Replay(codec, f, Cursor(cursor.sequence + 1, digest, state), rest)
  {
    ReplayEncodedFrame(codec, f, cursor, payload, rest);
  }

  lemma ReplayFramesStep<S, D>(codec: Codec<S, D>, f: Frontier, cursor: Cursor<S>, payloads: seq<bytes>)
    requires cursor.sequence + |payloads| < U64_LIMIT && Encodable(payloads) && payloads != []
    ensures var digest := FrameDigest(codec.sha, f, cursor.sequence + 1, cursor.digest, payloads[0]);
            var state := ApplyPayload(codec, cursor.state, payloads[0]);
            Replay(codec, f, cursor, Frames(codec.sha, f, cursor.sequence, cursor.digest, payloads))
            == if state.None? then None
               else Replay(codec, f, Cursor(cursor.sequence + 1, digest, state.value),
                           Frames(codec.sha, f, cursor.sequence + 1, digest, payloads[1..]))
  {
    var digest := FrameDigest(codec.sha, f, cursor.sequence + 1, cursor.digest, payloads[0]);
    var rest := Frames(codec.sha, f, cursor.sequence + 1, digest, payloads[1..]);
    var all := EncodeFrame(codec.sha, f, cursor.sequence + 1, cursor.digest, payloads[0]) + rest;
    assert Frames(codec.sha, f, cursor.sequence, cursor.digest, payloads) == all;
    ReplayCons(codec, f, cursor, payloads[0], rest);
  }

  /** Replay accepts exactly the byte strings that encode a list of payloads, and then
      it is the left fold of the decoded deltas. */
  lemma {:induction false} ReplayIsFold<S, D>(codec: Codec<S, D>, f: Frontier, cursor: Cursor<S>, payloads: seq<bytes>)
    requires cursor.sequence + |payloads| < U64_LIMIT && Encodable(payloads)
    ensures Replay(codec, f, cursor, Frames(codec.sha, f, cursor.sequence, cursor.digest, payloads))
            == FoldCursor(codec, f, cursor, payloads)
    decreases |payloads|
  {
    if payloads != [] {
      ReplayFramesStep(codec, f, cursor, payloads);
      var state := ApplyPayload(codec, cursor.state, payloads[0]);
      if state.Some? {
        var digest := FrameDigest(codec.sha, f, cursor.sequence + 1, cursor.digest, payloads[0]);
        ReplayIsFold(codec, f, Cursor(cursor.sequence + 1, digest, state.value), payloads[1..]);
      }
    }
  }

  /** The payloads of an accepted byte string. */
  function Payloads<S, D>(codec: Codec<S, D>, f: Frontier, cursor: Cursor<S>, rest: bytes): seq<bytes>
    requires Replay(codec, f, cursor, rest).Some?
    decreases |rest|
  {
    if rest == [] then []
    else
      var len := FramePayloadLen(f, cursor, rest).value;
      [rest[104..104 + len]]
      + Payloads(codec, f, ReplayFrame(codec, f, cursor, rest).value, rest[FRAME_OVERHEAD + len..])
  }

  /** An accepted frame is the encoding of its payload, followed by the rest. */
  lemma AcceptedFrame<S, D>(codec: Codec<S, D>, f: Frontier, cursor: Cursor<S>, rest: bytes)
    requires ReplayFrame(codec, f, cursor, rest).Some?
    ensures var len := FramePayloadLen(f, cursor, rest);
            && len.Some? && FRAME_OVERHEAD + len.value <= |rest| && len.value < U64_LIMIT
            && cursor.sequence + 1 < U64_LIMIT
            && var payload := rest[104..104 + len.value];
               var next := ReplayFrame(codec, f, cursor, rest).value;
               && next.sequence == cursor.sequence + 1
               && next.digest == FrameDigest(codec.sha, f, cursor.sequence + 1, cursor.digest, payload)
               && rest == EncodeFrame(codec.sha, f, cursor.sequence + 1, cursor.digest, payload)
                  + rest[FRAME_OVERHEAD + len.value..]
  {
    hide FrameHead;
    hide FrameDigest;
    hide EncodeFrame;
    var len := FramePayloadLen(f, cursor, rest).value;
    FrameFromParts(f, codec.sha, cursor.sequence + 1, cursor.digest, rest, len);
  }

  lemma {:induction false} AcceptedIsEncoding<S, D>(codec: Codec<S, D>, f: Frontier, cursor: Cursor<S>, rest: bytes)
    requires Replay(codec, f, cursor, rest).Some?
    ensures var p := Payloads(codec, f, cursor, rest);
            && cursor.sequence + |p| < U64_LIMIT && Encodable(p)
            && rest == Frames(codec.sha, f, cursor.sequence, cursor.digest, p)
    decreases |rest|
  {
    hide ReplayFrame;
    hide FramePayloadLen;
    hide EncodeFrame;
    hide FrameDigest;
    if rest != [] {
      AcceptedFrame(codec, f, cursor, rest);
      var len := FramePayloadLen(f, cursor, rest).value;
      var next := ReplayFrame(codec, f, cursor, rest).value;
      AcceptedIsEncoding(codec, f, next, rest[FRAME_OVERHEAD + len..]);
      var p := Payloads(codec, f, cursor, rest);
      assert p[0] == rest[104..104 + len] && p[1..] == Payloads(codec, f, next, rest[FRAME_OVERHEAD + len..]);
    }
  }

  lemma FrameInputBinds(f: Frontier, sequence: u64, parent1: B256, payload1: bytes, parent2: B256, payload2: bytes)
    requires |payload1| < U64_LIMIT && |payload2| < U64_LIMIT
    requires FrameInput(f, sequence, parent1, payload1) == FrameInput(f, sequence, parent2, payload2)
    ensures parent1 == parent2 && payload1 == payload2
  {
    var a, b := FrameInput(f, sequence, parent1, payload1), FrameInput(f, sequence, parent2, payload2);
    assert a[64..96] == parent1 && b[64..96] == parent2;
    assert a[96..|a| - 8] == payload1 && b[96..|b| - 8] == payload2;
  }

  /** The hash chain binds: equal final digests over equally many frames force equal
      starting digests and equal payloads. */
  lemma {:induction false} ChainBinds(
    sha: bytes -> B256, f: Frontier, sequence: u64, parent1: B256, payloads1: seq<bytes>,
    parent2: B256, payloads2: seq<bytes>, inputs: set<bytes>)
    requires |payloads1| == |payloads2| && sequence + |payloads1| < U64_LIMIT
    requires Encodable(payloads1) && Encodable(payloads2)
    requires ChainInputs(sha, f, sequence, parent1, payloads1) <= inputs
    requires ChainInputs(sha, f, sequence, parent2, payloads2) <= inputs
    requires ShaCollisionFreeOn(sha, inputs)
    requires ChainDigest(sha, f, sequence, parent1, payloads1) == ChainDigest(sha, f, sequence, parent2, payloads2)
    ensures parent1 == parent2 && payloads1 == payloads2
    decreases |payloads1|
  {
    if payloads1 != [] {
      ChainBinds(sha, f, sequence + 1, FrameDigest(sha, f, sequence + 1, parent1, payloads1[0]), payloads1[1..],
                 FrameDigest(sha, f, sequence + 1, parent2, payloads2[0]), payloads2[1..], inputs);
      assert FrameInput(f, sequence + 1, parent1, payloads1[0]) in inputs;
      assert FrameInput(f, sequence + 1, parent2, payloads2[0]) in inputs;
      FrameInputBinds(f, sequence + 1, parent1, payloads1[0], parent2, payloads2[0]);
      assert payloads1 == [payloads1[0]] + payloads1[1..] && payloads2 == [payloads2[0]] + payloads2[1..];
    }
  }

  /** Everything hashed while opening: the snapshot payload and one input per frame. */
  ghost function OpenInputs<S, D>(
    codec: Codec<S, D>, f: Frontier, checkpointFile: bytes, journalFile: bytes): set<bytes>
    requires Opened(codec, f, checkpointFile, journalFile).Some?
  {
    var start := StartCursor(codec.sha, f, RestoredCheckpoint(codec, f, checkpointFile).value);
    var rest := journalFile[JOURNAL_HEADER_LEN..f.end];
    AcceptedIsEncoding(codec, f, start, rest);
    {checkpointFile[48..]}
    + ChainInputs(codec.sha, f, start.sequence, start.digest, Payloads(codec, f, start, rest))
  }

  /** For one CURRENT, at most one checkpoint file and one journal of the committed length
      open at all: damage is never read as an older or a different history. */
  lemma FrontierBindsHistory<S, D>(
    codec: Codec<S, D>, f: Frontier, checkpoint1: bytes, journal1: bytes, checkpoint2: bytes, journal2: bytes)
    requires Opened(codec, f, checkpoint1, journal1).Some?
    requires Opened(codec, f, checkpoint2, journal2).Some?
    requires ShaCollisionFreeOn(
               codec.sha, OpenInputs(codec, f, checkpoint1, journal1) + OpenInputs(codec, f, checkpoint2, journal2))
    ensures checkpoint1 == checkpoint2
    ensures journal1[..f.end] == journal2[..f.end]
    ensures Opened(codec, f, checkpoint1, journal1) == Opened(codec, f, checkpoint2, journal2)
  {
    hide Replay;
    hide Payloads;
    hide Frames;
    hide ChainInputs;
    hide ChainDigest;
    hide FoldCursor;
    hide FoldPayloads;
    var inputs := OpenInputs(codec, f, checkpoint1, journal1) + OpenInputs(codec, f, checkpoint2, journal2);
    assert checkpoint1[48..] in inputs && checkpoint2[48..] in inputs;
    SnapshotFileRoundTrip(codec.sha, checkpoint1[48..], checkpoint1);
    SnapshotFileRoundTrip(codec.sha, checkpoint1[48..], checkpoint2);
    var start := StartCursor(codec.sha, f, RestoredCheckpoint(codec, f, checkpoint1).value);
    var rest1, rest2 := journal1[JOURNAL_HEADER_LEN..f.end], journal2[JOURNAL_HEADER_LEN..f.end];
    var p1, p2 := Payloads(codec, f, start, rest1), Payloads(codec, f, start, rest2);
    AcceptedIsEncoding(codec, f, start, rest1);
    AcceptedIsEncoding(codec, f, start, rest2);
    ReplayIsFold(codec, f, start, p1);
    ReplayIsFold(codec, f, start, p2);
    FoldCursorParts(codec, f, start, p1);
    FoldCursorParts(codec, f, start, p2);
    ChainBinds(codec.sha, f, start.sequence, start.digest, p1, start.digest, p2, inputs);
    assert journal1[..f.end] == JournalHeader(codec.sha, f) + rest1;
    assert journal2[..f.end] == JournalHeader(codec.sha, f) + rest2;
  }

  /** A frame that is accepted does not depend on what follows it. */
  lemma FrameIgnoresRest<S, D>(codec: Codec<S, D>, f: Frontier, cursor: Cursor<S>, rest: bytes, more: bytes)
    requires ReplayFrame(codec, f, cursor, rest).Some?
    ensures ReplayFrame(codec, f, cursor, rest + more) == ReplayFrame(codec, f, cursor, rest)
    ensures FramePayloadLen(f, cursor, rest + more) == FramePayloadLen(f, cursor, rest)
    ensures FramePayloadLen(f, cursor, rest).Some? && FRAME_OVERHEAD + FramePayloadLen(f, cursor, rest).value <= |rest|
  {
    hide FrameHead;
    hide FrameDigest;
    var len := FramePayloadLen(f, cursor, rest).value;
    var all := rest + more;
    assert all[..96] == rest[..96] && all[96..104] == rest[96..104];
    assert all[104..104 + len] == rest[104..104 + len] && all[104 + len..136 + len] == rest[104 + len..136 + len];
  }

  /** Replaying a prefix and then more is replaying the whole. */
  lemma {:induction false} ReplaySplit<S, D>(
    codec: Codec<S, D>, f: Frontier, cursor: Cursor<S>, rest: bytes, more: bytes)
    requires Replay(codec, f, cursor, rest).Some?
    ensures Replay(codec, f, cursor, rest + more) == Replay(codec, f, Replay(codec, f, cursor, rest).value, more)
    decreases |rest|
  {
    hide ReplayFrame;
    hide FramePayloadLen;
    if rest == [] {
      assert rest + more == more;
    } else {
      FrameIgnoresRest(codec, f, cursor, rest, more);
      var len := FramePayloadLen(f, cursor, rest).value;
      assert (rest + more)[FRAME_OVERHEAD + len..] == rest[FRAME_OVERHEAD + len..] + more;
      ReplaySplit(codec, f, ReplayFrame(codec, f, cursor, rest).value, rest[FRAME_OVERHEAD + len..], more);
    }
  }

  /** The frontier after appending one encoded delta. */
  function Extended(sha: bytes -> B256, f: Frontier, payload: bytes): Frontier
    requires f.end + FRAME_OVERHEAD + |payload| < U64_LIMIT && f.sequence + 1 < U64_LIMIT
  {
    f.(end := f.end + FRAME_OVERHEAD + |payload|,
       sequence := f.sequence + 1,
       digest := FrameDigest(sha, f, f.sequence + 1, f.digest, payload))
  }

  /** Frames only look at the generation and the checkpoint digest of the frontier. */
  lemma {:induction false} ReplayIgnoresPosition<S, D>(
    codec: Codec<S, D>, f: Frontier, g: Frontier, cursor: Cursor<S>, rest: bytes)
    requires f.generation == g.generation && f.checkpoint == g.checkpoint
    ensures Replay(codec, f, cursor, rest) == Replay(codec, g, cursor, rest)
    decreases |rest|
  {
    if rest != [] {
      var next := ReplayFrame(codec, f, cursor, rest);
      assert next == ReplayFrame(codec, g, cursor, rest);
      if next.Some? {
        ReplayIgnoresPosition(codec, f, g, next.value, rest[FRAME_OVERHEAD + FramePayloadLen(f, cursor, rest).value..]);
      }
    }
  }

  lemma ReplayNothing<S, D>(codec: Codec<S, D>, f: Frontier, cursor: Cursor<S>)
    ensures Replay(codec, f, cursor, []) == Some(cursor)
  {
  }

  /** Opening at the extended frontier applies exactly the appended delta to the state before. */
  lemma OpenedExtended<S, D>(
    codec: Codec<S, D>, f: Frontier, checkpointFile: bytes, journalFile: bytes, extended: bytes, payload: bytes)
    requires f.end + FRAME_OVERHEAD + |payload| < U64_LIMIT && f.sequence + 1 < U64_LIMIT
    requires Opened(codec, f, checkpointFile, journalFile).Some?
    requires |extended| >= f.end + FRAME_OVERHEAD + |payload|
    requires extended[..f.end + FRAME_OVERHEAD + |payload|]
             == journalFile[..f.end] + EncodeFrame(codec.sha, f, f.sequence + 1, f.digest, payload)
    ensures Opened(codec, Extended(codec.sha, f, payload), checkpointFile, extended)
            == ApplyPayload(codec, Opened(codec, f, checkpointFile, journalFile).value, payload)
  {
    hide Replay;
    hide EncodeFrame;
    hide SnapshotPayload;
    var g := Extended(codec.sha, f, payload);
    var frame := EncodeFrame(codec.sha, f, f.sequence + 1, f.digest, payload);
    var start := StartCursor(codec.sha, f, RestoredCheckpoint(codec, f, checkpointFile).value);
    var rest := journalFile[JOURNAL_HEADER_LEN..f.end];
    var final := Replay(codec, f, start, rest).value;
    assert extended[..g.end] == journalFile[..f.end] + frame;
    assert extended[..JOURNAL_HEADER_LEN] == extended[..g.end][..JOURNAL_HEADER_LEN]
           == journalFile[..f.end][..JOURNAL_HEADER_LEN] == journalFile[..JOURNAL_HEADER_LEN];
    assert extended[JOURNAL_HEADER_LEN..g.end] == extended[..g.end][JOURNAL_HEADER_LEN..] == rest + frame;
    ReplaySplit(codec, f, start, rest, frame);
    ReplayIgnoresPosition(codec, f, g, start, rest + frame);
    assert frame + [] == frame;
    ReplayCons(codec, f, final, payload, []);
    var applied := ApplyPayload(codec, final.state, payload);
    if applied.Some? { ReplayNothing(codec, f, Cursor(g.sequence, g.digest, applied.value)); }
  }
}
