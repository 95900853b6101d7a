/** Where every field of the journal's files lies, byte by byte, and which bounds CURRENT must meet. */
module JournalLayout {
  import opened Bytes
  import opened JournalFormat

  /** Numbers take eight bytes, lowest first. */
  lemma NumberLayout(n: u64)
    ensures var b := EncodeU64(n);
            && |b| == 8
            && n as int == Word(b[..4]) + 0x1_0000_0000 * Word(b[4..])
  {
    Pow256Of8();
    LittleEndianRoundTrip(n, 8);
    var b := EncodeU64(n);
    Shift(b);
    Shift(b[1..]);
    Shift(b[2..]);
    Shift(b[3..]);
    FourBytes(b[4..]);
    assert b[1..][1..] == b[2..] && b[2..][1..] == b[3..] && b[3..][1..] == b[4..];
  }

  /** The number that four bytes spell. */
  function Word(b: bytes): int
    requires |b| == 4
  {
    b[0] as int + 0x100 * (b[1] as int) + 0x1_0000 * (b[2] as int) + 0x100_0000 * (b[3] as int)
  }

  lemma Shift(b: bytes)
    requires b != []
    ensures FromLittleEndian(b) == b[0] as int + 256 * FromLittleEndian(b[1..])
  {
  }

  lemma FourBytes(b: bytes)
    requires |b| == 4
    ensures FromLittleEndian(b) == Word(b)
  {
    Shift(b);
    Shift(b[1..]);
    Shift(b[2..]);
    Shift(b[3..]);
    assert b[1..][1..] == b[2..] && b[2..][1..] == b[3..] && b[3..][1..] == [];
  }

  /** CURRENT: "LXCLHD01", generation, checkpoint sequence, length and digest, committed end, sequence and
      digest, then the checksum of everything before it. */
  lemma CurrentLayout(sha: bytes -> B256, f: Frontier)
    ensures var b := EncodeFrontier(sha, f);
            && |b| == 152 && b[..8] == [76, 88, 67, 76, 72, 68, 48, 49]
            && b[8..24] == f.generation && b[24..32] == EncodeU64(f.checkpointSequence)
            && b[32..40] == EncodeU64(f.checkpoint.encodedLen) && b[40..72] == f.checkpoint.digest
            && b[72..80] == EncodeU64(f.end) && b[80..88] == EncodeU64(f.sequence) && b[88..120] == f.digest
            && b[120..] == sha(b[..120])
    ensures BoundaryOk(f) <==> f.end >= 104 && f.sequence >= f.checkpointSequence
  {
    hide EncodeU64;
    var b, body := EncodeFrontier(sha, f), FrontierBody(f);
    assert b[..120] == body && b[120..] == sha(body);
    assert body[..8] == CURRENT_MAGIC && body[8..72] == Identity(f) && body[72..120] == Position(f);
    IdentityLayout(f);
    PositionLayout(f);
    Within(b, 8, 72, Identity(f));
    Within(b, 72, 120, Position(f));
  }

  /** A slice of a slice, for a part of a file with a known content. */
  lemma Within(b: bytes, lo: nat, hi: nat, part: bytes)
    requires lo <= hi <= |b| && b[lo..hi] == part
    ensures forall i, j :: 0 <= i <= j <= |part| ==> b[lo + i..lo + j] == part[i..j]
  {
    forall i, j | 0 <= i <= j <= |part|
      ensures b[lo + i..lo + j] == part[i..j]
    {
      SliceOfSlice(b, lo, hi, i, j);
    }
  }

  lemma IdentityLayout(f: Frontier)
    ensures var b := Identity(f);
            && b[0..16] == f.generation && b[16..24] == EncodeU64(f.checkpointSequence)
            && b[24..32] == EncodeU64(f.checkpoint.encodedLen) && b[32..64] == f.checkpoint.digest
  {
    hide EncodeU64;
  }

  lemma PositionLayout(f: Frontier)
    ensures var b := Position(f);
            b[0..8] == EncodeU64(f.end) && b[8..16] == EncodeU64(f.sequence) && b[16..48] == f.digest
  {
    hide EncodeU64;
  }

  /** A checkpoint file: "LXCLSN01", the payload's length and checksum, and the payload. */
  lemma CheckpointLayout(sha: bytes -> B256, payload: bytes)
    requires |payload| + 48 < U64_LIMIT
    ensures var b := EncodeSnapshotFile(sha, payload);
            && |b| == 48 + |payload| && b[..8] == [76, 88, 67, 76, 83, 78, 48, 49]
            && b[8..16] == EncodeU64(|payload|) && b[16..48] == sha(payload) && b[48..] == payload
    ensures SnapshotIntegrity(sha, payload) == Integrity(|payload| + 48, sha(payload))
  {
    hide EncodeU64;
  }

  /** A journal: "LXCLJR01", the same identity as CURRENT, and the checksum of both; the digest chain
      starts from the checksum of this whole header. */
  lemma HeaderLayout(sha: bytes -> B256, f: Frontier)
    ensures var b := JournalHeader(sha, f);
            && |b| == 104 && b[..8] == [76, 88, 67, 76, 74, 82, 48, 49]
            && b[8..24] == f.generation && b[24..32] == EncodeU64(f.checkpointSequence)
            && b[32..40] == EncodeU64(f.checkpoint.encodedLen) && b[40..72] == f.checkpoint.digest
            && b[72..] == sha(b[..72]) && BaseDigest(sha, f) == sha(b)
  {
    hide EncodeU64;
    var b := JournalHeader(sha, f);
    assert b[..72] == HeaderPrefix(f) && b[8..72] == Identity(f);
    IdentityLayout(f);
    Within(b, 8, 72, Identity(f));
  }

  /** A frame: "LXCLDL01", generation, sequence, checkpoint digest, parent digest, payload length, payload,
      and the checksum of the first 96 bytes, the payload and its length, in that order. */
  lemma FrameLayout(sha: bytes -> B256, f: Frontier, sequence: u64, parent: B256, payload: bytes)
    requires |payload| < U64_LIMIT
    ensures var b := EncodeFrame(sha, f, sequence, parent, payload);
            && |b| == 136 + |payload| && b[..8] == [76, 88, 67, 76, 68, 76, 48, 49]
            && b[8..24] == f.generation && b[24..32] == EncodeU64(sequence)
            && b[32..64] == f.checkpoint.digest && b[64..96] == parent
            && b[96..104] == EncodeU64(|payload|) && b[104..104 + |payload|] == payload
            && b[104 + |payload|..] == sha(b[..96] + payload + b[96..104])
  {
    hide EncodeU64;
    var b, head := EncodeFrame(sha, f, sequence, parent, payload), FrameHead(f, sequence, parent);
    assert b[..96] == head && b[96..104] == EncodeU64(|payload|);
    assert head[..8] == FRAME_MAGIC && head[8..24] == f.generation && head[24..32] == EncodeU64(sequence);
    assert head[32..64] == f.checkpoint.digest && head[64..96] == parent;
    Within(b, 0, 96, head);
    assert b[0 + 8..0 + 24] == head[8..24] && b[0 + 24..0 + 32] == head[24..32];
    assert b[0 + 32..0 + 64] == head[32..64] && b[0 + 64..0 + 96] == head[64..96];
  }
}
