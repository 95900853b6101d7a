/** Which frames a scan takes, skips or rejects, by their kind: the frame grammar, and the effect of a
    skippable or an unknown frame on a whole scan. */
module FrameKinds {
  import opened Bytes
  import opened Framing

  /** Bytes that a well-formed frame adds to the payload: none for the stream identifier and for the
      skippable kinds, and the data of a compressed or an uncompressed frame behind its checksum. */
  ghost predicate Adds(snappy: Snappy, kind: byte, body: bytes, n: nat) {
    || (kind == 0xff && body == [0x73, 0x4e, 0x61, 0x50, 0x70, 0x59] && n == 0)
    || (0x80 <= kind <= 0xfe && n == 0)
    || (kind == 0x01 && |body| == 4 + n)
    || (kind == 0x00 && |body| >= 4 && snappy.decompressLen(body[4..]) == Some(n))
  }

  /** A whole frame at the scanner's offset is taken exactly when it is small enough, inside the wire
      bound, the identifier if it is the first, and adds at most one block and what is still missing. */
  lemma FrameVerdict(
    snappy: Snappy, declared: nat, prefix: nat, offset: nat, decoded: nat, b: bytes, kind: byte, body: bytes, n: nat)
    requires decoded <= declared && prefix <= offset && |body| < 0x100_0000
    requires offset + 4 + |body| <= |b| && b[offset..offset + 4 + |body|] == FrameBytes(kind, body)
    ensures NextFrame(snappy, declared, prefix, offset, decoded, b) == Frame(offset + 4 + |body|, n) <==>
              && |body| <= snappy.maxCompressLen(65536)
              && offset + 4 + |body| - prefix <= snappy.maxCompressLen(declared)
              && (offset == prefix ==> kind == 0xff)
              && Adds(snappy, kind, body, n) && n <= 65536 && decoded + n <= declared
    ensures NextFrame(snappy, declared, prefix, offset, decoded, b) != NeedMore
  {
    hide LittleEndian;
    hide FromLittleEndian;
    var f := FrameBytes(kind, body);
    var whole := b[offset..offset + 4 + |body|];
    assert b[offset] == whole[0] == f[0] == kind;
    SliceOfSlice(b, offset, offset + 4 + |body|, 1, 4);
    assert f[1..4] == LittleEndian(|body|, 3);
    assert Pow256(3) == 0x100_0000;
    LittleEndianRoundTrip(|body|, 3);
    SliceOfSlice(b, offset, offset + 4 + |body|, 4, 4 + |body|);
    assert whole[4..4 + |body|] == f[4..];
    assert f[4..] == body;
  }

  // ---- A frame inserted into a stream ----

  /** The bytes from `offset` on stand `k` further in `c`. */
  ghost predicate Shifted(b: bytes, c: bytes, offset: nat, k: nat) {
    offset <= |b| && |c| == |b| + k && b[offset..] == c[offset + k..]
  }

  lemma ShiftedFrame(
    snappy: Snappy, declared: nat, prefix: nat, offset: nat, decoded: nat, b: bytes, c: bytes, k: nat)
    requires decoded <= declared && prefix < offset && Shifted(b, c, offset, k)
    ensures var f := NextFrame(snappy, declared, prefix, offset, decoded, b);
            var g := NextFrame(snappy, declared, prefix, offset + k, decoded, c);
            && (g.Frame? ==> g.end >= k && f == Frame(g.end - k, g.output))
            && (g.Frame? ==> g.end - prefix <= snappy.maxCompressLen(declared))
            && (f.Frame? && f.end + k - prefix <= snappy.maxCompressLen(declared) ==> g == Frame(f.end + k, f.output))
            && (f == BadFrame ==> g == BadFrame) && (f.Frame? ==> g != NeedMore)
  {
    hide FrameOutput;
    hide FromLittleEndian;
    if |b| >= offset + 4 {
      ShiftedSlice(b, c, offset, k, offset + 1, offset + 4);
      assert b[offset] == b[offset..][0] == c[offset + k..][0] == c[offset + k];
      var end := offset + 4 + FromLittleEndian(b[offset + 1..offset + 4]);
      if end <= |b| { ShiftedSlice(b, c, offset, k, offset + 4, end); }
    }
  }

  lemma ShiftedSlice(b: bytes, c: bytes, offset: nat, k: nat, lo: nat, hi: nat)
    requires Shifted(b, c, offset, k) && offset <= lo <= hi <= |b|
    ensures b[lo..hi] == c[lo + k..hi + k]
  {
    forall i | 0 <= i < hi - lo
      ensures b[lo..hi][i] == c[lo + k..hi + k][i]
    {
      assert b[lo + i] == b[offset..][lo + i - offset] == c[offset + k..][lo + i - offset] == c[lo + k + i];
    }
  }

  lemma ShiftedLater(b: bytes, c: bytes, offset: nat, k: nat, later: nat)
    requires Shifted(b, c, offset, k) && offset <= later <= |b|
    ensures Shifted(b, c, later, k)
  {
    ShiftedSlice(b, c, offset, k, later, |b|);
    assert b[later..] == b[later..|b|] && c[later + k..] == c[later + k..|b| + k];
  }

  /** The rest of a scan, with everything `k` bytes further: it completes there exactly when it completed
      before and still fits the wire bound, and a rejection stays one. */
  lemma {:induction false} ShiftedRun(snappy: Snappy, s: State, b: bytes, c: bytes, k: nat, n: nat)
    requires s.header.Some? && StateOk(s) && s.header.value.1 < s.offset && Shifted(b, c, s.offset, k)
    ensures var (declared, prefix) := s.header.value;
            var t := s.(offset := s.offset + k);
            && (s.decoded < declared ==>
                  (Run(snappy, t, c).1 == Done(n + k) <==>
                     Run(snappy, s, b).1 == Done(n) && n + k - prefix <= snappy.maxCompressLen(declared)))
            && (Run(snappy, s, b).1 == Rejected ==> Run(snappy, t, c).1 == Rejected)
    decreases |b| + 4 - s.offset
  {
    hide NextFrame;
    hide Run;
    var (declared, prefix) := s.header.value;
    var t := s.(offset := s.offset + k);
    RunStep(snappy, s, b);
    RunStep(snappy, t, c);
    if s.decoded < declared {
      ShiftedFrame(snappy, declared, prefix, s.offset, s.decoded, b, c, k);
      var f := NextFrame(snappy, declared, prefix, s.offset, s.decoded, b);
      var g := NextFrame(snappy, declared, prefix, t.offset, t.decoded, c);
      if f.Frame? {
        var s' := s.(offset := f.end, decoded := s.decoded + f.output);
        var t' := t.(offset := f.end + k, decoded := s.decoded + f.output);
        assert s'.(offset := s'.offset + k) == t';
        ShiftedLater(b, c, s.offset, k, f.end);
        ShiftedRun(snappy, s', b, c, k, n);
        RunStep(snappy, s', b);
        RunStep(snappy, t', c);
        if !g.Frame? { ConsumedBeyond(snappy, s', b); }
      }
    }
  }

  lemma ConsumedBeyond(snappy: Snappy, s: State, b: bytes)
    requires s.header.Some? && StateOk(s)
    ensures Run(snappy, s, b).1.Done? ==> s.offset <= Run(snappy, s, b).1.consumed
    decreases |b| + 4 - s.offset
  {
    hide NextFrame;
    var (declared, prefix) := s.header.value;
    if s.decoded < declared {
      var step := NextFrame(snappy, declared, prefix, s.offset, s.decoded, b);
      if step.Frame? { ConsumedBeyond(snappy, s.(offset := step.end, decoded := s.decoded + step.output), b); }
    }
  }

  /** `x` is a prefix, the stream identifier and further whole frames of an unfinished payload. */
  ghost predicate Boundary(snappy: Snappy, limit: nat, x: bytes) {
    var (s, r) := Advanced(snappy, limit, START, x);
    r == Incomplete && s.header.Some? && s.header.value.1 < s.offset == |x|
  }

  lemma BoundaryState(snappy: Snappy, limit: nat, x: bytes, y: bytes)
    requires Boundary(snappy, limit, x)
    ensures var s := Advanced(snappy, limit, START, x).0;
            && StateOk(s) && s.decoded < s.header.value.0
            && Advanced(snappy, limit, START, x + y) == Run(snappy, s, x + y)
  {
    hide Run;
    hide VarintFrom;
    AdvancedResumes(snappy, limit, START, x, y);
  }

  /** A skippable frame between two frames adds nothing: the scan completes with it exactly when it
      completes without it and the longer stream fits the wire bound, and a rejection stays one. */
  lemma SkippableIsSkipped(
    snappy: Snappy, limit: nat, x: bytes, kind: byte, body: bytes, y: bytes, n: nat)
    requires Boundary(snappy, limit, x) && 0x80 <= kind <= 0xfe
    requires |body| < 0x100_0000 && |body| <= snappy.maxCompressLen(65536)
    ensures var (declared, prefix) := Advanced(snappy, limit, START, x).0.header.value;
            var k := 4 + |body|;
            var longer := x + FrameBytes(kind, body) + y;
            && (OneShot(snappy, limit, longer) == Done(n + k) <==>
                  && OneShot(snappy, limit, x + y) == Done(n)
                  && n + k - prefix <= snappy.maxCompressLen(declared))
            && (OneShot(snappy, limit, x + y) == Rejected ==> OneShot(snappy, limit, longer) == Rejected)
  {
    hide Run;
    hide NextFrame;
    hide VarintFrom;
    hide FrameBytes;
    hide Advanced;
    var s := Advanced(snappy, limit, START, x).0;
    var (declared, prefix) := s.header.value;
    var frame := FrameBytes(kind, body);
    FrameSize(kind, body);
    var b, c, k := x + y, x + frame + y, 4 + |body|;
    BoundaryState(snappy, limit, x, y);
    BoundaryState(snappy, limit, x, frame + y);
    assert x + (frame + y) == c;
    assert c[|x|..|x| + k] == frame;
    FrameVerdict(snappy, declared, prefix, |x|, s.decoded, c, kind, body, 0);
    OtherOutputs(snappy, declared, prefix, |x|, s.decoded, c, kind, body);
    RunStep(snappy, s, c);
    assert b[|x|..] == y == c[|x| + k..];
    ShiftedRun(snappy, s, b, c, k, n);
    ConsumedBeyond(snappy, s, b);
  }

  lemma OtherOutputs(
    snappy: Snappy, declared: nat, prefix: nat, offset: nat, decoded: nat, b: bytes, kind: byte, body: bytes)
    requires decoded <= declared && prefix <= offset && |body| < 0x100_0000 && 0x80 <= kind <= 0xfe
    requires offset + 4 + |body| <= |b| && b[offset..offset + 4 + |body|] == FrameBytes(kind, body)
    ensures var step := NextFrame(snappy, declared, prefix, offset, decoded, b);
            step == BadFrame || step == Frame(offset + 4 + |body|, 0)
  {
    hide NextFrame;
    FrameEnds(snappy, declared, prefix, offset, decoded, b, kind, body);
    var step := NextFrame(snappy, declared, prefix, offset, decoded, b);
    FrameVerdict(snappy, declared, prefix, offset, decoded, b, kind, body, if step.Frame? then step.output else 0);
  }

  lemma FrameEnds(
    snappy: Snappy, declared: nat, prefix: nat, offset: nat, decoded: nat, b: bytes, kind: byte, body: bytes)
    requires decoded <= declared && prefix <= offset && |body| < 0x100_0000
    requires offset + 4 + |body| <= |b| && b[offset..offset + 4 + |body|] == FrameBytes(kind, body)
    ensures var step := NextFrame(snappy, declared, prefix, offset, decoded, b);
            step != NeedMore && (step.Frame? ==> step.end == offset + 4 + |body|)
  {
    hide LittleEndian;
    hide FromLittleEndian;
    hide FrameOutput;
    var f := FrameBytes(kind, body);
    SliceOfSlice(b, offset, offset + 4 + |body|, 1, 4);
    assert f[1..4] == LittleEndian(|body|, 3);
    assert Pow256(3) == 0x100_0000;
    LittleEndianRoundTrip(|body|, 3);
  }

  /** A reserved kind that may not be skipped rejects the payload, whatever follows. */
  lemma UnknownIsRejected(snappy: Snappy, limit: nat, x: bytes, kind: byte, body: bytes, y: bytes)
    requires Boundary(snappy, limit, x) && 0x02 <= kind <= 0x7f && |body| < 0x100_0000
    ensures OneShot(snappy, limit, x + FrameBytes(kind, body) + y) == Rejected
  {
    hide Run;
    hide NextFrame;
    hide VarintFrom;
    hide FrameBytes;
    hide Advanced;
    var s := Advanced(snappy, limit, START, x).0;
    var (declared, prefix) := s.header.value;
    var frame := FrameBytes(kind, body);
    FrameSize(kind, body);
    var c := x + frame + y;
    BoundaryState(snappy, limit, x, frame + y);
    assert x + (frame + y) == c;
    assert c[|x|..|x| + 4 + |body|] == frame;
    FrameEnds(snappy, declared, prefix, |x|, s.decoded, c, kind, body);
    var step := NextFrame(snappy, declared, prefix, |x|, s.decoded, c);
    FrameVerdict(snappy, declared, prefix, |x|, s.decoded, c, kind, body, if step.Frame? then step.output else 0);
    RunStep(snappy, s, c);
  }
}
