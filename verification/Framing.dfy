/** The SSZ-snappy payload framing of request/response streams: the varint length prefix
    and the scanner that finds the end of the Snappy frames without decompressing them. */
module Framing {
  import opened Bytes

  const MAX_BLOCK: nat := 65536
  const STREAM_IDENTIFIER: bytes := [115, 78, 97, 80, 112, 89]

  /** The Snappy library: a raw block's declared output length, the worst-case compressed
      length, and decompression of a whole frame stream. */
  datatype Snappy = Snappy(
    decompressLen: bytes -> Option<nat>,
    maxCompressLen: nat -> nat,
    decode: bytes -> Option<bytes>)

  // ---- The length prefix ----

  datatype Prefix = More | Value(value: nat, length: nat) | Overflow

  function Varint(n: nat): (r: bytes)
    ensures |r| >= 1
  {
    if n < 128 then [n] else [128 + n % 128] + Varint(n / 128)
  }

  /** Decoding continued at byte `i`, whose seven bits weigh `weight`. */
  function VarintFrom(rest: bytes, i: nat, value: nat, weight: nat): Prefix
    decreases |rest|
  {
    if i >= 10 then Overflow
    else if rest == [] then More
    else if i == 9 && rest[0] > 1 then Overflow
    else
      var next := value + rest[0] % 128 * weight;
      if rest[0] < 128 then Value(next, i + 1) else VarintFrom(rest[1..], i + 1, next, weight * 128)
  }

  function DecodeVarint(b: bytes): Prefix {
    VarintFrom(b, 0, 0, 1)
  }

  /** The loop over at most ten bytes; seven bits each, the last one at most one bit. */
  method DecodeVarintPrefix(b: bytes) returns (r: Prefix)
    ensures r == DecodeVarint(b)
    ensures r.Value? ==> r.value < U64_LIMIT && 1 <= r.length <= 10 && r.length <= |b|
  {
    var value: nat, weight: nat := 0, 1;
    var i := 0;
    while i < |b| && i < 10
      invariant 0 <= i <= 10 && i <= |b|
      invariant VarintFrom(b[i..], i, value, weight) == DecodeVarint(b)
      invariant value < weight && (i <= 9 ==> weight * Pow128(9 - i) == Pow128(9))
    {
      assert b[i..][0] == b[i] && b[i..][1..] == b[i + 1..];
      if i == 9 && b[i] > 1 { return Overflow; }
      WeightFits(i, weight, b[i] % 128);
      value := value + b[i] % 128 * weight;
      if b[i] < 128 { return Value(value, i + 1); }
      weight := weight * 128;
      i := i + 1;
    }
    r := if |b| < 10 then More else Overflow;
  }

  function Pow128(n: nat): nat {
    if n == 0 then 1 else 128 * Pow128(n - 1)
  }

  lemma WeightFits(i: nat, weight: nat, bits: nat)
    requires i <= 9 && weight * Pow128(9 - i) == Pow128(9)
    requires bits < 128 && (i == 9 ==> bits <= 1)
    ensures bits * weight + weight <= U64_LIMIT
    ensures bits * weight + weight <= 128 * weight
    ensures i < 9 ==> weight * 128 * Pow128(9 - (i + 1)) == Pow128(9)
  {
    assert Pow128(9) == 0x8000_0000_0000_0000;
    if i == 9 {
      assert weight == Pow128(9);
    } else {
      var tail := Pow128(9 - (i + 1));
      assert Pow128(9 - i) == 128 * tail && tail >= 1;
      assert weight * 128 * tail == Pow128(9);
      assert weight * 128 <= weight * 128 * tail;
      assert bits * weight <= 127 * weight;
    }
  }

  lemma VarintSplit(n: nat, weight: nat)
    ensures n * weight == n / 128 * (weight * 128) + n % 128 * weight
    ensures n / 128 * (weight * 128) <= n * weight
  {
    var q, r := n / 128, n % 128;
    assert n == 128 * q + r;
    assert n * weight == (128 * q) * weight + r * weight;
    assert (128 * q) * weight == q * (weight * 128);
  }

  lemma {:induction false} VarintRoundTripFrom(n: nat, rest: bytes, i: nat, value: nat, weight: nat)
    requires i <= 9 && weight == Pow128(i) && n * weight < U64_LIMIT
    ensures VarintFrom(Varint(n) + rest, i, value, weight) == Value(value + n * weight, i + |Varint(n)|)
    decreases n
  {
    var b := Varint(n) + rest;
    Pow128Bound(n, i);
    if n >= 128 {
      var q := n / 128;
      assert b[0] == 128 + n % 128 && b[1..] == Varint(q) + rest;
      assert b[0] % 128 == n % 128;
      VarintSplit(n, weight);
      VarintRoundTripFrom(q, rest, i + 1, value + n % 128 * weight, weight * 128);
    }
  }

  lemma Pow128Bound(n: nat, i: nat)
    requires i <= 9 && n * Pow128(i) < U64_LIMIT
    ensures i == 9 ==> n < 2
  {
    assert Pow128(9) == 0x8000_0000_0000_0000;
  }

  /** Every u64 length survives encoding, whatever follows it. */
  lemma VarintRoundTrip(n: u64, rest: bytes)
    ensures DecodeVarint(Varint(n) + rest) == Value(n, |Varint(n)|)
  {
    VarintRoundTripFrom(n, rest, 0, 0, 1);
  }

  /** A decided prefix is decided by its own bytes. */
  lemma {:induction false} VarintStable(b: bytes, more: bytes, i: nat, value: nat, weight: nat)
    requires VarintFrom(b, i, value, weight) != More
    ensures VarintFrom(b + more, i, value, weight) == VarintFrom(b, i, value, weight)
    ensures var r := VarintFrom(b, i, value, weight); r.Value? ==> i < r.length <= i + |b|
    decreases |b|
  {
    if i < 10 && !(i == 9 && b[0] > 1) && b[0] >= 128 {
      assert (b + more)[1..] == b[1..] + more;
      VarintStable(b[1..], more, i + 1, value + b[0] % 128 * weight, weight * 128);
    }
  }

  /** Seven bits per byte, lowest first. */
  function Bits7(b: bytes): nat {
    if b == [] then 0 else b[0] % 128 + 128 * Bits7(b[1..])
  }

  /** Every byte but the last continues, and a tenth byte carries one bit at most. */
  predicate PrefixShape(b: bytes) {
    && 1 <= |b| <= 10 && b[|b| - 1] < 128 && (|b| == 10 ==> b[9] <= 1)
    && forall k :: 0 <= k < |b| - 1 ==> b[k] >= 128
  }

  lemma {:induction false} VarintMeaningFrom(b: bytes, i: nat, value: nat, weight: nat)
    requires VarintFrom(b, i, value, weight).Value?
    ensures var r := VarintFrom(b, i, value, weight);
            && i < r.length <= i + |b| && r.length <= 10
            && r.value == value + Bits7(b[..r.length - i]) * weight
            && b[r.length - i - 1] < 128 && (r.length == 10 ==> b[9 - i] <= 1)
            && forall k :: 0 <= k < r.length - i - 1 ==> b[k] >= 128
    decreases |b|
  {
    var r := VarintFrom(b, i, value, weight);
    if b[0] >= 128 {
      VarintMeaningFrom(b[1..], i + 1, value + b[0] % 128 * weight, weight * 128);
      var rest := Bits7(b[1..][..r.length - (i + 1)]);
      assert b[..r.length - i][1..] == b[1..][..r.length - (i + 1)];
      WeighBits(b[0] % 128, rest, weight);
      assert forall k :: 1 <= k < r.length - i - 1 ==> b[k] == b[1..][k - 1];
    } else {
      assert b[..1][1..] == [];
      assert Bits7(b[..1]) == b[0] % 128;
    }
  }

  lemma WeighBits(low: nat, rest: nat, weight: nat)
    ensures low * weight + rest * (weight * 128) == (low + 128 * rest) * weight
  {
  }

  /** A decoded prefix has the shape of one and means its bits. */
  lemma VarintMeaning(b: bytes)
    requires DecodeVarint(b).Value?
    ensures var r := DecodeVarint(b);
            && r.length <= |b| && PrefixShape(b[..r.length]) && r.value == Bits7(b[..r.length])
  {
    VarintMeaningFrom(b, 0, 0, 1);
  }

  // ---- Frames ----

  datatype FrameStep = NeedMore | BadFrame | Frame(end: nat, output: nat)

  /** Output bytes that a complete frame declares, or None when it must be rejected. */
  function FrameOutput(snappy: Snappy, kind: byte, body: bytes): Option<nat> {
    if kind == 0x00 then
      if |body| < 4 then None else snappy.decompressLen(body[4..])
    else if kind == 0x01 then
      if |body| < 4 then None else Some(|body| - 4)
    else if kind == 0xff then
      if body == STREAM_IDENTIFIER then Some(0) else None
    else if 0x80 <= kind then Some(0)
    else None
  }

  /** The frame starting at `offset`, for a payload of `declared` bytes of which `decoded` are accounted for. */
  function NextFrame(snappy: Snappy, declared: nat, prefix: nat, offset: nat, decoded: nat, b: bytes): (r: FrameStep)
    requires decoded <= declared
    ensures r.Frame? ==> offset + 4 <= r.end <= |b| && decoded + r.output <= declared
  {
    if |b| < offset + 4 then NeedMore
    else
      var length := FromLittleEndian(b[offset + 1..offset + 4]);
      var end := offset + 4 + length;
      if length > snappy.maxCompressLen(MAX_BLOCK) || end - prefix > snappy.maxCompressLen(declared)
         || (offset == prefix && b[offset] != 0xff)
      then BadFrame
      else if |b| < end then NeedMore
      else
        var output := FrameOutput(snappy, b[offset], b[offset + 4..end]);
        if output.None? || output.value > MAX_BLOCK || output.value > declared - decoded then BadFrame
        else Frame(end, output.value)
  }

  datatype Scan = Incomplete | Done(consumed: nat) | Rejected

  /** Scanner fields: the decoded header, the next frame's offset, the output bytes seen. */
  datatype State = State(header: Option<(nat, nat)>, offset: nat, decoded: nat)

  const START: State := State(None, 0, 0)

  ghost predicate StateOk(s: State) {
    s.header.Some? ==> s.decoded <= s.header.value.0
  }

  /** Frames from the current offset on, until the payload is complete or the bytes run out. */
  function Run(snappy: Snappy, s: State, b: bytes): (r: (State, Scan))
    requires s.header.Some? && StateOk(s)
    ensures r.0.header == s.header && StateOk(r.0)
    ensures r.1.Done? ==> r.1.consumed == r.0.offset
    ensures r.1 == Incomplete ==> r.0.decoded < s.header.value.0
    decreases |b| + 4 - s.offset
  {
    var (declared, prefix) := s.header.value;
    if s.decoded >= declared then (s, Done(s.offset))
    else
      match NextFrame(snappy, declared, prefix, s.offset, s.decoded, b)
      case NeedMore => (s, Incomplete)
      case BadFrame => (s, Rejected)
      case Frame(end, output) => Run(snappy, s.(offset := end, decoded := s.decoded + output), b)
  }

  lemma RunStep(snappy: Snappy, s: State, b: bytes)
    requires s.header.Some? && StateOk(s)
    ensures var (declared, prefix) := s.header.value;
            Run(snappy, s, b)
            == if s.decoded >= declared then (s, Done(s.offset))
               else match NextFrame(snappy, declared, prefix, s.offset, s.decoded, b)
                 case NeedMore => (s, Incomplete)
                 case BadFrame => (s, Rejected)
                 case Frame(end, output) => Run(snappy, s.(offset := end, decoded := s.decoded + output), b)
  {
  }

  /** One call of the incremental scanner. */
  function Advanced(snappy: Snappy, limit: nat, s: State, b: bytes): (r: (State, Scan))
    requires StateOk(s)
    ensures StateOk(r.0)
  {
    if s.header.Some? then Run(snappy, s, b)
    else
      match DecodeVarint(b)
      case More => (s, Incomplete)
      case Overflow => (s, Rejected)
      case Value(declared, length) =>
        if declared > limit then (s, Rejected)
        else Run(snappy, s.(header := Some((declared, length)), offset := length, decoded := 0), b)
  }

  /** Parsing all the bytes at once. */
  function OneShot(snappy: Snappy, limit: nat, b: bytes): Scan {
    Advanced(snappy, limit, START, b).1
  }

  // ---- Growing input ----

  lemma NextFrameStable(snappy: Snappy, declared: nat, prefix: nat, offset: nat, decoded: nat, b: bytes, more: bytes)
    requires decoded <= declared && NextFrame(snappy, declared, prefix, offset, decoded, b) != NeedMore
    ensures NextFrame(snappy, declared, prefix, offset, decoded, b + more)
            == NextFrame(snappy, declared, prefix, offset, decoded, b)
  {
    var c := b + more;
    assert c[offset + 1..offset + 4] == b[offset + 1..offset + 4];
    var end := offset + 4 + FromLittleEndian(b[offset + 1..offset + 4]);
    if end <= |b| {
      assert c[offset + 4..end] == b[offset + 4..end];
    }
  }

  /** Stopping for lack of bytes and resuming on more is the same as not stopping;
      a decided scan is not changed by more bytes. */
  lemma {:induction false} RunResumes(snappy: Snappy, s: State, b: bytes, more: bytes)
    requires s.header.Some? && StateOk(s)
    ensures var (t, r) := Run(snappy, s, b);
            Run(snappy, s, b + more) == if r == Incomplete then Run(snappy, t, b + more) else (t, r)
    decreases |b| + 4 - s.offset
  {
    hide NextFrame;
    var (declared, prefix) := s.header.value;
    if s.decoded < declared {
      var step := NextFrame(snappy, declared, prefix, s.offset, s.decoded, b);
      if step != NeedMore {
        NextFrameStable(snappy, declared, prefix, s.offset, s.decoded, b, more);
        if step.Frame? {
          RunResumes(snappy, s.(offset := step.end, decoded := s.decoded + step.output), b, more);
        }
      }
    }
  }

  lemma AdvancedResumes(snappy: Snappy, limit: nat, s: State, b: bytes, more: bytes)
    requires StateOk(s)
    ensures var (t, r) := Advanced(snappy, limit, s, b);
            Advanced(snappy, limit, s, b + more)
            == if r == Incomplete then Advanced(snappy, limit, t, b + more) else (t, r)
  {
    hide Run;
    hide VarintFrom;
    if s.header.Some? {
      RunResumes(snappy, s, b, more);
    } else if DecodeVarint(b) != More {
      VarintStable(b, more, 0, 0, 1);
      if DecodeVarint(b).Value? && DecodeVarint(b).value <= limit {
        var Value(declared, prefix) := DecodeVarint(b);
        RunResumes(snappy, s.(header := Some((declared, prefix)), offset := prefix, decoded := 0), b, more);
      }
    }
  }

  ghost predicate Growing(inputs: seq<bytes>) {
    forall i :: 0 < i < |inputs| ==> inputs[i - 1] <= inputs[i]
  }

  /** Feed ever longer prefixes, stopping at the first decision. */
  function Feed(snappy: Snappy, limit: nat, s: State, inputs: seq<bytes>): Scan
    requires StateOk(s)
    decreases |inputs|
  {
    if inputs == [] then Incomplete
    else
      var (t, r) := Advanced(snappy, limit, s, inputs[0]);
      if r != Incomplete || |inputs| == 1 then r else Feed(snappy, limit, t, inputs[1..])
  }

  /** However the bytes arrive, the scanner decides what one parse of all of them decides. */
  lemma {:induction false} FeedIsOneShot(snappy: Snappy, limit: nat, s: State, inputs: seq<bytes>)
    requires StateOk(s) && inputs != [] && Growing(inputs)
    ensures Feed(snappy, limit, s, inputs) == Advanced(snappy, limit, s, inputs[|inputs| - 1]).1
    decreases |inputs|
  {
    hide Advanced;
    var last := inputs[|inputs| - 1];
    LastIsLongest(inputs);
    AdvancedResumes(snappy, limit, s, inputs[0], last[|inputs[0]|..]);
    assert inputs[0] + last[|inputs[0]|..] == last;
    if |inputs| > 1 {
      var (t, r) := Advanced(snappy, limit, s, inputs[0]);
      if r == Incomplete {
        assert StateOk(t);
        FeedIsOneShot(snappy, limit, t, inputs[1..]);
      }
    }
  }

  lemma {:induction false} LastIsLongest(inputs: seq<bytes>)
    requires inputs != [] && Growing(inputs)
    ensures inputs[0] <= inputs[|inputs| - 1]
    decreases |inputs|
  {
    if |inputs| > 1 {
      assert inputs[1 - 1] <= inputs[1];
      LastIsLongest(inputs[1..]);
    }
  }

  /** Trailing bytes never alter a completed or rejected parse. */
  lemma TrailingBytesIgnored(snappy: Snappy, limit: nat, b: bytes, more: bytes)
    requires OneShot(snappy, limit, b) != Incomplete
    ensures OneShot(snappy, limit, b + more) == OneShot(snappy, limit, b)
  {
    AdvancedResumes(snappy, limit, START, b, more);
  }

  // ---- What a completed scan means ----

  /** Output declared by a byte string that is whole frames and nothing else. */
  function FramesOutput(snappy: Snappy, b: bytes): Option<nat>
    decreases |b|
  {
    if b == [] then Some(0)
    else if |b| < 4 then None
    else
      var end := 4 + FromLittleEndian(b[1..4]);
      if |b| < end then None
      else
        var output, rest := FrameOutput(snappy, b[0], b[4..end]), FramesOutput(snappy, b[end..]);
        if output.None? || rest.None? then None else Some(output.value + rest.value)
  }

  lemma FramesOutputStep(snappy: Snappy, declared: nat, prefix: nat, offset: nat, decoded: nat, b: bytes, n: nat)
    requires decoded <= declared && NextFrame(snappy, declared, prefix, offset, decoded, b).Frame?
    requires NextFrame(snappy, declared, prefix, offset, decoded, b).end <= n <= |b|
    ensures var step := NextFrame(snappy, declared, prefix, offset, decoded, b);
            var rest := FramesOutput(snappy, b[step.end..n]);
            && step.end - prefix <= snappy.maxCompressLen(declared)
            && (offset == prefix ==> b[offset] == 0xff)
            && FramesOutput(snappy, b[offset..n]) == if rest.None? then None else Some(step.output + rest.value)
  {
    hide FrameOutput;
    hide FromLittleEndian;
    var step := NextFrame(snappy, declared, prefix, offset, decoded, b);
    var region := b[offset..n];
    SliceOfSlice(b, offset, n, 1, 4);
    SliceOfSlice(b, offset, n, 4, step.end - offset);
    SliceOfSlice(b, offset, n, step.end - offset, n - offset);
    assert region[step.end - offset..] == region[step.end - offset..n - offset];
    assert region[0] == b[offset];
  }

  /** A completed scan consumed whole frames whose declared outputs add up to what was missing. */
  lemma {:induction false} ScannedIsFramed(snappy: Snappy, s: State, b: bytes)
    requires s.header.Some? && StateOk(s) && s.offset <= |b| && Run(snappy, s, b).1.Done?
    ensures var n := Run(snappy, s, b).1.consumed;
            && s.offset <= n <= |b|
            && FramesOutput(snappy, b[s.offset..n]) == Some(s.header.value.0 - s.decoded)
            && (s.decoded < s.header.value.0 ==> n - s.header.value.1 <= snappy.maxCompressLen(s.header.value.0))
            && (s.offset == s.header.value.1 && s.decoded < s.header.value.0 ==> b[s.offset] == 0xff)
    decreases |b| + 4 - s.offset
  {
    hide NextFrame;
    hide Run;
    hide FramesOutput;
    RunStep(snappy, s, b);
    var (declared, prefix) := s.header.value;
    if s.decoded < declared {
      var step := NextFrame(snappy, declared, prefix, s.offset, s.decoded, b);
      var t := s.(offset := step.end, decoded := s.decoded + step.output);
      ScannedIsFramed(snappy, t, b);
      var n := Run(snappy, s, b).1.consumed;
      FramesOutputStep(snappy, declared, prefix, s.offset, s.decoded, b, n);
      if t.decoded == declared { RunStep(snappy, t, b); }
    } else {
      assert b[s.offset..s.offset] == [];
      NoFrames(snappy);
    }
  }

  lemma NoFrames(snappy: Snappy)
    ensures FramesOutput(snappy, []) == Some(0)
  {
  }

  // ---- What the encoder emits ----

  /** A data frame: a four-byte checksum, then `data` as it is or compressed. */
  datatype DataFrame = DataFrame(kind: byte, body: bytes, data: bytes)

  predicate DataFrameOk(snappy: Snappy, f: DataFrame) {
    && 4 <= |f.body| <= snappy.maxCompressLen(MAX_BLOCK) && |f.body| < 0x100_0000
    && 0 < |f.data| <= MAX_BLOCK
    && (|| (f.kind == 0x01 && f.body[4..] == f.data)
        || (f.kind == 0x00 && snappy.decompressLen(f.body[4..]) == Some(|f.data|)))
  }

  function FrameBytes(kind: byte, body: bytes): bytes {
    [kind] + LittleEndian(|body|, 3) + body
  }

  function StreamBytes(frames: seq<DataFrame>): bytes {
    if frames == [] then [] else FrameBytes(frames[0].kind, frames[0].body) + StreamBytes(frames[1..])
  }

  function DataLen(frames: seq<DataFrame>): nat {
    if frames == [] then 0 else |frames[0].data| + DataLen(frames[1..])
  }

  /** The frame encoder: nothing for an empty payload, else the identifier and data frames. */
  function Compressed(frames: seq<DataFrame>): bytes {
    if frames == [] then [] else FrameBytes(0xff, STREAM_IDENTIFIER) + StreamBytes(frames)
  }

  /** The library frames this payload correctly and within its own worst-case bound. */
  ghost predicate FramesCorrectly(snappy: Snappy, frames: seq<DataFrame>, payload: bytes) {
    && DataLen(frames) == |payload| && (forall i :: 0 <= i < |frames| ==> DataFrameOk(snappy, frames[i]))
    && |Compressed(frames)| <= snappy.maxCompressLen(|payload|)
    && 6 <= snappy.maxCompressLen(MAX_BLOCK)
    && snappy.decode(Compressed(frames)) == Some(payload)
  }

  function EncodedPayload(frames: seq<DataFrame>, payload: bytes): bytes {
    Varint(|payload|) + Compressed(frames)
  }

  /** A frame laid out at `offset` is recognised there. */
  lemma FrameAt(
    snappy: Snappy, declared: nat, prefix: nat, offset: nat, decoded: nat, b: bytes, kind: byte, body: bytes)
    requires decoded <= declared && prefix <= offset
    requires |body| < 0x100_0000 && |body| <= snappy.maxCompressLen(MAX_BLOCK)
    requires offset + 4 + |body| <= |b| && b[offset..offset + 4 + |body|] == FrameBytes(kind, body)
    requires offset + 4 + |body| - prefix <= snappy.maxCompressLen(declared)
    requires offset == prefix ==> kind == 0xff
    ensures NextFrame(snappy, declared, prefix, offset, decoded, b)
            == var output := FrameOutput(snappy, kind, body);
               if output.None? || output.value > MAX_BLOCK || output.value > declared - decoded then BadFrame
               else Frame(offset + 4 + |body|, output.value)
  {
    hide FrameOutput;
    hide LittleEndian;
    hide FromLittleEndian;
    var f := FrameBytes(kind, body);
    var whole := b[offset..offset + 4 + |body|];
    assert b[offset] == whole[0] == f[0] == kind;
    SliceOfSlice(b, offset, offset + 4 + |body|, 1, 4);
    assert f[1..4] == LittleEndian(|body|, 3);
    assert Pow256(3) == 0x100_0000;
    LittleEndianRoundTrip(|body|, 3);
    SliceOfSlice(b, offset, offset + 4 + |body|, 4, 4 + |body|);
    assert whole[4..4 + |body|] == f[4..];
    assert f[4..] == body;
  }

  lemma {:induction false} RunOverFrames(snappy: Snappy, s: State, b: bytes, frames: seq<DataFrame>)
    requires s.header.Some? && s.header.value.1 < s.offset
    requires s.decoded + DataLen(frames) == s.header.value.0
    requires forall i :: 0 <= i < |frames| ==> DataFrameOk(snappy, frames[i])
    requires s.offset <= |b| && StreamBytes(frames) <= b[s.offset..]
    requires s.offset + |StreamBytes(frames)| - s.header.value.1 <= snappy.maxCompressLen(s.header.value.0)
    ensures var end := s.offset + |StreamBytes(frames)|;
            Run(snappy, s, b) == (s.(offset := end, decoded := s.header.value.0), Done(end))
    decreases |frames|
  {
    hide NextFrame;
    hide Run;
    hide FrameBytes;
    RunStep(snappy, s, b);
    if frames != [] {
      var (declared, prefix) := s.header.value;
      var f, first, rest := frames[0], FrameBytes(frames[0].kind, frames[0].body), StreamBytes(frames[1..]);
      FrameSize(f.kind, f.body);
      assert StreamBytes(frames) == first + rest;
      assert b[s.offset..][..|first| + |rest|] == first + rest;
      assert b[s.offset..s.offset + |first|] == first;
      assert DataFrameOk(snappy, f);
      FrameAt(snappy, declared, prefix, s.offset, s.decoded, b, f.kind, f.body);
      var t := s.(offset := s.offset + |first|, decoded := s.decoded + |f.data|);
      assert b[t.offset..] == b[s.offset..][|first|..];
      RunOverFrames(snappy, t, b, frames[1..]);
    }
  }

  lemma FrameSize(kind: byte, body: bytes)
    ensures |FrameBytes(kind, body)| == 4 + |body|
  {
  }

  /** Whatever follows it on the stream, an encoded payload is scanned to exactly its own end. */
  lemma EncodedIsScanned(snappy: Snappy, limit: nat, frames: seq<DataFrame>, payload: bytes, rest: bytes)
    requires FramesCorrectly(snappy, frames, payload) && |payload| <= limit && |payload| < U64_LIMIT
    ensures var end := |EncodedPayload(frames, payload)|;
            Advanced(snappy, limit, START, EncodedPayload(frames, payload) + rest)
            == (State(Some((|payload|, |Varint(|payload|)|)), end, |payload|), Done(end))
  {
    hide VarintFrom;
    hide Varint;
    hide NextFrame;
    hide Run;
    hide FrameBytes;
    hide StreamBytes;
    hide DataLen;
    var p := |Varint(|payload|)|;
    var b := EncodedPayload(frames, payload) + rest;
    assert b == Varint(|payload|) + (Compressed(frames) + rest);
    VarintRoundTrip(|payload|, Compressed(frames) + rest);
    var s := State(Some((|payload|, p)), p, 0);
    EncodedRuns(snappy, frames, payload, b, p);
  }

  lemma EncodedRuns(snappy: Snappy, frames: seq<DataFrame>, payload: bytes, b: bytes, p: nat)
    requires FramesCorrectly(snappy, frames, payload) && p <= |b| && Compressed(frames) <= b[p..]
    ensures var end := p + |Compressed(frames)|;
            Run(snappy, State(Some((|payload|, p)), p, 0), b)
            == (State(Some((|payload|, p)), end, |payload|), Done(end))
  {
    hide NextFrame;
    hide Run;
    hide FrameBytes;
    hide StreamBytes;
    var s := State(Some((|payload|, p)), p, 0);
    RunStep(snappy, s, b);
    if frames == [] {
      assert DataLen(frames) == 0;
    } else {
      var first, stream := FrameBytes(0xff, STREAM_IDENTIFIER), StreamBytes(frames);
      FrameSize(0xff, STREAM_IDENTIFIER);
      assert b[p..][..|first| + |stream|] == first + stream;
      assert b[p..p + |first|] == first;
      assert DataFrameOk(snappy, frames[0]) && |payload| > 0;
      FrameAt(snappy, |payload|, p, p, 0, b, 0xff, STREAM_IDENTIFIER);
      assert b[p + |first|..] == b[p..][|first|..];
      RunOverFrames(snappy, s.(offset := p + |first|), b, frames);
    }
  }

  /** The scanner object. */
  class Scanner {
    var header: Option<(nat, nat)>
    var offset: nat
    var decodedLen: nat

    function View(): State
      reads this
    {
      State(header, offset, decodedLen)
    }

    constructor ()
      ensures View() == START
    {
      header, offset, decodedLen := None, 0, 0;
    }

    method Advance(snappy: Snappy, b: bytes, limit: nat) returns (r: Scan)
      requires StateOk(View())
      modifies this
      ensures (View(), r) == Advanced(snappy, limit, old(View()), b)
    {
      hide VarintFrom;
      hide Run;
      if header.None? {
        var prefix := DecodeVarintPrefix(b);
        if prefix.More? { return Incomplete; }
        if prefix.Overflow? || prefix.value > limit { return Rejected; }
        header, offset, decodedLen := Some((prefix.value, prefix.length)), prefix.length, 0;
      }
      r := AdvanceFrames(snappy, b);
    }

    method AdvanceFrames(snappy: Snappy, b: bytes) returns (r: Scan)
      requires header.Some? && StateOk(View())
      modifies this
      ensures (View(), r) == Run(snappy, old(View()), b)
    {
      hide Run;
      hide NextFrame;
      var (declared, prefixLen) := header.value;
      while decodedLen < declared
        invariant header == Some((declared, prefixLen)) && decodedLen <= declared
        invariant Run(snappy, View(), b) == Run(snappy, old(View()), b)
        decreases |b| + 4 - offset
      {
        RunStep(snappy, View(), b);
        var step := ScanFrame(snappy, b, declared, prefixLen);
        if step.NeedMore? { return Incomplete; }
        if step.BadFrame? { return Rejected; }
        decodedLen := decodedLen + step.output;
        offset := step.end;
      }
      RunStep(snappy, View(), b);
      r := Done(offset);
    }

    /** Header checks come before the body is needed. */
    method ScanFrame(snappy: Snappy, b: bytes, declared: nat, prefixLen: nat) returns (r: FrameStep)
      requires decodedLen <= declared
      ensures r == NextFrame(snappy, declared, prefixLen, offset, decodedLen, b)
    {
      if |b| < offset + 4 { return NeedMore; }
      var kind := b[offset];
      var length := FromLittleEndian(b[offset + 1..offset + 4]);
      if length > snappy.maxCompressLen(MAX_BLOCK) { return BadFrame; }
      var end := offset + 4 + length;
      if end - prefixLen > snappy.maxCompressLen(declared) { return BadFrame; }
      if offset == prefixLen && kind != 0xff { return BadFrame; }
      if |b| < end { return NeedMore; }
      var output := FrameOutput(snappy, kind, b[offset + 4..end]);
      if output.None? || output.value > MAX_BLOCK || output.value > declared - decodedLen { return BadFrame; }
      r := Frame(end, output.value);
    }
  }
}
