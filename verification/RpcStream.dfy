/** Multi-chunk response streams: the writer, the budgeted reader, and what they agree on. */
module RpcStream {
  import opened Bytes
  import opened Framing

  const SUCCESS_CODE: byte := 0
  const ERROR_MESSAGE_LIMIT: nat := 256
  const MAX_CHUNKS: nat := 128
  const MAX_WIRE: nat := 256 * 1024 * 1024

  /** What the reader and writer need to know of a protocol. */
  datatype Protocol = Protocol(hasContext: bool, multi: bool, payloadLimit: nat)

  type Context = c: bytes | |c| == 4 witness ZeroBytes(4)

  datatype Chunk = Chunk(context: Option<Context>, payload: bytes)

  function PayloadLimit(protocol: Protocol, code: byte): nat {
    if code == SUCCESS_CODE then protocol.payloadLimit else ERROR_MESSAGE_LIMIT
  }

  function ContextLen(protocol: Protocol, code: byte): nat {
    if code == SUCCESS_CODE && protocol.hasContext then 4 else 0
  }

  // ---- Reading one payload, as a function of the bytes on the wire ----

  /** Decompression must give exactly the declared number of bytes. */
  function DecodeScanned(snappy: Snappy, declared: nat, frames: bytes): Option<bytes> {
    match snappy.decode(frames)
    case None => None
    case Some(raw) => if |raw| == declared then Some(raw) else None
  }

  /** The payload at the start of `b` and the number of bytes it takes, within the wire allowance. */
  function PayloadAt(snappy: Snappy, limit: nat, budget: nat, allowance: nat, b: bytes): Option<(bytes, nat)> {
    var (s, r) := Advanced(snappy, limit, START, b);
    if !r.Done? || s.header.None? || r.consumed > allowance || r.consumed > |b| then None
    else
      var (declared, prefix) := s.header.value;
      if declared > budget || prefix > r.consumed then None
      else match DecodeScanned(snappy, declared, b[prefix..r.consumed])
        case None => None
        case Some(raw) => Some((raw, r.consumed))
  }

  /** A chunk after its result code: context if the protocol has one, then the payload. */
  function ChunkAt(snappy: Snappy, protocol: Protocol, code: byte, budget: nat, wire: nat, rest: bytes)
    : (r: Option<(Chunk, nat)>)
    ensures r.Some? ==> ContextLen(protocol, code) <= r.value.1 <= |rest| && wire + r.value.1 <= MAX_WIRE
  {
    var c := ContextLen(protocol, code);
    if wire + c > MAX_WIRE || |rest| < c then None
    else match PayloadAt(snappy, PayloadLimit(protocol, code), budget, MAX_WIRE - wire - c, rest[c..])
      case None => None
      case Some((raw, n)) => Some((Chunk(if c == 4 then Some(rest[..4]) else None, raw), c + n))
  }

  /** Bytes reserved for the payload at the start of `b`: prefix, largest compressed form and result.
      Nothing is reserved for a prefix that is refused. */
  function PayloadNeed(snappy: Snappy, limit: nat, budget: nat, allowance: nat, b: bytes): nat {
    var p := DecodeVarint(b);
    if !p.Value? || p.length > allowance || p.value > limit || p.value > budget then 0
    else p.length + snappy.maxCompressLen(p.value) + p.value
  }

  function ChunkNeed(snappy: Snappy, protocol: Protocol, code: byte, budget: nat, wire: nat, rest: bytes): nat {
    var c := ContextLen(protocol, code);
    if wire + c > MAX_WIRE || |rest| < c then 0
    else PayloadNeed(snappy, PayloadLimit(protocol, code), budget, MAX_WIRE - wire - c, rest[c..])
  }

  // ---- A whole response, as a function of the bytes on the wire ----

  datatype Response = Chunks(chunks: seq<Chunk>) | Single(chunk: Chunk) | ErrorReply(code: byte, message: bytes)

  function PayloadBytes(chunks: seq<Chunk>): nat {
    if chunks == [] then 0 else |chunks[0].payload| + PayloadBytes(chunks[1..])
  }

  /** Bytes that the receiver of a response keeps in memory. */
  function Retained(r: Response): nat {
    match r
    case Chunks(chunks) => PayloadBytes(chunks)
    case Single(chunk) => |chunk.payload|
    case ErrorReply(_, message) => |message|
  }

  /** The response that `rest` spells after `got` success chunks; an error reply replaces them. */
  function ResponseAt(
    snappy: Snappy, protocol: Protocol, maxChunks: nat, maxDecoded: nat, wire: nat, got: seq<Chunk>, rest: bytes)
    : Option<Response>
    decreases |rest|
  {
    if rest == [] then (if protocol.multi then Some(Chunks(got)) else None)
    else if wire >= MAX_WIRE then None
    else if rest[0] != SUCCESS_CODE then
      match ChunkAt(snappy, protocol, rest[0], maxDecoded, wire + 1, rest[1..])
      case None => None
      case Some((chunk, n)) =>
        if protocol.multi && 1 + n < |rest| then None else Some(ErrorReply(rest[0], chunk.payload))
    else if |got| >= maxChunks then None
    else
      match ChunkAt(snappy, protocol, SUCCESS_CODE, SaturatingSub(maxDecoded, PayloadBytes(got)), wire + 1, rest[1..])
      case None => None
      case Some((chunk, n)) =>
        if !protocol.multi then Some(Single(chunk))
        else ResponseAt(snappy, protocol, maxChunks, maxDecoded, wire + 1 + n, got + [chunk], rest[1 + n..])
  }

  /** The most bytes ever reserved while reading the response: what is kept of the chunks before, and
      the need of the next one. An error reply is read after the chunks before it are given back. */
  function ResponsePeak(
    snappy: Snappy, protocol: Protocol, maxChunks: nat, maxDecoded: nat, wire: nat, got: seq<Chunk>, rest: bytes): nat
    decreases |rest|
  {
    if rest == [] || wire >= MAX_WIRE then 0
    else if rest[0] != SUCCESS_CODE then ChunkNeed(snappy, protocol, rest[0], maxDecoded, wire + 1, rest[1..])
    else if |got| >= maxChunks then 0
    else
      var kept := PayloadBytes(got);
      var budget := SaturatingSub(maxDecoded, kept);
      var need := kept + ChunkNeed(snappy, protocol, SUCCESS_CODE, budget, wire + 1, rest[1..]);
      match ChunkAt(snappy, protocol, SUCCESS_CODE, budget, wire + 1, rest[1..])
      case None => need
      case Some((chunk, n)) =>
        if !protocol.multi then need
        else
          Max(need, ResponsePeak(snappy, protocol, maxChunks, maxDecoded, wire + 1 + n, got + [chunk], rest[1 + n..]))
  }

  lemma {:induction false} PayloadBytesSnoc(chunks: seq<Chunk>, chunk: Chunk)
    ensures PayloadBytes(chunks + [chunk]) == PayloadBytes(chunks) + |chunk.payload|
    decreases |chunks|
  {
    if chunks == [] {
      assert (chunks + [chunk])[1..] == [];
    } else {
      assert (chunks + [chunk])[1..] == chunks[1..] + [chunk];
      PayloadBytesSnoc(chunks[1..], chunk);
    }
  }

  // ---- Facts about scans that the reader relies on ----

  lemma {:induction false} RunMovesForward(snappy: Snappy, s: State, b: bytes)
    requires s.header.Some? && StateOk(s)
    ensures s.offset <= Run(snappy, s, b).0.offset
    ensures s.offset <= |b| ==> Run(snappy, s, b).0.offset <= |b|
    decreases |b| + 4 - s.offset
  {
    hide NextFrame;
    var (declared, prefix) := s.header.value;
    if s.decoded < declared {
      var step := NextFrame(snappy, declared, prefix, s.offset, s.decoded, b);
      if step.Frame? {
        RunMovesForward(snappy, s.(offset := step.end, decoded := s.decoded + step.output), b);
      }
    }
  }

  /** With nothing after the last whole frame, the scan stops there. */
  lemma RunAtEnd(snappy: Snappy, s: State, b: bytes)
    requires s.header.Some? && StateOk(s) && s.offset == |b|
    ensures Run(snappy, s, b) == (s, if s.decoded >= s.header.value.0 then Done(s.offset) else Incomplete)
  {
  }

  /** Exactly one more frame: either it is rejected or the scan ends at its end. */
  lemma RunOneFrame(snappy: Snappy, s: State, b: bytes)
    requires s.header.Some? && StateOk(s) && s.offset + 4 <= |b|
    requires s.offset + 4 + FromLittleEndian(b[s.offset + 1..s.offset + 4]) == |b|
    ensures var (t, r) := Run(snappy, s, b);
            s.decoded < s.header.value.0 ==> r == Rejected || t.offset == |b|
  {
    hide FrameOutput;
    hide FromLittleEndian;
    hide Run;
    var (declared, prefix) := s.header.value;
    if s.decoded < declared {
      RunStep(snappy, s, b);
      var step := NextFrame(snappy, declared, prefix, s.offset, s.decoded, b);
      if step.Frame? {
        RunAtEnd(snappy, s.(offset := step.end, decoded := s.decoded + step.output), b);
      }
    }
  }

  /** A scan that is not finished needs at least the whole next frame, within its bounds. */
  lemma DoneNeedsFrame(snappy: Snappy, s: State, b: bytes)
    requires s.header.Some? && StateOk(s) && s.decoded < s.header.value.0 && Run(snappy, s, b).1.Done?
    ensures s.offset + 4 <= |b|
    ensures var end := s.offset + 4 + FromLittleEndian(b[s.offset + 1..s.offset + 4]);
            && end <= |b| && end <= Run(snappy, s, b).1.consumed
            && end - s.header.value.1 <= snappy.maxCompressLen(s.header.value.0)
  {
    hide NextFrame;
    hide FromLittleEndian;
    hide Run;
    RunStep(snappy, s, b);
    var (declared, prefix) := s.header.value;
    var step := NextFrame(snappy, declared, prefix, s.offset, s.decoded, b);
    FrameBounds(snappy, declared, prefix, s.offset, s.decoded, b);
    RunMovesForward(snappy, s.(offset := step.end, decoded := s.decoded + step.output), b);
  }

  lemma FrameBounds(snappy: Snappy, declared: nat, prefix: nat, offset: nat, decoded: nat, b: bytes)
    requires decoded <= declared && NextFrame(snappy, declared, prefix, offset, decoded, b).Frame?
    ensures offset + 4 <= |b|
    ensures var end := offset + 4 + FromLittleEndian(b[offset + 1..offset + 4]);
            && NextFrame(snappy, declared, prefix, offset, decoded, b).end == end
            && end - prefix <= snappy.maxCompressLen(declared)
  {
    hide FrameOutput;
    hide FromLittleEndian;
  }

  /** Once the prefix is known, parsing is running from just behind it. */
  function AfterPrefix(declared: nat, prefix: nat): State {
    State(Some((declared, prefix)), prefix, 0)
  }

  lemma AdvancedFromPrefix(snappy: Snappy, limit: nat, b: bytes, declared: nat, prefix: nat)
    requires DecodeVarint(b) == Value(declared, prefix) && declared <= limit
    ensures Advanced(snappy, limit, START, b) == Run(snappy, AfterPrefix(declared, prefix), b)
  {
  }

  /** A length prefix is found at its own last byte and not before. */
  lemma PrefixFound(b: bytes, k: nat)
    requires k <= |b| && DecodeVarint(b[..k]) != More
    ensures DecodeVarint(b) == DecodeVarint(b[..k])
    ensures DecodeVarint(b).Value? ==> DecodeVarint(b).length <= k
  {
    VarintStable(b[..k], b[k..], 0, 0, 1);
    assert b[..k] + b[k..] == b;
  }

  lemma {:induction false} PrefixOwnBytes(b: bytes, i: nat, value: nat, weight: nat)
    requires VarintFrom(b, i, value, weight).Value?
    ensures var n := VarintFrom(b, i, value, weight).length;
            i < n <= i + |b| && VarintFrom(b[..n - i], i, value, weight) == VarintFrom(b, i, value, weight)
    decreases |b|
  {
    if b[0] >= 128 {
      PrefixOwnBytes(b[1..], i + 1, value + b[0] % 128 * weight, weight * 128);
      var n := VarintFrom(b, i, value, weight).length;
      assert b[..n - i][1..] == b[1..][..n - (i + 1)];
    }
  }

  lemma PrefixNotBefore(b: bytes, k: nat)
    requires k <= |b| && DecodeVarint(b[..k]) == More && DecodeVarint(b).Value?
    ensures k < DecodeVarint(b).length <= |b|
  {
    PrefixOwnBytes(b, 0, 0, 1);
    var n := DecodeVarint(b).length;
    if n <= k {
      assert b[..k][..n] == b[..n];
      PrefixFound(b[..k], n);
    }
  }

  /** A payload is at least as long as its prefix. */
  lemma PayloadCoversPrefix(snappy: Snappy, limit: nat, budget: nat, allowance: nat, b: bytes)
    requires PayloadAt(snappy, limit, budget, allowance, b).Some?
    ensures var p := DecodeVarint(b);
            && p.Value? && p.value <= limit && p.value <= budget
            && p.length <= PayloadAt(snappy, limit, budget, allowance, b).value.1 <= allowance
  {
    hide Run;
    hide VarintFrom;
    var p := DecodeVarint(b);
    RunMovesForward(snappy, AfterPrefix(p.value, p.length), b);
  }

  // ---- The byte budget shared by responses ----

  class Pool {
    const max: nat
    var used: nat

    ghost predicate Valid()
      reads this
    {
      used <= max
    }

    constructor (max: nat)
      ensures Valid() && this.max == max && used == 0
    {
      this.max, used := max, 0;
    }

    method TryReserve(n: nat) returns (ok: bool)
      requires Valid()
      modifies this
      ensures Valid()
      ensures used == old(used) + (if ok then n else 0)
      ensures ok <==> old(used) + n <= max
    {
      ok := n <= max - used;
      if ok { used := used + n; }
    }

    method Release(n: nat)
      requires Valid() && n <= used
      modifies this
      ensures Valid() && used == old(used) - n
    {
      used := used - n;
    }
  }

  datatype Outcome<T> = Received(value: T) | Failed | PoolFull

  // ---- The stream ----

  class ResponseStream {
    /** Bytes the peer has sent that are not read yet; the stream ends after them. */
    var rest: bytes
    var wire: nat

    constructor (rest: bytes)
      ensures this.rest == rest && wire == 0
    {
      this.rest, wire := rest, 0;
    }

    method ReadOptionalByte() returns (r: Outcome<Option<byte>>)
      requires wire <= MAX_WIRE
      modifies this
      ensures wire <= MAX_WIRE
      ensures old(rest) == [] ==> r == Received(None) && rest == [] && wire == old(wire)
      ensures old(rest) != [] && old(wire) == MAX_WIRE ==> r == Failed
      ensures old(rest) != [] && old(wire) < MAX_WIRE ==>
                r == Received(Some(old(rest)[0])) && rest == old(rest)[1..] && wire == old(wire) + 1
    {
      if rest == [] { return Received(None); }
      var first := rest[0];
      rest := rest[1..];
      if wire == MAX_WIRE { return Failed; }
      wire := wire + 1;
      r := Received(Some(first));
    }

    method ReadExact(n: nat) returns (ok: bool, data: bytes)
      requires wire <= MAX_WIRE
      modifies this
      ensures wire <= MAX_WIRE
      ensures ok <==> n <= MAX_WIRE - old(wire) && n <= |old(rest)|
      ensures ok ==> data == old(rest)[..n] && rest == old(rest)[n..] && wire == old(wire) + n
    {
      ok := n <= MAX_WIRE - wire && n <= |rest|;
      data := [];
      if ok {
        data, rest, wire := rest[..n], rest[n..], wire + n;
      }
    }

    /** `read` are the bytes taken from the stream since it held `all`. */
    ghost predicate HasRead(all: bytes, start: nat, read: bytes)
      reads this
    {
      && read <= all && rest == all[|read|..]
      && wire == start + |read| <= MAX_WIRE
    }

    /** Length prefix, one byte at a time. */
    method ReadPrefix(ghost start: nat) returns (r: Option<Prefix>, prefix: bytes)
      requires wire == start <= MAX_WIRE
      modifies this
      ensures wire <= MAX_WIRE
      ensures r.Some? ==>
                && HasRead(old(rest), start, prefix) && 0 < |prefix| <= 10
                && r.value == DecodeVarint(old(rest)) == DecodeVarint(prefix)
                && r.value.Value? && r.value.length == |prefix|
      ensures r.None? ==>
                !DecodeVarint(old(rest)).Value? || DecodeVarint(old(rest)).length > MAX_WIRE - start
    {
      hide VarintFrom;
      ghost var all := rest;
      prefix := [];
      var found := More;
      assert DecodeVarint([]) == More by { EmptyPrefix(); }
      while found == More
        invariant HasRead(all, start, prefix) && |prefix| <= 10
        invariant DecodeVarint(prefix) == More && found == More
        decreases 10 - |prefix|
      {
        assert prefix == all[..|prefix|];
        var ok, next := ReadExact(1);
        if !ok {
          PrefixMissing(all, |prefix|);
          return None, prefix;
        }
        ghost var before := prefix;
        prefix := prefix + next;
        assert prefix == all[..|prefix|];
        found := DecodeVarintPrefix(prefix);
        if found != More {
          PrefixFound(all, |prefix|);
          if found == Overflow { return None, prefix; }
          PrefixEndsHere(before, prefix);
          return Some(found), prefix;
        }
        TenBytesDecide(prefix);
      }
      r := None;
    }

    /** One frame header and body. `None` when the stream cannot supply the frame or its header is bad. */
    method ReadFrame(
      snappy: Snappy, limit: nat, scanner: Scanner, read: bytes, maxWire: nat, ghost all: bytes, ghost start: nat)
      returns (r: Option<bytes>)
      requires HasRead(all, start, read)
      requires Waiting(scanner.View(), read, maxWire, snappy)
      modifies this, scanner
      ensures wire <= MAX_WIRE
      ensures r.Some? ==>
                && HasRead(all, start, r.value)
                && AtBoundary(snappy, scanner.View(), r.value) && scanner.header == old(scanner.header)
                && Run(snappy, scanner.View(), all) == Run(snappy, old(scanner.View()), all)
                && |r.value| > |read|
      ensures r.None? ==> !DoneWithin(snappy, old(scanner.View()), all, MAX_WIRE - start)
    {
      hide Run;
      hide NextFrame;
      hide FromLittleEndian;
      ghost var s := scanner.View();
      if DoneWithin(snappy, s, all, MAX_WIRE - start) { DoneNeedsFrame(snappy, s, all); }
      var ok, header := ReadExact(4);
      if !ok || |read| + 4 > maxWire { return None; }
      var withHeader := read + header;
      assert withHeader == all[..|read| + 4];
      assert header[1..4] == all[|read| + 1..|read| + 4] == withHeader[|read| + 1..|read| + 4];
      var length := FromLittleEndian(header[1..4]);
      var checked := scanner.Advance(snappy, withHeader, limit);
      RunResumes(snappy, s, withHeader, all[|withHeader|..]);
      assert withHeader + all[|withHeader|..] == all;
      if checked == Rejected { return None; }
      HeaderChecked(snappy, s, withHeader, length);
      var body;
      ok, body := ReadExact(length);
      if !ok { return None; }
      assert withHeader + body == all[..|withHeader| + length];
      BoundaryAfterBody(snappy, s, withHeader, body);
      r := Some(withHeader + body);
    }

    /** Frames until the payload is complete; never a byte beyond the frame that completes it. */
    method ReadFrames(
      snappy: Snappy, limit: nat, prefix: bytes, declared: nat, maxWire: nat, ghost all: bytes, ghost start: nat)
      returns (r: Option<bytes>)
      requires HasRead(all, start, prefix)
      requires DecodeVarint(prefix) == Value(declared, |prefix|) && declared <= limit
      requires maxWire == |prefix| + snappy.maxCompressLen(declared)
      modifies this
      ensures wire <= MAX_WIRE
      ensures r.Some? ==> HasRead(all, start, r.value) && |prefix| <= |r.value|
      ensures r.Some? ==> Run(snappy, AfterPrefix(declared, |prefix|), all).1 == Done(|r.value|)
      ensures r.None? ==> !DoneWithin(snappy, AfterPrefix(declared, |prefix|), all, MAX_WIRE - start)
    {
      hide Run;
      hide VarintFrom;
      hide NextFrame;
      var scanner := new Scanner();
      var read := prefix;
      ghost var first := AfterPrefix(declared, |prefix|);
      AdvancedFromPrefix(snappy, limit, prefix, declared, |prefix|);
      RunAtEnd(snappy, first, prefix);
      var status := scanner.Advance(snappy, read, limit);
      AfterAdvance(snappy, first, read, all);
      while status == Incomplete
        invariant HasRead(all, start, read) && |prefix| <= |read|
        invariant scanner.header == first.header && StateOk(scanner.View())
        invariant status == Incomplete ==> Waiting(scanner.View(), read, maxWire, snappy)
        invariant status == Incomplete ==> Run(snappy, scanner.View(), all) == Run(snappy, first, all)
        invariant status == Rejected ==> Run(snappy, first, all).1 == Rejected
        invariant status.Done? ==> Run(snappy, first, all).1 == Done(|read|)
        decreases |all| - |read|, status == Incomplete
      {
        var next := ReadFrame(snappy, limit, scanner, read, maxWire, all, start);
        if next.None? { return None; }
        read := next.value;
        ghost var s := scanner.View();
        status := scanner.Advance(snappy, read, limit);
        AfterAdvance(snappy, s, read, all);
      }
      r := if status.Done? then Some(read) else None;
    }

    /** One chunk after its code. Failure leaves no reservation; success holds one for the payload. */
    method ReadPayload(snappy: Snappy, protocol: Protocol, code: byte, pool: Pool, decoded: nat, maxDecoded: nat)
      returns (r: Outcome<Chunk>)
      requires wire <= MAX_WIRE && pool.Valid()
      modifies this, pool
      ensures wire <= MAX_WIRE && pool.Valid()
      ensures pool.used == old(pool.used) + (if r.Received? then |r.value.payload| else 0)
      ensures r.Received? ==>
                var spec := ChunkAt(snappy, protocol, code, SaturatingSub(maxDecoded, decoded), old(wire), old(rest));
                && spec.Some? && spec.value.0 == r.value && rest == old(rest)[spec.value.1..]
                && wire == old(wire) + spec.value.1
      ensures r.Failed? ==>
                ChunkAt(snappy, protocol, code, SaturatingSub(maxDecoded, decoded), old(wire), old(rest)) == None
      ensures r.PoolFull? <==>
                old(pool.used)
                + ChunkNeed(snappy, protocol, code, SaturatingSub(maxDecoded, decoded), old(wire), old(rest)) > pool.max
    {
      hide Run;
      hide VarintFrom;
      var context: Option<Context> := None;
      if ContextLen(protocol, code) == 4 {
        var ok, data := ReadExact(4);
        if !ok { return Failed; }
        context := Some(data);
      }
      ghost var c := ContextLen(protocol, code);
      ghost var all, start := rest, wire;
      assert all == old(rest)[c..];
      var raw := ReadBody(snappy, PayloadLimit(protocol, code), pool, SaturatingSub(maxDecoded, decoded));
      hide PayloadAt;
      hide PayloadNeed;
      match raw {
        case Failed => return Failed;
        case PoolFull => return PoolFull;
        case Received(payload) => r := Received(Chunk(context, payload));
      }
    }

    method ReadBody(snappy: Snappy, limit: nat, pool: Pool, budget: nat) returns (r: Outcome<bytes>)
      requires wire <= MAX_WIRE && pool.Valid()
      modifies this, pool
      ensures wire <= MAX_WIRE && pool.Valid()
      ensures pool.used == old(pool.used) + (if r.Received? then |r.value| else 0)
      ensures var spec := PayloadAt(snappy, limit, budget, MAX_WIRE - old(wire), old(rest));
              && (r.Failed? ==> spec == None)
              && (r.Received? ==>
                    && spec.Some? && spec.value.0 == r.value && spec.value.1 <= |old(rest)|
                    && rest == old(rest)[spec.value.1..] && wire == old(wire) + spec.value.1)
      ensures r.PoolFull? <==>
                old(pool.used) + PayloadNeed(snappy, limit, budget, MAX_WIRE - old(wire), old(rest)) > pool.max
    {
      hide Run;
      hide VarintFrom;
      ghost var all, start := rest, wire;
      if PayloadAt(snappy, limit, budget, MAX_WIRE - start, all).Some? {
        PayloadCoversPrefix(snappy, limit, budget, MAX_WIRE - start, all);
      }
      var found, prefix := ReadPrefix(start);
      if found.None? { return Failed; }
      var declared := found.value.value;
      if declared > limit || declared > budget { return Failed; }
      AdvancedFromPrefix(snappy, limit, all, declared, |prefix|);
      hide Advanced;
      var maxWire := |prefix| + snappy.maxCompressLen(declared);
      var ok := pool.TryReserve(maxWire + declared);
      if !ok { return PoolFull; }
      var read := ReadFrames(snappy, limit, prefix, declared, maxWire, all, start);
      if read.None? {
        pool.Release(maxWire + declared);
        return Failed;
      }
      assert read.value == all[..|read.value|];
      assert read.value[|prefix|..] == all[|prefix|..|read.value|];
      var raw := DecodeScanned(snappy, declared, read.value[|prefix|..]);
      if raw.None? {
        pool.Release(maxWire + declared);
        return Failed;
      }
      pool.Release(maxWire + declared - |raw.value|);
      r := Received(raw.value);
    }

    /** Read a whole response. Every exit holds reservations for exactly the payloads it returns. */
    method ReadResponse(snappy: Snappy, protocol: Protocol, pool: Pool, expected: Option<nat>, maxDecoded: nat)
      returns (r: Outcome<Response>)
      requires wire == 0 && pool.Valid()
      modifies this, pool
      ensures pool.Valid()
      ensures pool.used == old(pool.used) + (if r.Received? then Retained(r.value) else 0)
      ensures r.Received? ==>
                ResponseAt(snappy, protocol, MaxChunks(expected), maxDecoded, 0, [], old(rest)) == Some(r.value)
      ensures r.Failed? ==> ResponseAt(snappy, protocol, MaxChunks(expected), maxDecoded, 0, [], old(rest)) == None
      ensures r.PoolFull? <==>
                old(pool.used) + ResponsePeak(snappy, protocol, MaxChunks(expected), maxDecoded, 0, [], old(rest))
                > pool.max
    {
      hide ChunkAt;
      hide ChunkNeed;
      var maxChunks := MaxChunks(expected);
      ghost var all := rest;
      var got: seq<Chunk> := [];
      var decoded := 0;
      while true
        invariant wire <= MAX_WIRE && pool.Valid()
        invariant decoded == PayloadBytes(got) && pool.used == old(pool.used) + decoded
        invariant !protocol.multi ==> got == []
        invariant ResponseAt(snappy, protocol, maxChunks, maxDecoded, wire, got, rest)
                  == ResponseAt(snappy, protocol, maxChunks, maxDecoded, 0, [], all)
        invariant old(pool.used) + ResponsePeak(snappy, protocol, maxChunks, maxDecoded, wire, got, rest) > pool.max
                  <==> old(pool.used) + ResponsePeak(snappy, protocol, maxChunks, maxDecoded, 0, [], all) > pool.max
        decreases |rest|
      {
        ghost var before := rest;
        var code := ReadOptionalByte();
        if code.Failed? {
          pool.Release(decoded);
          return Failed;
        }
        if code.value.None? {
          if protocol.multi { return Received(Chunks(got)); }
          pool.Release(decoded);
          return Failed;
        }
        if code.value.value != SUCCESS_CODE {
          pool.Release(decoded);
          r := ReadErrorReply(snappy, protocol, code.value.value, pool, maxDecoded);
          return;
        }
        if |got| >= maxChunks {
          pool.Release(decoded);
          return Failed;
        }
        var chunk := ReadPayload(snappy, protocol, SUCCESS_CODE, pool, decoded, maxDecoded);
        if !chunk.Received? {
          pool.Release(decoded);
          return if chunk.Failed? then Failed else PoolFull;
        }
        if !protocol.multi { return Received(Single(chunk.value)); }
        PayloadBytesSnoc(got, chunk.value);
        got := got + [chunk.value];
        decoded := decoded + |chunk.value.payload|;
      }
    }

    /** An error reply ends the response. */
    method ReadErrorReply(snappy: Snappy, protocol: Protocol, code: byte, pool: Pool, maxDecoded: nat)
      returns (r: Outcome<Response>)
      requires wire <= MAX_WIRE && pool.Valid()
      modifies this, pool
      ensures wire <= MAX_WIRE && pool.Valid()
      ensures pool.used == old(pool.used) + (if r.Received? then Retained(r.value) else 0)
      ensures var spec := ChunkAt(snappy, protocol, code, maxDecoded, old(wire), old(rest));
              var bad := spec.None? || (protocol.multi && spec.value.1 < |old(rest)|);
              && (r.Received? ==> !bad && r.value == ErrorReply(code, spec.value.0.payload))
              && (r.Failed? ==> bad)
      ensures r.PoolFull? <==>
                old(pool.used) + ChunkNeed(snappy, protocol, code, maxDecoded, old(wire), old(rest)) > pool.max
    {
      hide ChunkAt;
      hide ChunkNeed;
      var message := ReadPayload(snappy, protocol, code, pool, 0, maxDecoded);
      if !message.Received? { return if message.Failed? then Failed else PoolFull; }
      if protocol.multi {
        var extra := ReadOptionalByte();
        if extra != Received(None) {
          pool.Release(|message.value.payload|);
          return Failed;
        }
      }
      r := Received(ErrorReply(code, message.value.payload));
    }
  }

  function MaxChunks(expected: Option<nat>): (n: nat)
    ensures n <= 128 && (expected.None? ==> n == 128)
    ensures expected.Some? ==> n <= expected.value && (n == 128 || n == expected.value)
  {
    if expected.Some? then Min(expected.value, MAX_CHUNKS) else MAX_CHUNKS
  }

  /** What one call of the scanner on whole frames says about the whole stream. */
  lemma AfterAdvance(snappy: Snappy, s: State, read: bytes, all: bytes)
    requires AtBoundary(snappy, s, read) && read <= all
    ensures var (t, r) := Run(snappy, s, read);
            && (r == Incomplete ==>
                  && t.offset == |read| && t.decoded < s.header.value.0
                  && Run(snappy, t, all) == Run(snappy, s, all))
            && (r == Rejected ==> Run(snappy, s, all).1 == Rejected)
            && (r.Done? ==> Run(snappy, s, all) == (t, Done(|read|)))
  {
    hide Run;
    RunResumes(snappy, s, read, all[|read|..]);
    assert read + all[|read|..] == all;
  }

  /** All of `read` is whole frames, and the payload is not complete. */
  ghost predicate Waiting(s: State, read: bytes, maxWire: nat, snappy: Snappy) {
    && s.header.Some? && StateOk(s) && s.decoded < s.header.value.0
    && s.offset == |read| && maxWire == s.header.value.1 + snappy.maxCompressLen(s.header.value.0)
  }

  /** Scanning `read` either rejects or stops exactly at its end. */
  ghost predicate AtBoundary(snappy: Snappy, s: State, read: bytes) {
    && s.header.Some? && StateOk(s)
    && var (t, r) := Run(snappy, s, read); r == Rejected || t.offset == |read|
  }

  ghost predicate DoneWithin(snappy: Snappy, s: State, all: bytes, allowance: int)
    requires s.header.Some? && StateOk(s)
  {
    var r := Run(snappy, s, all).1;
    r.Done? && r.consumed <= allowance
  }

  /** After a header that is not rejected, the scanner waits for the body, or has passed an empty one. */
  lemma HeaderChecked(snappy: Snappy, s: State, b: bytes, length: nat)
    requires s.header.Some? && StateOk(s) && s.decoded < s.header.value.0 && s.offset + 4 == |b|
    requires length == FromLittleEndian(b[s.offset + 1..s.offset + 4]) && Run(snappy, s, b).1 != Rejected
    ensures Run(snappy, s, b).1 == Incomplete
    ensures length > 0 ==> Run(snappy, s, b).0 == s
    ensures length == 0 ==> Run(snappy, s, b).0.offset == |b|
    ensures s.offset + 4 + length - s.header.value.1 <= snappy.maxCompressLen(s.header.value.0)
  {
    hide FromLittleEndian;
    hide FrameOutput;
    hide Run;
    RunStep(snappy, s, b);
    var (declared, prefix) := s.header.value;
    var step := NextFrame(snappy, declared, prefix, s.offset, s.decoded, b);
    if step.Frame? {
      EmptyFrameOutput(snappy, b[s.offset], b[s.offset + 4..s.offset + 4]);
      RunAtEnd(snappy, s.(offset := step.end, decoded := s.decoded + step.output), b);
    }
  }

  lemma EmptyFrameOutput(snappy: Snappy, kind: byte, body: bytes)
    requires body == []
    ensures FrameOutput(snappy, kind, body).Some? ==> FrameOutput(snappy, kind, body).value == 0
  {
  }

  lemma BoundaryAfterBody(snappy: Snappy, s: State, b: bytes, body: bytes)
    requires s.header.Some? && StateOk(s) && s.decoded < s.header.value.0 && s.offset + 4 == |b|
    requires |body| == FromLittleEndian(b[s.offset + 1..s.offset + 4]) && Run(snappy, s, b).1 == Incomplete
    requires if |body| > 0 then Run(snappy, s, b).0 == s else Run(snappy, s, b).0.offset == |b|
    ensures AtBoundary(snappy, Run(snappy, s, b).0, b + body)
  {
    hide Run;
    hide NextFrame;
    hide FromLittleEndian;
    if |body| > 0 {
      assert (b + body)[s.offset + 1..s.offset + 4] == b[s.offset + 1..s.offset + 4];
      RunOneFrame(snappy, s, b + body);
    } else {
      assert b + body == b;
      RunAtEnd(snappy, Run(snappy, s, b).0, b);
    }
  }

  lemma EmptyPrefix()
    ensures DecodeVarint([]) == More
  {
  }

  lemma TenBytesDecide(b: bytes)
    requires DecodeVarint(b) == More
    ensures |b| < 10
  {
    MoreIsShort(b, 0, 0, 1);
  }

  lemma {:induction false} MoreIsShort(b: bytes, i: nat, value: nat, weight: nat)
    requires VarintFrom(b, i, value, weight) == More
    ensures i + |b| < 10
    decreases |b|
  {
    if b != [] {
      MoreIsShort(b[1..], i + 1, value + b[0] % 128 * weight, weight * 128);
    }
  }

  lemma PrefixMissing(all: bytes, k: nat)
    requires k <= |all| && DecodeVarint(all[..k]) == More
    ensures DecodeVarint(all).Value? ==> k < DecodeVarint(all).length <= |all|
  {
    if DecodeVarint(all).Value? {
      PrefixNotBefore(all, k);
    }
  }

  lemma PrefixEndsHere(before: bytes, prefix: bytes)
    requires |prefix| == |before| + 1 && prefix[..|before|] == before
    requires DecodeVarint(before) == More && DecodeVarint(prefix).Value?
    ensures DecodeVarint(prefix).length == |prefix|
  {
    PrefixNotBefore(prefix, |before|);
  }

  // ---- Writing ----

  const MAX_RESPONSE_SSZ_BYTES: nat := 10 * 1024 * 1024

  predicate Sendable(protocol: Protocol, chunk: Chunk) {
    |chunk.payload| <= protocol.payloadLimit && (protocol.hasContext ==> chunk.context.Some?)
  }

  /** A protocol without context drops a cached one. */
  function Sent(protocol: Protocol, chunk: Chunk): Chunk {
    if protocol.hasContext then chunk else Chunk(None, chunk.payload)
  }

  function AllSent(protocol: Protocol, chunks: seq<Chunk>): seq<Chunk> {
    if chunks == [] then [] else [Sent(protocol, chunks[0])] + AllSent(protocol, chunks[1..])
  }

  function EncodedChunk(protocol: Protocol, compress: bytes -> seq<DataFrame>, chunk: Chunk): bytes
    requires Sendable(protocol, chunk)
  {
    [SUCCESS_CODE] + (if protocol.hasContext then chunk.context.value else [])
      + EncodedPayload(compress(chunk.payload), chunk.payload)
  }

  function EncodedAll(protocol: Protocol, compress: bytes -> seq<DataFrame>, chunks: seq<Chunk>): bytes
    requires forall i :: 0 <= i < |chunks| ==> Sendable(protocol, chunks[i])
  {
    if chunks == [] then []
    else EncodedChunk(protocol, compress, chunks[0]) + EncodedAll(protocol, compress, chunks[1..])
  }

  lemma {:induction false} EncodedAllSnoc(
    protocol: Protocol, compress: bytes -> seq<DataFrame>, chunks: seq<Chunk>, chunk: Chunk)
    requires forall i :: 0 <= i < |chunks| ==> Sendable(protocol, chunks[i])
    requires Sendable(protocol, chunk)
    ensures EncodedAll(protocol, compress, chunks + [chunk])
            == EncodedAll(protocol, compress, chunks) + EncodedChunk(protocol, compress, chunk)
    decreases |chunks|
  {
    hide EncodedChunk;
    if chunks == [] {
      assert chunks + [chunk] == [chunk];
      assert EncodedAll(protocol, compress, [chunk][1..]) == [];
    } else {
      assert (chunks + [chunk])[1..] == chunks[1..] + [chunk];
      EncodedAllSnoc(protocol, compress, chunks[1..], chunk);
    }
  }

  datatype WriteResult = Written | TooManyChunks | Unsendable | WireLimit | IoFailed

  class Sink {
    var sent: bytes

    constructor ()
      ensures sent == []
    {
      sent := [];
    }

    /** A failed write may have sent any proper part of the data. */
    method WriteAll(data: bytes) returns (ok: bool)
      modifies this
      ensures ok ==> sent == old(sent) + data
      ensures !ok ==> exists part :: part <= data && sent == old(sent) + part
    {
      ok := *;
      var n := |data|;
      if !ok {
        n :| 0 <= n <= |data|;
      }
      assert data[..|data|] == data && data[..n] <= data;
      sent := sent + data[..n];
    }

    /** Cheap checks on every chunk first, then one whole chunk at a time. `done` counts chunks
        that are entirely on the wire. */
    method WriteStream(protocol: Protocol, compress: bytes -> seq<DataFrame>, chunks: seq<Chunk>, maxWire: nat)
      returns (r: WriteResult, ghost done: nat)
      requires protocol.payloadLimit <= MAX_RESPONSE_SSZ_BYTES
      modifies this
      ensures r == TooManyChunks <==> |chunks| > 128
      ensures r == TooManyChunks || r == Unsendable ==> sent == old(sent)
      ensures r == Unsendable <==>
                && |chunks| <= 128
                && exists i :: && 0 <= i < |chunks|
                               && (|| |chunks[i].payload| > protocol.payloadLimit
                                   || (protocol.hasContext && chunks[i].context.None?))
      ensures r != TooManyChunks && r != Unsendable ==>
                && done <= |chunks| && (forall i :: 0 <= i < |chunks| ==> Sendable(protocol, chunks[i]))
                && |EncodedAll(protocol, compress, chunks[..done])| <= maxWire
      ensures r == Written ==> done == |chunks|
      ensures r == Written || r == WireLimit ==> sent == old(sent) + EncodedAll(protocol, compress, chunks[..done])
      ensures r == WireLimit ==> done < |chunks| && |EncodedAll(protocol, compress, chunks[..done + 1])| > maxWire
      ensures r == IoFailed ==>
                && done < |chunks|
                && exists part :: part <= EncodedChunk(protocol, compress, chunks[done])
                     && sent == old(sent) + EncodedAll(protocol, compress, chunks[..done]) + part
    {
      hide EncodedChunk;
      done := 0;
      if |chunks| > MAX_CHUNKS { return TooManyChunks, 0; }
      for i := 0 to |chunks|
        invariant forall k :: 0 <= k < i ==> Sendable(protocol, chunks[k])
      {
        if !Sendable(protocol, chunks[i]) { return Unsendable, 0; }
      }
      var written := 0;
      for i := 0 to |chunks|
        invariant sent == old(sent) + EncodedAll(protocol, compress, chunks[..i])
        invariant written == |EncodedAll(protocol, compress, chunks[..i])| <= maxWire
      {
        done := i;
        var encoded := EncodedChunk(protocol, compress, chunks[i]);
        EncodedAllSnoc(protocol, compress, chunks[..i], chunks[i]);
        assert chunks[..i] + [chunks[i]] == chunks[..i + 1];
        if |encoded| > SaturatingSub(maxWire, written) { return WireLimit, i; }
        var ok := WriteAll(encoded);
        if !ok { return IoFailed, i; }
        written := written + |encoded|;
      }
      r, done := Written, |chunks|;
    }
  }

  // ---- Reading back what was written ----

  /** One written chunk is read as one chunk, whatever follows it. */
  lemma WrittenChunkIsRead(
    snappy: Snappy, protocol: Protocol, compress: bytes -> seq<DataFrame>, chunk: Chunk, budget: nat, wire: nat,
    rest: bytes)
    requires Sendable(protocol, chunk) && FramesCorrectly(snappy, compress(chunk.payload), chunk.payload)
    requires |chunk.payload| <= budget && |chunk.payload| < U64_LIMIT
    requires wire + |EncodedChunk(protocol, compress, chunk)| <= MAX_WIRE
    ensures var encoded := EncodedChunk(protocol, compress, chunk);
            ChunkAt(snappy, protocol, SUCCESS_CODE, budget, wire + 1, encoded[1..] + rest)
            == Some((Sent(protocol, chunk), |encoded| - 1))
  {
    hide Varint;
    hide Run;
    hide Compressed;
    hide Advanced;
    var frames := compress(chunk.payload);
    var body := EncodedPayload(frames, chunk.payload);
    var tail := EncodedChunk(protocol, compress, chunk)[1..] + rest;
    var c := ContextLen(protocol, SUCCESS_CODE);
    assert tail[c..] == body + rest;
    assert c == 4 ==> tail[..4] == chunk.context.value;
    EncodedIsScanned(snappy, protocol.payloadLimit, frames, chunk.payload, rest);
    var p := |Varint(|chunk.payload|)|;
    assert (body + rest)[p..|body|] == Compressed(frames);
  }

  /** One more chunk at the front of a multi-chunk stream. */
  lemma ResponseAfterChunk(
    snappy: Snappy, protocol: Protocol, maxChunks: nat, maxDecoded: nat, wire: nat, got: seq<Chunk>,
    first: bytes, more: bytes, chunk: Chunk)
    requires protocol.multi && first != [] && first[0] == SUCCESS_CODE && wire < MAX_WIRE && |got| < maxChunks
    requires var budget := SaturatingSub(maxDecoded, PayloadBytes(got));
             ChunkAt(snappy, protocol, SUCCESS_CODE, budget, wire + 1, first[1..] + more)
             == Some((chunk, |first| - 1))
    ensures ResponseAt(snappy, protocol, maxChunks, maxDecoded, wire, got, first + more)
            == ResponseAt(snappy, protocol, maxChunks, maxDecoded, wire + |first|, got + [chunk], more)
  {
    hide ChunkAt;
    hide PayloadBytes;
    var all := first + more;
    assert all[1..] == first[1..] + more && all[|first|..] == more;
  }

  /** Reading what the writer emitted gives the same chunks in the same order. */
  lemma {:induction false} WrittenIsRead(
    snappy: Snappy, protocol: Protocol, compress: bytes -> seq<DataFrame>, chunks: seq<Chunk>,
    maxChunks: nat, maxDecoded: nat, wire: nat, got: seq<Chunk>)
    requires protocol.multi && protocol.payloadLimit <= MAX_RESPONSE_SSZ_BYTES
    requires forall i :: 0 <= i < |chunks| ==> Sendable(protocol, chunks[i])
    requires forall i :: 0 <= i < |chunks| ==> FramesCorrectly(snappy, compress(chunks[i].payload), chunks[i].payload)
    requires |got| + |chunks| <= maxChunks && PayloadBytes(got) + PayloadBytes(chunks) <= maxDecoded
    requires wire + |EncodedAll(protocol, compress, chunks)| <= MAX_WIRE
    ensures ResponseAt(snappy, protocol, maxChunks, maxDecoded, wire, got, EncodedAll(protocol, compress, chunks))
            == Some(Chunks(got + AllSent(protocol, chunks)))
    decreases |chunks|
  {
    hide ChunkAt;
    hide FramesCorrectly;
    hide EncodedChunk;
    if chunks == [] {
      assert got + [] == got;
    } else {
      var chunk := chunks[0];
      var first, more := EncodedChunk(protocol, compress, chunk), EncodedAll(protocol, compress, chunks[1..]);
      assert EncodedAll(protocol, compress, chunks) == first + more;
      ChunkStart(protocol, compress, chunk);
      WrittenChunkIsRead(snappy, protocol, compress, chunk, SaturatingSub(maxDecoded, PayloadBytes(got)), wire, more);
      hide ResponseAt;
      ResponseAfterChunk(snappy, protocol, maxChunks, maxDecoded, wire, got, first, more, Sent(protocol, chunk));
      PayloadBytesSnoc(got, Sent(protocol, chunk));
      WrittenIsRead(snappy, protocol, compress, chunks[1..], maxChunks, maxDecoded, wire + |first|,
                    got + [Sent(protocol, chunk)]);
      assert got + [Sent(protocol, chunk)] + AllSent(protocol, chunks[1..]) == got + AllSent(protocol, chunks);
    }
  }

  lemma ChunkStart(protocol: Protocol, compress: bytes -> seq<DataFrame>, chunk: Chunk)
    requires Sendable(protocol, chunk)
    ensures var encoded := EncodedChunk(protocol, compress, chunk); encoded != [] && encoded[0] == SUCCESS_CODE
  {
  }

  // ---- Memory that reading back takes ----

  /** Bytes reserved while one written payload is read. */
  function WrittenNeed(snappy: Snappy, payload: bytes): nat {
    |Varint(|payload|)| + snappy.maxCompressLen(|payload|) + |payload|
  }

  /** The most bytes reserved at once while the written chunks are read beside `kept` bytes. */
  function WrittenPeak(snappy: Snappy, kept: nat, chunks: seq<Chunk>): nat
    decreases |chunks|
  {
    if chunks == [] then 0
    else
      Max(kept + WrittenNeed(snappy, chunks[0].payload), WrittenPeak(snappy, kept + |chunks[0].payload|, chunks[1..]))
  }

  lemma WrittenChunkNeed(
    snappy: Snappy, protocol: Protocol, compress: bytes -> seq<DataFrame>, chunk: Chunk, budget: nat, wire: nat,
    rest: bytes)
    requires Sendable(protocol, chunk) && |chunk.payload| <= budget && |chunk.payload| < U64_LIMIT
    requires wire + |EncodedChunk(protocol, compress, chunk)| <= MAX_WIRE
    ensures var encoded := EncodedChunk(protocol, compress, chunk);
            ChunkNeed(snappy, protocol, SUCCESS_CODE, budget, wire + 1, encoded[1..] + rest)
            == WrittenNeed(snappy, chunk.payload)
  {
    hide Varint;
    hide Compressed;
    hide VarintFrom;
    var frames := Compressed(compress(chunk.payload));
    var tail := EncodedChunk(protocol, compress, chunk)[1..] + rest;
    var c := ContextLen(protocol, SUCCESS_CODE);
    assert tail[c..] == Varint(|chunk.payload|) + (frames + rest);
    VarintRoundTrip(|chunk.payload|, frames + rest);
  }

  /** One more chunk at the front. */
  lemma PeakAfterChunk(
    snappy: Snappy, protocol: Protocol, maxChunks: nat, maxDecoded: nat, wire: nat, got: seq<Chunk>,
    first: bytes, more: bytes, chunk: Chunk)
    requires protocol.multi && first != [] && first[0] == SUCCESS_CODE && wire < MAX_WIRE && |got| < maxChunks
    requires var budget := SaturatingSub(maxDecoded, PayloadBytes(got));
             ChunkAt(snappy, protocol, SUCCESS_CODE, budget, wire + 1, first[1..] + more)
             == Some((chunk, |first| - 1))
    ensures var budget := SaturatingSub(maxDecoded, PayloadBytes(got));
            ResponsePeak(snappy, protocol, maxChunks, maxDecoded, wire, got, first + more)
            == Max(PayloadBytes(got) + ChunkNeed(snappy, protocol, SUCCESS_CODE, budget, wire + 1, first[1..] + more),
                   ResponsePeak(snappy, protocol, maxChunks, maxDecoded, wire + |first|, got + [chunk], more))
  {
    hide ChunkAt;
    hide ChunkNeed;
    hide PayloadBytes;
    var all := first + more;
    assert all[1..] == first[1..] + more && all[|first|..] == more;
  }

  lemma {:induction false} WrittenPeakIsRead(
    snappy: Snappy, protocol: Protocol, compress: bytes -> seq<DataFrame>, chunks: seq<Chunk>,
    maxChunks: nat, maxDecoded: nat, wire: nat, got: seq<Chunk>)
    requires protocol.multi && protocol.payloadLimit <= MAX_RESPONSE_SSZ_BYTES
    requires forall i :: 0 <= i < |chunks| ==> Sendable(protocol, chunks[i])
    requires forall i :: 0 <= i < |chunks| ==> FramesCorrectly(snappy, compress(chunks[i].payload), chunks[i].payload)
    requires |got| + |chunks| <= maxChunks && PayloadBytes(got) + PayloadBytes(chunks) <= maxDecoded
    requires wire + |EncodedAll(protocol, compress, chunks)| <= MAX_WIRE
    ensures ResponsePeak(snappy, protocol, maxChunks, maxDecoded, wire, got, EncodedAll(protocol, compress, chunks))
            == WrittenPeak(snappy, PayloadBytes(got), chunks)
    decreases |chunks|
  {
    hide ChunkAt;
    hide ChunkNeed;
    hide WrittenNeed;
    hide FramesCorrectly;
    hide EncodedChunk;
    if chunks != [] {
      var chunk := chunks[0];
      var first, more := EncodedChunk(protocol, compress, chunk), EncodedAll(protocol, compress, chunks[1..]);
      assert EncodedAll(protocol, compress, chunks) == first + more;
      ChunkStart(protocol, compress, chunk);
      var budget := SaturatingSub(maxDecoded, PayloadBytes(got));
      WrittenChunkIsRead(snappy, protocol, compress, chunk, budget, wire, more);
      WrittenChunkNeed(snappy, protocol, compress, chunk, budget, wire, more);
      hide ResponsePeak;
      PeakAfterChunk(snappy, protocol, maxChunks, maxDecoded, wire, got, first, more, Sent(protocol, chunk));
      PayloadBytesSnoc(got, Sent(protocol, chunk));
      WrittenPeakIsRead(snappy, protocol, compress, chunks[1..], maxChunks, maxDecoded, wire + |first|,
                        got + [Sent(protocol, chunk)]);
    }
  }

  /** A protocol with one chunk per response. */
  lemma SingleIsRead(
    snappy: Snappy, protocol: Protocol, compress: bytes -> seq<DataFrame>, chunk: Chunk, maxChunks: nat,
    maxDecoded: nat)
    requires !protocol.multi && protocol.payloadLimit <= MAX_RESPONSE_SSZ_BYTES && maxChunks > 0
    requires Sendable(protocol, chunk) && FramesCorrectly(snappy, compress(chunk.payload), chunk.payload)
    requires |chunk.payload| <= maxDecoded && |EncodedChunk(protocol, compress, chunk)| <= MAX_WIRE
    ensures var encoded := EncodedChunk(protocol, compress, chunk);
            && ResponseAt(snappy, protocol, maxChunks, maxDecoded, 0, [], encoded)
               == Some(Single(Sent(protocol, chunk)))
            && ResponsePeak(snappy, protocol, maxChunks, maxDecoded, 0, [], encoded) == WrittenPeak(snappy, 0, [chunk])
  {
    hide ChunkAt;
    hide ChunkNeed;
    hide WrittenNeed;
    hide FramesCorrectly;
    hide EncodedChunk;
    var encoded := EncodedChunk(protocol, compress, chunk);
    ChunkStart(protocol, compress, chunk);
    WrittenChunkIsRead(snappy, protocol, compress, chunk, maxDecoded, 0, []);
    WrittenChunkNeed(snappy, protocol, compress, chunk, maxDecoded, 0, []);
    assert encoded[1..] + [] == encoded[1..];
    assert WrittenPeak(snappy, |chunk.payload|, [chunk][1..]) == 0;
  }

  /** What a peer should receive for these chunks. */
  function Reply(protocol: Protocol, chunks: seq<Chunk>): Response
    requires protocol.multi || |chunks| == 1
  {
    if protocol.multi then Chunks(AllSent(protocol, chunks)) else Single(Sent(protocol, chunks[0]))
  }

  /** A response within every limit of reader and writer. */
  ghost predicate Deliverable(
    snappy: Snappy, protocol: Protocol, compress: bytes -> seq<DataFrame>, chunks: seq<Chunk>, maxChunks: nat,
    maxDecoded: nat)
  {
    && (protocol.multi || |chunks| == 1) && protocol.payloadLimit <= MAX_RESPONSE_SSZ_BYTES
    && |chunks| <= maxChunks && PayloadBytes(chunks) <= maxDecoded
    && (forall i :: 0 <= i < |chunks| ==> Sendable(protocol, chunks[i]))
    && (forall i :: 0 <= i < |chunks| ==> FramesCorrectly(snappy, compress(chunks[i].payload), chunks[i].payload))
    && |EncodedAll(protocol, compress, chunks)| <= MAX_WIRE
  }

  lemma DeliveredExactly(
    snappy: Snappy, protocol: Protocol, compress: bytes -> seq<DataFrame>, chunks: seq<Chunk>, maxChunks: nat,
    maxDecoded: nat)
    requires Deliverable(snappy, protocol, compress, chunks, maxChunks, maxDecoded)
    ensures var encoded := EncodedAll(protocol, compress, chunks);
            && ResponseAt(snappy, protocol, maxChunks, maxDecoded, 0, [], encoded) == Some(Reply(protocol, chunks))
            && ResponsePeak(snappy, protocol, maxChunks, maxDecoded, 0, [], encoded) == WrittenPeak(snappy, 0, chunks)
  {
    hide ResponseAt;
    hide ResponsePeak;
    hide EncodedChunk;
    hide FramesCorrectly;
    hide WrittenNeed;
    if protocol.multi {
      WrittenIsRead(snappy, protocol, compress, chunks, maxChunks, maxDecoded, 0, []);
      WrittenPeakIsRead(snappy, protocol, compress, chunks, maxChunks, maxDecoded, 0, []);
      assert [] + AllSent(protocol, chunks) == AllSent(protocol, chunks);
    } else {
      var chunk := chunks[0];
      assert chunks == [chunk];
      assert chunks[1..] == [];
      assert EncodedChunk(protocol, compress, chunk) + [] == EncodedChunk(protocol, compress, chunk);
      SingleIsRead(snappy, protocol, compress, chunk, maxChunks, maxDecoded);
    }
  }

  /** From one peer's writer to the other's reader: everything sent is received, exactly when the pool
      has room for the largest moment of reading it. */
  method Deliver(
    snappy: Snappy, protocol: Protocol, compress: bytes -> seq<DataFrame>, chunks: seq<Chunk>, maxWire: nat,
    pool: Pool, expected: Option<nat>, maxDecoded: nat)
    returns (w: WriteResult, r: Outcome<Response>)
    requires pool.Valid() && Deliverable(snappy, protocol, compress, chunks, MaxChunks(expected), maxDecoded)
    modifies pool
    ensures pool.Valid()
    ensures w == Written && old(pool.used) + WrittenPeak(snappy, 0, chunks) <= pool.max ==>
              r == Received(Reply(protocol, chunks)) && pool.used == old(pool.used) + PayloadBytes(chunks)
    ensures w == Written && old(pool.used) + WrittenPeak(snappy, 0, chunks) > pool.max ==>
              r == PoolFull && pool.used == old(pool.used)
  {
    hide ResponseAt;
    hide ResponsePeak;
    hide EncodedAll;
    hide EncodedChunk;
    hide FramesCorrectly;
    DeliveredExactly(snappy, protocol, compress, chunks, MaxChunks(expected), maxDecoded);
    r := Failed;
    var sink := new Sink();
    ghost var done;
    w, done := sink.WriteStream(protocol, compress, chunks, maxWire);
    if w == Written {
      assert chunks[..done] == chunks;
      assert sink.sent == EncodedAll(protocol, compress, chunks);
      SentPayloads(protocol, chunks);
      var stream := new ResponseStream(sink.sent);
      r := stream.ReadResponse(snappy, protocol, pool, expected, maxDecoded);
    }
  }

  lemma {:induction false} SentPayloads(protocol: Protocol, chunks: seq<Chunk>)
    ensures PayloadBytes(AllSent(protocol, chunks)) == PayloadBytes(chunks)
    ensures |chunks| == 1 ==> PayloadBytes(chunks) == |chunks[0].payload|
    decreases |chunks|
  {
    if chunks != [] {
      SentPayloads(protocol, chunks[1..]);
      assert ([Sent(protocol, chunks[0])] + AllSent(protocol, chunks[1..]))[1..] == AllSent(protocol, chunks[1..]);
    }
  }
}
