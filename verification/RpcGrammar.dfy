/** Which byte strings are responses, said by their parts: the reader accepts exactly those, within its
    limits on chunks, decoded bytes and bytes on the wire. */
module RpcGrammar {
  import opened Bytes
  import opened Framing
  import opened RpcStream

  const WIRE_LIMIT: nat := 268_435_456

  // ---- One payload ----

  /** All of `b` is one payload: a length prefix, and whole frames that decompress to `raw`. */
  ghost predicate SpellsPayload(snappy: Snappy, limit: nat, b: bytes, raw: bytes) {
    var p := DecodeVarint(b);
    && p.Value? && p.value == |raw| <= limit && p.length <= |b|
    && OneShot(snappy, limit, b) == Done(|b|)
    && snappy.decode(b[p.length..]) == Some(raw)
  }

  lemma FrameInPrefix(snappy: Snappy, declared: nat, prefix: nat, offset: nat, decoded: nat, b: bytes, n: nat)
    requires decoded <= declared && n <= |b| && NextFrame(snappy, declared, prefix, offset, decoded, b).Frame?
    requires NextFrame(snappy, declared, prefix, offset, decoded, b).end <= n
    ensures NextFrame(snappy, declared, prefix, offset, decoded, b[..n])
            == NextFrame(snappy, declared, prefix, offset, decoded, b)
  {
    hide FrameOutput;
    hide FromLittleEndian;
    var a := b[..n];
    assert a[offset + 1..offset + 4] == b[offset + 1..offset + 4];
    var end := NextFrame(snappy, declared, prefix, offset, decoded, b).end;
    assert a[offset + 4..end] == b[offset + 4..end];
  }

  /** A completed scan looked at the bytes it consumed and at no others. */
  lemma {:induction false} RunInPrefix(snappy: Snappy, s: State, b: bytes, n: nat)
    requires s.header.Some? && StateOk(s) && n <= |b| && Run(snappy, s, b).1 == Done(n)
    ensures Run(snappy, s, b[..n]) == Run(snappy, s, b)
    decreases |b| + 4 - s.offset
  {
    hide NextFrame;
    hide Run;
    RunStep(snappy, s, b);
    RunStep(snappy, s, b[..n]);
    var (declared, prefix) := s.header.value;
    if s.decoded < declared {
      var step := NextFrame(snappy, declared, prefix, s.offset, s.decoded, b);
      var t := s.(offset := step.end, decoded := s.decoded + step.output);
      RunMovesForward(snappy, t, b);
      DoneAtOffset(snappy, t, b);
      FrameInPrefix(snappy, declared, prefix, s.offset, s.decoded, b, n);
      RunInPrefix(snappy, t, b, n);
    }
  }

  lemma DoneAtOffset(snappy: Snappy, s: State, b: bytes)
    requires s.header.Some? && StateOk(s)
    ensures Run(snappy, s, b).1.Done? ==> Run(snappy, s, b).1.consumed == Run(snappy, s, b).0.offset
  {
  }

  lemma ScanInPrefix(snappy: Snappy, limit: nat, b: bytes, n: nat)
    requires n <= |b|
    ensures OneShot(snappy, limit, b) == Done(n) <==> OneShot(snappy, limit, b[..n]) == Done(n)
    ensures OneShot(snappy, limit, b) == Done(n) ==> DecodeVarint(b[..n]) == DecodeVarint(b)
    ensures OneShot(snappy, limit, b) == Done(n) ==>
              Advanced(snappy, limit, START, b[..n]) == Advanced(snappy, limit, START, b)
  {
    hide Run;
    hide VarintFrom;
    if OneShot(snappy, limit, b) == Done(n) {
      var Value(declared, prefix) := DecodeVarint(b);
      var s := START.(header := Some((declared, prefix)), offset := prefix, decoded := 0);
      RunMovesForward(snappy, s, b);
      DoneAtOffset(snappy, s, b);
      PrefixKept(b, n);
      RunInPrefix(snappy, s, b, n);
    }
    if OneShot(snappy, limit, b[..n]) == Done(n) {
      TrailingBytesIgnored(snappy, limit, b[..n], b[n..]);
      assert b[..n] + b[n..] == b;
    }
  }

  lemma PrefixKept(b: bytes, n: nat)
    requires n <= |b| && DecodeVarint(b).Value? && DecodeVarint(b).length <= n
    ensures DecodeVarint(b[..n]) == DecodeVarint(b)
  {
    hide VarintFrom;
    var p := DecodeVarint(b).length;
    PrefixOwnBytes(b, 0, 0, 1);
    assert b[..n][..p] == b[..p];
    PrefixFound(b[..n], p);
  }

  /** The payload reader takes exactly one payload from the front. */
  lemma PayloadExact(
    snappy: Snappy, limit: nat, budget: nat, allowance: nat, b: bytes, raw: bytes, n: nat)
    ensures PayloadAt(snappy, limit, budget, allowance, b) == Some((raw, n)) <==>
              n <= |b| && n <= allowance && |raw| <= budget && SpellsPayload(snappy, limit, b[..n], raw)
  {
    hide Run;
    hide VarintFrom;
    if n <= |b| {
      ScanInPrefix(snappy, limit, b, n);
      var a := b[..n];
      ScanHeader(snappy, limit, b);
      ScanHeader(snappy, limit, a);
      var p := DecodeVarint(a);
      if p.Value? && p.length <= n { assert a[p.length..] == b[p.length..n]; }
    }
  }

  /** A completed scan has the decoded prefix as its header, within the limit. */
  lemma ScanHeader(snappy: Snappy, limit: nat, b: bytes)
    ensures var (s, r) := Advanced(snappy, limit, START, b);
            r.Done? ==>
              && DecodeVarint(b).Value? && DecodeVarint(b).value <= limit
              && s.header == Some((DecodeVarint(b).value, DecodeVarint(b).length))
              && DecodeVarint(b).length <= r.consumed
  {
    hide Run;
    hide VarintFrom;
    var p := DecodeVarint(b);
    if p.Value? && p.value <= limit {
      var s := START.(header := Some((p.value, p.length)), offset := p.length, decoded := 0);
      RunMovesForward(snappy, s, b);
      DoneAtOffset(snappy, s, b);
    }
  }

  // ---- One chunk ----

  /** All of `b` is one chunk with this result code: the code, four bytes of context for a success of a
      protocol that has one, and a payload of at most the protocol's limit, or 256 bytes for an error. */
  ghost predicate SpellsChunk(snappy: Snappy, protocol: Protocol, code: byte, b: bytes, chunk: Chunk) {
    var c := if code == 0 && protocol.hasContext then 4 else 0;
    && |b| >= 1 + c && b[0] == code
    && chunk.context == (if c == 4 then Some(b[1..5]) else None)
    && SpellsPayload(snappy, if code == 0 then protocol.payloadLimit else 256, b[1 + c..], chunk.payload)
  }

  lemma ChunkExact(
    snappy: Snappy, protocol: Protocol, code: byte, budget: nat, wire: nat, rest: bytes, chunk: Chunk, n: nat)
    requires wire < MAX_WIRE
    ensures ChunkAt(snappy, protocol, code, budget, wire + 1, rest) == Some((chunk, n)) <==>
              && n <= |rest| && wire + 1 + n <= WIRE_LIMIT && |chunk.payload| <= budget
              && SpellsChunk(snappy, protocol, code, [code] + rest[..n], chunk)
  {
    hide PayloadAt;
    hide SpellsPayload;
    var c := ContextLen(protocol, code);
    if wire + 1 + c <= MAX_WIRE && c <= n <= |rest| {
      PayloadExact(snappy, PayloadLimit(protocol, code), budget, MAX_WIRE - wire - 1 - c, rest[c..], chunk.payload,
                   n - c);
      var b := [code] + rest[..n];
      assert b[1 + c..] == rest[c..][..n - c];
      assert c == 4 ==> b[1..5] == rest[..4];
    }
    if ChunkAt(snappy, protocol, code, budget, wire + 1, rest).Some? {
      var (raw, m) := PayloadAt(snappy, PayloadLimit(protocol, code), budget, MAX_WIRE - wire - 1 - c, rest[c..]).value;
      PayloadExact(snappy, PayloadLimit(protocol, code), budget, MAX_WIRE - wire - 1 - c, rest[c..], raw, m);
    }
  }

  // ---- A whole response ----

  /** All of `b` is these success chunks, one after the other. */
  ghost predicate SpellsAll(snappy: Snappy, protocol: Protocol, b: bytes, chunks: seq<Chunk>)
    decreases |chunks|
  {
    if chunks == [] then b == []
    else exists n: nat :: n <= |b| && SpellsFirst(snappy, protocol, 0, b, n, chunks[0])
                          && SpellsAll(snappy, protocol, b[n..], chunks[1..])
  }

  ghost predicate SpellsFirst(snappy: Snappy, protocol: Protocol, code: byte, b: bytes, n: nat, chunk: Chunk)
    requires n <= |b|
  {
    SpellsChunk(snappy, protocol, code, b[..n], chunk)
  }

  /** The first `total` bytes are these success chunks and then an error reply; nothing follows it on a
      stream of many chunks. */
  ghost predicate SpellsError(
    snappy: Snappy, protocol: Protocol, b: bytes, before: seq<Chunk>, code: byte, message: bytes, total: nat)
    decreases |before|
  {
    if before == [] then
      && code != 0 && total <= |b| && SpellsFirst(snappy, protocol, code, b, total, Chunk(None, message))
      && (protocol.multi ==> total == |b|)
    else exists n: nat :: n <= |b| && n <= total && SpellsFirst(snappy, protocol, 0, b, n, before[0])
                          && SpellsError(snappy, protocol, b[n..], before[1..], code, message, total - n)
  }

  /** What the reader's first step finds. */
  lemma FirstExact(
    snappy: Snappy, protocol: Protocol, code: byte, budget: nat, wire: nat, b: bytes, chunk: Chunk, n: nat)
    requires wire < MAX_WIRE && b != [] && b[0] == code
    ensures ChunkAt(snappy, protocol, code, budget, wire + 1, b[1..]) == Some((chunk, n)) <==>
              && 1 + n <= |b| && wire + 1 + n <= WIRE_LIMIT && |chunk.payload| <= budget
              && SpellsFirst(snappy, protocol, code, b, 1 + n, chunk)
  {
    hide SpellsChunk;
    hide ChunkAt;
    ChunkExact(snappy, protocol, code, budget, wire, b[1..], chunk, n);
    if 1 + n <= |b| { assert [code] + b[1..][..n] == b[..1 + n]; }
  }

  lemma FirstStarts(snappy: Snappy, protocol: Protocol, code: byte, b: bytes, n: nat, chunk: Chunk)
    requires n <= |b| && SpellsFirst(snappy, protocol, code, b, n, chunk)
    ensures n >= 1 && b[0] == code
  {
  }

  /** Success chunks to the end of the stream. */
  lemma {:induction false} ChunksExact(
    snappy: Snappy, protocol: Protocol, maxChunks: nat, maxDecoded: nat, wire: nat, got: seq<Chunk>, rest: bytes,
    more: seq<Chunk>)
    requires |got| <= maxChunks && PayloadBytes(got) <= maxDecoded && wire <= MAX_WIRE && protocol.multi
    ensures ResponseAt(snappy, protocol, maxChunks, maxDecoded, wire, got, rest) == Some(Chunks(got + more)) <==>
              && SpellsAll(snappy, protocol, rest, more) && |got + more| <= maxChunks
              && PayloadBytes(got + more) <= maxDecoded && wire + |rest| <= WIRE_LIMIT
    decreases |rest|
  {
    hide ChunkAt;
    hide SpellsFirst;
    hide PayloadBytes;
    if more == [] {
      assert got + more == got;
      if rest != [] { ResponseGrows(snappy, protocol, maxChunks, maxDecoded, wire, got, rest); }
    } else {
      var chunk := more[0];
      var next := got + [chunk];
      assert got + more == next + more[1..];
      PayloadBytesSnoc(got, chunk);
      PayloadBytesPrefix(next, more[1..]);
      forall n: nat | n <= |rest| && SpellsFirst(snappy, protocol, 0, rest, n, chunk) ensures n >= 1 && rest[0] == 0 {
        FirstStarts(snappy, protocol, 0, rest, n, chunk);
      }
      if rest != [] && rest[0] == 0 && wire < MAX_WIRE && |got| < maxChunks {
        ChunksStep(snappy, protocol, maxChunks, maxDecoded, wire, got, rest, more);
      }
    }
  }

  lemma {:induction false} PayloadBytesPrefix(a: seq<Chunk>, b: seq<Chunk>)
    ensures PayloadBytes(a) <= PayloadBytes(a + b)
    decreases |a|
  {
    if a != [] {
      assert (a + b)[1..] == a[1..] + b;
      PayloadBytesPrefix(a[1..], b);
    }
  }

  /** Reading on never gives fewer or other chunks than those read already, and not the same ones. */
  lemma {:induction false} ResponseGrows(
    snappy: Snappy, protocol: Protocol, maxChunks: nat, maxDecoded: nat, wire: nat, got: seq<Chunk>, rest: bytes)
    ensures var r := ResponseAt(snappy, protocol, maxChunks, maxDecoded, wire, got, rest);
            r.Some? && r.value.Chunks? ==>
              && got <= r.value.chunks && (rest != [] ==> |got| < |r.value.chunks|)
              && (rest != [] ==> |r.value.chunks| <= maxChunks)
    decreases |rest|
  {
    hide ChunkAt;
    hide PayloadBytes;
    if rest != [] && rest[0] == SUCCESS_CODE && wire < MAX_WIRE && |got| < maxChunks {
      var budget := SaturatingSub(maxDecoded, PayloadBytes(got));
      var found := ChunkAt(snappy, protocol, SUCCESS_CODE, budget, wire + 1, rest[1..]);
      if found.Some? {
        var (chunk, n) := found.value;
        ResponseGrows(snappy, protocol, maxChunks, maxDecoded, wire + 1 + n, got + [chunk], rest[1 + n..]);
      }
    }
  }

  lemma OtherChunk(got: seq<Chunk>, c: Chunk, more: seq<Chunk>)
    requires more != [] && c != more[0]
    ensures !(got + [c] <= got + more)
  {
    assert (got + more)[|got|] == more[0] && (got + [c])[|got|] == c;
  }

  lemma {:induction false} ChunksStep(
    snappy: Snappy, protocol: Protocol, maxChunks: nat, maxDecoded: nat, wire: nat, got: seq<Chunk>, rest: bytes,
    more: seq<Chunk>)
    requires |got| < maxChunks && PayloadBytes(got) <= maxDecoded && wire < MAX_WIRE && protocol.multi
    requires rest != [] && rest[0] == 0 && more != []
    ensures ResponseAt(snappy, protocol, maxChunks, maxDecoded, wire, got, rest) == Some(Chunks(got + more)) <==>
              && SpellsAll(snappy, protocol, rest, more) && |got + more| <= maxChunks
              && PayloadBytes(got + more) <= maxDecoded && wire + |rest| <= WIRE_LIMIT
    decreases |rest|, 0
  {
    hide ChunkAt;
    hide SpellsFirst;
    hide PayloadBytes;
    hide ResponseAt;
    hide SpellsAll;
    var chunk := more[0];
    var next := got + [chunk];
    assert got + more == next + more[1..];
    PayloadBytesSnoc(got, chunk);
    PayloadBytesPrefix(next, more[1..]);
    ResponseUnfolds(snappy, protocol, maxChunks, maxDecoded, wire, got, rest);
    var budget := SaturatingSub(maxDecoded, PayloadBytes(got));
    var found := ChunkAt(snappy, protocol, SUCCESS_CODE, budget, wire + 1, rest[1..]);
    if && SpellsAll(snappy, protocol, rest, more)
       && PayloadBytes(got + more) <= maxDecoded && wire + |rest| <= WIRE_LIMIT
    {
      var n := FirstOf(snappy, protocol, rest, more);
      FirstExact(snappy, protocol, 0, budget, wire, rest, chunk, n - 1);
      ChunksExact(snappy, protocol, maxChunks, maxDecoded, wire + n, next, rest[n..], more[1..]);
    } else if found.Some? && found.value.0 == chunk {
      var n := found.value.1;
      FirstExact(snappy, protocol, 0, budget, wire, rest, chunk, n);
      ChunksExact(snappy, protocol, maxChunks, maxDecoded, wire + 1 + n, next, rest[1 + n..], more[1..]);
      SpellsMore(snappy, protocol, rest, 1 + n, more);
    } else if found.Some? {
      var (c, n) := found.value;
      FirstExact(snappy, protocol, 0, budget, wire, rest, c, n);
      ResponseGrows(snappy, protocol, maxChunks, maxDecoded, wire + 1 + n, got + [c], rest[1 + n..]);
      OtherChunk(got, c, more);
    }
  }

  lemma ResponseUnfolds(
    snappy: Snappy, protocol: Protocol, maxChunks: nat, maxDecoded: nat, wire: nat, got: seq<Chunk>, rest: bytes)
    requires |got| < maxChunks && wire < MAX_WIRE && protocol.multi && rest != [] && rest[0] == 0
    ensures var budget := SaturatingSub(maxDecoded, PayloadBytes(got));
            var found := ChunkAt(snappy, protocol, SUCCESS_CODE, budget, wire + 1, rest[1..]);
            ResponseAt(snappy, protocol, maxChunks, maxDecoded, wire, got, rest)
            == if found.None? then None
               else ResponseAt(snappy, protocol, maxChunks, maxDecoded, wire + 1 + found.value.1,
                               got + [found.value.0], rest[1 + found.value.1..])
  {
    hide ChunkAt;
  }

  lemma SpellsMore(snappy: Snappy, protocol: Protocol, b: bytes, n: nat, chunks: seq<Chunk>)
    requires chunks != [] && n <= |b| && SpellsFirst(snappy, protocol, 0, b, n, chunks[0])
    ensures SpellsAll(snappy, protocol, b[n..], chunks[1..]) ==> SpellsAll(snappy, protocol, b, chunks)
  {
    hide SpellsFirst;
  }

  lemma FirstOf(snappy: Snappy, protocol: Protocol, b: bytes, chunks: seq<Chunk>) returns (n: nat)
    requires chunks != [] && SpellsAll(snappy, protocol, b, chunks)
    ensures 1 <= n <= |b| && b[0] == 0 && SpellsFirst(snappy, protocol, 0, b, n, chunks[0])
    ensures SpellsAll(snappy, protocol, b[n..], chunks[1..])
  {
    hide SpellsFirst;
    n :| n <= |b| && SpellsFirst(snappy, protocol, 0, b, n, chunks[0])
         && SpellsAll(snappy, protocol, b[n..], chunks[1..]);
    FirstStarts(snappy, protocol, 0, b, n, chunks[0]);
  }

  /** An error reply after some success chunks. */
  lemma {:induction false} ErrorExact(
    snappy: Snappy, protocol: Protocol, maxChunks: nat, maxDecoded: nat, wire: nat, got: seq<Chunk>, rest: bytes,
    code: byte, message: bytes)
    requires |got| <= maxChunks && PayloadBytes(got) <= maxDecoded && wire <= MAX_WIRE
    ensures ResponseAt(snappy, protocol, maxChunks, maxDecoded, wire, got, rest) == Some(ErrorReply(code, message)) <==>
              exists before: seq<Chunk>, total: nat ::
                ErrorWithin(snappy, protocol, maxChunks, maxDecoded, wire, got, rest, code, message, before, total)
    decreases |rest|
  {
    hide ChunkAt;
    hide SpellsFirst;
    hide PayloadBytes;
    hide ErrorWithin;
    if rest == [] || wire >= MAX_WIRE {
      forall before: seq<Chunk>, total: nat
        ensures !ErrorWithin(snappy, protocol, maxChunks, maxDecoded, wire, got, rest, code, message, before, total)
      {
        ErrorNotEmpty(snappy, protocol, maxChunks, maxDecoded, wire, got, rest, code, message, before, total);
      }
    } else if rest[0] != SUCCESS_CODE {
      ErrorHere(snappy, protocol, maxChunks, maxDecoded, wire, got, rest, code, message);
    } else {
      ErrorLater(snappy, protocol, maxChunks, maxDecoded, wire, got, rest, code, message);
    }
  }

  /** The error reply ends `total` bytes on, after the chunks `before`, within every limit. */
  ghost predicate ErrorWithin(
    snappy: Snappy, protocol: Protocol, maxChunks: nat, maxDecoded: nat, wire: nat, got: seq<Chunk>, rest: bytes,
    code: byte, message: bytes, before: seq<Chunk>, total: nat)
  {
    && SpellsError(snappy, protocol, rest, before, code, message, total)
    && (protocol.multi || before == []) && |got + before| <= maxChunks && PayloadBytes(got + before) <= maxDecoded
    && |message| <= maxDecoded && wire + total <= WIRE_LIMIT
  }

  lemma ErrorNotEmpty(
    snappy: Snappy, protocol: Protocol, maxChunks: nat, maxDecoded: nat, wire: nat, got: seq<Chunk>, rest: bytes,
    code: byte, message: bytes, before: seq<Chunk>, total: nat)
    ensures ErrorWithin(snappy, protocol, maxChunks, maxDecoded, wire, got, rest, code, message, before, total) ==>
              rest != [] && wire < MAX_WIRE && (rest[0] == 0 <==> before != [])
  {
    hide SpellsFirst;
    if ErrorWithin(snappy, protocol, maxChunks, maxDecoded, wire, got, rest, code, message, before, total) {
      if before == [] {
        FirstStarts(snappy, protocol, code, rest, total, Chunk(None, message));
      } else {
        var n: nat :| n <= |rest| && n <= total && SpellsFirst(snappy, protocol, 0, rest, n, before[0])
                      && SpellsError(snappy, protocol, rest[n..], before[1..], code, message, total - n);
        FirstStarts(snappy, protocol, 0, rest, n, before[0]);
      }
    }
  }

  lemma ErrorHere(
    snappy: Snappy, protocol: Protocol, maxChunks: nat, maxDecoded: nat, wire: nat, got: seq<Chunk>, rest: bytes,
    code: byte, message: bytes)
    requires |got| <= maxChunks && PayloadBytes(got) <= maxDecoded
    requires rest != [] && wire < MAX_WIRE && rest[0] != SUCCESS_CODE
    ensures ResponseAt(snappy, protocol, maxChunks, maxDecoded, wire, got, rest) == Some(ErrorReply(code, message)) <==>
              exists before: seq<Chunk>, total: nat ::
                ErrorWithin(snappy, protocol, maxChunks, maxDecoded, wire, got, rest, code, message, before, total)
  {
    hide ChunkAt;
    hide SpellsFirst;
    hide PayloadBytes;
    var found := ChunkAt(snappy, protocol, rest[0], maxDecoded, wire + 1, rest[1..]);
    if ResponseAt(snappy, protocol, maxChunks, maxDecoded, wire, got, rest) == Some(ErrorReply(code, message)) {
      var (chunk, n) := found.value;
      FirstExact(snappy, protocol, rest[0], maxDecoded, wire, rest, chunk, n);
      ErrorHasNoContext(snappy, protocol, rest[0], rest, 1 + n, chunk);
      assert got + [] == got;
      assert ErrorWithin(snappy, protocol, maxChunks, maxDecoded, wire, got, rest, code, message, [], 1 + n);
    }
    forall before: seq<Chunk>, total: nat |
      ErrorWithin(snappy, protocol, maxChunks, maxDecoded, wire, got, rest, code, message, before, total)
      ensures ResponseAt(snappy, protocol, maxChunks, maxDecoded, wire, got, rest) == Some(ErrorReply(code, message))
    {
      ErrorNotEmpty(snappy, protocol, maxChunks, maxDecoded, wire, got, rest, code, message, before, total);
      FirstStarts(snappy, protocol, code, rest, total, Chunk(None, message));
      FirstExact(snappy, protocol, code, maxDecoded, wire, rest, Chunk(None, message), total - 1);
    }
  }

  lemma ErrorHasNoContext(snappy: Snappy, protocol: Protocol, code: byte, b: bytes, n: nat, chunk: Chunk)
    requires n <= |b| && SpellsFirst(snappy, protocol, code, b, n, chunk) && code != 0
    ensures chunk == Chunk(None, chunk.payload)
  {
  }

  lemma {:induction false} ErrorLater(
    snappy: Snappy, protocol: Protocol, maxChunks: nat, maxDecoded: nat, wire: nat, got: seq<Chunk>, rest: bytes,
    code: byte, message: bytes)
    requires |got| <= maxChunks && PayloadBytes(got) <= maxDecoded
    requires rest != [] && wire < MAX_WIRE && rest[0] == SUCCESS_CODE
    ensures ResponseAt(snappy, protocol, maxChunks, maxDecoded, wire, got, rest) == Some(ErrorReply(code, message)) <==>
              exists before: seq<Chunk>, total: nat ::
                ErrorWithin(snappy, protocol, maxChunks, maxDecoded, wire, got, rest, code, message, before, total)
    decreases |rest|, 0
  {
    hide ChunkAt;
    hide SpellsFirst;
    hide PayloadBytes;
    hide ErrorWithin;
    var budget := SaturatingSub(maxDecoded, PayloadBytes(got));
    var found := ChunkAt(snappy, protocol, SUCCESS_CODE, budget, wire + 1, rest[1..]);
    if |got| < maxChunks && found.Some? && protocol.multi {
      var (chunk, n) := found.value;
      FirstExact(snappy, protocol, 0, budget, wire, rest, chunk, n);
      PayloadBytesSnoc(got, chunk);
      ErrorExact(snappy, protocol, maxChunks, maxDecoded, wire + 1 + n, got + [chunk], rest[1 + n..], code, message);
      if ResponseAt(snappy, protocol, maxChunks, maxDecoded, wire, got, rest) == Some(ErrorReply(code, message)) {
        var before: seq<Chunk>, total: nat :|
          ErrorWithin(snappy, protocol, maxChunks, maxDecoded, wire + 1 + n, got + [chunk], rest[1 + n..], code,
                      message, before, total);
        ErrorPrepended(snappy, protocol, maxChunks, maxDecoded, wire, got, rest, code, message, before, total, chunk,
                       1 + n);
      }
    }
    forall before: seq<Chunk>, total: nat |
      ErrorWithin(snappy, protocol, maxChunks, maxDecoded, wire, got, rest, code, message, before, total)
      ensures ResponseAt(snappy, protocol, maxChunks, maxDecoded, wire, got, rest) == Some(ErrorReply(code, message))
    {
      var n := ErrorTail(snappy, protocol, maxChunks, maxDecoded, wire, got, rest, code, message, before, total);
      FirstExact(snappy, protocol, 0, budget, wire, rest, before[0], n - 1);
    }
  }

  lemma ErrorPrepended(
    snappy: Snappy, protocol: Protocol, maxChunks: nat, maxDecoded: nat, wire: nat, got: seq<Chunk>, rest: bytes,
    code: byte, message: bytes, before: seq<Chunk>, total: nat, chunk: Chunk, n: nat)
    requires n <= |rest| && protocol.multi && SpellsFirst(snappy, protocol, 0, rest, n, chunk)
    requires ErrorWithin(snappy, protocol, maxChunks, maxDecoded, wire + n, got + [chunk], rest[n..], code,
                         message, before, total)
    ensures ErrorWithin(snappy, protocol, maxChunks, maxDecoded, wire, got, rest, code, message,
                        [chunk] + before, total + n)
  {
    hide SpellsFirst;
    hide PayloadBytes;
    var all := [chunk] + before;
    assert all[1..] == before && got + all == got + [chunk] + before;
    assert SpellsError(snappy, protocol, rest[n..], all[1..], code, message, total + n - n);
  }

  lemma ErrorTail(
    snappy: Snappy, protocol: Protocol, maxChunks: nat, maxDecoded: nat, wire: nat, got: seq<Chunk>, rest: bytes,
    code: byte, message: bytes, before: seq<Chunk>, total: nat) returns (n: nat)
    requires PayloadBytes(got) <= maxDecoded && rest != [] && wire < MAX_WIRE && rest[0] == SUCCESS_CODE
    requires ErrorWithin(snappy, protocol, maxChunks, maxDecoded, wire, got, rest, code, message, before, total)
    ensures before != [] && protocol.multi && 1 <= n <= |rest| && n <= total && |got| < maxChunks
    ensures SpellsFirst(snappy, protocol, 0, rest, n, before[0]) && wire + n <= WIRE_LIMIT
    ensures PayloadBytes(got) + |before[0].payload| <= maxDecoded
    ensures ErrorWithin(snappy, protocol, maxChunks, maxDecoded, wire + n, got + [before[0]], rest[n..], code,
                        message, before[1..], total - n)
  {
    hide SpellsFirst;
    hide PayloadBytes;
    ErrorNotEmpty(snappy, protocol, maxChunks, maxDecoded, wire, got, rest, code, message, before, total);
    n :| n <= |rest| && n <= total && SpellsFirst(snappy, protocol, 0, rest, n, before[0])
         && SpellsError(snappy, protocol, rest[n..], before[1..], code, message, total - n);
    FirstStarts(snappy, protocol, 0, rest, n, before[0]);
    assert got + before == got + [before[0]] + before[1..];
    PayloadBytesSnoc(got, before[0]);
    PayloadBytesPrefix(got + [before[0]], before[1..]);
  }

  /** A byte string is read as a response if and only if it spells it within the limits: the chunks of a
      stream to its end, one chunk, or an error reply after chunks that it replaces. */
  lemma ResponseExact(
    snappy: Snappy, protocol: Protocol, maxChunks: nat, maxDecoded: nat, rest: bytes, r: Response)
    ensures ResponseAt(snappy, protocol, maxChunks, maxDecoded, 0, [], rest) == Some(r) <==>
              match r
              case Chunks(chunks) =>
                && protocol.multi && SpellsAll(snappy, protocol, rest, chunks) && |chunks| <= maxChunks
                && PayloadBytes(chunks) <= maxDecoded && |rest| <= WIRE_LIMIT
              case Single(chunk) =>
                && !protocol.multi && maxChunks > 0 && |chunk.payload| <= maxDecoded
                && exists n: nat :: n <= |rest| && n <= WIRE_LIMIT && SpellsFirst(snappy, protocol, 0, rest, n, chunk)
              case ErrorReply(code, message) =>
                exists before: seq<Chunk>, total: nat ::
                  ErrorWithin(snappy, protocol, maxChunks, maxDecoded, 0, [], rest, code, message, before, total)
  {
    hide ChunkAt;
    hide SpellsFirst;
    hide SpellsAll;
    hide ErrorWithin;
    match r
    case Chunks(chunks) =>
      if protocol.multi {
        ChunksExact(snappy, protocol, maxChunks, maxDecoded, 0, [], rest, chunks);
        assert [] + chunks == chunks;
      } else {
        SingleOnly(snappy, protocol, maxChunks, maxDecoded, rest);
      }
    case Single(chunk) => SingleExact(snappy, protocol, maxChunks, maxDecoded, rest, chunk);
    case ErrorReply(code, message) => ErrorExact(snappy, protocol, maxChunks, maxDecoded, 0, [], rest, code, message);
  }

  lemma SingleOnly(snappy: Snappy, protocol: Protocol, maxChunks: nat, maxDecoded: nat, rest: bytes)
    requires !protocol.multi
    ensures var r := ResponseAt(snappy, protocol, maxChunks, maxDecoded, 0, [], rest); r.Some? ==> !r.value.Chunks?
  {
    hide ChunkAt;
  }

  lemma {:induction false} ManyOnly(
    snappy: Snappy, protocol: Protocol, maxChunks: nat, maxDecoded: nat, wire: nat, got: seq<Chunk>, rest: bytes)
    requires protocol.multi
    ensures var r := ResponseAt(snappy, protocol, maxChunks, maxDecoded, wire, got, rest); r.Some? ==> !r.value.Single?
    decreases |rest|
  {
    hide ChunkAt;
    if rest != [] && rest[0] == SUCCESS_CODE {
      var budget := SaturatingSub(maxDecoded, PayloadBytes(got));
      var found := ChunkAt(snappy, protocol, SUCCESS_CODE, budget, wire + 1, rest[1..]);
      if found.Some? {
        var (chunk, n) := found.value;
        ManyOnly(snappy, protocol, maxChunks, maxDecoded, wire + 1 + n, got + [chunk], rest[1 + n..]);
      }
    }
  }

  lemma SingleExact(
    snappy: Snappy, protocol: Protocol, maxChunks: nat, maxDecoded: nat, rest: bytes, chunk: Chunk)
    ensures ResponseAt(snappy, protocol, maxChunks, maxDecoded, 0, [], rest) == Some(Single(chunk)) <==>
              && !protocol.multi && maxChunks > 0 && |chunk.payload| <= maxDecoded
              && exists n: nat :: n <= |rest| && n <= WIRE_LIMIT && SpellsFirst(snappy, protocol, 0, rest, n, chunk)
  {
    hide ChunkAt;
    hide SpellsFirst;
    if protocol.multi {
      ManyOnly(snappy, protocol, maxChunks, maxDecoded, 0, [], rest);
    } else {
      if ResponseAt(snappy, protocol, maxChunks, maxDecoded, 0, [], rest) == Some(Single(chunk)) {
        var (c, n) := ChunkAt(snappy, protocol, SUCCESS_CODE, maxDecoded, 1, rest[1..]).value;
        FirstExact(snappy, protocol, 0, maxDecoded, 0, rest, c, n);
        assert SpellsFirst(snappy, protocol, 0, rest, 1 + n, chunk);
      }
      forall n: nat | n <= |rest| && n <= WIRE_LIMIT && SpellsFirst(snappy, protocol, 0, rest, n, chunk)
        ensures rest != [] && rest[0] == 0
        ensures |chunk.payload| <= maxDecoded ==>
                  ChunkAt(snappy, protocol, 0, maxDecoded, 1, rest[1..]) == Some((chunk, n - 1))
      {
        FirstStarts(snappy, protocol, 0, rest, n, chunk);
        FirstExact(snappy, protocol, 0, maxDecoded, 0, rest, chunk, n - 1);
      }
    }
  }
}
