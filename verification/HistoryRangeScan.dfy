/** The bounded backward search for a missing parent: windows move down from the child slot
    to the checkpoint, each consumed from its lower end. */
module HistoryRangeScan {
  import opened Bytes

  const MAX_SCAN_BATCH: u64 := 128

  datatype Request = Request(start: u64, count: u64, step: u64)

  datatype Scan = Scan(checkpoint: u64, batchLimit: u64, windowStart: u64, windowEnd: u64, nextStart: Option<u64>)

  datatype Progress = Continue | Exhausted | UnexpectedRequest | LastSlotOutsideRequest

  predicate BatchOk(limit: u64) {
    1 <= limit <= MAX_SCAN_BATCH
  }

  predicate Valid(s: Scan) {
    && BatchOk(s.batchLimit) && s.checkpoint <= s.windowStart
    && match s.nextStart
       case Some(next) => s.windowStart <= next < s.windowEnd
       case None => s.windowStart == s.checkpoint
  }

  /** Slots still to be asked for: below the window, and from the cursor to the window's end. */
  predicate Remaining(s: Scan, slot: nat) {
    s.nextStart.Some? && (s.checkpoint <= slot < s.windowStart || s.nextStart.value <= slot < s.windowEnd)
  }

  function RemainingCount(s: Scan): nat
    requires Valid(s)
  {
    if s.nextStart.None? then 0
    else (s.windowStart as int - s.checkpoint as int) + (s.windowEnd as int - s.nextStart.value as int)
  }

  function WindowStart(end: u64, batchLimit: u64, checkpoint: u64): u64 {
    Max(SaturatingSub(end, batchLimit), checkpoint)
  }

  function New(child: u64, checkpoint: u64, batchLimit: u64): Option<Scan> {
    if child <= checkpoint || !BatchOk(batchLimit) then None
    else
      var start := WindowStart(child, batchLimit, checkpoint);
      Some(Scan(checkpoint, batchLimit, start, child, Some(start)))
  }

  function NextRequest(s: Scan, batchLimit: u64): Option<Request>
    requires Valid(s)
  {
    if !BatchOk(batchLimit) || s.nextStart.None? then None
    else Some(Request(s.nextStart.value, Min(s.windowEnd - s.nextStart.value, batchLimit), 1))
  }

  /** The request is a contiguous bounded prefix at the cursor. */
  predicate Expected(s: Scan, r: Request) {
    && s.nextStart == Some(r.start) && r.step == 1 && BatchOk(r.count)
    && r.count <= SaturatingSub(s.windowEnd, r.start)
  }

  /** End of the slots that a response to the request accounts for. */
  function ConsumedEnd(r: Request, last: Option<u64>): nat {
    if last.Some? then last.value + 1 else r.start + r.count
  }

  predicate Accepted(s: Scan, r: Request, last: Option<u64>) {
    Expected(s, r) && (last.Some? ==> r.start <= last.value < r.start + r.count)
  }

  function Advanced(s: Scan, r: Request, last: Option<u64>): Scan
    requires Valid(s)
  {
    if !Accepted(s, r, last) then s
    else
      var next := ConsumedEnd(r, last);
      if next < s.windowEnd then s.(nextStart := Some(next))
      else if s.windowStart == s.checkpoint then s.(nextStart := None)
      else
        var start := WindowStart(s.windowStart, s.batchLimit, s.checkpoint);
        s.(windowStart := start, windowEnd := s.windowStart, nextStart := Some(start))
  }

  /** Each accepted response removes exactly its own slots, at least one, and keeps the scan valid. */
  lemma AdvanceConsumes(s: Scan, r: Request, last: Option<u64>, slot: nat)
    requires Valid(s)
    ensures Valid(Advanced(s, r, last))
    ensures Accepted(s, r, last) ==>
              && r.start < ConsumedEnd(r, last) <= r.start + r.count < U64_LIMIT
              && RemainingCount(Advanced(s, r, last)) == RemainingCount(s) - (ConsumedEnd(r, last) - r.start)
              && (r.start <= slot < ConsumedEnd(r, last) ==>
                    Remaining(s, slot) && !Remaining(Advanced(s, r, last), slot))
              && (!(r.start <= slot < ConsumedEnd(r, last)) ==>
                    (Remaining(s, slot) <==> Remaining(Advanced(s, r, last), slot)))
  {
  }

  // ---- Runs ----

  datatype Response = Response(request: Request, last: Option<u64>)

  function Final(s: Scan, responses: seq<Response>): Scan
    requires Valid(s)
    decreases |responses|
  {
    if responses == [] then s
    else
      AdvanceConsumes(s, responses[0].request, responses[0].last, 0);
      Final(Advanced(s, responses[0].request, responses[0].last), responses[1..])
  }

  /** A response accounts for the slots up to the last one returned, or for all it asked for if it is empty. */
  predicate AccountsFor(r: Request, last: Option<u64>, slot: nat) {
    r.start <= slot && (if last.Some? then slot <= last.value else slot < r.start + r.count)
  }

  /** How many accepted responses account for the slot. */
  function TimesConsumed(s: Scan, responses: seq<Response>, slot: nat): nat
    requires Valid(s)
    decreases |responses|
  {
    if responses == [] then 0
    else
      var (r, last) := (responses[0].request, responses[0].last);
      AdvanceConsumes(s, r, last, 0);
      (if Accepted(s, r, last) && AccountsFor(r, last, slot) then 1 else 0)
      + TimesConsumed(Advanced(s, r, last), responses[1..], slot)
  }

  function AcceptedCount(s: Scan, responses: seq<Response>): nat
    requires Valid(s)
    decreases |responses|
  {
    if responses == [] then 0
    else
      var (r, last) := (responses[0].request, responses[0].last);
      AdvanceConsumes(s, r, last, 0);
      (if Accepted(s, r, last) then 1 else 0) + AcceptedCount(Advanced(s, r, last), responses[1..])
  }

  /** Over any responses, accepted or not, a slot is consumed once or still remaining, never both,
      and the number of accepted responses is bounded by the slots. */
  lemma {:induction false} RunConsumes(s: Scan, responses: seq<Response>, slot: nat)
    requires Valid(s)
    ensures Valid(Final(s, responses)) && Final(s, responses).checkpoint == s.checkpoint
    ensures TimesConsumed(s, responses, slot) + (if Remaining(Final(s, responses), slot) then 1 else 0)
            == if Remaining(s, slot) then 1 else 0
    ensures AcceptedCount(s, responses) + RemainingCount(Final(s, responses)) <= RemainingCount(s)
    decreases |responses|
  {
    hide Accepted;
    if responses != [] {
      var (r, last) := (responses[0].request, responses[0].last);
      AdvanceConsumes(s, r, last, slot);
      AdvanceConsumes(s, r, last, 0);
      NotAcceptedUnchanged(s, r, last);
      RunConsumes(Advanced(s, r, last), responses[1..], slot);
    }
  }

  lemma NotAcceptedUnchanged(s: Scan, r: Request, last: Option<u64>)
    requires Valid(s)
    ensures !Accepted(s, r, last) ==> Advanced(s, r, last) == s
    ensures Advanced(s, r, last).checkpoint == s.checkpoint
  {
  }

  /** Exhaustion means exactly this: the accepted responses partition the slots from the
      checkpoint up to the child. */
  lemma ExhaustedIsPartition(child: u64, checkpoint: u64, batchLimit: u64, responses: seq<Response>)
    requires New(child, checkpoint, batchLimit).Some?
    ensures Valid(New(child, checkpoint, batchLimit).value)
    ensures var s := New(child, checkpoint, batchLimit).value;
            var final := Final(s, responses);
            && AcceptedCount(s, responses) <= child - checkpoint
            && (final.nextStart.None? <==>
                  forall slot: nat :: TimesConsumed(s, responses, slot) == if checkpoint <= slot < child then 1 else 0)
  {
    var s := New(child, checkpoint, batchLimit).value;
    var final := Final(s, responses);
    RunConsumes(s, responses, 0);
    forall slot: nat
      ensures TimesConsumed(s, responses, slot) + (if Remaining(final, slot) then 1 else 0)
              == if checkpoint <= slot < child then 1 else 0
    {
      RunConsumes(s, responses, slot);
    }
    if final.nextStart.Some? {
      var n: nat := final.nextStart.value;
      assert Remaining(final, n);
      assert TimesConsumed(s, responses, n) == 0;
    }
  }

  /** The window has exactly `batchLimit` slots, or all that are left down to the checkpoint. */
  predicate WindowFull(s: Scan) {
    && s.windowStart < s.windowEnd
    && (|| s.windowEnd - s.windowStart == s.batchLimit
        || (s.windowStart == s.checkpoint && s.windowEnd - s.windowStart < s.batchLimit))
  }

  /** Either the window is the same, or every slot of `later` lies below every slot of `earlier`. */
  predicate Below(later: Scan, earlier: Scan) {
    || (later.windowStart == earlier.windowStart && later.windowEnd == earlier.windowEnd)
    || later.windowEnd <= earlier.windowStart
  }

  lemma WindowStep(s: Scan, r: Request, last: Option<u64>)
    requires Valid(s) && WindowFull(s)
    ensures var next := Advanced(s, r, last);
            && WindowFull(next) && next.batchLimit == s.batchLimit && next.checkpoint == s.checkpoint
            && next.windowEnd in {s.windowEnd, s.windowStart}
            && Below(next, s)
  {
  }

  /** From any state of a scan, whatever the responses: windows are full, and later ones lie below. */
  lemma {:induction false} WindowsDescend(s: Scan, responses: seq<Response>)
    requires Valid(s) && WindowFull(s)
    ensures var final := Final(s, responses);
            WindowFull(final) && final.batchLimit == s.batchLimit && final.checkpoint == s.checkpoint && Below(final, s)
    decreases |responses|
  {
    if responses != [] {
      var (r, last) := (responses[0].request, responses[0].last);
      AdvanceConsumes(s, r, last, 0);
      WindowStep(s, r, last);
      WindowsDescend(Advanced(s, r, last), responses[1..]);
    }
  }

  /** A scan starts with the window that ends at the child. */
  lemma ScanStartsFull(child: u64, checkpoint: u64, batchLimit: u64)
    ensures New(child, checkpoint, batchLimit).Some? <==> checkpoint < child && 1 <= batchLimit <= 128
    ensures New(child, checkpoint, batchLimit).Some? ==>
              var s := New(child, checkpoint, batchLimit).value;
              && Valid(s) && WindowFull(s) && s.windowEnd == child && s.nextStart == Some(s.windowStart)
              && s.checkpoint == checkpoint && s.batchLimit == batchLimit
  {
  }

  /** A request built by the scan is always one it accepts, with any reply inside it. */
  lemma OwnRequestsAccepted(s: Scan, batchLimit: u64, last: Option<u64>)
    requires Valid(s)
    ensures NextRequest(s, batchLimit).Some? <==> BatchOk(batchLimit) && s.nextStart.Some?
    ensures NextRequest(s, batchLimit).Some? ==>
              var r := NextRequest(s, batchLimit).value;
              && (Accepted(s, r, last) <==> (last.Some? ==> r.start <= last.value < r.start + r.count))
              && Some(r.start) == s.nextStart && r.count <= batchLimit && r.start + r.count <= s.windowEnd
              && (r.count == batchLimit || r.start + r.count == s.windowEnd)
  {
  }

  /** The scan object. */
  class Cursor {
    var scan: Scan

    constructor (s: Scan)
      ensures scan == s
    {
      scan := s;
    }

    method Advance(request: Request, last: Option<u64>) returns (r: Progress)
      requires Valid(scan)
      modifies this
      ensures Valid(scan) && scan == Advanced(old(scan), request, last)
      ensures r == Continue || r == Exhausted <==> Accepted(old(scan), request, last)
      ensures r == Exhausted <==> old(scan).nextStart.Some? && scan.nextStart.None?
      ensures r == UnexpectedRequest <==> !Expected(old(scan), request)
    {
      AdvanceConsumes(scan, request, last, 0);
      if scan.nextStart != Some(request.start) || request.step != 1 || !BatchOk(request.count)
         || request.count > SaturatingSub(scan.windowEnd, request.start)
      {
        return UnexpectedRequest;
      }
      var requestEnd: u64 := request.start + request.count;
      var next: u64 := requestEnd;
      if last.Some? {
        if last.value < request.start || last.value >= requestEnd { return LastSlotOutsideRequest; }
        next := last.value + 1;
      }
      if next < scan.windowEnd {
        scan := scan.(nextStart := Some(next));
        return Continue;
      }
      if scan.windowStart == scan.checkpoint {
        scan := scan.(nextStart := None);
        return Exhausted;
      }
      var end := scan.windowStart;
      var start := WindowStart(end, scan.batchLimit, scan.checkpoint);
      scan := scan.(windowStart := start, windowEnd := end, nextStart := Some(start));
      r := Continue;
    }
  }
}
