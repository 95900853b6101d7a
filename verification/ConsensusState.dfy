/** The consensus snapshot and its durable mutations: incremental updates of the anchor
    sequence and its summaries, against recomputing them from scratch. */
module ConsensusState {
  import opened Bytes
  import opened Anchors
  import LightClient
  import LightClientRuns

  /** A verified light-client store, with the execution anchors of its two headers. */
  datatype Verified = Verified(light: LightClient.Store, finalized: Option<Anchor>, optimistic: Option<Anchor>)
  {
    function BootstrapSlot(): u64 { light.bootstrapSlot }
  }

  datatype Snapshot = Snapshot(
    ordered: seq<Record>,
    gapCount: nat,
    indexed: Option<Anchor>,
    finalized: Option<Anchor>,
    optimistic: Option<Anchor>,
    store: Option<Verified>,
    checkpointSlot: Option<u64>)

  datatype Delta =
    | ReplaceAnchors(anchors: seq<Record>)
    | UpsertAnchors(anchors: seq<Record>)
    | ReplaceRange(start: u64, end: u64, anchors: seq<Record>)
    | Bootstrap(store: Verified)
    | VerifiedPatch(store: Verified)

  /** Validation of a persisted verified store against the trusted checkpoint root. */
  datatype Rules = Rules(crypto: LightClient.Crypto, root: B256)
  {
    predicate StoreOk(v: Verified, slot: Option<u64>) {
      LightClientRuns.PersistedStateOk(crypto, v.light, LightClient.TrustedCheckpoint(root, slot))
    }
  }

  // ---- Summaries from scratch ----

  function Gap(left: Record, right: Record): nat {
    if right.Block() != SaturatingAdd(left.Block(), 1) || right.parent != Some(left.anchor.root) then 1 else 0
  }

  function GapCount(s: seq<Record>): nat {
    if |s| < 2 then 0 else Gap(s[0], s[1]) + GapCount(s[1..])
  }

  function LastFinalized(s: seq<Record>): Option<Anchor> {
    if s == [] then None
    else if s[|s| - 1].finalized then Some(s[|s| - 1].anchor)
    else LastFinalized(s[..|s| - 1])
  }

  function LastAnchor(s: seq<Record>): Option<Anchor> {
    if s == [] then None else Some(s[|s| - 1].anchor)
  }

  /** Every summary derived again from the anchors and the verified store. */
  function Recomputed(s: Snapshot): Snapshot {
    s.(gapCount := GapCount(s.ordered),
       finalized := if s.store.Some? then s.store.value.finalized else LastFinalized(s.ordered),
       optimistic := if s.store.Some? then s.store.value.optimistic else LastAnchor(s.ordered))
  }

  predicate Summarized(s: Snapshot) {
    Sorted(s.ordered) && s == Recomputed(s)
  }

  // ---- Deltas, by recomputation ----

  predicate DeltaValid(d: Delta) {
    d.Bootstrap? || d.VerifiedPatch? || StrictlyIncreasing(d.anchors)
  }

  function Apply(s: Snapshot, d: Delta): Option<Snapshot> {
    if !DeltaValid(d) then None
    else Some(Recomputed(
                match d
                case ReplaceAnchors(anchors) => s.(ordered := anchors)
                case UpsertAnchors(anchors) => s.(ordered := Merge(s.ordered, anchors))
                case ReplaceRange(start, end, anchors) => s.(ordered := ReplacedRange(s.ordered, start, end, anchors))
                case Bootstrap(store) => s.(store := Some(store), checkpointSlot := Some(store.BootstrapSlot()))
                case VerifiedPatch(store) => s.(store := Some(store))))
  }

  /** A store carried by a delta passes the checks that replay will make. */
  predicate StoreAccepted(rules: Rules, s: Snapshot, d: Delta) {
    match d
    case Bootstrap(store) => rules.StoreOk(store, Some(store.BootstrapSlot()))
    case VerifiedPatch(store) => rules.StoreOk(store, s.checkpointSlot)
    case _ => true
  }

  function ApplyReplayed(rules: Rules, s: Snapshot, d: Delta): Option<Snapshot> {
    if StoreAccepted(rules, s, d) then Apply(s, d) else None
  }

  function Restore(rules: Rules, s: Snapshot): Option<Snapshot> {
    if !StrictlyIncreasing(s.ordered) then None
    else if s.store.Some? && !rules.StoreOk(s.store.value, s.checkpointSlot) then None
    else Some(Recomputed(s))
  }

  /** What every published snapshot satisfies. */
  predicate Normal(rules: Rules, s: Snapshot) {
    Summarized(s) && (s.store.Some? ==> rules.StoreOk(s.store.value, s.checkpointSlot))
  }

  /** Restoring yields a normal snapshot and leaves a normal one alone. */
  lemma RestoreIsNormal(rules: Rules, s: Snapshot)
    ensures Restore(rules, s).Some? ==> Normal(rules, Restore(rules, s).value)
    ensures Normal(rules, s) ==> Restore(rules, s) == Some(s)
  {
    AdjacentIsSorted(s.ordered);
  }

  /** A valid delta becomes durable the same way through a checkpoint as through the journal, and a
      store that replay refuses is refused by restoring too. */
  lemma CheckpointMatchesReplay(rules: Rules, s: Snapshot, d: Delta)
    requires Normal(rules, s) && DeltaValid(d)
    ensures Restore(rules, Apply(s, d).value) == ApplyReplayed(rules, s, d)
    ensures ApplyReplayed(rules, s, d).None? <==> !StoreAccepted(rules, s, d)
  {
    var after := Apply(s, d).value;
    assert StrictlyIncreasing(after.ordered) by {
      AdjacentIsSorted(after.ordered);
      OrderKept(s, d);
    }
    assert Recomputed(after) == after;
  }

  lemma OrderKept(s: Snapshot, d: Delta)
    requires Sorted(s.ordered) && DeltaValid(d)
    ensures Sorted(Apply(s, d).value.ordered)
  {
    if !d.Bootstrap? && !d.VerifiedPatch? {
      AdjacentIsSorted(d.anchors);
      match d
      case UpsertAnchors(anchors) => MergeSorted(s.ordered, anchors);
      case ReplaceRange(start, end, anchors) => ReplacedRangeMeaning(s.ordered, start, end, anchors, 0);
      case _ =>
    }
  }

  /** A valid delta applies, keeps the snapshot normal, and replays to the same snapshot. */
  lemma ApplyKeepsNormal(rules: Rules, s: Snapshot, d: Delta)
    requires Normal(rules, s) && DeltaValid(d) && StoreAccepted(rules, s, d)
    ensures Apply(s, d).Some? && Normal(rules, Apply(s, d).value)
    ensures ApplyReplayed(rules, s, d) == Apply(s, d)
  {
    OrderKept(s, d);
    hide Merge;
    hide GapCount;
    hide LastFinalized;
    hide Sorted;
  }

  // ---- Steps of a merge ----

  lemma MergeTakesOld(a: seq<Record>, b: seq<Record>)
    requires a != [] && b != [] && a[0].Block() < b[0].Block()
    ensures Merge(a, b) == [a[0]] + Merge(a[1..], b)
  {
  }

  lemma MergeTakesNew(a: seq<Record>, b: seq<Record>)
    requires b != [] && (a != [] ==> a[0].Block() >= b[0].Block())
    ensures Merge(a, b) == [b[0]] + Merge(if a != [] && a[0].Block() == b[0].Block() then a[1..] else a, b[1..])
  {
  }

  lemma MergeNothing(a: seq<Record>)
    ensures Merge(a, []) == a && Merge([], a) == a
  {
  }

  // ---- Summaries under a splice ----

  function Spliced(s: seq<Record>, lo: nat, hi: nat, anchors: seq<Record>): seq<Record>
    requires lo <= hi <= |s|
  {
    s[..lo] + anchors + s[hi..]
  }

  /** Gaps on edges that touch positions `lo` up to `hi`, including both boundary edges. */
  function AffectedGaps(s: seq<Record>, lo: nat, hi: nat): nat
    requires lo <= hi <= |s|
  {
    GapCount(s[SaturatingSub(lo, 1)..Min(hi + 1, |s|)])
  }

  lemma {:induction false} GapSplit(s: seq<Record>, k: nat)
    requires k < |s|
    ensures GapCount(s) == GapCount(s[..k + 1]) + GapCount(s[k..])
    decreases |s|
  {
    if k == 0 {
      assert s[0..] == s;
    } else {
      GapSplit(s[1..], k - 1);
      assert s[1..][..k] == s[..k + 1][1..];
      assert s[1..][k - 1..] == s[k..];
    }
  }

  lemma GapSmall(s: seq<Record>)
    requires |s| < 2
    ensures GapCount(s) == 0
  {
  }

  lemma GapParts(s: seq<Record>, lo: nat, hi: nat)
    requires lo <= hi <= |s|
    ensures GapCount(s) == GapCount(s[..lo]) + AffectedGaps(s, lo, hi) + GapCount(s[hi..])
  {
    hide GapCount;
    if lo == 0 {
      GapSmall(s[..lo]);
      GapSuffix(s, 0, hi);
      assert s[0..] == s;
    } else {
      GapSplit(s, lo - 1);
      GapSuffix(s, lo - 1, hi);
    }
  }

  lemma GapSuffix(s: seq<Record>, start: nat, hi: nat)
    requires start <= hi <= |s|
    ensures GapCount(s[start..]) == GapCount(s[start..Min(hi + 1, |s|)]) + GapCount(s[hi..])
  {
    hide GapCount;
    var rest := s[start..];
    if hi < |s| {
      GapSplit(rest, hi - start);
      assert rest[..hi - start + 1] == s[start..hi + 1];
      assert rest[hi - start..] == s[hi..];
    } else {
      GapSmall(s[hi..]);
      assert rest == s[start..|s|];
    }
  }

  /** Taking out the old affected gaps and adding the new ones is recounting. */
  lemma GapsAfterSplice(s: seq<Record>, lo: nat, hi: nat, anchors: seq<Record>)
    requires lo <= hi <= |s|
    ensures AffectedGaps(s, lo, hi) <= GapCount(s)
    ensures var t := Spliced(s, lo, hi, anchors);
            GapCount(t) == GapCount(s) - AffectedGaps(s, lo, hi) + AffectedGaps(t, lo, lo + |anchors|)
  {
    hide GapCount;
    hide AffectedGaps;
    var t := Spliced(s, lo, hi, anchors);
    GapParts(s, lo, hi);
    GapParts(t, lo, lo + |anchors|);
    assert t[..lo] == s[..lo];
    assert t[lo + |anchors|..] == s[hi..];
  }

  lemma {:induction false} LastFinalizedConcat(a: seq<Record>, b: seq<Record>)
    ensures LastFinalized(a + b) == if LastFinalized(b).Some? then LastFinalized(b) else LastFinalized(a)
    decreases |b|
  {
    if b == [] {
      assert a + b == a;
    } else {
      assert (a + b)[..|a + b| - 1] == a + b[..|b| - 1];
      LastFinalizedConcat(a, b[..|b| - 1]);
    }
  }

  lemma {:induction false} LastFinalizedMember(s: seq<Record>) returns (i: nat)
    requires LastFinalized(s).Some?
    ensures i < |s| && s[i].anchor == LastFinalized(s).value
    decreases |s|
  {
    if s[|s| - 1].finalized {
      i := |s| - 1;
    } else {
      i := LastFinalizedMember(s[..|s| - 1]);
    }
  }

  function Newer(first: Option<Anchor>, second: Option<Anchor>): Option<Anchor> {
    if first.None? then second
    else if second.None? || first.value.block > second.value.block then first
    else second
  }

  predicate InRange(s: seq<Record>, head: Option<Anchor>) {
    head.Some? && Find(s, head.value.block).Some?
  }

  /** The finalized head needs a rescan only when the splice removed it. */
  lemma FinalizedAfterSplice(s: seq<Record>, lo: nat, hi: nat, anchors: seq<Record>)
    requires lo <= hi <= |s| && Sorted(s) && Sorted(Spliced(s, lo, hi, anchors))
    requires !InRange(s[lo..hi], LastFinalized(s))
    ensures LastFinalized(Spliced(s, lo, hi, anchors)) == Newer(LastFinalized(s), LastFinalized(anchors))
  {
    hide LastFinalized;
    hide InRange;
    hide Sorted;
    var left, middle, right := s[..lo], s[lo..hi], s[hi..];
    var t := Spliced(s, lo, hi, anchors);
    assert s == left + middle + right;
    LastFinalizedConcat(left + middle, right);
    LastFinalizedConcat(left, middle);
    LastFinalizedConcat(left + anchors, right);
    LastFinalizedConcat(left, anchors);
    LastFinalizedInRange(s, lo, hi);
    if LastFinalized(anchors).Some? {
      var j := LastFinalizedMember(anchors);
      assert t[lo + j] == anchors[j];
      if LastFinalized(right).Some? {
        var i := LastFinalizedMember(right);
        assert t[lo + |anchors| + i] == right[i];
        InOrder(t, lo + j, lo + |anchors| + i);
      } else if LastFinalized(left).Some? {
        var i := LastFinalizedMember(left);
        assert t[i] == left[i];
        InOrder(t, i, lo + j);
      }
    }
  }

  lemma InOrder(s: seq<Record>, i: nat, j: nat)
    requires Sorted(s) && i < j < |s|
    ensures s[i].Block() < s[j].Block()
  {
  }

  /** If the last finalized record sits in the removed part, the search finds it. */
  lemma LastFinalizedInRange(s: seq<Record>, lo: nat, hi: nat)
    requires lo <= hi <= |s| && Sorted(s)
    requires !InRange(s[lo..hi], LastFinalized(s))
    ensures LastFinalized(s[lo..hi]).Some? ==> LastFinalized(s[hi..]).Some?
  {
    hide LastFinalized;
    hide LowerBound;
    hide Sorted;
    var left, middle, right := s[..lo], s[lo..hi], s[hi..];
    assert s == left + middle + right;
    LastFinalizedConcat(left + middle, right);
    LastFinalizedConcat(left, middle);
    SortedSlice(s, lo, hi);
    if LastFinalized(middle).Some? {
      var i := LastFinalizedMember(middle);
      FindIndex(middle, i);
    }
  }

  lemma FindIndex(s: seq<Record>, i: nat)
    requires Sorted(s) && i < |s|
    ensures Find(s, s[i].Block()) == Some(i)
  {
    hide LowerBound;
    var n := LowerBound(s, s[i].Block());
    assert n <= i;
  }

  lemma SortedSlice(s: seq<Record>, lo: nat, hi: nat)
    requires Sorted(s) && lo <= hi <= |s|
    ensures Sorted(s[lo..hi])
  {
  }

  // ---- The mutable snapshot ----

  class SnapshotCell {
    var ordered: seq<Record>
    var gapCount: nat
    var indexed: Option<Anchor>
    var finalized: Option<Anchor>
    var optimistic: Option<Anchor>
    var store: Option<Verified>
    var checkpointSlot: Option<u64>

    function View(): Snapshot
      reads this
    {
      Snapshot(ordered, gapCount, indexed, finalized, optimistic, store, checkpointSlot)
    }

    constructor (s: Snapshot)
      ensures View() == s
    {
      ordered, gapCount, indexed := s.ordered, s.gapCount, s.indexed;
      finalized, optimistic := s.finalized, s.optimistic;
      store, checkpointSlot := s.store, s.checkpointSlot;
    }

    method Set(s: Snapshot)
      modifies this
      ensures View() == s
    {
      ordered, gapCount, indexed := s.ordered, s.gapCount, s.indexed;
      finalized, optimistic := s.finalized, s.optimistic;
      store, checkpointSlot := s.store, s.checkpointSlot;
    }

    method ApplyVerifiedStore()
      modifies this
      ensures View() == if old(store).Some?
                        then old(View()).(
                               finalized := old(store).value.finalized, optimistic := old(store).value.optimistic)
                        else old(View())
    {
      if store.Some? {
        finalized, optimistic := store.value.finalized, store.value.optimistic;
      }
    }

    /** Replace positions `lo` up to `hi`, adjusting each summary instead of recomputing it. */
    method Splice(lo: nat, hi: nat, anchors: seq<Record>)
      requires Summarized(View()) && lo <= hi <= |ordered|
      requires Sorted(Spliced(ordered, lo, hi, anchors))
      modifies this
      ensures View() == Recomputed(old(View()).(ordered := Spliced(old(ordered), lo, hi, anchors)))
    {
      hide GapCount;
      hide AffectedGaps;
      hide LastFinalized;
      hide InRange;
      hide Sorted;
      var removedFinalized := InRange(ordered[lo..hi], finalized);
      var incomingFinalized := LastFinalized(anchors);
      var oldFinalized := finalized;
      GapsAfterSplice(ordered, lo, hi, anchors);
      if store.None? && !removedFinalized {
        FinalizedAfterSplice(ordered, lo, hi, anchors);
      }
      gapCount := gapCount - AffectedGaps(ordered, lo, hi);
      ordered := Spliced(ordered, lo, hi, anchors);
      gapCount := gapCount + AffectedGaps(ordered, lo, lo + |anchors|);
      if store.Some? {
        ApplyVerifiedStore();
        return;
      }
      optimistic := LastAnchor(ordered);
      finalized := if removedFinalized then LastFinalized(ordered) else Newer(oldFinalized, incomingFinalized);
    }

    /** One pass over the affected span; at equal blocks the incoming record replaces the old one. */
    static method MergeSpan(existing: seq<Record>, anchors: seq<Record>) returns (merged: seq<Record>)
      ensures merged == Merge(existing, anchors)
    {
      hide Merge;
      merged := [];
      var p := 0;
      assert existing[0..] == existing && anchors[0..] == anchors;
      for i := 0 to |anchors|
        invariant 0 <= p <= |existing|
        invariant merged + Merge(existing[p..], anchors[i..]) == Merge(existing, anchors)
      {
        while p < |existing| && existing[p].Block() < anchors[i].Block()
          invariant 0 <= p <= |existing|
          invariant merged + Merge(existing[p..], anchors[i..]) == Merge(existing, anchors)
        {
          MergeTakesOld(existing[p..], anchors[i..]);
          assert existing[p..][1..] == existing[p + 1..];
          merged := merged + [existing[p]];
          p := p + 1;
        }
        MergeTakesNew(existing[p..], anchors[i..]);
        assert anchors[i..][1..] == anchors[i + 1..];
        if p < |existing| && existing[p].Block() == anchors[i].Block() {
          assert existing[p..][1..] == existing[p + 1..];
          p := p + 1;
        }
        merged := merged + [anchors[i]];
      }
      assert Merge(existing[p..], anchors[|anchors|..]) == existing[p..] by { MergeNothing(existing[p..]); }
      merged := merged + existing[p..];
    }

    method Upsert(anchors: seq<Record>)
      requires Summarized(View()) && Sorted(anchors)
      modifies this
      ensures View() == Recomputed(old(View()).(ordered := Merge(old(ordered), anchors)))
    {
      hide Merge;
      hide Sorted;
      hide Spliced;
      hide GapCount;
      hide LastFinalized;
      hide LowerBound;
      hide UpperBound;
      if anchors == [] {
        MergeNothing(ordered);
        return;
      }
      var lo := LowerBound(ordered, anchors[0].Block());
      var hi := UpperBound(ordered, anchors[|anchors| - 1].Block());
      UpsertSpan(ordered, anchors);
      if lo == hi {
        Splice(lo, hi, anchors);
        return;
      }
      var merged := MergeSpan(ordered[lo..hi], anchors);
      Splice(lo, hi, merged);
    }

    method ApplyDelta(d: Delta) returns (ok: bool)
      requires Summarized(View())
      modifies this
      ensures ok == Apply(old(View()), d).Some?
      ensures ok ==> View() == Apply(old(View()), d).value
      ensures !ok ==> View() == old(View())
    {
      ok := DeltaValid(d);
      if !ok { return; }
      match d {
        case ReplaceAnchors(anchors) =>
          ordered := anchors;
          gapCount, finalized, optimistic := GapCount(ordered), LastFinalized(ordered), LastAnchor(ordered);
          ApplyVerifiedStore();
        case UpsertAnchors(anchors) =>
          AdjacentIsSorted(anchors);
          Upsert(anchors);
        case ReplaceRange(start, end, anchors) =>
          AdjacentIsSorted(anchors);
          ReplaceBlocks(start, end, anchors);
        case Bootstrap(v) =>
          checkpointSlot, store := Some(v.BootstrapSlot()), Some(v);
          ApplyVerifiedStore();
        case VerifiedPatch(v) =>
          store := Some(v);
          ApplyVerifiedStore();
      }
    }

    method ReplaceBlocks(start: u64, end: u64, anchors: seq<Record>)
      requires Summarized(View()) && Sorted(anchors)
      modifies this
      ensures View() == Recomputed(old(View()).(ordered := ReplacedRange(old(ordered), start, end, anchors)))
    {
      hide Merge;
      hide Sorted;
      hide GapCount;
      hide LastFinalized;
      hide LowerBound;
      hide UpperBound;
      var lo, hi := LowerBound(ordered, start), UpperBound(ordered, end);
      if start <= end {
        ReplacedRangeMeaning(ordered, start, end, anchors, 0);
        if forall i :: 0 <= i < |anchors| ==> Within(start, end, anchors[i].Block()) {
          ReplaceInside(ordered, start, end, anchors);
          Splice(lo, hi, anchors);
          return;
        }
        UpperAfterLower(ordered, start, end);
        ErasedAt(ordered, start, end, 0);
        assert Spliced(ordered, lo, hi, []) == Erased(ordered, start, end);
        Splice(lo, hi, []);
      }
      Upsert(anchors);
    }
  }

  /** The span between the first and last incoming block holds everything the merge touches. */
  lemma UpsertSpan(s: seq<Record>, anchors: seq<Record>)
    requires Sorted(s) && Sorted(anchors) && anchors != []
    ensures var lo, hi := LowerBound(s, anchors[0].Block()), UpperBound(s, anchors[|anchors| - 1].Block());
            && lo <= hi
            && Merge(s, anchors) == Spliced(s, lo, hi, Merge(s[lo..hi], anchors))
            && Sorted(Merge(s, anchors))
            && (lo == hi ==> Merge(s[lo..hi], anchors) == anchors)
  {
    hide Merge;
    hide LowerBound;
    hide UpperBound;
    var first, last := anchors[0].Block(), anchors[|anchors| - 1].Block();
    var lo, hi := LowerBound(s, first), UpperBound(s, last);
    UpperAfterLower(s, first, last);
    forall i | hi <= i < |s| ensures s[i].Block() > last { AfterUpper(s, last, i); }
    assert forall j :: 0 <= j < |anchors| ==> first <= anchors[j].Block() <= last;
    var left, middle, right := s[..lo], s[lo..hi], s[hi..];
    assert s == left + middle + right;
    MergeLocal(left, middle, right, anchors);
    MergeSorted(s, anchors);
    MergeNothing(anchors);
  }

  // ---- Roots released by a range replacement ----

  /** The block of `before[i]` is gone or carries another root afterwards. */
  predicate ChangedAt(before: seq<Record>, after: seq<Record>, i: nat)
    requires i < |before|
  {
    var now := At(after, before[i].Block());
    now.None? || now.value.anchor.root != before[i].anchor.root
  }

  function ChangedRoots(before: seq<Record>, after: seq<Record>, lo: nat, hi: nat): set<B256>
    requires lo <= hi <= |before|
  {
    set i | lo <= i < hi && ChangedAt(before, after, i) :: before[i].anchor.root
  }

  /** Roots that incoming records outside the interval displace. */
  function DisplacedRoots(before: seq<Record>, start: u64, end: u64, incoming: seq<Record>, n: nat): set<B256>
    requires n <= |incoming|
  {
    set j | 0 <= j < n && Displaces(before, start, end, incoming[j]) ::
      before[Find(before, incoming[j].Block()).value].anchor.root
  }

  predicate Displaces(before: seq<Record>, start: u64, end: u64, r: Record) {
    && !Within(start, end, r.Block())
    && Find(before, r.Block()).Some?
    && before[Find(before, r.Block()).value].anchor.root != r.anchor.root
  }

  lemma ChangedInside(before: seq<Record>, start: u64, end: u64, incoming: seq<Record>, i: nat)
    requires Sorted(before) && Sorted(incoming) && i < |before|
    ensures ChangedAt(before, ReplacedRange(before, start, end, incoming), i)
            <==> var now := At(incoming, before[i].Block());
                 if now.Some? then now.value.anchor.root != before[i].anchor.root
                 else Within(start, end, before[i].Block())
  {
    ReplacedRangeMeaning(before, start, end, incoming, before[i].Block());
    AtIndex(before, i);
  }

  /** Interval and displaced roots together are all changed roots. */
  lemma ChangedSplit(before: seq<Record>, start: u64, end: u64, incoming: seq<Record>, lo: nat, hi: nat)
    requires Sorted(before) && Sorted(incoming) && lo <= hi <= |before|
    requires forall i :: 0 <= i < |before| ==> (lo <= i < hi <==> Within(start, end, before[i].Block()))
    ensures var after := ReplacedRange(before, start, end, incoming);
            ChangedRoots(before, after, 0, |before|)
            == ChangedRoots(before, after, lo, hi) + DisplacedRoots(before, start, end, incoming, |incoming|)
  {
    hide Merge;
    hide Sorted;
    hide At;
    hide LowerBound;
    hide ChangedAt;
    hide ReplacedRange;
    var after := ReplacedRange(before, start, end, incoming);
    forall i | 0 <= i < |before| && ChangedAt(before, after, i) && !(lo <= i < hi)
      ensures before[i].anchor.root in DisplacedRoots(before, start, end, incoming, |incoming|)
    {
      ChangedInside(before, start, end, incoming, i);
      var j := AtMember(incoming, before[i].Block());
      FindIndex(before, i);
      assert Displaces(before, start, end, incoming[j]);
    }
    forall j | 0 <= j < |incoming| && Displaces(before, start, end, incoming[j])
      ensures before[Find(before, incoming[j].Block()).value].anchor.root in ChangedRoots(before, after, 0, |before|)
    {
      var i := Find(before, incoming[j].Block()).value;
      AtIndex(incoming, j);
      ChangedInside(before, start, end, incoming, i);
      assert ChangedAt(before, after, i);
    }
  }

  method Nominate(roots: seq<B256>, seen: set<B256>, root: B256) returns (roots': seq<B256>, seen': set<B256>)
    requires Distinct(roots) && forall r :: r in seen <==> r in roots
    ensures Distinct(roots') && forall r :: r in seen' <==> r in roots'
    ensures seen' == seen + {root}
  {
    roots', seen' := roots, seen;
    if root !in seen {
      roots', seen' := roots + [root], seen + {root};
    }
  }

  /** Two pointers over the interval, binary search outside it. */
  method ReplacedAnchorRoots(previous: seq<Record>, start: u64, end: u64, incoming: seq<Record>)
    returns (roots: seq<B256>)
    requires Sorted(previous) && Sorted(incoming)
    ensures Distinct(roots)
    ensures (set r | r in roots) == ChangedRoots(previous, ReplacedRange(previous, start, end, incoming), 0, |previous|)
  {
    hide Merge;
    hide Sorted;
    hide At;
    hide Find;
    hide LowerBound;
    hide UpperBound;
    hide ChangedAt;
    hide ReplacedRange;
    var seen: set<B256> := {};
    roots := [];
    ghost var after := ReplacedRange(previous, start, end, incoming);
    ghost var lo, hi := 0, 0;
    if start <= end {
      UpperAfterLower(previous, start, end);
      lo, hi := LowerBound(previous, start), UpperBound(previous, end);
      roots, seen := IntervalRoots(previous, start, end, incoming);
      forall i | 0 <= i < |previous| ensures lo <= i < hi <==> Within(start, end, previous[i].Block()) {
        if lo <= i < hi { InBetween(previous, start, end, i); }
        if hi <= i { AfterUpper(previous, end, i); }
      }
    }
    for j := 0 to |incoming|
      invariant Distinct(roots) && forall r :: r in seen <==> r in roots
      invariant seen == ChangedRoots(previous, after, lo, hi) + DisplacedRoots(previous, start, end, incoming, j)
    {
      if start <= end && Within(start, end, incoming[j].Block()) { continue; }
      var index := Find(previous, incoming[j].Block());
      if index.Some? && previous[index.value].anchor.root != incoming[j].anchor.root {
        roots, seen := Nominate(roots, seen, previous[index.value].anchor.root);
      }
    }
    ChangedSplit(previous, start, end, incoming, lo, hi);
    assert (set r | r in roots) == seen;
  }

  method IntervalRoots(previous: seq<Record>, start: u64, end: u64, incoming: seq<Record>)
    returns (roots: seq<B256>, seen: set<B256>)
    requires Sorted(previous) && Sorted(incoming) && start <= end
    ensures Distinct(roots) && forall r :: r in seen <==> r in roots
    ensures LowerBound(previous, start) <= UpperBound(previous, end)
    ensures seen
            == ChangedRoots(previous, ReplacedRange(previous, start, end, incoming),
                            LowerBound(previous, start), UpperBound(previous, end))
  {
    hide Merge;
    hide Sorted;
    hide At;
    hide LowerBound;
    hide UpperBound;
    hide ChangedAt;
    hide ReplacedRange;
    roots, seen := [], {};
    UpperAfterLower(previous, start, end);
    var lo, hi := LowerBound(previous, start), UpperBound(previous, end);
    ghost var after := ReplacedRange(previous, start, end, incoming);
    var next := 0;
    for i := lo to hi
      invariant Distinct(roots) && forall r :: r in seen <==> r in roots
      invariant 0 <= next <= |incoming|
      invariant i < hi ==> forall j :: 0 <= j < next ==> incoming[j].Block() < previous[i].Block()
      invariant seen == ChangedRoots(previous, after, lo, i)
    {
      while next < |incoming| && incoming[next].Block() < previous[i].Block()
        invariant 0 <= next <= |incoming|
        invariant forall j :: 0 <= j < next ==> incoming[j].Block() < previous[i].Block()
      {
        next := next + 1;
      }
      InBetween(previous, start, end, i);
      ChangedInside(previous, start, end, incoming, i);
      PointerFinds(incoming, next, previous[i].Block());
      if || next >= |incoming| || incoming[next].Block() != previous[i].Block()
         || incoming[next].anchor.root != previous[i].anchor.root
      {
        roots, seen := Nominate(roots, seen, previous[i].anchor.root);
      }
      if i + 1 < hi { InOrder(previous, i, i + 1); }
    }
  }

  lemma PointerFinds(incoming: seq<Record>, next: nat, k: u64)
    requires Sorted(incoming) && next <= |incoming|
    requires forall j :: 0 <= j < next ==> incoming[j].Block() < k
    requires next < |incoming| ==> incoming[next].Block() >= k
    ensures At(incoming, k) == if next < |incoming| && incoming[next].Block() == k then Some(incoming[next]) else None
  {
    if next < |incoming| && incoming[next].Block() == k {
      AtIndex(incoming, next);
    } else {
      AtAbsent(incoming, k);
    }
  }

  /** Decide whether a range replacement changes anything, and which roots it releases. */
  method PrepareReplaceRange(current: seq<Record>, start: u64, end: u64, anchors: seq<Record>)
    returns (delta: Option<Delta>, replaced: seq<B256>)
    requires Sorted(current) && Sorted(anchors)
    ensures delta == None || delta == Some(ReplaceRange(start, end, anchors))
    ensures delta == None ==> ReplacedRange(current, start, end, anchors) == current
    ensures Distinct(replaced)
    ensures (set r | r in replaced) == ChangedRoots(current, ReplacedRange(current, start, end, anchors), 0, |current|)
  {
    hide Merge;
    hide Sorted;
    hide At;
    hide LowerBound;
    hide UpperBound;
    hide ReplacedRange;
    if start <= end && forall i :: 0 <= i < |anchors| ==> Within(start, end, anchors[i].Block()) {
      UpperAfterLower(current, start, end);
      var lo, hi := LowerBound(current, start), UpperBound(current, end);
      if current[lo..hi] == anchors {
        ReplaceInside(current, start, end, anchors);
        assert current[..lo] + current[lo..hi] + current[hi..] == current;
        forall i | 0 <= i < |current| ensures !ChangedAt(current, current, i) {
          AtIndex(current, i);
        }
        return None, [];
      }
    }
    replaced := ReplacedAnchorRoots(current, start, end, anchors);
    delta := Some(ReplaceRange(start, end, anchors));
  }
}
