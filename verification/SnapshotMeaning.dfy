/** What the summaries of a snapshot say about its anchors, and what a delta does to the anchors,
    record by record. */
module SnapshotMeaning {
  import opened Bytes
  import opened Anchors
  import opened ConsensusState

  // ---- Summaries ----

  predicate NewestFinalized(s: seq<Record>, i: nat) {
    i < |s| && s[i].finalized && forall j :: i < j < |s| ==> !s[j].finalized
  }

  /** The finalized head is the last record marked finalized, and there is none only without one. */
  lemma {:induction false} LastFinalizedMeans(s: seq<Record>)
    ensures LastFinalized(s).None? <==> forall i :: 0 <= i < |s| ==> !s[i].finalized
    ensures forall a :: LastFinalized(s) == Some(a) <==> exists i: nat :: NewestFinalized(s, i) && s[i].anchor == a
    decreases |s|
  {
    if s != [] {
      var n := |s| - 1;
      if s[n].finalized {
        assert NewestFinalized(s, n);
        forall i: nat | NewestFinalized(s, i)
          ensures i == n
        {
          assert s[n].finalized;
        }
      } else {
        LastFinalizedMeans(s[..n]);
        forall i: nat
          ensures NewestFinalized(s, i) <==> NewestFinalized(s[..n], i)
        {
          assert i < n ==> s[..n][i] == s[i];
          if NewestFinalized(s[..n], i) {
            forall j | i < j < |s| ensures !s[j].finalized { assert j < n ==> s[..n][j] == s[j]; }
          }
          if NewestFinalized(s, i) {
            forall j | i < j < |s[..n]| ensures !s[..n][j].finalized { assert s[..n][j] == s[j]; }
          }
        }
        assert forall i :: 0 <= i < n ==> s[..n][i] == s[i];
        forall i: nat | NewestFinalized(s, i) ensures s[..n][i].anchor == s[i].anchor {}
      }
    }
  }

  /** Record `i` is not directly followed by its child. */
  predicate Broken(s: seq<Record>, i: nat) {
    && i + 1 < |s|
    && (|| s[i + 1].anchor.block != SaturatingAdd(s[i].anchor.block, 1)
        || s[i + 1].parent != Some(s[i].anchor.root))
  }

  function BrokenPlaces(s: seq<Record>): set<nat> {
    set i: nat | i < |s| && Broken(s, i)
  }

  lemma GapIsBroken(s: seq<Record>)
    requires |s| > 1
    ensures Gap(s[0], s[1]) == if Broken(s, 0) then 1 else 0
  {
  }

  lemma BrokenShifts(s: seq<Record>, i: nat)
    requires s != []
    ensures i in BrokenPlaces(s[1..]) <==> i + 1 in BrokenPlaces(s)
  {
    assert i + 2 < |s| ==> s[1..][i] == s[i + 1] && s[1..][i + 1] == s[i + 2];
  }

  /** The gap count is the number of places where the chain of records is broken. */
  lemma {:induction false} GapCountMeans(s: seq<Record>)
    ensures GapCount(s) == |BrokenPlaces(s)|
    decreases |s|
  {
    hide Broken;
    hide BrokenPlaces;
    if |s| < 2 {
      NoneBroken(s);
    } else {
      GapIsBroken(s);
      GapCountMeans(s[1..]);
      var moved := set i: nat | i in BrokenPlaces(s[1..]) :: i + 1;
      ShiftedSize(BrokenPlaces(s[1..]), moved);
      PlacesSplit(s, moved);
      assert 0 !in moved;
    }
  }

  lemma NoneBroken(s: seq<Record>)
    requires |s| < 2
    ensures BrokenPlaces(s) == {}
  {
  }

  lemma PlacesSplit(s: seq<Record>, moved: set<nat>)
    requires s != [] && moved == set i: nat | i in BrokenPlaces(s[1..]) :: i + 1
    ensures BrokenPlaces(s) == if Broken(s, 0) then {0} + moved else moved
  {
    hide Broken;
    forall i: nat
      ensures i in BrokenPlaces(s) <==> (i == 0 && Broken(s, 0)) || i in moved
    {
      if i > 0 {
        BrokenShifts(s, i - 1);
        if i in BrokenPlaces(s) { assert i - 1 in BrokenPlaces(s[1..]); }
      }
    }
  }

  lemma {:induction false} ShiftedSize(a: set<nat>, moved: set<nat>)
    requires moved == set i: nat | i in a :: i + 1
    ensures |moved| == |a|
    decreases |a|
  {
    if a == {} {
      assert moved == {};
    } else {
      var x :| x in a;
      var fewer := set i: nat | i in a - {x} :: i + 1;
      ShiftedSize(a - {x}, fewer);
      forall y
        ensures y in moved <==> y in fewer || y == x + 1
      {
        if y in moved && y != x + 1 {
          var i: nat :| i in a && i + 1 == y;
          assert i in a - {x};
        }
      }
      assert moved == fewer + {x + 1};
      assert x + 1 !in fewer;
    }
  }

  /** Every published snapshot: the gap count counts the broken places; without a verified store the
      finalized head is the newest record marked finalized and the optimistic head the record with the
      greatest block; with one, both heads are the store's. */
  lemma SummariesMean(rules: Rules, s: Snapshot)
    requires Normal(rules, s)
    ensures s.gapCount == |BrokenPlaces(s.ordered)|
    ensures s.store.Some? ==>
              s.finalized == s.store.value.finalized && s.optimistic == s.store.value.optimistic
    ensures s.store.None? ==>
              && (s.finalized.None? <==> forall r :: r in s.ordered ==> !r.finalized)
              && (forall a :: s.finalized == Some(a) <==>
                    exists r :: && r in s.ordered && r.finalized && r.anchor == a
                                && forall q :: q in s.ordered && q.finalized ==> q.anchor.block <= a.block)
              && (s.optimistic.None? <==> s.ordered == [])
              && (forall a :: s.optimistic == Some(a) <==>
                    exists r :: && r in s.ordered && r.anchor == a
                                && forall q :: q in s.ordered ==> q.anchor.block <= a.block)
  {
    GapCountMeans(s.ordered);
    assert Sorted(s.ordered);
    if s.store.None? {
      assert s.finalized == LastFinalized(s.ordered) && s.optimistic == LastAnchor(s.ordered);
      FinalizedIsGreatest(s.ordered);
      OptimisticIsGreatest(s.ordered);
    }
  }

  lemma FinalizedIsGreatest(s: seq<Record>)
    requires Sorted(s)
    ensures LastFinalized(s).None? <==> forall r :: r in s ==> !r.finalized
    ensures forall a :: LastFinalized(s) == Some(a) <==>
              exists r :: && r in s && r.finalized && r.anchor == a
                          && forall q :: q in s && q.finalized ==> q.anchor.block <= a.block
  {
    hide LastFinalized;
    LastFinalizedMeans(s);
    forall a
      ensures LastFinalized(s) == Some(a) <==>
                exists r :: && r in s && r.finalized && r.anchor == a
                            && forall q :: q in s && q.finalized ==> q.anchor.block <= a.block
    {
      if LastFinalized(s) == Some(a) {
        var i: nat :| NewestFinalized(s, i) && s[i].anchor == a;
        forall q | q in s && q.finalized ensures q.anchor.block <= a.block { GreatestAmong(s, i, q); }
        assert s[i] in s;
      }
      if r :| && r in s && r.finalized && r.anchor == a
              && forall q :: q in s && q.finalized ==> q.anchor.block <= a.block
      {
        var i: nat :| i < |s| && s[i] == r;
        forall j | i < j < |s| ensures !s[j].finalized { assert s[j] in s && s[i].Block() < s[j].Block(); }
        assert NewestFinalized(s, i);
      }
    }
  }

  lemma GreatestAmong(s: seq<Record>, i: nat, q: Record)
    requires Sorted(s) && NewestFinalized(s, i) && q in s && q.finalized
    ensures q.anchor.block <= s[i].anchor.block
  {
    var j: nat :| j < |s| && s[j] == q;
    if j < i { assert s[j].Block() < s[i].Block(); }
  }

  lemma OptimisticIsGreatest(s: seq<Record>)
    requires Sorted(s)
    ensures LastAnchor(s).None? <==> s == []
    ensures forall a :: LastAnchor(s) == Some(a) <==>
              exists r :: r in s && r.anchor == a && forall q :: q in s ==> q.anchor.block <= a.block
  {
    if s != [] {
      var n := |s| - 1;
      forall q | q in s
        ensures q.anchor.block <= s[n].anchor.block && (q.anchor.block == s[n].anchor.block ==> q == s[n])
      {
        var j: nat :| j < |s| && s[j] == q;
        if j < n { assert s[j].Block() < s[n].Block(); }
      }
      assert s[n] in s;
    }
  }

  // ---- Deltas ----

  lemma MemberAt(s: seq<Record>, r: Record)
    requires Sorted(s)
    ensures r in s <==> At(s, r.Block()) == Some(r)
  {
    if r in s {
      var i: nat :| i < |s| && s[i] == r;
      AtIndex(s, i);
    }
    if At(s, r.Block()).Some? {
      var i := AtMember(s, r.Block());
    }
  }

  lemma AbsentAt(s: seq<Record>, k: u64)
    ensures At(s, k).None? <==> forall q :: q in s ==> q.anchor.block != k
  {
    if At(s, k).Some? {
      var i := AtMember(s, k);
      assert s[i] in s;
    }
    if forall q :: q in s ==> q.anchor.block != k {
      AtAbsent(s, k);
    }
    if At(s, k).None? {
      forall q | q in s ensures q.anchor.block != k {
        var i: nat :| i < |s| && s[i] == q;
        if q.anchor.block == k { AtPresent(s, i); }
      }
    }
  }

  lemma {:induction false} AtPresent(s: seq<Record>, i: nat)
    requires i < |s|
    ensures At(s, s[i].Block()).Some?
    decreases |s|
  {
    if i > 0 { AtPresent(s[1..], i - 1); }
  }

  /** What a delta does: which records it leaves, and which store and checkpoint slot. Only anchors out
      of order are refused. */
  lemma DeltaMeans(s: Snapshot, d: Delta, r: Record)
    requires Sorted(s.ordered)
    ensures Apply(s, d).None? <==>
              && (d.ReplaceAnchors? || d.UpsertAnchors? || d.ReplaceRange?)
              && exists i :: 0 <= i < |d.anchors| - 1 && d.anchors[i].anchor.block >= d.anchors[i + 1].anchor.block
    ensures Apply(s, d).Some? ==>
              var after := Apply(s, d).value;
              && Sorted(after.ordered) && after.indexed == s.indexed
              && (r in after.ordered <==>
                    match d
                    case ReplaceAnchors(anchors) => r in anchors
                    case UpsertAnchors(anchors) => r in anchors || (r in s.ordered && Untouched(anchors, r))
                    case ReplaceRange(start, end, anchors) =>
                      || r in anchors
                      || (r in s.ordered && Untouched(anchors, r) && !(start <= r.anchor.block <= end))
                    case _ => r in s.ordered)
              && after.store == (if d.Bootstrap? || d.VerifiedPatch? then Some(d.store) else s.store)
              && after.checkpointSlot == (if d.Bootstrap? then Some(d.store.light.bootstrapSlot) else s.checkpointSlot)
  {
    RefusedExactly(s, d);
    if Apply(s, d).Some? {
      OrderKept(s, d);
      if !d.Bootstrap? && !d.VerifiedPatch? {
        AdjacentIsSorted(d.anchors);
        RecordsAfter(s, d, r);
      }
    }
  }

  /** No incoming record has the block of `r`. */
  ghost predicate Untouched(anchors: seq<Record>, r: Record) {
    forall q :: q in anchors ==> q.anchor.block != r.anchor.block
  }

  lemma RefusedExactly(s: Snapshot, d: Delta)
    ensures Apply(s, d).None? <==>
              && (d.ReplaceAnchors? || d.UpsertAnchors? || d.ReplaceRange?)
              && exists i :: 0 <= i < |d.anchors| - 1 && d.anchors[i].anchor.block >= d.anchors[i + 1].anchor.block
  {
    hide Recomputed;
    if !d.Bootstrap? && !d.VerifiedPatch? {
      if i :| 0 <= i < |d.anchors| - 1 && d.anchors[i].anchor.block >= d.anchors[i + 1].anchor.block {
        assert d.anchors[i + 1 - 1] == d.anchors[i];
      } else {
        forall i | 0 < i < |d.anchors|
          ensures d.anchors[i - 1].Block() < d.anchors[i].Block()
        {
          var k := i - 1;
          assert !(d.anchors[k].anchor.block >= d.anchors[k + 1].anchor.block);
        }
      }
    }
  }

  lemma RecordsAfter(s: Snapshot, d: Delta, r: Record)
    requires Sorted(s.ordered) && !d.Bootstrap? && !d.VerifiedPatch? && Sorted(d.anchors) && Apply(s, d).Some?
    requires Sorted(Apply(s, d).value.ordered)
    ensures r in Apply(s, d).value.ordered <==>
              match d
              case ReplaceAnchors(anchors) => r in anchors
              case UpsertAnchors(anchors) => r in anchors || (r in s.ordered && Untouched(anchors, r))
              case ReplaceRange(start, end, anchors) =>
                || r in anchors
                || (r in s.ordered && Untouched(anchors, r) && !(start <= r.anchor.block <= end))
              case _ => r in s.ordered
  {
    hide Sorted;
    hide At;
    hide Merge;
    hide ReplacedRange;
    hide GapCount;
    hide LastFinalized;
    MemberAt(s.ordered, r);
    MemberAt(d.anchors, r);
    AbsentAt(d.anchors, r.Block());
    MemberAt(Apply(s, d).value.ordered, r);
    match d
    case UpsertAnchors(anchors) => MergeAt(s.ordered, anchors, r.Block());
    case ReplaceRange(start, end, anchors) => ReplacedRangeMeaning(s.ordered, start, end, anchors, r.Block());
    case _ =>
  }

  /** The roots that a range replacement releases: those of old records whose block has no record with the
      same root any more. */
  lemma ChangedRootsMean(before: seq<Record>, after: seq<Record>, root: B256)
    requires Sorted(before) && Sorted(after)
    ensures root in ChangedRoots(before, after, 0, |before|) <==>
              exists r :: && r in before && r.anchor.root == root
                          && forall q :: q in after && q.anchor.block == r.anchor.block ==> q.anchor.root != root
  {
    hide At;
    hide Sorted;
    forall i | 0 <= i < |before|
      ensures ChangedAt(before, after, i) <==>
                forall q :: q in after && q.anchor.block == before[i].anchor.block ==>
                  q.anchor.root != before[i].anchor.root
    {
      ChangedAtMeans(before, after, i);
    }
    if root in ChangedRoots(before, after, 0, |before|) {
      var i :| 0 <= i < |before| && ChangedAt(before, after, i) && before[i].anchor.root == root;
      assert before[i] in before;
    }
    if r :| && r in before && r.anchor.root == root
            && forall q :: q in after && q.anchor.block == r.anchor.block ==> q.anchor.root != root
    {
      var i :| 0 <= i < |before| && before[i] == r;
      assert ChangedAt(before, after, i);
    }
  }

  lemma ChangedAtMeans(before: seq<Record>, after: seq<Record>, i: nat)
    requires Sorted(after) && i < |before|
    ensures ChangedAt(before, after, i) <==>
              forall q :: q in after && q.anchor.block == before[i].anchor.block ==>
                q.anchor.root != before[i].anchor.root
  {
    hide Sorted;
    var k := before[i].anchor.block;
    AbsentAt(after, k);
    forall q | q in after && q.anchor.block == k
      ensures At(after, k) == Some(q)
    {
      MemberAt(after, q);
    }
    if At(after, k).Some? {
      MemberAt(after, At(after, k).value);
    }
  }
}
