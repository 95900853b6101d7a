/** Execution anchors kept in block order: merging, range replacement, and the summaries
    (gap count, finalized and optimistic heads) derived from them. */
module Anchors {
  import opened Bytes

  datatype Anchor = Anchor(root: B256, slot: u64, block: u64, hash: B256, receipts: B256)

  datatype Record = Record(anchor: Anchor, parent: Option<B256>, finalized: bool) {
    function Block(): u64 { anchor.block }
  }

  predicate Sorted(s: seq<Record>) {
    forall i, j :: 0 <= i < j < |s| ==> s[i].Block() < s[j].Block()
  }

  /** The record at block `k` after inserting all records in order: the last one wins. */
  function At(s: seq<Record>, k: u64): (r: Option<Record>)
    ensures r.Some? ==> r.value.Block() == k
  {
    if s == [] then None
    else
      var later := At(s[1..], k);
      if later.Some? then later else if s[0].Block() == k then Some(s[0]) else None
  }

  function Or(first: Option<Record>, second: Option<Record>): Option<Record> {
    if first.Some? then first else second
  }

  lemma {:induction false} AtConcat(a: seq<Record>, b: seq<Record>, k: u64)
    ensures At(a + b, k) == Or(At(b, k), At(a, k))
    decreases |a|
  {
    if a == [] {
      assert a + b == b;
    } else {
      assert (a + b)[1..] == a[1..] + b;
      AtConcat(a[1..], b, k);
    }
  }

  lemma {:induction false} AtMember(s: seq<Record>, k: u64) returns (i: nat)
    requires At(s, k).Some?
    ensures i < |s| && s[i] == At(s, k).value
    decreases |s|
  {
    if At(s[1..], k).Some? {
      i := AtMember(s[1..], k);
      i := i + 1;
    } else {
      i := 0;
    }
  }

  lemma {:induction false} AtAbsent(s: seq<Record>, k: u64)
    requires forall i :: 0 <= i < |s| ==> s[i].Block() != k
    ensures At(s, k) == None
    decreases |s|
  {
    if s != [] { AtAbsent(s[1..], k); }
  }

  lemma AtSnoc(s: seq<Record>, r: Record, k: u64)
    ensures At(s + [r], k) == if k == r.Block() then Some(r) else At(s, k)
  {
    AtConcat(s, [r], k);
    assert [r][1..] == [];
  }

  lemma {:induction false} AtIndex(s: seq<Record>, i: nat)
    requires Sorted(s) && i < |s|
    ensures At(s, s[i].Block()) == Some(s[i])
    decreases |s|
  {
    if i > 0 {
      AtIndex(s[1..], i - 1);
    } else {
      AtAbsent(s[1..], s[0].Block());
    }
  }

  lemma AtTail(s: seq<Record>, k: u64)
    requires Sorted(s) && s != []
    ensures At(s[1..], k) == if k == s[0].Block() then None else At(s, k)
  {
    if k == s[0].Block() {
      AtAbsent(s[1..], k);
    }
  }

  /** Two sequences describe the same block-keyed map. */
  ghost predicate SameMap(a: seq<Record>, b: seq<Record>) {
    forall k: u64 :: At(a, k) == At(b, k)
  }

  lemma HeadIsLeast(a: seq<Record>, k: u64)
    requires Sorted(a) && At(a, k).Some?
    ensures a != [] && a[0].Block() <= k
  {
    var i := AtMember(a, k);
    assert i == 0 || a[0].Block() < a[i].Block();
  }

  /** A block-ordered sequence is determined by its map. */
  lemma {:induction false} SortedUnique(a: seq<Record>, b: seq<Record>)
    requires Sorted(a) && Sorted(b) && SameMap(a, b)
    ensures a == b
    decreases |a|
  {
    if a == [] {
      if b != [] { AtIndex(b, 0); }
    } else {
      AtIndex(a, 0);
      HeadIsLeast(b, a[0].Block());
      AtIndex(b, 0);
      HeadIsLeast(a, b[0].Block());
      forall k: u64 ensures At(a[1..], k) == At(b[1..], k) {
        AtTail(a, k);
        AtTail(b, k);
      }
      SortedUnique(a[1..], b[1..]);
      assert a == [a[0]] + a[1..] && b == [b[0]] + b[1..];
    }
  }

  // ---- Searching a block-ordered sequence ----

  /** How many leading records lie below `k`. */
  function LowerBound(s: seq<Record>, k: u64): (n: nat)
    ensures n <= |s|
    ensures forall i :: 0 <= i < n ==> s[i].Block() < k
    ensures n < |s| ==> s[n].Block() >= k
  {
    if s != [] && s[0].Block() < k then 1 + LowerBound(s[1..], k) else 0
  }

  /** How many leading records lie at or below `k`. */
  function UpperBound(s: seq<Record>, k: u64): (n: nat)
    ensures n <= |s|
    ensures forall i :: 0 <= i < n ==> s[i].Block() <= k
    ensures n < |s| ==> s[n].Block() > k
  {
    if s != [] && s[0].Block() <= k then 1 + UpperBound(s[1..], k) else 0
  }

  function Find(s: seq<Record>, k: u64): (r: Option<nat>)
    ensures r.Some? ==> r.value < |s| && s[r.value].Block() == k
  {
    var n := LowerBound(s, k);
    if n < |s| && s[n].Block() == k then Some(n) else None
  }

  function AnchorAt(s: seq<Record>, k: u64): Option<Anchor> {
    match Find(s, k)
    case None => None
    case Some(i) => Some(s[i].anchor)
  }

  function NextAnchorAfter(s: seq<Record>, k: u64): Option<Anchor> {
    var n := UpperBound(s, k);
    if n < |s| then Some(s[n].anchor) else None
  }

  /** Lookups agree with the map: presence at a block, and the smallest block above one. */
  lemma LookupsAgreeWithMap(s: seq<Record>, k: u64, b: u64)
    requires Sorted(s)
    ensures AnchorAt(s, k) == match At(s, k) case None => None case Some(r) => Some(r.anchor)
    ensures var next := NextAnchorAfter(s, k);
            next.Some? ==>
              && next.value.block > k
              && At(s, next.value.block).Some? && At(s, next.value.block).value.anchor == next.value
    ensures b > k && At(s, b).Some? ==> NextAnchorAfter(s, k).Some? && NextAnchorAfter(s, k).value.block <= b
  {
    var n, m := LowerBound(s, k), UpperBound(s, k);
    if n < |s| { AtIndex(s, n); }
    if m < |s| { AtIndex(s, m); }
    if At(s, k).Some? {
      var i := AtMember(s, k);
      assert s[n].Block() == k;
    }
    if At(s, b).Some? {
      var i := AtMember(s, b);
    }
  }

  // ---- Merging ----

  /** Merge by block; at equal blocks the incoming record wins. */
  function Merge(a: seq<Record>, b: seq<Record>): seq<Record>
    decreases |a| + |b|
  {
    if a == [] then b
    else if b == [] then a
    else if a[0].Block() < b[0].Block() then [a[0]] + Merge(a[1..], b)
    else if a[0].Block() == b[0].Block() then [b[0]] + Merge(a[1..], b[1..])
    else [b[0]] + Merge(a, b[1..])
  }

  lemma {:induction false} MergeMembers(a: seq<Record>, b: seq<Record>, r: Record)
    requires r in Merge(a, b)
    ensures r in a || r in b
    decreases |a| + |b|
  {
    if a == [] || b == [] || r == Merge(a, b)[0] {
    } else if a[0].Block() < b[0].Block() {
      MergeMembers(a[1..], b, r);
    } else if a[0].Block() == b[0].Block() {
      MergeMembers(a[1..], b[1..], r);
    } else {
      MergeMembers(a, b[1..], r);
    }
  }

  lemma {:induction false} MergeSorted(a: seq<Record>, b: seq<Record>)
    requires Sorted(a) && Sorted(b)
    ensures Sorted(Merge(a, b))
    decreases |a| + |b|
  {
    if a != [] && b != [] {
      var a' := if a[0].Block() <= b[0].Block() then a[1..] else a;
      var b' := if a[0].Block() < b[0].Block() then b else b[1..];
      MergeSorted(a', b');
      forall r | r in Merge(a', b')
        ensures r.Block() > Merge(a, b)[0].Block()
      {
        MergeMembers(a', b', r);
      }
      assert Merge(a, b) == [Merge(a, b)[0]] + Merge(a', b');
    }
  }

  lemma {:induction false} MergeAt(a: seq<Record>, b: seq<Record>, k: u64)
    requires Sorted(a) && Sorted(b)
    ensures At(Merge(a, b), k) == Or(At(b, k), At(a, k))
    decreases |a| + |b|
  {
    if a != [] && b != [] {
      var a' := if a[0].Block() <= b[0].Block() then a[1..] else a;
      var b' := if a[0].Block() < b[0].Block() then b else b[1..];
      MergeAt(a', b', k);
      AtTail(a, k);
      AtTail(b, k);
      AtIndex(a, 0);
      AtIndex(b, 0);
      assert Merge(a, b)[1..] == Merge(a', b');
      if k == a[0].Block() < b[0].Block() && At(b, k).Some? { HeadIsLeast(b, k); }
      if k == b[0].Block() < a[0].Block() && At(a, k).Some? { HeadIsLeast(a, k); }
    }
  }

  lemma {:induction false} MergeAfter(left: seq<Record>, a: seq<Record>, b: seq<Record>)
    requires forall i, j :: 0 <= i < |left| && 0 <= j < |b| ==> left[i].Block() < b[j].Block()
    ensures Merge(left + a, b) == left + Merge(a, b)
    decreases |left|
  {
    if left == [] {
      assert left + a == a;
    } else {
      MergeAfter(left[1..], a, b);
      assert (left + a)[1..] == left[1..] + a;
    }
  }

  lemma {:induction false} MergeBefore(a: seq<Record>, right: seq<Record>, b: seq<Record>)
    requires forall i, j :: 0 <= i < |right| && 0 <= j < |b| ==> b[j].Block() < right[i].Block()
    ensures Merge(a + right, b) == Merge(a, b) + right
    decreases |a| + |b|
  {
    if b == [] {
    } else if a == [] {
      assert a + right == right;
      if right != [] {
        MergeBefore([], right, b[1..]);
        assert [] + right == right;
        assert Merge([], b[1..]) == b[1..];
      }
    } else {
      assert (a + right)[1..] == a[1..] + right;
      if a[0].Block() < b[0].Block() {
        MergeBefore(a[1..], right, b);
      } else if a[0].Block() == b[0].Block() {
        MergeBefore(a[1..], right, b[1..]);
      } else {
        MergeBefore(a, right, b[1..]);
      }
    }
  }

  /** Records of `s` outside the blocks spanned by `b` do not take part in the merge. */
  lemma MergeLocal(left: seq<Record>, middle: seq<Record>, right: seq<Record>, b: seq<Record>)
    requires forall i, j :: 0 <= i < |left| && 0 <= j < |b| ==> left[i].Block() < b[j].Block()
    requires forall i, j :: 0 <= i < |right| && 0 <= j < |b| ==> b[j].Block() < right[i].Block()
    ensures Merge(left + middle + right, b) == left + Merge(middle, b) + right
  {
    assert left + middle + right == left + (middle + right);
    MergeAfter(left, middle + right, b);
    MergeBefore(middle, right, b);
    assert left + (Merge(middle, b) + right) == left + Merge(middle, b) + right;
  }

  // ---- Range replacement: delete an interval, then upsert ----

  predicate Within(start: u64, end: u64, k: u64) {
    start <= k <= end
  }

  function Erased(s: seq<Record>, start: u64, end: u64): seq<Record> {
    if start <= end then
      UpperAfterLower(s, start, end);
      s[..LowerBound(s, start)] + s[UpperBound(s, end)..]
    else s
  }

  lemma {:induction false} UpperAfterLower(s: seq<Record>, start: u64, end: u64)
    requires start <= end
    ensures LowerBound(s, start) <= UpperBound(s, end)
  {
    if s != [] { UpperAfterLower(s[1..], start, end); }
  }

  function ReplacedRange(s: seq<Record>, start: u64, end: u64, incoming: seq<Record>): seq<Record> {
    Merge(Erased(s, start, end), incoming)
  }

  /** Deleting an interval, said of one block. */
  lemma ErasedAt(s: seq<Record>, start: u64, end: u64, k: u64)
    requires Sorted(s)
    ensures Sorted(Erased(s, start, end))
    ensures At(Erased(s, start, end), k) == if Within(start, end, k) then None else At(s, k)
  {
    if start <= end {
      UpperAfterLower(s, start, end);
      var lo, hi := LowerBound(s, start), UpperBound(s, end);
      forall i | lo <= i < hi ensures Within(start, end, s[i].Block()) { InBetween(s, start, end, i); }
      forall i | hi <= i < |s| ensures s[i].Block() > end { AfterUpper(s, end, i); }
      CutAt(s, lo, hi, start, end, k);
    }
  }

  lemma CutAt(s: seq<Record>, lo: nat, hi: nat, start: u64, end: u64, k: u64)
    requires lo <= hi <= |s|
    requires forall i :: 0 <= i < lo ==> s[i].Block() < start
    requires forall i :: lo <= i < hi ==> Within(start, end, s[i].Block())
    requires forall i :: hi <= i < |s| ==> s[i].Block() > end
    ensures At(s[..lo] + s[hi..], k) == if Within(start, end, k) then None else At(s, k)
  {
    var left, middle, right := s[..lo], s[lo..hi], s[hi..];
    assert s == left + middle + right;
    AtConcat(left + middle, right, k);
    AtConcat(left, middle, k);
    AtConcat(left, right, k);
    if Within(start, end, k) {
      AtAbsent(left, k);
      AtAbsent(right, k);
    } else {
      AtAbsent(middle, k);
    }
  }

  lemma InBetween(s: seq<Record>, start: u64, end: u64, i: nat)
    requires Sorted(s) && LowerBound(s, start) <= i < UpperBound(s, end)
    ensures Within(start, end, s[i].Block())
  {
    var n := LowerBound(s, start);
    assert n == i || s[n].Block() < s[i].Block();
  }

  lemma AfterUpper(s: seq<Record>, end: u64, i: nat)
    requires Sorted(s) && UpperBound(s, end) <= i < |s|
    ensures s[i].Block() > end
  {
    var n := UpperBound(s, end);
    assert n == i || s[n].Block() < s[i].Block();
  }

  /** Range replacement means: an incoming record wins, other blocks of the interval are gone,
      and everything else stays; block order is kept. */
  lemma ReplacedRangeMeaning(s: seq<Record>, start: u64, end: u64, incoming: seq<Record>, k: u64)
    requires Sorted(s) && Sorted(incoming)
    ensures Sorted(ReplacedRange(s, start, end, incoming))
    ensures At(ReplacedRange(s, start, end, incoming), k)
            == if At(incoming, k).Some? then At(incoming, k)
               else if Within(start, end, k) then None else At(s, k)
  {
    ErasedAt(s, start, end, k);
    MergeSorted(Erased(s, start, end), incoming);
    MergeAt(Erased(s, start, end), incoming, k);
  }

  /** When every incoming record lies in the interval, it simply takes the interval's place. */
  lemma ReplaceInside(s: seq<Record>, start: u64, end: u64, incoming: seq<Record>)
    requires Sorted(s) && start <= end
    requires forall i :: 0 <= i < |incoming| ==> Within(start, end, incoming[i].Block())
    ensures LowerBound(s, start) <= UpperBound(s, end)
    ensures ReplacedRange(s, start, end, incoming) == s[..LowerBound(s, start)] + incoming + s[UpperBound(s, end)..]
  {
    UpperAfterLower(s, start, end);
    var left, right := s[..LowerBound(s, start)], s[UpperBound(s, end)..];
    forall i | 0 <= i < |right|
      ensures right[i].Block() > end
    {
      AfterUpper(s, end, UpperBound(s, end) + i);
    }
    assert left + [] + right == left + right;
    MergeLocal(left, [], right, incoming);
  }

  // ---- Normalization ----

  predicate StrictlyIncreasing(s: seq<Record>) {
    forall i :: 0 < i < |s| ==> s[i - 1].Block() < s[i].Block()
  }

  lemma {:induction false} AdjacentIsSorted(s: seq<Record>)
    ensures StrictlyIncreasing(s) <==> Sorted(s)
    decreases |s|
  {
    if StrictlyIncreasing(s) && s != [] {
      AdjacentIsSorted(s[1..]);
      assert |s| > 1 ==> s[0].Block() < s[1].Block();
      forall i, j | 0 <= i < j < |s|
        ensures s[i].Block() < s[j].Block()
      {
        if i > 0 {
          assert s[1..][i - 1].Block() < s[1..][j - 1].Block();
        } else if j > 1 {
          assert s[1..][0].Block() < s[1..][j - 1].Block();
        }
      }
    }
  }

  function Lookup(m: map<u64, Record>, k: u64): Option<Record> {
    if k in m then Some(m[k]) else None
  }

  /** Values of a map in key order. */
  method SortedValues(m: map<u64, Record>) returns (r: seq<Record>)
    requires forall k :: k in m ==> m[k].Block() == k
    ensures Sorted(r)
    ensures forall k: u64 :: At(r, k) == Lookup(m, k)
  {
    r := [];
    var rest := m;
    while rest.Keys != {}
      invariant Sorted(r)
      invariant forall k :: k in rest ==> k in m && rest[k] == m[k]
      invariant forall i, k :: 0 <= i < |r| && k in rest ==> r[i].Block() < k
      invariant forall k: u64 :: Lookup(m, k) == Or(Lookup(rest, k), At(r, k))
      decreases rest.Keys
    {
      var least := LeastKey(rest);
      forall k: u64 ensures At(r + [rest[least]], k) == if k == least then Some(rest[least]) else At(r, k) {
        AtSnoc(r, rest[least], k);
      }
      r := r + [rest[least]];
      rest := rest - {least};
    }
  }

  method LeastKey(m: map<u64, Record>) returns (least: u64)
    requires m.Keys != {}
    ensures least in m && forall k :: k in m ==> least <= k
  {
    var keys := m.Keys;
    least :| least in keys;
    var rest := keys - {least};
    while rest != {}
      invariant rest <= keys
      invariant least in m
      invariant forall k :: k in keys && k !in rest ==> least <= k
      decreases rest
    {
      var k :| k in rest;
      if k < least { least := k; }
      rest := rest - {k};
    }
  }

  /** Any list of records becomes the block-ordered form of its last-wins map. */
  method Normalize(anchors: seq<Record>) returns (r: seq<Record>)
    ensures Sorted(r) && SameMap(r, anchors)
    ensures Sorted(anchors) ==> r == anchors
  {
    AdjacentIsSorted(anchors);
    if forall i :: 0 < i < |anchors| ==> anchors[i - 1].Block() < anchors[i].Block() {
      return anchors;
    }
    var deduped: map<u64, Record> := map[];
    for i := 0 to |anchors|
      invariant forall k :: k in deduped ==> deduped[k].Block() == k
      invariant forall k: u64 :: Lookup(deduped, k) == At(anchors[..i], k)
    {
      assert anchors[..i + 1] == anchors[..i] + [anchors[i]];
      var extended := deduped[anchors[i].Block() := anchors[i]];
      forall k: u64 ensures Lookup(extended, k) == At(anchors[..i + 1], k) {
        AtSnoc(anchors[..i], anchors[i], k);
        assert Lookup(deduped, k) == At(anchors[..i], k);
      }
      deduped := extended;
    }
    assert anchors[..|anchors|] == anchors;
    r := SortedValues(deduped);
  }
}
