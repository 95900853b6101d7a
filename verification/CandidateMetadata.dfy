/** FIFO bookkeeping for optional block metadata. Protected roots stay in the queue as
    tombstones; what matters is the queue of roots that are still candidates. */
module CandidateMetadata {
  import opened Bytes

  type Root = B256

  /** Elements of `s` in `keep`, in order. */
  function Filter(s: seq<Root>, keep: set<Root>): seq<Root> {
    if s == [] then []
    else if s[0] in keep then [s[0]] + Filter(s[1..], keep)
    else Filter(s[1..], keep)
  }

  function Elements(s: seq<Root>): set<Root> {
    set r | r in s
  }

  function Without(s: seq<Root>, root: Root): seq<Root> {
    Filter(s, Elements(s) - {root})
  }

  lemma {:induction false} FilterConcat(a: seq<Root>, b: seq<Root>, keep: set<Root>)
    ensures Filter(a + b, keep) == Filter(a, keep) + Filter(b, keep)
    decreases |a|
  {
    if a == [] {
      assert a + b == b;
    } else {
      assert (a + b)[1..] == a[1..] + b;
      FilterConcat(a[1..], b, keep);
    }
  }

  lemma {:induction false} FilterMembers(s: seq<Root>, keep: set<Root>, r: Root)
    ensures r in Filter(s, keep) <==> r in s && r in keep
    decreases |s|
  {
    if s != [] { FilterMembers(s[1..], keep, r); }
  }

  /** Filtering depends only on the kept elements that occur. */
  lemma {:induction false} FilterSame(s: seq<Root>, keep1: set<Root>, keep2: set<Root>)
    requires forall r :: r in s ==> (r in keep1 <==> r in keep2)
    ensures Filter(s, keep1) == Filter(s, keep2)
    decreases |s|
  {
    if s != [] {
      assert s[0] in s && forall r :: r in s[1..] ==> r in s;
      FilterSame(s[1..], keep1, keep2);
    }
  }

  lemma {:induction false} FilterDistinct(s: seq<Root>, keep: set<Root>)
    requires Distinct(s)
    ensures Distinct(Filter(s, keep))
    decreases |s|
  {
    if s != [] {
      FilterDistinct(s[1..], keep);
      FilterMembers(s[1..], keep, s[0]);
    }
  }

  lemma {:induction false} FilterTwice(s: seq<Root>, keep1: set<Root>, keep2: set<Root>)
    ensures Filter(Filter(s, keep1), keep2) == Filter(s, keep1 * keep2)
    decreases |s|
  {
    if s != [] {
      FilterTwice(s[1..], keep1, keep2);
      if s[0] in keep1 {
        assert Filter(s, keep1)[1..] == Filter(s[1..], keep1);
      }
    }
  }

  lemma {:induction false} FilterAll(s: seq<Root>, keep: set<Root>)
    requires forall r :: r in s ==> r in keep
    ensures Filter(s, keep) == s
    decreases |s|
  {
    if s != [] {
      assert s[0] in s && forall r :: r in s[1..] ==> r in s;
      FilterAll(s[1..], keep);
    }
  }

  /** Distinct candidates that all occur are counted by the filtered queue. */
  lemma {:induction false} FilterCount(s: seq<Root>, keep: set<Root>)
    requires Distinct(s) && keep <= Elements(s)
    ensures |Filter(s, keep)| == |keep|
    decreases |s|
  {
    if s == [] {
      assert keep == {};
    } else {
      var rest := keep - {s[0]};
      assert rest <= Elements(s[1..]) by {
        forall r | r in rest ensures r in s[1..] {
          var i :| 0 <= i < |s| && s[i] == r;
          assert s[1..][i - 1] == r;
        }
      }
      FilterCount(s[1..], rest);
      FilterSame(s[1..], keep, rest);
      if s[0] in keep { assert keep == rest + {s[0]}; } else { assert keep == rest; }
    }
  }

  class Tracker {
    const capacity: u64
    var candidates: set<Root>
    var queued: set<Root>
    var order: seq<Root>

    ghost predicate Valid()
      reads this
    {
      Distinct(order) && queued == Elements(order) && candidates <= queued
    }

    /** The plain queue this structure stands for. */
    ghost function Queue(): seq<Root>
      reads this
    {
      Filter(order, candidates)
    }

    constructor (capacity: u64)
      ensures Valid() && Queue() == [] && this.capacity == capacity
    {
      this.capacity, candidates, queued, order := capacity, {}, {}, [];
    }

    predicate Contains(root: Root)
      reads this
    {
      root in candidates
    }

    lemma CountFacts()
      requires Valid()
      ensures |Queue()| == |candidates|
    {
      FilterCount(order, candidates);
    }

    /** A new candidate goes to the back, also when an old tombstone of it is still queued. */
    method Insert(root: Root)
      requires Valid()
      modifies this
      ensures Valid()
      ensures Queue() == if root in old(Queue()) then old(Queue()) else old(Queue()) + [root]
    {
      hide Filter;
      ghost var before := candidates;
      FilterMembers(order, candidates, root);
      if root in candidates { return; }
      candidates := candidates + {root};
      if root in queued {
        ghost var others := queued - {root};
        FilterSame(order, others * candidates, before);
        FilterTwice(order, others, candidates);
        FilterDistinct(order, others);
        assert Elements(Filter(order, others)) == others by {
          forall r ensures r in Filter(order, others) <==> r in others { FilterMembers(order, others, r); }
        }
        order := Filter(order, queued - {root});
      } else {
        queued := queued + {root};
        FilterSame(order, candidates, before);
      }
      assert Filter(order, candidates) == old(Queue());
      FilterConcat(order, [root], candidates);
      FilterAll([root], candidates);
      assert Elements(order + [root]) == Elements(order) + {root};
      order := order + [root];
    }

    method Protect(root: Root)
      requires Valid()
      modifies this
      ensures Valid()
      ensures Queue() == Without(old(Queue()), root) && root !in Queue()
    {
      hide Filter;
      candidates := candidates - {root};
      ghost var keep := Elements(old(Queue())) - {root};
      FilterTwice(order, old(candidates), keep);
      forall r | r in order ensures r in candidates <==> r in old(candidates) * keep {
        FilterMembers(order, old(candidates), r);
      }
      FilterSame(order, candidates, old(candidates) * keep);
      FilterMembers(order, candidates, root);
    }

    lemma FrontOf(root: Root, rest: seq<Root>)
      requires Valid() && order == [root] + rest
      ensures Filter(order, candidates)
              == (if root in candidates then [root] else []) + Filter(rest, candidates - {root})
      ensures Distinct(rest) && queued - {root} == Elements(rest) && candidates - {root} <= Elements(rest)
    {
      assert order[1..] == rest && order[0] == root;
      assert forall i :: 0 <= i < |rest| ==> rest[i] == order[i + 1];
      assert root !in rest;
      FilterSame(rest, candidates, candidates - {root});
    }

    /** Evict the oldest candidates beyond the capacity, and drop tombstones often enough. */
    method Trim() returns (evicted: seq<Root>)
      requires Valid()
      modifies this
      ensures Valid()
      ensures var excess := SaturatingSub(|old(Queue())|, capacity);
              evicted == old(Queue())[..excess] && Queue() == old(Queue())[excess..]
      ensures |candidates| <= capacity
      ensures |order| <= Min(2 * (capacity as nat), U64_LIMIT - 1)
    {
      hide Filter;
      hide Distinct;
      hide Elements;
      evicted := EvictExcess();
      assert evicted == old(Queue())[..|evicted|] && Queue() == old(Queue())[|evicted|..];
      DropFrontTombstones();
      if |order| > Min(2 * (capacity as nat), U64_LIMIT - 1) { Compact(); }
    }

    method EvictExcess() returns (evicted: seq<Root>)
      requires Valid()
      modifies this
      ensures Valid()
      ensures evicted + Queue() == old(Queue())
      ensures |evicted| == SaturatingSub(|old(Queue())|, capacity) && |candidates| == |Queue()| <= capacity
    {
      hide Filter;
      hide Distinct;
      hide Elements;
      evicted := [];
      CountFacts();
      assert [] + Queue() == Queue();
      while |candidates| > capacity
        invariant Valid() && |Queue()| == |candidates|
        invariant evicted + Queue() == old(Queue())
        invariant evicted == [] || |candidates| >= capacity
        decreases |order|
      {
        if order == [] { EmptyFilter(candidates); }
        ghost var before, gone := Queue(), evicted;
        var root := PopFront();
        if root in candidates {
          candidates := candidates - {root};
          evicted := evicted + [root];
          assert before == [root] + Queue();
          assert gone + ([root] + Queue()) == gone + [root] + Queue();
        } else {
          assert candidates - {root} == candidates;
          assert before == [] + Queue() == Queue();
        }
        CountFacts();
      }
    }

    /** Take the oldest entry; its candidacy is left for the caller to settle. */
    method PopFront() returns (root: Root)
      requires Valid() && order != []
      modifies this`order, this`queued
      ensures order == old(order)[1..] && root == old(order)[0]
      ensures Distinct(order) && queued == Elements(order) && candidates - {root} <= queued
      ensures old(Queue()) == (if root in candidates then [root] else []) + Filter(order, candidates - {root})
    {
      hide Filter;
      root := order[0];
      assert order == [root] + order[1..];
      FrontOf(root, order[1..]);
      order, queued := order[1..], queued - {root};
    }

    method DropFrontTombstones()
      requires Valid()
      modifies this`order, this`queued
      ensures Valid() && Queue() == old(Queue())
    {
      hide Filter;
      while order != [] && order[0] !in candidates
        invariant Valid() && Queue() == old(Queue())
        decreases |order|
      {
        var root := order[0];
        assert order == [root] + order[1..];
        FrontOf(root, order[1..]);
        assert candidates - {root} == candidates;
        order, queued := order[1..], queued - {root};
      }
    }

    method Compact()
      requires Valid()
      modifies this`order, this`queued
      ensures Valid() && Queue() == old(Queue()) && |order| == |candidates|
    {
      hide Filter;
      FilterTwice(order, candidates, candidates);
      FilterDistinct(order, candidates);
      FilterCount(order, candidates);
      assert Elements(Filter(order, candidates)) == queued * candidates by {
        forall r ensures r in Filter(order, candidates) <==> r in queued * candidates {
          FilterMembers(order, candidates, r);
        }
      }
      assert candidates * candidates == candidates;
      order := Filter(order, candidates);
      queued := queued * candidates;
    }
  }

  lemma EmptyFilter(keep: set<Root>)
    ensures Filter([], keep) == []
  {
  }
}
