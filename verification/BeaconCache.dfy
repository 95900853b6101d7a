/** The cache of serving bodies. A body stays charged until its last owner, the cache or an
    outside clone, has dropped it; other threads may clone, drop and release at any moment. */
module BeaconCache {
  import opened Bytes
  import opened Totals

  type Root = B256

  /** Where a body is between admission and release. The thread that drops the last owner still has to
      subtract the bytes and then the entry; `mine` tells the cache's own thread from the others. */
  datatype Stage = Settled | Admitting | OwesBoth(mine: bool) | OwesEntry(mine: bool)

  /** A body ever admitted: its allocation, whether the cache owns it, and outside clones. */
  datatype Body = Body(capacity: nat, cached: bool, clones: nat, stage: Stage) {
    predicate Alive() { cached || clones > 0 }

    /** Only another thread may act on the body: it holds a clone or dropped the last one. */
    predicate Foreign() { clones > 0 || stage == OwesBoth(false) || stage == OwesEntry(false) }

    /** The cache's own thread is in the middle of admitting or releasing the body. */
    predicate Mine() { stage == Admitting || stage == OwesBoth(true) || stage == OwesEntry(true) }

    /** After a reference is gone; the last one leaves the charge to be subtracted. */
    function Dropped(mine: bool): Body {
      if Alive() then this else this.(stage := OwesBoth(mine))
    }
  }

  /** Bytes owned or still owed. */
  function BodyBytes(b: Body): nat {
    if b.Alive() || b.stage == Admitting || b.stage.OwesBoth? then b.capacity else 0
  }

  /** Entries owned or still owed. */
  function BodyCount(b: Body): nat {
    if b.Alive() || b.stage.OwesBoth? || b.stage.OwesEntry? then 1 else 0
  }

  /** An owned body owes nothing. */
  ghost predicate Staged(bodies: seq<Body>) {
    forall i :: 0 <= i < |bodies| && bodies[i].Alive() ==> bodies[i].stage == Settled
  }

  /** What other threads may have done: nothing to the cache's references, to bodies they have no share in,
      or to the cache's own unfinished work. */
  ghost predicate Released(before: seq<Body>, after: seq<Body>) {
    && |before| == |after|
    && forall i :: 0 <= i < |before| ==>
         && after[i].capacity == before[i].capacity && after[i].cached == before[i].cached
         && (!before[i].Foreign() ==> after[i] == before[i])
         && (after[i].Mine() ==> before[i].Mine())
  }

  /** Queue and map hold the same roots, each with a body of its own that the cache owns. */
  ghost predicate Indexed(payloads: map<Root, nat>, order: seq<Root>, bodies: seq<Body>) {
    && Distinct(order) && payloads.Keys == (set r | r in order)
    && (forall r :: r in payloads ==> payloads[r] < |bodies| && bodies[payloads[r]].cached)
    && (forall r, q :: r in payloads && q in payloads && payloads[r] == payloads[q] ==> r == q)
    && (forall i :: 0 <= i < |bodies| && bodies[i].cached ==> exists r :: r in payloads && payloads[r] == i)
  }

  lemma IndexedAfterEvict(payloads: map<Root, nat>, order: seq<Root>, bodies: seq<Body>)
    requires Indexed(payloads, order, bodies) && order != []
    ensures order[0] in payloads && payloads[order[0]] < |bodies|
    ensures var i := payloads[order[0]];
            Indexed(payloads - {order[0]}, order[1..], bodies[i := bodies[i].(cached := false)])
  {
    var oldest := order[0];
    assert oldest in order;
    var i := payloads[oldest];
    var rest, after := payloads - {oldest}, bodies[i := bodies[i].(cached := false)];
    TailKeys(order);
    hide Distinct;
    forall j | 0 <= j < |after| && after[j].cached
      ensures exists r :: r in rest && rest[r] == j
    {
      var r :| r in payloads && payloads[r] == j;
      assert r in rest && rest[r] == j;
    }
    assert rest.Keys == payloads.Keys - {oldest};
  }

  lemma IndexedAfterCharge(payloads: map<Root, nat>, order: seq<Root>, bodies: seq<Body>, body: Body)
    requires Indexed(payloads, order, bodies) && !body.cached
    ensures Indexed(payloads, order, bodies + [body])
  {
    hide Distinct;
    var after := bodies + [body];
    forall i | 0 <= i < |after| && after[i].cached
      ensures exists r :: r in payloads && payloads[r] == i
    {
      assert after[i] == bodies[i];
    }
  }

  lemma IndexedAfterPublish(
    payloads: map<Root, nat>, order: seq<Root>, bodies: seq<Body>, root: Root, i: nat, body: Body)
    requires Indexed(payloads, order, bodies) && root !in payloads && i < |bodies| && !bodies[i].cached && body.cached
    ensures Indexed(payloads[root := i], order + [root], bodies[i := body])
  {
    var more, after := payloads[root := i], bodies[i := body];
    assert forall j :: 0 <= j < |order| ==> order[j] in payloads;
    assert Distinct(order + [root]);
    hide Distinct;
    forall j | 0 <= j < |after| && after[j].cached
      ensures exists r :: r in more && more[r] == j
    {
      if j != i {
        var r :| r in payloads && payloads[r] == j;
        assert r in more && more[r] == j;
      } else {
        assert root in more && more[root] == j;
      }
    }
  }

  /** Reference counts other than the cache's own do not matter to the index. */
  lemma IndexedSameCached(payloads: map<Root, nat>, order: seq<Root>, bodies: seq<Body>, i: nat, b: Body)
    requires Indexed(payloads, order, bodies) && i < |bodies| && b.cached == bodies[i].cached
    ensures Indexed(payloads, order, bodies[i := b])
  {
    hide Distinct;
  }

  class Cache {
    const maxBytes: nat
    const maxEntries: nat
    var payloads: map<Root, nat>
    var order: seq<Root>
    /** The shared counters, as the atomics hold them. */
    var bytes: nat
    var entries: nat
    /** The reference counts of every body ever admitted; `payloads` refers to them by position. */
    var bodies: seq<Body>

    /** Holds between any two steps of any thread. */
    ghost predicate Valid()
      reads this
    {
      Indexed(payloads, order, bodies) && Staged(bodies) && Charged() && bytes <= maxBytes && entries <= maxEntries
    }

    /** The counters are the sums over bodies that are owned or whose release is not finished. */
    ghost predicate Charged()
      reads this
    {
      bytes == Total(bodies, BodyBytes) && entries == Total(bodies, BodyCount)
    }

    /** The cache's own thread has no unfinished admission or release. */
    ghost predicate Idle()
      reads this
    {
      forall i :: 0 <= i < |bodies| ==> !bodies[i].Mine()
    }

    constructor (maxBytes: nat, maxEntries: nat)
      ensures Valid() && Idle() && order == [] && bodies == []
      ensures this.maxBytes == maxBytes && this.maxEntries == maxEntries
    {
      this.maxBytes, this.maxEntries := maxBytes, maxEntries;
      payloads, order, bytes, entries, bodies := map[], [], 0, 0, [];
    }

    lemma OwnedIsSettled(i: nat)
      requires Valid() && i < |bodies| && bodies[i].Alive()
      ensures bodies[i].stage == Settled
    {
    }

    lemma QueuedIsIndexed()
      requires Valid()
      ensures forall r :: r in order <==> r in payloads
    {
    }

    // ---- Steps of any thread ----

    /** Change a body without changing what is charged for it. */
    method Recount(i: nat, b: Body)
      requires Valid() && i < |bodies| && b.cached == bodies[i].cached && (b.Alive() ==> b.stage == Settled)
      requires BodyBytes(b) == BodyBytes(bodies[i]) && BodyCount(b) == BodyCount(bodies[i])
      modifies this`bodies
      ensures Valid() && bodies == old(bodies)[i := b]
    {
      hide Total;
      TotalUpdate(bodies, BodyBytes, i, b);
      TotalUpdate(bodies, BodyCount, i, b);
      IndexedSameCached(payloads, order, bodies, i, b);
      hide Indexed;
      bodies := bodies[i := b];
    }

    /** Clone a body: through the cache, or from another clone. */
    method CloneBody(i: nat)
      requires Valid() && i < |bodies| && bodies[i].Alive()
      modifies this`bodies
      ensures Valid() && bodies == old(bodies)[i := old(bodies)[i].(clones := old(bodies)[i].clones + 1)]
    {
      hide Valid;
      OwnedIsSettled(i);
      Recount(i, bodies[i].(clones := bodies[i].clones + 1));
    }

    /** Another owner drops a clone. The counters do not change yet. */
    method DropClone(i: nat)
      requires Valid() && i < |bodies| && bodies[i].clones > 0
      modifies this`bodies
      ensures Valid()
      ensures bodies == old(bodies)[i := old(bodies)[i].(clones := old(bodies)[i].clones - 1).Dropped(false)]
    {
      Recount(i, bodies[i].(clones := bodies[i].clones - 1).Dropped(false));
    }

    /** First subtraction of the last drop. */
    method SubtractBytes(i: nat, mine: bool)
      requires Valid() && i < |bodies| && bodies[i].stage == OwesBoth(mine)
      modifies this`bytes, this`bodies
      ensures Valid() && bodies == old(bodies)[i := old(bodies)[i].(stage := OwesEntry(mine))]
      ensures bytes == old(bytes) - bodies[i].capacity
    {
      hide Total;
      var b := bodies[i].(stage := OwesEntry(mine));
      TotalUpdate(bodies, BodyBytes, i, b);
      TotalUpdate(bodies, BodyCount, i, b);
      TotalCovers(bodies, BodyBytes, i);
      IndexedSameCached(payloads, order, bodies, i, b);
      hide Indexed;
      bytes := bytes - b.capacity;
      bodies := bodies[i := b];
    }

    /** Second subtraction of the last drop. */
    method SubtractEntry(i: nat, mine: bool)
      requires Valid() && i < |bodies| && bodies[i].stage == OwesEntry(mine)
      modifies this`entries, this`bodies
      ensures Valid() && bodies == old(bodies)[i := old(bodies)[i].(stage := Settled)]
      ensures entries == old(entries) - 1
    {
      hide Total;
      var b := bodies[i].(stage := Settled);
      TotalUpdate(bodies, BodyBytes, i, b);
      TotalUpdate(bodies, BodyCount, i, b);
      TotalCovers(bodies, BodyCount, i);
      IndexedSameCached(payloads, order, bodies, i, b);
      hide Indexed;
      entries := entries - 1;
      bodies := bodies[i := b];
    }

    /** Any number of steps by other threads: clone, drop a clone, or one of the two subtractions. */
    method Interfere()
      requires Valid()
      modifies this`bytes, this`entries, this`bodies
      ensures Valid() && bytes <= old(bytes) && entries <= old(entries) && Released(old(bodies), bodies)
    {
      var steps: nat :| true;
      while steps > 0
        invariant Valid() && bytes <= old(bytes) && entries <= old(entries) && Released(old(bodies), bodies)
      {
        var i: nat :| i <= |bodies|;
        var cloning: bool :| true;
        OtherStep(i, cloning);
        steps := steps - 1;
      }
    }

    /** One step of another thread on body `i`, if it can take one. */
    method OtherStep(i: nat, cloning: bool)
      requires Valid()
      modifies this`bytes, this`entries, this`bodies
      ensures Valid() && bytes <= old(bytes) && entries <= old(entries) && Released(old(bodies), bodies)
    {
      hide Valid;
      if i >= |bodies| { return; }
      if bodies[i].clones > 0 {
        OwnedIsSettled(i);
        if cloning { CloneBody(i); } else { DropClone(i); }
      } else if bodies[i].stage == OwesBoth(false) {
        SubtractBytes(i, false);
      } else if bodies[i].stage == OwesEntry(false) {
        SubtractEntry(i, false);
      }
    }

    // ---- The cache's own operations ----

    /** Clone the cached body of a root. */
    method Get(root: Root) returns (r: Option<nat>)
      requires Valid() && Idle()
      modifies this`bodies
      ensures Valid() && Idle()
      ensures r == if root in payloads then Some(payloads[root]) else None
      ensures r.None? ==> bodies == old(bodies)
      ensures r.Some? ==>
                bodies == old(bodies)[r.value := old(bodies)[r.value].(clones := old(bodies)[r.value].clones + 1)]
    {
      if root !in payloads { return None; }
      CloneBody(payloads[root]);
      r := Some(payloads[root]);
    }

    /** Remove the oldest root and drop the cache's reference to its body. If that was the last one, the
        bytes and then the entry are released, with other threads acting in between. */
    method EvictOldest()
      requires Valid() && Idle() && order != []
      modifies this
      ensures Valid() && Idle() && order == old(order)[1..] && payloads == old(payloads) - {old(order)[0]}
      ensures bytes <= old(bytes) && entries <= old(entries) && |bodies| == |old(bodies)|
      ensures forall i :: 0 <= i < |bodies| && bodies[i].cached ==> old(bodies)[i].cached
      ensures var i := old(payloads)[old(order)[0]];
              && !bodies[i].cached
              && (old(bodies)[i].clones == 0 ==>
                    && bodies[i] == Body(old(bodies)[i].capacity, false, 0, Settled)
                    && bytes <= old(bytes) - bodies[i].capacity && entries < old(entries))
    {
      hide Valid;
      var i := Forget();
      Interfere();
      if bodies[i].stage == OwesBoth(true) {
        SubtractBytes(i, true);
        Interfere();
        SubtractEntry(i, true);
      }
    }

    /** The reference leaves the map and the queue; nothing is subtracted yet. */
    method Forget() returns (i: nat)
      requires Valid() && order != []
      modifies this`order, this`payloads, this`bodies
      ensures order == old(order)[1..] && payloads == old(payloads) - {old(order)[0]}
      ensures i == old(payloads)[old(order)[0]] && i < |old(bodies)| && old(bodies)[i].stage == Settled
      ensures bodies == old(bodies)[i := old(bodies)[i].(cached := false).Dropped(true)] && Valid()
    {
      hide Total;
      IndexedAfterEvict(payloads, order, bodies);
      var oldest := order[0];
      i := payloads[oldest];
      assert bodies[i].cached;
      var b := bodies[i].(cached := false).Dropped(true);
      TotalUpdate(bodies, BodyBytes, i, b);
      TotalUpdate(bodies, BodyCount, i, b);
      IndexedSameCached(payloads - {oldest}, order[1..], bodies[i := bodies[i].(cached := false)], i, b);
      assert bodies[i := bodies[i].(cached := false)][i := b] == bodies[i := b];
      hide Indexed;
      order := order[1..];
      payloads := payloads - {oldest};
      bodies := bodies[i := b];
    }

    /** There is room for a body beside everything still charged. */
    predicate Room(capacity: nat)
      reads this
      requires capacity <= maxBytes
    {
      bytes <= maxBytes - capacity && entries < maxEntries
    }

    /** The two counters are loaded one after the other; other threads act in between. */
    method Fits(capacity: nat) returns (fits: bool)
      requires Valid() && capacity <= maxBytes
      modifies this`bytes, this`entries, this`bodies
      ensures Valid() && bytes <= old(bytes) && entries <= old(entries) && Released(old(bodies), bodies)
      ensures fits <==> Room(capacity)
      ensures old(Room(capacity)) ==> fits
    {
      hide Valid;
      var seenBytes := bytes;
      if seenBytes > maxBytes - capacity { return false; }
      Interfere();
      fits := entries < maxEntries;
    }

    /** Admit a body, evicting oldest-first only as long as it does not fit. `evicted` counts evictions. */
    method Insert(root: Root, capacity: nat) returns (admitted: bool, ghost evicted: nat)
      requires Valid() && Idle()
      modifies this
      ensures Valid() && Idle() && evicted <= |old(order)|
      ensures order == old(order)[evicted..] + (if admitted then [root] else [])
      ensures forall r :: r in old(order)[evicted..] ==> r in payloads && payloads[r] == old(payloads)[r]
      ensures admitted ==> root !in old(payloads) && bodies[payloads[root]] == Body(capacity, true, 0, Settled)
      ensures root in old(payloads) || capacity > maxBytes || maxEntries == 0 ==> !admitted && evicted == 0
      ensures !admitted && root !in old(payloads) && capacity <= maxBytes && maxEntries > 0 ==>
                order == [] && (bytes + capacity > maxBytes || entries >= maxEntries)
      ensures old(bytes) + capacity <= maxBytes && old(entries) < maxEntries ==>
                evicted == 0 && (admitted <==> root !in old(payloads))
    {
      hide Valid;
      evicted := 0;
      QueuedIsIndexed();
      if root in payloads || capacity > maxBytes || maxEntries == 0 { return false, 0; }
      Interfere();
      var fits := Fits(capacity);
      while !fits
        invariant Valid() && Idle() && evicted <= |old(order)| && order == old(order)[evicted..]
        invariant payloads.Keys <= old(payloads).Keys && forall r :: r in payloads ==> payloads[r] == old(payloads)[r]
        invariant fits <==> Room(capacity)
        invariant old(Room(capacity)) ==> evicted == 0 && fits
        decreases |order|
      {
        if order == [] { return false, evicted; }
        EvictOldest();
        evicted := evicted + 1;
        Interfere();
        fits := Fits(capacity);
      }
      QueuedIsIndexed();
      Interfere();
      Admit(root, capacity);
      admitted := true;
    }

    /** Charge the bytes, then the entry, with other threads acting in between; then publish the body. */
    method Admit(root: Root, capacity: nat)
      requires Valid() && Idle() && root !in payloads && capacity <= maxBytes && Room(capacity)
      modifies this
      ensures Valid() && Idle() && order == old(order) + [root]
      ensures payloads == old(payloads)[root := |old(bodies)|] && |bodies| == |old(bodies)| + 1
      ensures Released(old(bodies), bodies[..|old(bodies)|])
      ensures bodies[|old(bodies)|] == Body(capacity, true, 0, Settled)
    {
      hide Valid;
      ChargeBytes(capacity);
      Interfere();
      Publish(root, |bodies| - 1);
    }

    method ChargeBytes(capacity: nat)
      requires Valid() && capacity <= maxBytes && bytes <= maxBytes - capacity
      modifies this`bytes, this`bodies
      ensures Valid() && bytes == old(bytes) + capacity
      ensures bodies == old(bodies) + [Body(capacity, false, 0, Admitting)]
    {
      hide Total;
      var body := Body(capacity, false, 0, Admitting);
      TotalAppend(bodies, BodyBytes, body);
      TotalAppend(bodies, BodyCount, body);
      IndexedAfterCharge(payloads, order, bodies, body);
      hide Indexed;
      bytes := bytes + capacity;
      bodies := bodies + [body];
    }

    /** Charge the entry and insert the body; no other thread sees the body before. */
    method Publish(root: Root, i: nat)
      requires Valid() && root !in payloads && i < |bodies| && entries < maxEntries
      requires bodies[i] == Body(bodies[i].capacity, false, 0, Admitting)
      modifies this`entries, this`payloads, this`order, this`bodies
      ensures Valid() && entries == old(entries) + 1 && order == old(order) + [root]
      ensures payloads == old(payloads)[root := i]
      ensures bodies == old(bodies)[i := Body(old(bodies)[i].capacity, true, 0, Settled)]
    {
      hide Total;
      var b := Body(bodies[i].capacity, true, 0, Settled);
      TotalUpdate(bodies, BodyBytes, i, b);
      TotalUpdate(bodies, BodyCount, i, b);
      IndexedAfterPublish(payloads, order, bodies, root, i, b);
      hide Indexed;
      entries := entries + 1;
      payloads := payloads[root := i];
      order := order + [root];
      bodies := bodies[i := b];
    }

    // ---- What the charge means ----

    /** Memory that anyone owns is charged, hence within the limits; once nothing is owned and every
        release is finished both counters are back to zero. */
    lemma ChargeCoversOwned()
      requires Valid()
      ensures Total(bodies, OwnedBytes) <= bytes <= maxBytes && Total(bodies, OwnedCount) <= entries <= maxEntries
      ensures (forall i :: 0 <= i < |bodies| ==> !bodies[i].Alive() && bodies[i].stage == Settled) ==>
                bytes == 0 && entries == 0
    {
      TotalBelow(bodies, OwnedBytes, BodyBytes);
      TotalBelow(bodies, OwnedCount, BodyCount);
      if forall i :: 0 <= i < |bodies| ==> !bodies[i].Alive() && bodies[i].stage == Settled {
        TotalZero(bodies, BodyBytes);
        TotalZero(bodies, BodyCount);
      }
    }
  }

  function OwnedBytes(b: Body): nat {
    if b.Alive() then b.capacity else 0
  }

  function OwnedCount(b: Body): nat {
    if b.Alive() then 1 else 0
  }

  lemma TailKeys(s: seq<Root>)
    requires Distinct(s) && s != []
    ensures Distinct(s[1..])
    ensures (set r | r in s[1..]) == (set r | r in s) - {s[0]}
  {
    assert forall i :: 0 <= i < |s[1..]| ==> s[1..][i] == s[i + 1];
    forall r | r in s && r != s[0]
      ensures r in s[1..]
    {
      var i :| 0 <= i < |s| && s[i] == r;
      assert s[1..][i - 1] == r;
    }
  }
}
