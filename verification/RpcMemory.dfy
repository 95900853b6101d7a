/** The shared byte budget for RPC buffers: every interleaving of load, compare-and-swap,
    shrink and drop steps by any number of threads. */
module RpcMemory {
  import opened Bytes
  import opened Totals

  /** A reservation: bytes it owns, and bytes it gave up that are not yet subtracted. */
  datatype Owner = Owner(held: nat, owed: nat, alive: bool)

  /** A thread inside admission, with the counter value it last saw. */
  datatype Attempt = Attempt(bytes: nat, seen: nat)

  datatype Pool = Pool(max: nat, used: nat, owners: seq<Owner>, attempts: map<nat, Attempt>)

  function Weight(o: Owner): nat {
    o.held + o.owed
  }

  function Owned(p: Pool): nat {
    Total(p.owners, Weight)
  }

  datatype Step =
    | Load(thread: nat, bytes: nat)
    | Reject(thread: nat)
    | Exchange(thread: nat)
    | Retry(thread: nat)
    | Shrink(owner: nat, retained: nat)
    | Drop(owner: nat)
    | Subtract(owner: nat)

  /** When a thread can take the step. A weak compare-and-swap may fail even on an equal value. */
  predicate Enabled(p: Pool, step: Step) {
    match step
    case Load(t, _) => t !in p.attempts
    case Reject(t) => t in p.attempts && p.attempts[t].bytes > p.max - p.attempts[t].seen
    case Exchange(t) =>
      t in p.attempts && p.attempts[t].bytes <= p.max - p.attempts[t].seen && p.attempts[t].seen == p.used
    case Retry(t) => t in p.attempts && p.attempts[t].bytes <= p.max - p.attempts[t].seen
    case Shrink(i, retained) =>
      i < |p.owners| && p.owners[i].alive && p.owners[i].owed == 0 && retained <= p.owners[i].held
    case Drop(i) => i < |p.owners| && p.owners[i].alive && p.owners[i].owed == 0
    case Subtract(i) => i < |p.owners| && p.owners[i].owed > 0
  }

  function Taken(p: Pool, step: Step): Pool
    requires Enabled(p, step) && Inv(p)
  {
    match step
    case Load(t, bytes) => p.(attempts := p.attempts[t := Attempt(bytes, p.used)])
    case Reject(t) => p.(attempts := p.attempts - {t})
    case Exchange(t) =>
      var a := p.attempts[t];
      p.(used := a.seen + a.bytes, owners := p.owners + [Owner(a.bytes, 0, true)], attempts := p.attempts - {t})
    case Retry(t) => p.(attempts := p.attempts[t := p.attempts[t].(seen := p.used)])
    case Shrink(i, retained) =>
      var o := p.owners[i];
      p.(owners := p.owners[i := Owner(retained, o.held - retained, true)])
    case Drop(i) => p.(owners := p.owners[i := Owner(0, p.owners[i].held, false)])
    case Subtract(i) =>
      TotalCovers(p.owners, Weight, i);
      p.(used := p.used - p.owners[i].owed, owners := p.owners[i := p.owners[i].(owed := 0)])
  }

  /** The counter is exactly what is owned or still owed, within the limit; no thread has seen more
      than the limit, so `max - seen` in admission cannot underflow. */
  ghost predicate Inv(p: Pool) {
    CounterExact(p) && SeenWithinLimit(p) && DroppedHoldNothing(p)
  }

  ghost predicate CounterExact(p: Pool) {
    p.used == Owned(p) <= p.max
  }

  ghost predicate SeenWithinLimit(p: Pool) {
    forall t :: t in p.attempts ==> p.attempts[t].seen <= p.max
  }

  ghost predicate DroppedHoldNothing(p: Pool) {
    forall i :: 0 <= i < |p.owners| && !p.owners[i].alive ==> p.owners[i].held == 0
  }

  lemma StepKeepsInv(p: Pool, step: Step)
    requires Inv(p) && Enabled(p, step)
    ensures Inv(Taken(p, step)) && Taken(p, step).max == p.max
  {
    StepKeepsCounter(p, step);
    hide Total;
    hide Owned;
  }

  /** The accounting part: what a step adds to the counter it adds to the owners. */
  lemma StepKeepsCounter(p: Pool, step: Step)
    requires Inv(p) && Enabled(p, step)
    ensures CounterExact(Taken(p, step))
  {
    hide Total;
    hide SeenWithinLimit;
    hide DroppedHoldNothing;
    match step
    case Exchange(t) => TotalAppend(p.owners, Weight, Owner(p.attempts[t].bytes, 0, true));
    case Shrink(i, retained) => OwnerChanged(p, i, Owner(retained, p.owners[i].held - retained, true));
    case Drop(i) => OwnerChanged(p, i, Owner(0, p.owners[i].held, false));
    case Subtract(i) =>
      TotalCovers(p.owners, Weight, i);
      OwnerChanged(p, i, p.owners[i].(owed := 0));
    case _ =>
  }

  lemma OwnerChanged(p: Pool, i: nat, o: Owner)
    requires i < |p.owners|
    ensures Total(p.owners[i := o], Weight) == Owned(p) - Weight(p.owners[i]) + Weight(o)
  {
    TotalUpdate(p.owners, Weight, i, o);
  }

  /** A schedule that the threads can follow from this state. */
  ghost predicate Possible(p: Pool, steps: seq<Step>)
    requires Inv(p)
    decreases |steps|
  {
    steps == [] || (Enabled(p, steps[0]) && (StepKeepsInv(p, steps[0]); Possible(Taken(p, steps[0]), steps[1..])))
  }

  ghost function Final(p: Pool, steps: seq<Step>): Pool
    requires Inv(p) && Possible(p, steps)
    decreases |steps|
  {
    if steps == [] then p
    else
      StepKeepsInv(p, steps[0]);
      Final(Taken(p, steps[0]), steps[1..])
  }

  function NewPool(max: nat): (p: Pool)
    ensures Inv(p)
  {
    Pool(max, 0, [], map[])
  }

  lemma {:induction false} RunKeepsInv(p: Pool, steps: seq<Step>)
    requires Inv(p) && Possible(p, steps)
    ensures Inv(Final(p, steps)) && Final(p, steps).max == p.max
    decreases |steps|
  {
    hide Taken;
    if steps != [] {
      StepKeepsInv(p, steps[0]);
      RunKeepsInv(Taken(p, steps[0]), steps[1..]);
    }
  }

  /** In every state of every interleaving the counter is the bytes held plus the bytes owed,
      at most the limit; when nothing is held or owed it is back to zero. */
  lemma CounterIsExact(max: nat, steps: seq<Step>)
    requires Possible(NewPool(max), steps)
    ensures var p := Final(NewPool(max), steps);
            && p.used == Owned(p) <= max
            && (forall t :: t in p.attempts ==> p.attempts[t].seen <= max)
            && ((forall i :: 0 <= i < |p.owners| ==> p.owners[i].held == 0 && p.owners[i].owed == 0) ==> p.used == 0)
  {
    RunKeepsInv(NewPool(max), steps);
    var p := Final(NewPool(max), steps);
    if forall i :: 0 <= i < |p.owners| ==> p.owners[i].held == 0 && p.owners[i].owed == 0 {
      TotalZero(p.owners, Weight);
    }
  }

  /** Admission is refused only when the bytes would not fit beside a counter value that was current
      at the thread's last look, and success adds exactly one owner of exactly the bytes asked for. */
  lemma AdmissionExact(p: Pool, t: nat)
    requires Inv(p) && t in p.attempts
    ensures Enabled(p, Reject(t)) <==> !Enabled(p, Retry(t))
    ensures Enabled(p, Reject(t)) <==> p.attempts[t].bytes + p.attempts[t].seen > p.max
    ensures Enabled(p, Exchange(t)) <==> p.attempts[t].seen == p.used && p.used + p.attempts[t].bytes <= p.max
    ensures Enabled(p, Retry(t)) ==>
              Taken(p, Retry(t)) == p.(attempts := p.attempts[t := Attempt(p.attempts[t].bytes, p.used)])
    ensures Enabled(p, Reject(t)) ==> Taken(p, Reject(t)) == p.(attempts := p.attempts - {t})
    ensures Enabled(p, Exchange(t)) ==>
              var q := Taken(p, Exchange(t));
              && Owned(q) == Owned(p) + p.attempts[t].bytes && |q.owners| == |p.owners| + 1
              && q.owners[|p.owners|] == Owner(p.attempts[t].bytes, 0, true)
  {
    if Enabled(p, Exchange(t)) {
      TotalAppend(p.owners, Weight, Owner(p.attempts[t].bytes, 0, true));
    }
  }
}
