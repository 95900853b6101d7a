/** What every run of the light client keeps, with no trust assumption at all. */
module LightClientRuns {
  import opened Bytes
  import opened Merkle
  import opened LightClient

  /** What validation establishes about an update, relative to a store. Nothing here
      mentions the participant maxima, the optimistic header or the checkpoint, which may
      change while the update is retained. */
  ghost predicate ValidAgainst(crypto: Crypto, store: Store, update: Update) {
    var storePeriod := Period(store.finalized.slot);
    && MIN_PARTICIPANTS <= update.participants <= COMMITTEE_SIZE
    && update.FinalizedSlot() <= update.attested.slot < update.signatureSlot
    && (|| Period(update.signatureSlot) == storePeriod
        || (Period(update.signatureSlot) == storePeriod + 1 && store.nextCommittee.Some?))
    && (update.attested.slot > store.finalized.slot || SuppliesNextCommittee(store, update))
    && (update.nextCommittee.Some? ==> |update.nextCommittee.value.pubkeys| == COMMITTEE_SIZE)
    && (update.checkpoint.Some? ==>
          update.finalized.Some?
          && CheckpointMatchesHeader(crypto, update.checkpoint.value, update.finalized.value, update.attested.slot))
  }

  lemma AcceptedIsValid(crypto: Crypto, store: Store, event: Event)
    requires Accepted(crypto, store, event).Some?
    ensures ValidAgainst(crypto, store, Accepted(crypto, store, event).value)
  {
  }

  lemma PeriodMonotone(a: nat, b: nat)
    requires a <= b
    ensures Period(a) <= Period(b)
  {
  }

  // ---- Persisted-state checks ----

  predicate CommitteeSized(committee: Committee) {
    |committee.pubkeys| == COMMITTEE_SIZE
  }

  /** The store-level checks made when a persisted store is opened. */
  predicate PersistedStateOk(crypto: Crypto, store: Store, trusted: TrustedCheckpoint) {
    && store.checkpointRoot == trusted.root
    && trusted.slot == Some(store.bootstrapSlot)
    && store.bootstrapSlot <= store.finalized.slot <= store.optimistic.slot
    && (store.checkpoint.Some? ==>
          && store.checkpoint.value.epoch * SLOTS_PER_EPOCH < U64_LIMIT
          && store.checkpoint.value.epoch * SLOTS_PER_EPOCH <= store.optimistic.slot
          && (store.checkpoint.value.root == ZERO_ROOT <==> store.checkpoint.value.epoch == 0))
    && CommitteeSized(store.currentCommittee)
    && (store.nextCommittee.Some? ==> CommitteeSized(store.nextCommittee.value))
    && store.previousMax <= COMMITTEE_SIZE
    && store.currentMax <= COMMITTEE_SIZE
    && (store.best.Some? ==> PersistedUpdateOk(crypto, store.best.value))
  }

  predicate PersistedUpdateOk(crypto: Crypto, update: Update) {
    && (update.checkpoint.Some? ==>
          update.finalized.Some?
          && CheckpointMatchesHeader(crypto, update.checkpoint.value, update.finalized.value, update.attested.slot))
    && MIN_PARTICIPANTS <= update.participants <= COMMITTEE_SIZE
    && (update.nextCommittee.Some? ==> CommitteeSized(update.nextCommittee.value))
  }

  /** The run invariant: the persisted-state checks pass, and the retained best update
      would still be accepted by the store as it is now. */
  ghost predicate Inv(crypto: Crypto, store: Store, trusted: TrustedCheckpoint) {
    && PersistedStateOk(crypto, store, trusted)
    && (store.best.Some? ==> ValidAgainst(crypto, store, store.best.value))
  }

  /** Two thirds of the committee always exceed half of any recorded maximum, so a
      supermajority update also moves the optimistic header. */
  lemma SupermajorityPassesThreshold(store: Store, update: Update)
    requires update.HasSupermajority() && update.participants <= COMMITTEE_SIZE
    requires store.previousMax <= COMMITTEE_SIZE && store.currentMax <= COMMITTEE_SIZE
    ensures Recorded(store, update).optimistic.slot >= update.attested.slot
  {
  }

  /** An update valid against a store whose finality it advances stays within one
      period, and without a known next committee within the store's own period. */
  lemma FinalityStaysNear(crypto: Crypto, store: Store, update: Update)
    requires ValidAgainst(crypto, store, update)
    ensures Period(update.attested.slot) <= Period(store.finalized.slot) + (if store.nextCommittee.Some? then 1 else 0)
    ensures Period(update.FinalizedSlot()) <= Period(update.attested.slot)
    ensures update.attested.slot > store.finalized.slot ==> Period(update.attested.slot) >= Period(store.finalized.slot)
    ensures update.FinalizedSlot() > store.finalized.slot ==>
              Period(store.finalized.slot) <= Period(update.FinalizedSlot())
  {
    PeriodMonotone(update.attested.slot, update.signatureSlot);
    PeriodMonotone(update.FinalizedSlot(), update.attested.slot);
  }

  /** The sync protocol asserts, when a store without a next committee is updated, that finality
      stays in the store's period. The code has no such check; validation already implies it,
      for processed and for timeout-promoted updates. */
  lemma PeriodAssertionImplied(crypto: Crypto, store: Store, update: Update)
    requires ValidAgainst(crypto, store, update) && store.nextCommittee.None?
    ensures Finalizes(store, update) ==> Period(update.FinalizedSlot()) == Period(store.finalized.slot)
    ensures Period(Promoted(store, update).FinalizedSlot()) == Period(store.finalized.slot)
  {
    FinalityStaysNear(crypto, store, update);
    hide Period;
  }

  lemma RecordedInv(crypto: Crypto, store: Store, update: Update, trusted: TrustedCheckpoint)
    requires Inv(crypto, store, trusted) && ValidAgainst(crypto, store, update)
    ensures Inv(crypto, Recorded(store, update), trusted)
  {
    if update.HasSupermajority() {
      SupermajorityPassesThreshold(store, update);
    }
  }

  lemma AppliedInv(crypto: Crypto, store: Store, update: Update, trusted: TrustedCheckpoint)
    requires PersistedStateOk(crypto, store, trusted)
    requires update.nextCommittee.Some? ==> CommitteeSized(update.nextCommittee.value)
    ensures Inv(crypto, Applied(store, update).(best := None), trusted)
  {
  }

  lemma NextInv(crypto: Crypto, store: Store, event: Event, trusted: TrustedCheckpoint)
    requires Inv(crypto, store, trusted)
    ensures Inv(crypto, Next(crypto, store, event), trusted)
  {
    match event
    case Receive(_, _) =>
      var accepted := Accepted(crypto, store, event);
      if accepted.Some? {
        AcceptedIsValid(crypto, store, event);
        RecordedInv(crypto, store, accepted.value, trusted);
        if Finalizes(store, accepted.value) {
          AppliedInv(crypto, Recorded(store, accepted.value), accepted.value, trusted);
        }
      }
    case Timeout(slot) =>
      if Forced(store, slot).Some? {
        AppliedInv(crypto, store, Promoted(store, store.best.value), trusted);
      }
  }

  lemma {:induction false} RunInv(crypto: Crypto, store: Store, events: seq<Event>, trusted: TrustedCheckpoint)
    requires Inv(crypto, store, trusted)
    ensures Inv(crypto, Run(crypto, store, events), trusted)
    decreases |events|
  {
    if events != [] {
      NextInv(crypto, store, events[0], trusted);
      RunInv(crypto, Next(crypto, store, events[0]), events[1..], trusted);
    }
  }

  /** Every store reachable from a verified bootstrap, by any events, can be persisted and reopened. */
  lemma ReachableStoresReopen(
    crypto: Crypto, bootstrap: Bootstrap, trusted: TrustedCheckpoint, events: seq<Event>)
    requires VerifyBootstrap(crypto, bootstrap, trusted).Success?
    requires CommitteeSized(bootstrap.committee)
    ensures var start := VerifyBootstrap(crypto, bootstrap, trusted).value;
            PersistedStateOk(crypto, Run(crypto, start, events),
                             TrustedCheckpoint(trusted.root, Some(bootstrap.header.slot)))
  {
    var start := VerifyBootstrap(crypto, bootstrap, trusted).value;
    RunInv(crypto, start, events, TrustedCheckpoint(trusted.root, Some(bootstrap.header.slot)));
  }

  lemma RecordedPersisted(crypto: Crypto, store: Store, update: Update, trusted: TrustedCheckpoint)
    requires PersistedStateOk(crypto, store, trusted) && ValidAgainst(crypto, store, update)
    ensures PersistedStateOk(crypto, Recorded(store, update), trusted)
  {
    if update.HasSupermajority() {
      SupermajorityPassesThreshold(store, update);
    }
  }

  lemma NextPersisted(crypto: Crypto, store: Store, event: Event, trusted: TrustedCheckpoint)
    requires PersistedStateOk(crypto, store, trusted)
    ensures PersistedStateOk(crypto, Next(crypto, store, event), trusted)
  {
    match event
    case Receive(_, _) =>
      var accepted := Accepted(crypto, store, event);
      if accepted.Some? {
        AcceptedIsValid(crypto, store, event);
        RecordedPersisted(crypto, store, accepted.value, trusted);
        if Finalizes(store, accepted.value) {
          AppliedInv(crypto, Recorded(store, accepted.value), accepted.value, trusted);
        }
      }
    case Timeout(slot) =>
      if Forced(store, slot).Some? {
        AppliedInv(crypto, store, Promoted(store, store.best.value), trusted);
      }
  }

  /** A store that passes the checks once passes them after any further events. */
  lemma {:induction false} ReopenedRunsReopen(
    crypto: Crypto, store: Store, trusted: TrustedCheckpoint, events: seq<Event>)
    requires PersistedStateOk(crypto, store, trusted)
    ensures PersistedStateOk(crypto, Run(crypto, store, events), trusted)
    decreases |events|
  {
    hide Next;
    hide PersistedStateOk;
    if events != [] {
      NextPersisted(crypto, store, events[0], trusted);
      ReopenedRunsReopen(crypto, Next(crypto, store, events[0]), trusted, events[1..]);
    }
  }

  /** What the checks promise for every run from an opened store: it belongs to the trusted checkpoint,
      its slots are in order, its committees have 512 keys, participation is at most 512, and its
      checkpoint is a real epoch start no later than the optimistic header. */
  lemma OpenedStoresAreSound(crypto: Crypto, store: Store, trusted: TrustedCheckpoint, events: seq<Event>)
    requires PersistedStateOk(crypto, store, trusted)
    ensures var final := Run(crypto, store, events);
            && final.checkpointRoot == trusted.root && Some(final.bootstrapSlot) == trusted.slot
            && final.bootstrapSlot <= final.finalized.slot <= final.optimistic.slot
            && |final.currentCommittee.pubkeys| == 512
            && (final.nextCommittee.Some? ==> |final.nextCommittee.value.pubkeys| == 512)
            && final.previousMax <= 512 && final.currentMax <= 512
            && (final.checkpoint.Some? ==>
                  && final.checkpoint.value.epoch * 32 <= final.optimistic.slot
                  && (final.checkpoint.value.root == ZERO_ROOT <==> final.checkpoint.value.epoch == 0))
            && (final.best.Some? ==>
                  && 1 <= final.best.value.participants <= 512
                  && (final.best.value.nextCommittee.Some? ==> |final.best.value.nextCommittee.value.pubkeys| == 512)
                  && (final.best.value.checkpoint.Some? ==>
                        && final.best.value.finalized.Some?
                        && CheckpointMatchesHeader(crypto, final.best.value.checkpoint.value,
                                                   final.best.value.finalized.value, final.best.value.attested.slot)))
  {
    ReopenedRunsReopen(crypto, store, trusted, events);
  }

  /** The update that an event applies to the store, if it applies one. */
  function AppliedUpdate(crypto: Crypto, store: Store, event: Event): Option<Update> {
    match event
    case Receive(_, _) =>
      var accepted := Accepted(crypto, store, event);
      if accepted.Some? && Finalizes(store, accepted.value) then accepted else None
    case Timeout(slot) =>
      if Forced(store, slot).Some? then Some(Promoted(store, store.best.value)) else None
  }

  /** In every run, an update applied to a store without a next committee stays in its period. */
  lemma PeriodAssertionHoldsInRuns(
    crypto: Crypto, bootstrap: Bootstrap, trusted: TrustedCheckpoint, events: seq<Event>, event: Event)
    requires VerifyBootstrap(crypto, bootstrap, trusted).Success? && CommitteeSized(bootstrap.committee)
    ensures var store := Run(crypto, VerifyBootstrap(crypto, bootstrap, trusted).value, events);
            var applied := AppliedUpdate(crypto, store, event);
            store.nextCommittee.None? && applied.Some? ==>
              Period(applied.value.FinalizedSlot()) == Period(store.finalized.slot)
  {
    hide Accepted;
    hide Period;
    hide PersistedStateOk;
    var start := VerifyBootstrap(crypto, bootstrap, trusted).value;
    var store := Run(crypto, start, events);
    BootstrapInv(crypto, bootstrap, trusted);
    RunInv(crypto, start, events, TrustedCheckpoint(trusted.root, Some(bootstrap.header.slot)));
    if store.nextCommittee.None? && AppliedUpdate(crypto, store, event).Some? {
      if event.Receive? {
        AcceptedIsValid(crypto, store, event);
        PeriodAssertionImplied(crypto, store, Accepted(crypto, store, event).value);
      } else {
        PeriodAssertionImplied(crypto, store, store.best.value);
      }
    }
  }

  lemma BootstrapInv(crypto: Crypto, bootstrap: Bootstrap, trusted: TrustedCheckpoint)
    requires VerifyBootstrap(crypto, bootstrap, trusted).Success? && CommitteeSized(bootstrap.committee)
    ensures Inv(crypto, VerifyBootstrap(crypto, bootstrap, trusted).value,
                TrustedCheckpoint(trusted.root, Some(bootstrap.header.slot)))
  {
  }

  // ---- Monotonicity and provenance of the checkpoint ----

  function EpochOf(checkpoint: Option<Checkpoint>): int {
    if checkpoint.Some? then checkpoint.value.epoch else -1
  }

  ghost predicate NoRegress(before: Store, after: Store) {
    && before.finalized.slot <= after.finalized.slot
    && before.optimistic.slot <= after.optimistic.slot
    && EpochOf(before.checkpoint) <= EpochOf(after.checkpoint)
    && before.checkpointRoot == after.checkpointRoot
    && before.bootstrapSlot == after.bootstrapSlot
  }

  lemma NextNoRegress(crypto: Crypto, store: Store, event: Event)
    ensures NoRegress(store, Next(crypto, store, event))
  {
    hide Accepted;
    hide IsBetter;
    hide Period;
    hide SafetyThreshold;
  }

  lemma {:induction false} RunNoRegress(crypto: Crypto, store: Store, events: seq<Event>)
    ensures NoRegress(store, Run(crypto, store, events))
    decreases |events|
  {
    if events != [] {
      NextNoRegress(crypto, store, events[0]);
      RunNoRegress(crypto, Next(crypto, store, events[0]), events[1..]);
    }
  }

  /** Event `i` of the run installed `checkpoint`: a supermajority update, accepted by the
      store as it was then, whose finality proof was accepted for that checkpoint. */
  ghost predicate InstalledAt(crypto: Crypto, store: Store, events: seq<Event>, i: nat, checkpoint: Checkpoint)
    requires i < |events|
  {
    var accepted := Accepted(crypto, Run(crypto, store, events[..i]), events[i]);
    && accepted.Some?
    && accepted.value.HasSupermajority()
    && accepted.value.checkpoint == Some(checkpoint)
    && Decode(events[i].payload).Success?
    && var decoded := Decode(events[i].payload).value;
       VerifyFinalityProof(crypto, decoded.update, decoded.finalityBranch) == Success(Some(checkpoint))
  }

  /** One event either leaves the checkpoint alone or installs one with its proof. */
  lemma CheckpointStep(crypto: Crypto, store: Store, event: Event)
    ensures var next := Next(crypto, store, event).checkpoint;
            || next == store.checkpoint
            || (&& event.Receive? && Accepted(crypto, store, event).Some?
                && Accepted(crypto, store, event).value.HasSupermajority()
                && next.Some? && Accepted(crypto, store, event).value.checkpoint == next)
  {
    hide Accepted;
    hide IsBetter;
    hide Period;
    hide SafetyThreshold;
  }

  lemma AcceptedFinality(crypto: Crypto, store: Store, event: Event)
    requires Accepted(crypto, store, event).Some?
    ensures event.Receive? && Decode(event.payload).Success?
    ensures var decoded := Decode(event.payload).value;
            VerifyFinalityProof(crypto, decoded.update, decoded.finalityBranch)
            == Success(Accepted(crypto, store, event).value.checkpoint)
  {
    hide Decode;
    hide VerifyFinalityProof;
    hide CheckSignature;
    hide NextCommitteeProofOk;
    hide SigningCommittee;
  }

  /** The checkpoint never moves by timeout: in every run it is the initial one, or was
      installed by a supermajority update with an accepted finality proof. */
  lemma {:induction false} CheckpointProvenance(crypto: Crypto, store: Store, events: seq<Event>)
    ensures var final := Run(crypto, store, events).checkpoint;
            final == store.checkpoint
            || (final.Some? && exists i: nat :: i < |events| && InstalledAt(crypto, store, events, i, final.value))
    decreases |events|
  {
    hide Next;
    hide Accepted;
    hide Decode;
    hide VerifyFinalityProof;
    if events != [] {
      var next := Next(crypto, store, events[0]);
      var final := Run(crypto, store, events).checkpoint;
      CheckpointStep(crypto, store, events[0]);
      CheckpointProvenance(crypto, next, events[1..]);
      if final == next.checkpoint {
        if final != store.checkpoint {
          assert events[..0] == [];
          AcceptedFinality(crypto, store, events[0]);
          assert InstalledAt(crypto, store, events, 0, final.value);
        }
      } else {
        var i: nat :| i < |events[1..]| && InstalledAt(crypto, next, events[1..], i, final.value);
        assert events[..i + 1] == [events[0]] + events[1..][..i];
        assert InstalledAt(crypto, store, events, i + 1, final.value);
      }
    }
  }

  // ---- Provenance of the optimistic header ----

  /** The event made `header` optimistic: an accepted update attested it with more participants than
      the safety threshold, or an applied update finalized it. */
  ghost predicate MadeOptimistic(crypto: Crypto, store: Store, event: Event, header: Header) {
    var accepted, applied := Accepted(crypto, store, event), AppliedUpdate(crypto, store, event);
    || (&& accepted.Some? && accepted.value.attested == header
        && 2 * accepted.value.participants > Max(Max(store.previousMax, store.currentMax), accepted.value.participants))
    || (applied.Some? && applied.value.finalized == Some(header))
  }

  lemma OptimisticStep(crypto: Crypto, store: Store, event: Event)
    ensures var next := Next(crypto, store, event).optimistic;
            next == store.optimistic || MadeOptimistic(crypto, store, event, next)
  {
    hide Accepted;
    hide IsBetter;
    hide Period;
  }

  /** In every run the optimistic header is the initial one or was made optimistic by one event. */
  lemma {:induction false} OptimisticProvenance(crypto: Crypto, store: Store, events: seq<Event>)
    ensures var final := Run(crypto, store, events).optimistic;
            final == store.optimistic
            || exists i: nat ::
                 i < |events| && MadeOptimistic(crypto, Run(crypto, store, events[..i]), events[i], final)
    decreases |events|
  {
    hide Next;
    hide MadeOptimistic;
    if events != [] {
      var next := Next(crypto, store, events[0]);
      var final := Run(crypto, store, events).optimistic;
      OptimisticStep(crypto, store, events[0]);
      OptimisticProvenance(crypto, next, events[1..]);
      if final == next.optimistic {
        if final != store.optimistic {
          assert events[..0] == [];
          assert MadeOptimistic(crypto, Run(crypto, store, events[..0]), events[0], final);
        }
      } else {
        var i: nat :|
          i < |events[1..]| && MadeOptimistic(crypto, Run(crypto, next, events[1..][..i]), events[1..][i], final);
        assert events[..i + 1][1..] == events[1..][..i];
        assert MadeOptimistic(crypto, Run(crypto, store, events[..i + 1]), events[i + 1], final);
      }
    }
  }

  // ---- Participation maxima ----

  /** Whether applying the update moves the store to the next committee period. */
  predicate Rotates(store: Store, update: Update) {
    store.nextCommittee.Some? && Period(update.FinalizedSlot()) == Period(store.finalized.slot) + 1
  }

  /** Participation of the updates accepted in the previous and in the current committee period. */
  datatype Windows = Windows(previous: seq<nat>, current: seq<nat>)

  function WindowsAfter(crypto: Crypto, store: Store, w: Windows, event: Event): Windows {
    var accepted, applied := Accepted(crypto, store, event), AppliedUpdate(crypto, store, event);
    var counted :=
      if event.Receive? && accepted.Some? then w.(current := w.current + [accepted.value.participants]) else w;
    if applied.Some? && Rotates(store, applied.value) then Windows(counted.current, []) else counted
  }

  function MaxOf(s: seq<nat>): nat {
    if s == [] then 0 else Max(MaxOf(s[..|s| - 1]), s[|s| - 1])
  }

  ghost predicate Tracks(store: Store, w: Windows) {
    store.previousMax == MaxOf(w.previous) && store.currentMax == MaxOf(w.current)
  }

  lemma TracksStep(crypto: Crypto, store: Store, w: Windows, event: Event)
    requires Tracks(store, w)
    ensures Tracks(Next(crypto, store, event), WindowsAfter(crypto, store, w, event))
  {
    hide Accepted;
    hide IsBetter;
    hide Period;
    var accepted := Accepted(crypto, store, event);
    if event.Receive? && accepted.Some? {
      var s := w.current + [accepted.value.participants];
      assert s[..|s| - 1] == w.current;
    }
  }

  function WindowsInRun(crypto: Crypto, store: Store, w: Windows, events: seq<Event>): Windows
    decreases |events|
  {
    if events == [] then w
    else WindowsInRun(crypto, Next(crypto, store, events[0]), WindowsAfter(crypto, store, w, events[0]), events[1..])
  }

  /** Over every run the two maxima are those of the previous and the current committee period. */
  lemma {:induction false} MaximaTrackParticipation(crypto: Crypto, store: Store, w: Windows, events: seq<Event>)
    requires Tracks(store, w)
    ensures Tracks(Run(crypto, store, events), WindowsInRun(crypto, store, w, events))
    decreases |events|
  {
    hide Next;
    hide WindowsAfter;
    hide Tracks;
    if events != [] {
      TracksStep(crypto, store, w, events[0]);
      MaximaTrackParticipation(crypto, Next(crypto, store, events[0]), WindowsAfter(crypto, store, w, events[0]),
        events[1..]);
    }
  }
}
