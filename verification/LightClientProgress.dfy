/** What one update does to the store, in participants, slots and periods of 8192 slots, and what
    therefore every run achieves: finality, committees and headers keep up with what is accepted. */
module LightClientProgress {
  import opened Bytes
  import opened LightClient
  import opened LightClientRuns

  /** Two thirds of 512. */
  predicate TwoThirds(update: Update) {
    update.participants * 3 >= 1024
  }

  /** The update finalizes a header above the store's. */
  predicate Advances(store: Store, update: Update) {
    update.finalized.Some? && update.finalized.value.slot > store.finalized.slot
  }

  /** The update carries the first next committee, with finality in the period it attests. */
  predicate BringsCommittee(store: Store, update: Update) {
    && store.nextCommittee.None? && update.nextCommittee.Some? && update.finalized.Some?
    && update.finalized.value.slot / 8192 == update.attested.slot / 8192
  }

  /** The update finalizes a header of the period after the store's. */
  predicate CrossesPeriod(store: Store, update: Update) {
    && update.finalized.Some? && update.finalized.value.slot / 8192 == store.finalized.slot / 8192 + 1
  }

  // ---- One update ----

  /** Bookkeeping: the better update is kept, the maximum grows, the optimistic header follows more
      than half of every recorded maximum, and two thirds move the checkpoint. */
  lemma RecordExact(store: Store, update: Update)
    ensures var after := Recorded(store, update);
            && after.best == (if store.best.Some? && !IsBetter(update, store.best.value) then store.best
                              else Some(update))
            && after.currentMax == (if update.participants > store.currentMax then update.participants
                                    else store.currentMax)
            && after.optimistic == (if && update.participants > 0 && update.attested.slot > store.optimistic.slot
                                       && 2 * update.participants > store.previousMax
                                       && 2 * update.participants > store.currentMax
                                    then update.attested else store.optimistic)
            && after.checkpoint == (if && TwoThirds(update) && update.checkpoint.Some?
                                       && (|| store.checkpoint.None?
                                           || update.checkpoint.value.epoch > store.checkpoint.value.epoch)
                                    then update.checkpoint else store.checkpoint)
            && after.finalized == store.finalized && after.previousMax == store.previousMax
            && after.currentCommittee == store.currentCommittee && after.nextCommittee == store.nextCommittee
            && after.checkpointRoot == store.checkpointRoot && after.bootstrapSlot == store.bootstrapSlot
  {
    hide IsBetter;
  }

  /** Applying: a missing next committee is learned; across one period the next committee becomes the
      current one and the update's the next; otherwise both stay. A newer header becomes final. */
  lemma ApplyExact(store: Store, update: Update)
    ensures var after := Applied(store, update);
            && (store.nextCommittee.None? ==>
                  && after.nextCommittee == update.nextCommittee && after.currentCommittee == store.currentCommittee
                  && after.previousMax == store.previousMax && after.currentMax == store.currentMax)
            && (store.nextCommittee.Some? && CrossesPeriod(store, update) ==>
                  && Some(after.currentCommittee) == store.nextCommittee
                  && after.nextCommittee == update.nextCommittee
                  && after.previousMax == store.currentMax && after.currentMax == 0)
            && (store.nextCommittee.Some? && !CrossesPeriod(store, update) ==>
                  && after.nextCommittee == store.nextCommittee && after.currentCommittee == store.currentCommittee
                  && after.previousMax == store.previousMax && after.currentMax == store.currentMax)
            && (Advances(store, update) ==>
                  && Some(after.finalized) == update.finalized
                  && after.optimistic == (if after.finalized.slot > store.optimistic.slot then after.finalized
                                          else store.optimistic))
            && (!Advances(store, update) ==>
                  after.finalized == store.finalized && after.optimistic == store.optimistic)
            && after.best == store.best && after.checkpoint == store.checkpoint
            && after.checkpointRoot == store.checkpointRoot && after.bootstrapSlot == store.bootstrapSlot
  {
    PeriodIsQuotient(store.finalized.slot);
    if update.finalized.Some? { PeriodIsQuotient(update.finalized.value.slot); }
  }

  /** Processing: two thirds with newer finality, or with the first next committee, apply the update and
      drop the retained one; anything else is bookkeeping only. */
  lemma ProcessExact(store: Store, update: Update)
    ensures var after := Processed(store, update);
            && (TwoThirds(update) && Advances(store, update) ==>
                  Some(after.finalized) == update.finalized && after.best.None?)
            && (TwoThirds(update) && BringsCommittee(store, update) ==>
                  after.nextCommittee == update.nextCommittee && after.best.None?)
            && (TwoThirds(update) && Advances(store, update) && !CrossesPeriod(store, update)
                  && store.nextCommittee.Some? ==>
                  after.nextCommittee == store.nextCommittee && after.currentCommittee == store.currentCommittee)
            && (TwoThirds(update) && Advances(store, update) && CrossesPeriod(store, update)
                  && store.nextCommittee.Some? ==>
                  after.nextCommittee == update.nextCommittee && Some(after.currentCommittee) == store.nextCommittee)
            && (!(TwoThirds(update) && (Advances(store, update) || BringsCommittee(store, update))) ==>
                  && after == Recorded(store, update) && after.best.Some?
                  && after.finalized == store.finalized
                  && after.currentCommittee == store.currentCommittee && after.nextCommittee == store.nextCommittee)
  {
    hide IsBetter;
    PeriodIsQuotient(update.attested.slot);
    PeriodIsQuotient(store.finalized.slot);
    if update.finalized.Some? { PeriodIsQuotient(update.finalized.value.slot); }
    RecordExact(store, update);
    ApplyExact(Recorded(store, update), update);
  }

  /** Forcing happens if and only if more than 8192 slots passed since the finalized one and an update
      is retained. Its own finalized header is taken if newer, else its attested one. */
  lemma ForceExact(store: Store, now: u64)
    ensures Forced(store, now).Some? <==> now as int > store.finalized.slot as int + 8192 && store.best.Some?
    ensures Forced(store, now).Some? ==>
              var after, best := Forced(store, now).value, store.best.value;
              && after.best.None? && after.checkpoint == store.checkpoint
              && after.finalized == (if Advances(store, best) then best.finalized.value
                                     else if best.attested.slot > store.finalized.slot then best.attested
                                     else store.finalized)
              && (store.nextCommittee.None? ==>
                    after.nextCommittee == best.nextCommittee && after.currentCommittee == store.currentCommittee)
              && (store.nextCommittee.Some? ==>
                    var slot := if Advances(store, best) then best.finalized.value.slot else best.attested.slot;
                    if slot / 8192 == store.finalized.slot / 8192 + 1
                    then
                      Some(after.currentCommittee) == store.nextCommittee && after.nextCommittee == best.nextCommittee
                    else after.currentCommittee == store.currentCommittee && after.nextCommittee == store.nextCommittee)
  {
    if store.best.Some? {
      ApplyExact(store, Promoted(store, store.best.value));
    }
  }

  // ---- Committees ----

  /** A processed two-thirds update that carries a committee and has finality in its own period leaves
      no signature slot of the store's period or the next one without a committee. */
  lemma CommitteesKnown(store: Store, update: Update, signatureSlot: u64)
    requires TwoThirds(update) && update.nextCommittee.Some? && update.finalized.Some?
    requires update.finalized.value.slot / 8192 == update.attested.slot / 8192
    ensures var after := Processed(store, update);
            var period := after.finalized.slot / 8192;
            && after.nextCommittee.Some?
            && (signatureSlot / 8192 == period ==>
                  SigningCommittee(after, signatureSlot) == Some(after.currentCommittee))
            && (signatureSlot / 8192 == period + 1 ==>
                  SigningCommittee(after, signatureSlot) == after.nextCommittee)
            && (SigningCommittee(after, signatureSlot).Some? <==> period <= signatureSlot / 8192 <= period + 1)
  {
    ProcessExact(store, update);
    var after := Processed(store, update);
    PeriodIsQuotient(after.finalized.slot);
    PeriodIsQuotient(signatureSlot);
  }

  // ---- Every run ----

  lemma {:induction false} RunSplits(crypto: Crypto, store: Store, events: seq<Event>, i: nat)
    requires i <= |events|
    ensures Run(crypto, store, events) == Run(crypto, Run(crypto, store, events[..i]), events[i..])
    decreases i
  {
    hide Next;
    if i == 0 {
      assert events[..0] == [] && events[0..] == events;
    } else {
      assert events[..i][1..] == events[1..][..i - 1] && events[1..][i - 1..] == events[i..];
      RunSplits(crypto, Next(crypto, store, events[0]), events[1..], i - 1);
    }
  }

  /** Right after an accepted update the store has caught up with it. */
  lemma AcceptedCaughtUp(crypto: Crypto, store: Store, event: Event, trusted: TrustedCheckpoint)
    requires PersistedStateOk(crypto, store, trusted) && Accepted(crypto, store, event).Some?
    ensures var update, after := Accepted(crypto, store, event).value, Next(crypto, store, event);
            CaughtUp(after, update)
  {
    var update := Accepted(crypto, store, event).value;
    hide Accepted;
    hide PersistedStateOk;
    MaximaBounded(crypto, store, trusted);
    RecordExact(store, update);
    ApplyExact(Recorded(store, update), update);
    ProcessExact(store, update);
    assert Next(crypto, store, event) == Processed(store, update) by { AcceptedIsReceived(crypto, store, event); }
  }

  lemma AcceptedIsReceived(crypto: Crypto, store: Store, event: Event)
    requires Accepted(crypto, store, event).Some?
    ensures event.Receive?
  {
  }

  lemma MaximaBounded(crypto: Crypto, store: Store, trusted: TrustedCheckpoint)
    requires PersistedStateOk(crypto, store, trusted)
    ensures store.previousMax <= 512 && store.currentMax <= 512
  {
  }

  /** Two thirds are reflected in finalized header and checkpoint, a majority in the optimistic header. */
  ghost predicate CaughtUp(store: Store, update: Update) {
    && (TwoThirds(update) && update.finalized.Some? ==> store.finalized.slot >= update.finalized.value.slot)
    && (TwoThirds(update) && update.checkpoint.Some? ==>
          store.checkpoint.Some? && store.checkpoint.value.epoch >= update.checkpoint.value.epoch)
    && (update.participants > 256 ==> store.optimistic.slot >= update.attested.slot)
  }

  /** Every run, from a verified bootstrap or from any store that passes the persisted-state checks,
      keeps up with every update accepted in it. */
  lemma RunKeepsUp(crypto: Crypto, store: Store, trusted: TrustedCheckpoint, events: seq<Event>, i: nat)
    requires PersistedStateOk(crypto, store, trusted) && i < |events|
    ensures var accepted := Accepted(crypto, Run(crypto, store, events[..i]), events[i]);
            accepted.Some? ==> CaughtUp(Run(crypto, store, events), accepted.value)
  {
    hide Accepted;
    hide PersistedStateOk;
    hide Next;
    var before := Run(crypto, store, events[..i]);
    ReopenedRunsReopen(crypto, store, trusted, events[..i]);
    RunSplits(crypto, store, events, i);
    var after := Next(crypto, before, events[i]);
    assert Run(crypto, before, events[i..]) == Run(crypto, after, events[i + 1..]) by {
      assert events[i..][0] == events[i] && events[i..][1..] == events[i + 1..];
    }
    RunNoRegress(crypto, after, events[i + 1..]);
    if Accepted(crypto, before, events[i]).Some? {
      AcceptedCaughtUp(crypto, before, events[i], trusted);
    }
  }

  /** Within a period an event changes no committee that is known. */
  ghost predicate SameCommittees(before: Store, after: Store) {
    before.finalized.slot / 8192 == after.finalized.slot / 8192 ==>
      && after.currentCommittee == before.currentCommittee
      && (before.nextCommittee.Some? ==> after.nextCommittee == before.nextCommittee)
  }

  lemma NextSameCommittees(crypto: Crypto, store: Store, event: Event)
    ensures SameCommittees(store, Next(crypto, store, event))
  {
    hide Accepted;
    hide Processed;
    hide Forced;
    match event
    case Receive(_, _) =>
      if Accepted(crypto, store, event).Some? {
        var update := Accepted(crypto, store, event).value;
        ProcessExact(store, update);
        CurrentKept(store, update);
      }
    case Timeout(now) => ForceExact(store, now);
  }

  lemma CurrentKept(store: Store, update: Update)
    ensures store.nextCommittee.None? ==> Processed(store, update).currentCommittee == store.currentCommittee
    ensures store.nextCommittee.Some? && !Advances(store, update) ==>
              && Processed(store, update).currentCommittee == store.currentCommittee
              && Processed(store, update).nextCommittee == store.nextCommittee
  {
    hide IsBetter;
    RecordExact(store, update);
    ApplyExact(Recorded(store, update), update);
  }

  /** In every run, as long as the finalized period is the same, so are the current committee and a
      next committee once it is known; with `CommitteesKnown` no payload of those two periods is
      refused for want of a committee. */
  lemma {:induction false} RunSameCommittees(crypto: Crypto, store: Store, events: seq<Event>)
    ensures SameCommittees(store, Run(crypto, store, events))
    decreases |events|
  {
    hide Next;
    if events != [] {
      var next := Next(crypto, store, events[0]);
      NextSameCommittees(crypto, store, events[0]);
      NextNoRegress(crypto, store, events[0]);
      RunNoRegress(crypto, next, events[1..]);
      RunSameCommittees(crypto, next, events[1..]);
    }
  }
}
