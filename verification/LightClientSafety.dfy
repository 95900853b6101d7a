/** Safety against an honest chain: over every run, the store's committees and headers
    are the chain's. Signatures are only meaningful under the right committee, and the
    right committee is only known through earlier proofs, so both are carried together. */
module LightClientSafety {
  import opened Bytes
  import opened Merkle
  import opened LightClient
  import opened LightClientRuns

  /** The chain the trusted committees sign: their members per period, the canonical
      headers, and what each canonical header's state commits to. */
  datatype Chain = Chain(
    committee: nat -> Committee,
    canonical: Header -> bool,
    currentBranch: Header -> seq<B256>,
    nextBranch: Header -> seq<B256>,
    finalityBranch: Header -> seq<B256>,
    finalized: Header -> Header,
    finalizedEpoch: Header -> u64)

  /** The state of a canonical header commits to the current and next committee and to a
      finalized checkpoint whose block is canonical (or is genesis, with a zero root). */
  ghost predicate Commits(crypto: Crypto, chain: Chain, header: Header) {
    var finality := Significant(chain.finalityBranch(header), FinalizedRootGindex(header.slot));
    && ValidNormalized(crypto.hash, crypto.committeeRoot(chain.committee(Period(header.slot))),
                       chain.currentBranch(header), CurrentCommitteeGindex(header.slot), header.stateRoot)
    && ValidNormalized(crypto.hash, crypto.committeeRoot(chain.committee(Period(header.slot) + 1)),
                       chain.nextBranch(header), NextCommitteeGindex(header.slot), header.stateRoot)
    && ValidNormalized(crypto.hash, FinalizedLeaf(crypto, chain.finalized(header)),
                       chain.finalityBranch(header), FinalizedRootGindex(header.slot), header.stateRoot)
    && finality != [] && IsEpochChunk(finality[0], chain.finalizedEpoch(header))
    && (chain.finalized(header).slot == 0 || chain.canonical(chain.finalized(header)))
  }

  ghost predicate HonestChain(crypto: Crypto, chain: Chain) {
    forall header {:trigger Commits(crypto, chain, header)} ::
      chain.canonical(header) ==> Commits(crypto, chain, header)
  }

  /** A received signature of the period's committee with at least `level` participants attests a
      canonical header. Level one trusts every member alone; `SUPERMAJORITY` tolerates any set of
      members too small to reach two thirds by itself. */
  ghost predicate TrustedSignature(crypto: Crypto, chain: Chain, level: nat, payload: Payload) {
    var committee := chain.committee(Period(payload.signatureSlot));
    (&& payload.WellSized()
     && CountParticipants(payload.aggregate.bits) >= level
     && payload.attested.slot < payload.signatureSlot
     && CheckSignature(crypto, committee, payload.aggregate, payload.attested, payload.signatureSlot).None?)
    ==> chain.canonical(payload.attested)
  }

  /** Only signatures that were received are spoken of, not those that could exist. */
  ghost predicate TrustsReceived(crypto: Crypto, chain: Chain, level: nat, events: seq<Event>) {
    forall i :: 0 <= i < |events| && events[i].Receive? ==> TrustedSignature(crypto, chain, level, events[i].payload)
  }

  /** The least number of participants that is two thirds of the committee. */
  const SUPERMAJORITY: nat := 342

  lemma SupermajorityLevel(update: Update)
    ensures update.HasSupermajority() <==> update.participants >= SUPERMAJORITY
  {
  }

  /** The hash inputs, committees and headers a run touches; collision-freeness is asked of these only. */
  datatype Observed = Observed(pairs: set<(B256, B256)>, committees: set<Committee>, headers: set<Header>)

  ghost predicate CollisionFree(crypto: Crypto, seen: Observed) {
    && CollisionFreeOn(crypto.hash, seen.pairs)
    && (forall a, b | a in seen.committees && b in seen.committees ::
          crypto.committeeRoot(a) == crypto.committeeRoot(b) ==> a == b)
    && (forall a, b | a in seen.headers && b in seen.headers ::
          crypto.headerRoot(a) == crypto.headerRoot(b) ==> a == b)
  }

  ghost predicate CoversCommittee(
    crypto: Crypto, seen: Observed, committee: Committee, branch: seq<B256>, gindex: nat)
    requires gindex > 0
  {
    && committee in seen.committees
    && NormalizedInputs(crypto.hash, crypto.committeeRoot(committee), branch, gindex) <= seen.pairs
  }

  ghost predicate CoversFinality(crypto: Crypto, seen: Observed, header: Header, branch: seq<B256>, gindex: nat)
    requires gindex > 0
  {
    && (header.slot > 0 ==> header in seen.headers)
    && NormalizedInputs(crypto.hash, FinalizedLeaf(crypto, header), branch, gindex) <= seen.pairs
  }

  /** `seen` holds everything hashed when checking this payload, and the chain's own proofs
      for the header the payload attests. */
  ghost predicate Covers(crypto: Crypto, chain: Chain, seen: Observed, payload: Payload) {
    var attested := payload.attested;
    var committeeIndex := NextCommitteeGindex(attested.slot);
    var finalityIndex := FinalizedRootGindex(attested.slot);
    && CoversCommittee(crypto, seen, chain.committee(Period(attested.slot) + 1), chain.nextBranch(attested),
                       committeeIndex)
    && CoversFinality(crypto, seen, chain.finalized(attested), chain.finalityBranch(attested), finalityIndex)
    && (payload.RangeUpdate? ==>
          CoversCommittee(crypto, seen, payload.committee, payload.committeeBranch, committeeIndex))
    && (!payload.OptimisticUpdate? ==>
          CoversFinality(crypto, seen, payload.finalized, payload.finalityBranch, finalityIndex))
  }

  ghost predicate CoversAll(crypto: Crypto, chain: Chain, seen: Observed, events: seq<Event>) {
    forall i :: 0 <= i < |events| && events[i].Receive? ==> Covers(crypto, chain, seen, events[i].payload)
  }

  ghost predicate Trust(crypto: Crypto, chain: Chain, seen: Observed) {
    HonestChain(crypto, chain) && CollisionFree(crypto, seen)
  }

  // ---- What the store is worth ----

  ghost predicate CommitteesAligned(chain: Chain, store: Store) {
    var period := Period(store.finalized.slot);
    && store.currentCommittee == chain.committee(period)
    && (store.nextCommittee.Some? ==> store.nextCommittee.value == chain.committee(period + 1))
  }

  ghost predicate AuthenticCheckpoint(crypto: Crypto, chain: Chain, checkpoint: Checkpoint) {
    exists header :: chain.canonical(header) && CommitsCheckpoint(crypto, chain, header, checkpoint)
  }

  ghost predicate CommitsCheckpoint(crypto: Crypto, chain: Chain, header: Header, checkpoint: Checkpoint) {
    && checkpoint.epoch == chain.finalizedEpoch(header)
    && checkpoint.root == FinalizedLeaf(crypto, chain.finalized(header))
  }

  ghost predicate UpdateAuthentic(crypto: Crypto, chain: Chain, update: Update) {
    && chain.canonical(update.attested)
    && (update.nextCommittee.Some? ==>
          update.nextCommittee.value == chain.committee(Period(update.attested.slot) + 1))
    && (update.FinalizedSlot() > 0 ==> chain.canonical(update.finalized.value))
    && (update.checkpoint.Some? ==> AuthenticCheckpoint(crypto, chain, update.checkpoint.value))
  }

  /** What trust at `level` is worth: committees, finalized header and checkpoint always; the retained
      update if it has that many participants; the optimistic header if every member is trusted. */
  ghost predicate StoreAuthentic(crypto: Crypto, chain: Chain, level: nat, store: Store) {
    && CommitteesAligned(chain, store)
    && chain.canonical(store.finalized)
    && (store.checkpoint.Some? ==> AuthenticCheckpoint(crypto, chain, store.checkpoint.value))
    && (store.best.Some? && store.best.value.participants >= level ==> UpdateAuthentic(crypto, chain, store.best.value))
    && (level <= MIN_PARTICIPANTS ==> chain.canonical(store.optimistic))
  }

  // ---- Proofs are binding against the chain ----

  lemma CommitteeProofBinds(
    crypto: Crypto, chain: Chain, seen: Observed, header: Header, expected: Committee, expectedBranch: seq<B256>,
    committee: Committee, branch: seq<B256>, gindex: nat)
    requires gindex > 0 && CollisionFree(crypto, seen)
    requires CoversCommittee(crypto, seen, expected, expectedBranch, gindex)
    requires CoversCommittee(crypto, seen, committee, branch, gindex)
    requires ValidNormalized(crypto.hash, crypto.committeeRoot(expected), expectedBranch, gindex, header.stateRoot)
    requires ValidNormalized(crypto.hash, crypto.committeeRoot(committee), branch, gindex, header.stateRoot)
    ensures committee == expected
  {
    NormalizedBinds(crypto.hash, crypto.committeeRoot(committee), branch, crypto.committeeRoot(expected),
                    expectedBranch, gindex, header.stateRoot, seen.pairs);
  }

  /** Two finality proofs accepted under one state root carry the same epoch and the same root. */
  lemma FinalityProofsAgree(
    crypto: Crypto, attested: Header, update1: Update, branch1: seq<B256>, update2: Update, branch2: seq<B256>,
    inputs: set<(B256, B256)>)
    requires update1.attested == attested == update2.attested
    requires VerifyFinalityProof(crypto, update1, Some(branch1)).Success?
    requires VerifyFinalityProof(crypto, update2, Some(branch2)).Success?
    requires CollisionFreeOn(crypto.hash, inputs)
    requires var g := FinalizedRootGindex(attested.slot);
             NormalizedInputs(crypto.hash, FinalizedLeaf(crypto, update1.finalized.value), branch1, g)
             + NormalizedInputs(crypto.hash, FinalizedLeaf(crypto, update2.finalized.value), branch2, g) <= inputs
    ensures VerifyFinalityProof(crypto, update1, Some(branch1)).value
            == VerifyFinalityProof(crypto, update2, Some(branch2)).value
  {
    NormalizedBinds(
      crypto.hash, FinalizedLeaf(crypto, update1.finalized.value), branch1,
      FinalizedLeaf(crypto, update2.finalized.value), branch2,
      FinalizedRootGindex(attested.slot), attested.stateRoot, inputs);
  }

  lemma FinalityProofBinds(
    crypto: Crypto, chain: Chain, seen: Observed, update: Update, branch: seq<B256>)
    requires CollisionFree(crypto, seen)
    requires Commits(crypto, chain, update.attested)
    requires VerifyFinalityProof(crypto, update, Some(branch)).Success?
    requires var g := FinalizedRootGindex(update.attested.slot);
             && CoversFinality(crypto, seen, update.finalized.value, branch, g)
             && CoversFinality(crypto, seen, chain.finalized(update.attested), chain.finalityBranch(update.attested), g)
    ensures CommitsCheckpoint(crypto, chain, update.attested,
                              VerifyFinalityProof(crypto, update, Some(branch)).value.value)
    ensures update.FinalizedSlot() > 0 ==> chain.canonical(update.finalized.value)
  {
    var header, expected := update.finalized.value, chain.finalized(update.attested);
    var g := FinalizedRootGindex(update.attested.slot);
    NormalizedBinds(
      crypto.hash, FinalizedLeaf(crypto, header), branch, FinalizedLeaf(crypto, expected),
      chain.finalityBranch(update.attested), g, update.attested.stateRoot, seen.pairs);
    DecodeU64Canonical(Significant(branch, g)[0][..8]);
  }

  // ---- Accepted updates are authentic ----

  lemma DecodedShape(payload: Payload)
    requires Decode(payload).Success?
    ensures var d := Decode(payload).value;
            && d.update.attested == payload.attested && d.update.signatureSlot == payload.signatureSlot
            && d.update.participants == CountParticipants(payload.aggregate.bits)
            && (d.finalityBranch.Some? <==> d.update.finalized.Some?)
            && (d.finalityBranch.Some? ==>
                  !payload.OptimisticUpdate?
                  && d.finalityBranch.value == payload.finalityBranch && d.update.finalized.value == payload.finalized)
            && (d.update.nextCommittee.Some? ==>
                  payload.RangeUpdate? && d.update.nextCommittee.value == payload.committee
                  && d.committeeBranch == Some(payload.committeeBranch))
  {
  }

  /** Everything that acceptance checked, in one place. */
  lemma AcceptedParts(crypto: Crypto, store: Store, event: Event)
    requires Accepted(crypto, store, event).Some?
    ensures event.Receive? && event.payload.WellSized() && Decode(event.payload).Success?
    ensures var update := Accepted(crypto, store, event).value;
            var decoded := Decode(event.payload).value;
            var finality := VerifyFinalityProof(crypto, decoded.update, decoded.finalityBranch);
            var committee := SigningCommittee(store, update.signatureSlot);
            && finality.Success? && update == decoded.update.(checkpoint := finality.value)
            && NextCommitteeProofOk(crypto, update, decoded.committeeBranch)
            && committee.Some? && update.attested.slot < update.signatureSlot
            && CheckSignature(crypto, committee.value, event.payload.aggregate, update.attested,
                              update.signatureSlot).None?
  {
    hide VerifyFinalityProof;
    hide ValidNormalized;
    hide SigningCommittee;
    hide CheckSignature;
    hide Decode;
  }

  lemma AcceptedIsAuthentic(crypto: Crypto, chain: Chain, seen: Observed, level: nat, store: Store, event: Event)
    requires Trust(crypto, chain, seen)
    requires CommitteesAligned(chain, store)
    requires event.Receive? && Covers(crypto, chain, seen, event.payload)
    requires TrustedSignature(crypto, chain, level, event.payload)
    requires Accepted(crypto, store, event).Some? && Accepted(crypto, store, event).value.participants >= level
    ensures UpdateAuthentic(crypto, chain, Accepted(crypto, store, event).value)
  {
    hide Accepted;
    hide Decode;
    hide CheckSignature;
    hide CollisionFree;
    hide ValidNormalized;
    hide NormalizedInputs;
    hide Significant;
    hide Period;
    AcceptedParts(crypto, store, event);
    var update := Accepted(crypto, store, event).value;
    var decoded := Decode(event.payload).value;
    DecodedShape(event.payload);
    assert SigningCommittee(store, update.signatureSlot).value == chain.committee(Period(update.signatureSlot));
    assert chain.canonical(update.attested);
    assert Commits(crypto, chain, update.attested);
    if update.nextCommittee.Some? {
      CommitteeProofBinds(
        crypto, chain, seen, update.attested,
        chain.committee(Period(update.attested.slot) + 1), chain.nextBranch(update.attested),
        update.nextCommittee.value, decoded.committeeBranch.value, NextCommitteeGindex(update.attested.slot));
    }
    if update.finalized.Some? {
      FinalityProofBinds(crypto, chain, seen, decoded.update, decoded.finalityBranch.value);
    }
  }

  // ---- Every step keeps the store authentic ----

  lemma RecordedAuthentic(crypto: Crypto, chain: Chain, level: nat, store: Store, update: Update)
    requires level <= SUPERMAJORITY && update.participants >= MIN_PARTICIPANTS
    requires StoreAuthentic(crypto, chain, level, store)
    requires update.participants >= level ==> UpdateAuthentic(crypto, chain, update)
    ensures StoreAuthentic(crypto, chain, level, Recorded(store, update))
  {
    hide IsBetter;
    hide Period;
    SupermajorityLevel(update);
  }

  /** The heart of committee rotation: applying an update that was valid against this
      store, and whose finalized slot moves forward or which brings the next committee,
      leaves both committees aligned with the new finalized period. */
  lemma AppliedAligned(crypto: Crypto, chain: Chain, store: Store, update: Update)
    requires CommitteesAligned(chain, store)
    requires ValidAgainst(crypto, store, update) && UpdateAuthentic(crypto, chain, update)
    requires update.FinalizedSlot() > store.finalized.slot || SuppliesNextCommittee(store, update)
    ensures CommitteesAligned(chain, Applied(store, update))
    ensures Period(Applied(store, update).finalized.slot) <= Period(store.finalized.slot) + 1
  {
    FinalityStaysNear(crypto, store, update);
  }

  lemma AppliedAuthentic(crypto: Crypto, chain: Chain, level: nat, store: Store, update: Update)
    requires StoreAuthentic(crypto, chain, level, store)
    requires ValidAgainst(crypto, store, update) && UpdateAuthentic(crypto, chain, update)
    requires update.FinalizedSlot() > store.finalized.slot || SuppliesNextCommittee(store, update)
    ensures StoreAuthentic(crypto, chain, level, Applied(store, update).(best := None))
    ensures Period(Applied(store, update).finalized.slot) <= Period(store.finalized.slot) + 1
  {
    AppliedAligned(crypto, chain, store, update);
    hide CommitteesAligned;
    hide Period;
  }

  lemma ProcessedAuthentic(
    crypto: Crypto, chain: Chain, level: nat, store: Store, update: Update, trusted: TrustedCheckpoint)
    requires level <= SUPERMAJORITY
    requires Inv(crypto, store, trusted) && StoreAuthentic(crypto, chain, level, store)
    requires ValidAgainst(crypto, store, update)
    requires update.participants >= level ==> UpdateAuthentic(crypto, chain, update)
    ensures StoreAuthentic(crypto, chain, level, Processed(store, update))
    ensures Period(Processed(store, update).finalized.slot) <= Period(store.finalized.slot) + 1
  {
    RecordedAuthentic(crypto, chain, level, store, update);
    SupermajorityLevel(update);
    if Finalizes(store, update) {
      FinalityStaysNear(crypto, store, update);
      AppliedAuthentic(crypto, chain, level, Recorded(store, update), update);
    }
  }

  /** A timeout promotes the attested header, which is still one the store can vouch for. */
  lemma PromotedIsValid(crypto: Crypto, chain: Chain, store: Store)
    requires store.best.Some?
    requires ValidAgainst(crypto, store, store.best.value) && UpdateAuthentic(crypto, chain, store.best.value)
    ensures var update := Promoted(store, store.best.value).(checkpoint := None);
            && ValidAgainst(crypto, store, update)
            && UpdateAuthentic(crypto, chain, update)
            && (update.FinalizedSlot() > store.finalized.slot || SuppliesNextCommittee(store, update))
  {
  }

  lemma ForcedAuthentic(
    crypto: Crypto, chain: Chain, level: nat, store: Store, currentSlot: u64, trusted: TrustedCheckpoint)
    requires Inv(crypto, store, trusted) && StoreAuthentic(crypto, chain, level, store)
    requires Forced(store, currentSlot).Some? && store.best.value.participants >= level
    ensures StoreAuthentic(crypto, chain, level, Forced(store, currentSlot).value)
    ensures Period(Forced(store, currentSlot).value.finalized.slot) <= Period(store.finalized.slot) + 1
  {
    var promoted := Promoted(store, store.best.value);
    PromotedIsValid(crypto, chain, store);
    AppliedAuthentic(crypto, chain, level, store, promoted.(checkpoint := None));
    assert Applied(store, promoted) == Applied(store, promoted.(checkpoint := None));
  }

  lemma NextAuthentic(
    crypto: Crypto, chain: Chain, seen: Observed, level: nat, store: Store, event: Event, trusted: TrustedCheckpoint)
    requires Trust(crypto, chain, seen) && level <= SUPERMAJORITY
    requires Inv(crypto, store, trusted) && StoreAuthentic(crypto, chain, level, store)
    requires event.Receive? ==>
               Covers(crypto, chain, seen, event.payload) && TrustedSignature(crypto, chain, level, event.payload)
    requires ForcesTrusted(store, event, level)
    ensures StoreAuthentic(crypto, chain, level, Next(crypto, store, event))
    ensures Period(Next(crypto, store, event).finalized.slot) <= Period(store.finalized.slot) + 1
  {
    hide Accepted;
    hide StoreAuthentic;
    hide Period;
    match event
    case Receive(_, _) =>
      var accepted := Accepted(crypto, store, event);
      if accepted.Some? {
        AcceptedIsValid(crypto, store, event);
        if accepted.value.participants >= level {
          StoreAligned(crypto, chain, level, store);
          AcceptedIsAuthentic(crypto, chain, seen, level, store, event);
        }
        ProcessedAuthentic(crypto, chain, level, store, accepted.value, trusted);
      }
    case Timeout(slot) =>
      if Forced(store, slot).Some? {
        ForcedAuthentic(crypto, chain, level, store, slot, trusted);
      }
  }

  lemma StoreAligned(crypto: Crypto, chain: Chain, level: nat, store: Store)
    requires StoreAuthentic(crypto, chain, level, store)
    ensures CommitteesAligned(chain, store)
  {
  }

  /** A timeout that would force the retained update finds one with at least `level` participants.
      A caller can look at the retained update before it lets a timeout pass. */
  predicate ForcesTrusted(store: Store, event: Event, level: nat) {
    event.Timeout? && Forced(store, event.currentSlot).Some? ==> store.best.value.participants >= level
  }

  predicate AllForcesTrusted(crypto: Crypto, store: Store, events: seq<Event>, level: nat)
    decreases |events|
  {
    events == []
    || (&& ForcesTrusted(store, events[0], level)
        && AllForcesTrusted(crypto, Next(crypto, store, events[0]), events[1..], level))
  }

  lemma {:induction false} RunAuthentic(
    crypto: Crypto, chain: Chain, seen: Observed, level: nat, store: Store, events: seq<Event>,
    trusted: TrustedCheckpoint)
    requires Trust(crypto, chain, seen) && CoversAll(crypto, chain, seen, events) && level <= SUPERMAJORITY
    requires TrustsReceived(crypto, chain, level, events) && AllForcesTrusted(crypto, store, events, level)
    requires Inv(crypto, store, trusted) && StoreAuthentic(crypto, chain, level, store)
    ensures StoreAuthentic(crypto, chain, level, Run(crypto, store, events))
    decreases |events|
  {
    hide Next;
    hide StoreAuthentic;
    hide Trust;
    hide Inv;
    hide TrustedSignature;
    hide Covers;
    if events != [] {
      NextInv(crypto, store, events[0], trusted);
      NextAuthentic(crypto, chain, seen, level, store, events[0], trusted);
      RunAuthentic(crypto, chain, seen, level, Next(crypto, store, events[0]), events[1..], trusted);
    }
  }

  /** With every member trusted, no timeout needs a guard. */
  lemma {:induction false} EveryForceTrusted(
    crypto: Crypto, store: Store, events: seq<Event>, trusted: TrustedCheckpoint)
    requires Inv(crypto, store, trusted)
    ensures AllForcesTrusted(crypto, store, events, MIN_PARTICIPANTS)
    decreases |events|
  {
    hide Next;
    if events != [] {
      NextInv(crypto, store, events[0], trusted);
      EveryForceTrusted(crypto, Next(crypto, store, events[0]), events[1..], trusted);
    }
  }

  /** The bootstrap header is the trusted block itself, so its committee is the chain's. */
  lemma BootstrapAuthentic(
    crypto: Crypto, chain: Chain, seen: Observed, level: nat, bootstrap: Bootstrap, trusted: TrustedCheckpoint,
    block: Header)
    requires Trust(crypto, chain, seen) && StartsAt(crypto, chain, seen, bootstrap, trusted, block)
    ensures StoreAuthentic(crypto, chain, level, VerifyBootstrap(crypto, bootstrap, trusted).value)
  {
    assert bootstrap.header == block;
    assert Commits(crypto, chain, block);
    CommitteeProofBinds(
      crypto, chain, seen, block, chain.committee(Period(block.slot)), chain.currentBranch(block),
      bootstrap.committee, bootstrap.branch, CurrentCommitteeGindex(block.slot));
  }

  /** The bootstrap is verified against a trusted root that is a canonical block's. */
  ghost predicate StartsAt(
    crypto: Crypto, chain: Chain, seen: Observed, bootstrap: Bootstrap, trusted: TrustedCheckpoint, block: Header)
  {
    var g := CurrentCommitteeGindex(block.slot);
    && VerifyBootstrap(crypto, bootstrap, trusted).Success? && CommitteeSized(bootstrap.committee)
    && chain.canonical(block) && crypto.headerRoot(block) == trusted.root
    && {block, bootstrap.header} <= seen.headers
    && CoversCommittee(crypto, seen, bootstrap.committee, bootstrap.branch, g)
    && CoversCommittee(crypto, seen, chain.committee(Period(block.slot)), chain.currentBranch(block), g)
  }

  /** Trusting received signatures of two thirds or more only: every run in which each forced update
      has two thirds keeps the committees those of the finalized period, the finalized header
      canonical, and the checkpoint one a canonical state commits to. */
  lemma SafeAgainstMinority(
    crypto: Crypto, chain: Chain, seen: Observed, bootstrap: Bootstrap, trusted: TrustedCheckpoint, block: Header,
    events: seq<Event>)
    requires Trust(crypto, chain, seen) && CoversAll(crypto, chain, seen, events)
    requires StartsAt(crypto, chain, seen, bootstrap, trusted, block)
    requires TrustsReceived(crypto, chain, SUPERMAJORITY, events)
    requires AllForcesTrusted(crypto, VerifyBootstrap(crypto, bootstrap, trusted).value, events, SUPERMAJORITY)
    ensures var store := Run(crypto, VerifyBootstrap(crypto, bootstrap, trusted).value, events);
            && CommitteesAligned(chain, store) && chain.canonical(store.finalized)
            && (store.checkpoint.Some? ==> AuthenticCheckpoint(crypto, chain, store.checkpoint.value))
  {
    BootstrapAuthentic(crypto, chain, seen, SUPERMAJORITY, bootstrap, trusted, block);
    BootstrapInv(crypto, bootstrap, trusted);
    hide Trust;
    RunAuthentic(crypto, chain, seen, SUPERMAJORITY, VerifyBootstrap(crypto, bootstrap, trusted).value, events,
                 TrustedCheckpoint(trusted.root, Some(bootstrap.header.slot)));
  }

  /** Trusting every received signature: every run, with any timeouts, keeps all of that and the
      optimistic header canonical too. */
  lemma LightClientIsSafe(
    crypto: Crypto, chain: Chain, seen: Observed, bootstrap: Bootstrap, trusted: TrustedCheckpoint, block: Header,
    events: seq<Event>)
    requires Trust(crypto, chain, seen) && CoversAll(crypto, chain, seen, events)
    requires StartsAt(crypto, chain, seen, bootstrap, trusted, block)
    requires TrustsReceived(crypto, chain, MIN_PARTICIPANTS, events)
    ensures var store := Run(crypto, VerifyBootstrap(crypto, bootstrap, trusted).value, events);
            && CommitteesAligned(chain, store) && chain.canonical(store.finalized) && chain.canonical(store.optimistic)
            && (store.checkpoint.Some? ==> AuthenticCheckpoint(crypto, chain, store.checkpoint.value))
  {
    var start := VerifyBootstrap(crypto, bootstrap, trusted).value;
    var pinned := TrustedCheckpoint(trusted.root, Some(bootstrap.header.slot));
    BootstrapAuthentic(crypto, chain, seen, MIN_PARTICIPANTS, bootstrap, trusted, block);
    BootstrapInv(crypto, bootstrap, trusted);
    hide Trust;
    EveryForceTrusted(crypto, start, events, pinned);
    RunAuthentic(crypto, chain, seen, MIN_PARTICIPANTS, start, events, pinned);
  }
}
