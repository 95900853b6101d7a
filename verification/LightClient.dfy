/** The light-client store: validating, ranking, applying and forcing updates. */
module LightClient {
  import opened Bytes
  import opened Merkle

  const COMMITTEE_SIZE: nat := 512
  const MIN_PARTICIPANTS: nat := 1
  const SLOTS_PER_EPOCH: nat := 32
  const EPOCHS_PER_PERIOD: nat := 256
  const UPDATE_TIMEOUT: nat := 8192
  const ELECTRA_EPOCH: nat := 364_032

  type PublicKey = bytes

  datatype Header = Header(
    slot: u64, proposerIndex: u64, parentRoot: B256, stateRoot: B256, bodyRoot: B256)

  const DEFAULT_HEADER := Header(0, 0, ZERO_ROOT, ZERO_ROOT, ZERO_ROOT)

  datatype Committee = Committee(pubkeys: seq<PublicKey>, aggregate: PublicKey)

  datatype Checkpoint = Checkpoint(epoch: u64, root: B256)

  datatype SyncAggregate = SyncAggregate(bits: seq<bool>, signature: bytes)

  datatype Update = Update(
    attested: Header,
    finalized: Option<Header>,
    checkpoint: Option<Checkpoint>,
    nextCommittee: Option<Committee>,
    signatureSlot: u64,
    participants: nat)
  {
    function FinalizedSlot(): u64 {
      if finalized.Some? then finalized.value.slot else 0
    }

    predicate HasSupermajority() {
      participants * 3 >= COMMITTEE_SIZE * 2
    }

    predicate HasRelevantCommittee() {
      nextCommittee.Some? && Period(attested.slot) == Period(signatureSlot)
    }

    predicate HasCommitteeFinality() {
      finalized.Some? && Period(finalized.value.slot) == Period(attested.slot)
    }
  }

  datatype Store = Store(
    checkpointRoot: B256,
    bootstrapSlot: u64,
    currentCommittee: Committee,
    nextCommittee: Option<Committee>,
    finalized: Header,
    checkpoint: Option<Checkpoint>,
    optimistic: Header,
    best: Option<Update>,
    previousMax: nat,
    currentMax: nat)

  /** Hashing and BLS are library code: any functions of the right shape. */
  datatype Crypto = Crypto(
    hash: HashPair,
    headerRoot: Header -> B256,
    committeeRoot: Committee -> B256,
    domain: u64 -> B256,
    keyValid: PublicKey -> bool,
    signatureValid: bytes -> bool,
    aggregateVerify: (seq<PublicKey>, B256, bytes) -> bool)

  datatype Error =
    | NoSyncCommitteeParticipants
    | InvalidFinalityHeader
    | InvalidSlotOrdering
    | SignatureFromFuture
    | UnknownSyncCommitteePeriod
    | IrrelevantUpdate
    | InvalidFinalityProof
    | InvalidNextSyncCommitteeProof
    | InvalidCurrentSyncCommitteeProof
    | InvalidCommitteeLength
    | InvalidCommitteePublicKey
    | InvalidSignature
    | InvalidSyncCommitteeSignature
    | TrustedCheckpointMismatch
    | TrustedCheckpointSlotMismatch

  // ---- Slots and generalized indices ----

  function Period(slot: nat): nat {
    slot / SLOTS_PER_EPOCH / EPOCHS_PER_PERIOD
  }

  lemma PeriodIsQuotient(slot: nat)
    ensures Period(slot) == slot / 8192
  {
  }

  predicate UsesElectraLayout(slot: u64) {
    slot / SLOTS_PER_EPOCH >= ELECTRA_EPOCH
  }

  function FinalizedRootGindex(slot: u64): (g: nat)
    ensures g > 1
  {
    if UsesElectraLayout(slot) then 169 else 105
  }

  function CurrentCommitteeGindex(slot: u64): (g: nat)
    ensures g > 1
  {
    if UsesElectraLayout(slot) then 86 else 54
  }

  function NextCommitteeGindex(slot: u64): (g: nat)
    ensures g > 1
  {
    if UsesElectraLayout(slot) then 87 else 55
  }

  // ---- Received payloads ----

  /** A decoded wire message. Committees and bit vectors have a fixed wire width. */
  datatype Payload =
    | RangeUpdate(
        attested: Header, committee: Committee, committeeBranch: seq<B256>,
        finalized: Header, finalityBranch: seq<B256>, aggregate: SyncAggregate, signatureSlot: u64)
    | FinalityUpdate(
        attested: Header, finalized: Header, finalityBranch: seq<B256>,
        aggregate: SyncAggregate, signatureSlot: u64)
    | OptimisticUpdate(attested: Header, aggregate: SyncAggregate, signatureSlot: u64)
  {
    predicate WellSized() {
      && |aggregate.bits| == COMMITTEE_SIZE
      && (RangeUpdate? ==> |committee.pubkeys| == COMMITTEE_SIZE)
    }
  }

  datatype Decoded = Decoded(
    update: Update, finalityBranch: Option<seq<B256>>, committeeBranch: Option<seq<B256>>)

  function CountParticipants(bits: seq<bool>): (count: nat)
    ensures count <= |bits|
  {
    if bits == [] then 0 else (if bits[0] then 1 else 0) + CountParticipants(bits[1..])
  }

  predicate IsDefaultCommittee(committee: Committee) {
    && (forall i :: 0 <= i < |committee.pubkeys| ==> committee.pubkeys[i] == ZeroBytes(48))
    && committee.aggregate == ZeroBytes(48)
  }

  function PresentBranch(branch: seq<B256>): Option<seq<B256>> {
    if AllZero(branch) then None else Some(branch)
  }

  /** Presence of a finalized header follows its branch, not its bytes. */
  function DecodeFinalized(header: Header, branch: seq<B256>): Result<Option<Header>, Error> {
    var hasFinality := !AllZero(branch);
    if header != DEFAULT_HEADER && (!hasFinality || header.slot == 0) then Failure(InvalidFinalityHeader)
    else Success(if hasFinality then Some(header) else None)
  }

  function DecodeCommittee(committee: Committee, branch: seq<B256>): Result<Option<Committee>, Error> {
    if AllZero(branch) && IsDefaultCommittee(committee) then Success(None)
    else if !AllZero(branch) && !IsDefaultCommittee(committee) then Success(Some(committee))
    else Failure(InvalidNextSyncCommitteeProof)
  }

  function Decode(payload: Payload): Result<Decoded, Error> {
    var participants := CountParticipants(payload.aggregate.bits);
    match payload
    case OptimisticUpdate(attested, _, slot) =>
      Success(Decoded(Update(attested, None, None, None, slot, participants), None, None))
    case FinalityUpdate(attested, header, branch, _, slot) =>
      var finalized := DecodeFinalized(header, branch);
      if finalized.Failure? then Failure(finalized.error)
      else
        Success(Decoded(Update(attested, finalized.value, None, None, slot, participants), PresentBranch(branch), None))
    case RangeUpdate(attested, committee, committeeBranch, header, branch, _, slot) =>
      var finalized := DecodeFinalized(header, branch);
      if finalized.Failure? then Failure(finalized.error) else
      var next := DecodeCommittee(committee, committeeBranch);
      if next.Failure? then Failure(next.error)
      else Success(Decoded(
        Update(attested, finalized.value, None, next.value, slot, participants),
        PresentBranch(branch), PresentBranch(committeeBranch)))
  }

  // ---- Proof checks ----

  predicate CheckpointMatchesHeader(crypto: Crypto, checkpoint: Checkpoint, header: Header, attestedSlot: u64) {
    var startSlot := checkpoint.epoch * SLOTS_PER_EPOCH;
    && startSlot < U64_LIMIT
    && header.slot <= startSlot <= attestedSlot
    && if header.slot == 0 then checkpoint.epoch == 0 && checkpoint.root == ZERO_ROOT
       else checkpoint.root == crypto.headerRoot(header) && checkpoint.root != ZERO_ROOT
  }

  function FinalizedLeaf(crypto: Crypto, header: Header): B256 {
    if header.slot == 0 then ZERO_ROOT else crypto.headerRoot(header)
  }

  /** The epoch chunk is the first significant sibling: 8 little-endian bytes, then zeros. */
  predicate IsEpochChunk(chunk: B256, epoch: u64) {
    chunk[..8] == EncodeU64(epoch) && chunk[8..] == ZeroBytes(24)
  }

  function VerifyFinalityProof(crypto: Crypto, update: Update, branch: Option<seq<B256>>)
    : Result<Option<Checkpoint>, Error>
  {
    if branch.None? then Success(None)
    else if update.finalized.None? then Failure(InvalidFinalityProof)
    else
      var header := update.finalized.value;
      var gindex := FinalizedRootGindex(update.attested.slot);
      var siblings := Significant(branch.value, gindex);
      if siblings == [] || siblings[0][8..] != ZeroBytes(24) then Failure(InvalidFinalityProof)
      else
        var epoch := DecodeU64(siblings[0][..8]);
        var root := FinalizedLeaf(crypto, header);
        var checkpoint := Checkpoint(epoch, root);
        if CheckpointMatchesHeader(crypto, checkpoint, header, update.attested.slot)
           && ValidNormalized(crypto.hash, root, branch.value, gindex, update.attested.stateRoot)
        then Success(Some(checkpoint))
        else Failure(InvalidFinalityProof)
  }

  predicate NextCommitteeProofOk(crypto: Crypto, update: Update, branch: Option<seq<B256>>) {
    update.nextCommittee.Some? ==>
      branch.Some? && ValidNormalized(
        crypto.hash, crypto.committeeRoot(update.nextCommittee.value), branch.value,
        NextCommitteeGindex(update.attested.slot), update.attested.stateRoot)
  }

  function SelectedKeys(pubkeys: seq<PublicKey>, bits: seq<bool>): seq<PublicKey>
    requires |pubkeys| == |bits|
  {
    if bits == [] then []
    else (if bits[0] then [pubkeys[0]] else []) + SelectedKeys(pubkeys[1..], bits[1..])
  }

  predicate AllKeysValid(crypto: Crypto, keys: seq<PublicKey>) {
    forall i :: 0 <= i < |keys| ==> crypto.keyValid(keys[i])
  }

  lemma {:induction false} SelectedKeysSnoc(pubkeys: seq<PublicKey>, bits: seq<bool>, n: nat)
    requires |pubkeys| == |bits| && n < |bits|
    ensures SelectedKeys(pubkeys[..n + 1], bits[..n + 1])
            == SelectedKeys(pubkeys[..n], bits[..n]) + (if bits[n] then [pubkeys[n]] else [])
  {
    if n > 0 {
      assert pubkeys[..n + 1][1..] == pubkeys[1..][..n] && bits[..n + 1][1..] == bits[1..][..n];
      assert pubkeys[..n][1..] == pubkeys[1..][..n - 1] && bits[..n][1..] == bits[1..][..n - 1];
      SelectedKeysSnoc(pubkeys[1..], bits[1..], n - 1);
    }
  }

  lemma SelectedKeysPrefix(pubkeys: seq<PublicKey>, bits: seq<bool>, n: nat)
    requires |pubkeys| == |bits| && n <= |bits|
    ensures SelectedKeys(pubkeys[..n], bits[..n]) <= SelectedKeys(pubkeys, bits)
    decreases |bits| - n
  {
    if n < |bits| {
      SelectedKeysSnoc(pubkeys, bits, n);
      SelectedKeysPrefix(pubkeys, bits, n + 1);
    } else {
      assert pubkeys[..n] == pubkeys && bits[..n] == bits;
    }
  }

  method ParticipantPublicKeys(crypto: Crypto, committee: Committee, bits: seq<bool>)
    returns (r: Result<seq<PublicKey>, Error>)
    requires |bits| == COMMITTEE_SIZE
    ensures r.Success? <==>
            && |committee.pubkeys| == COMMITTEE_SIZE
            && AllKeysValid(crypto, SelectedKeys(committee.pubkeys, bits))
    ensures r.Success? ==> r.value == SelectedKeys(committee.pubkeys, bits)
  {
    if |committee.pubkeys| != COMMITTEE_SIZE {
      return Failure(InvalidCommitteeLength);
    }
    var active: seq<PublicKey> := [];
    for i := 0 to COMMITTEE_SIZE
      invariant active == SelectedKeys(committee.pubkeys[..i], bits[..i])
      invariant AllKeysValid(crypto, active)
    {
      SelectedKeysSnoc(committee.pubkeys, bits, i);
      if bits[i] {
        if !crypto.keyValid(committee.pubkeys[i]) {
          SelectedKeysPrefix(committee.pubkeys, bits, i + 1);
          assert SelectedKeys(committee.pubkeys, bits)[|active|] == committee.pubkeys[i];
          return Failure(InvalidCommitteePublicKey);
        }
        active := active + [committee.pubkeys[i]];
      }
    }
    assert committee.pubkeys[..COMMITTEE_SIZE] == committee.pubkeys && bits[..COMMITTEE_SIZE] == bits;
    r := Success(active);
  }

  function SigningRoot(crypto: Crypto, header: Header, signatureSlot: u64): B256 {
    crypto.hash(crypto.headerRoot(header), crypto.domain(signatureSlot))
  }

  function CheckSignature(crypto: Crypto, committee: Committee, aggregate: SyncAggregate, header: Header, slot: u64)
    : Option<Error>
    requires |aggregate.bits| == COMMITTEE_SIZE
  {
    if |committee.pubkeys| != COMMITTEE_SIZE then Some(InvalidCommitteeLength)
    else
      var keys := SelectedKeys(committee.pubkeys, aggregate.bits);
      if !AllKeysValid(crypto, keys) then Some(InvalidCommitteePublicKey)
      else if !crypto.signatureValid(aggregate.signature) then Some(InvalidSignature)
      else if !crypto.aggregateVerify(keys, SigningRoot(crypto, header, slot), aggregate.signature)
      then Some(InvalidSyncCommitteeSignature)
      else None
  }

  // ---- Validation ----

  /** The committee that must have signed at `signatureSlot`, if the store knows it. */
  function SigningCommittee(store: Store, signatureSlot: u64): Option<Committee> {
    var storePeriod := Period(store.finalized.slot);
    var signaturePeriod := Period(signatureSlot);
    if signaturePeriod == storePeriod then Some(store.currentCommittee)
    else if signaturePeriod == storePeriod + 1 then store.nextCommittee
    else None
  }

  predicate SuppliesNextCommittee(store: Store, update: Update) {
    && store.nextCommittee.None?
    && update.nextCommittee.Some?
    && Period(update.attested.slot) == Period(store.finalized.slot)
  }

  function Validate(crypto: Crypto, store: Store, decoded: Decoded, aggregate: SyncAggregate, currentSlot: u64)
    : Result<Update, Error>
    requires |aggregate.bits| == COMMITTEE_SIZE
  {
    var update := decoded.update;
    if update.participants < MIN_PARTICIPANTS then Failure(NoSyncCommitteeParticipants)
    else if update.signatureSlot > currentSlot then Failure(SignatureFromFuture)
    else if update.signatureSlot <= update.attested.slot || update.attested.slot < update.FinalizedSlot()
    then Failure(InvalidSlotOrdering)
    else
      var committee := SigningCommittee(store, update.signatureSlot);
      if committee.None? then Failure(UnknownSyncCommitteePeriod)
      else if update.attested.slot <= store.finalized.slot && !SuppliesNextCommittee(store, update)
      then Failure(IrrelevantUpdate)
      else
        var finality := VerifyFinalityProof(crypto, update, decoded.finalityBranch);
        if finality.Failure? then Failure(finality.error)
        else if update.nextCommittee.Some? && store.nextCommittee.Some?
                && Period(update.attested.slot) == Period(store.finalized.slot)
                && update.nextCommittee != store.nextCommittee
        then Failure(InvalidNextSyncCommitteeProof)
        else if !NextCommitteeProofOk(crypto, update, decoded.committeeBranch)
        then Failure(InvalidNextSyncCommitteeProof)
        else
          var signature := CheckSignature(crypto, committee.value, aggregate, update.attested, update.signatureSlot);
          if signature.Some? then Failure(signature.value)
          else Success(update.(checkpoint := finality.value))
  }

  // ---- Ranking ----

  predicate IsBetter(candidate: Update, incumbent: Update) {
    if candidate.HasSupermajority() != incumbent.HasSupermajority() then candidate.HasSupermajority()
    else if !candidate.HasSupermajority() && candidate.participants != incumbent.participants
    then candidate.participants > incumbent.participants
    else if candidate.HasRelevantCommittee() != incumbent.HasRelevantCommittee() then candidate.HasRelevantCommittee()
    else if candidate.finalized.Some? != incumbent.finalized.Some? then candidate.finalized.Some?
    else if candidate.finalized.Some? && candidate.HasCommitteeFinality() != incumbent.HasCommitteeFinality()
    then candidate.HasCommitteeFinality()
    else if candidate.participants != incumbent.participants then candidate.participants > incumbent.participants
    else if candidate.attested.slot != incumbent.attested.slot then candidate.attested.slot < incumbent.attested.slot
    else candidate.signatureSlot < incumbent.signatureSlot
  }

  // ---- The transition functions of the store ----

  function SafetyThreshold(store: Store): nat {
    Max(store.previousMax, store.currentMax) / 2
  }

  function Rotated(store: Store, update: Update): Store {
    if store.nextCommittee.None? then store.(nextCommittee := update.nextCommittee)
    else if Period(update.FinalizedSlot()) == Period(store.finalized.slot) + 1 then
      store.(currentCommittee := store.nextCommittee.value,
             nextCommittee := update.nextCommittee,
             previousMax := store.currentMax,
             currentMax := 0)
    else store
  }

  function Applied(store: Store, update: Update): Store {
    var rotated := Rotated(store, update);
    if update.FinalizedSlot() > store.finalized.slot then
      var header := update.finalized.value;
      rotated.(finalized := header,
               optimistic := if header.slot > store.optimistic.slot then header else store.optimistic)
    else rotated
  }

  /** A supermajority update that advances finality or first brings the next committee. */
  predicate Finalizes(store: Store, update: Update) {
    && update.HasSupermajority()
    && (|| update.FinalizedSlot() > store.finalized.slot
        || (&& store.nextCommittee.None?
            && update.nextCommittee.Some?
            && update.HasCommitteeFinality()))
  }

  /** The bookkeeping every validated update gets, before finality is considered. */
  function Recorded(store: Store, update: Update): Store {
    var currentMax := Max(store.currentMax, update.participants);
    store.(
      best := if store.best.None? || IsBetter(update, store.best.value) then Some(update) else store.best,
      currentMax := currentMax,
      optimistic :=
        if update.participants > SafetyThreshold(store.(currentMax := currentMax))
           && update.attested.slot > store.optimistic.slot
        then update.attested else store.optimistic,
      checkpoint :=
        if update.HasSupermajority() && update.checkpoint.Some?
           && (store.checkpoint.None? || update.checkpoint.value.epoch > store.checkpoint.value.epoch)
        then update.checkpoint else store.checkpoint)
  }

  function Processed(store: Store, update: Update): Store {
    var recorded := Recorded(store, update);
    if Finalizes(store, update) then Applied(recorded, update).(best := None) else recorded
  }

  predicate TimedOut(store: Store, currentSlot: u64) {
    currentSlot > SaturatingAdd(store.finalized.slot, UPDATE_TIMEOUT)
  }

  /** The best update with its attested header promoted when it finalizes nothing new. */
  function Promoted(store: Store, best: Update): Update {
    if best.FinalizedSlot() <= store.finalized.slot then best.(finalized := Some(best.attested)) else best
  }

  function Forced(store: Store, currentSlot: u64): Option<Store> {
    if !TimedOut(store, currentSlot) || store.best.None? then None
    else Some(Applied(store, Promoted(store, store.best.value)).(best := None))
  }

  /** The in-place form: one object whose fields the update steps change one by one. */
  class StoreCell {
    const checkpointRoot: B256
    const bootstrapSlot: u64
    var currentCommittee: Committee
    var nextCommittee: Option<Committee>
    var finalized: Header
    var checkpoint: Option<Checkpoint>
    var optimistic: Header
    var best: Option<Update>
    var previousMax: nat
    var currentMax: nat

    function View(): Store
      reads this
    {
      Store(checkpointRoot, bootstrapSlot, currentCommittee, nextCommittee, finalized,
            checkpoint, optimistic, best, previousMax, currentMax)
    }

    constructor (store: Store)
      ensures View() == store
    {
      checkpointRoot, bootstrapSlot := store.checkpointRoot, store.bootstrapSlot;
      currentCommittee, nextCommittee := store.currentCommittee, store.nextCommittee;
      finalized, checkpoint, optimistic := store.finalized, store.checkpoint, store.optimistic;
      best, previousMax, currentMax := store.best, store.previousMax, store.currentMax;
    }

    method ApplyValidatedUpdate(update: Update)
      modifies this
      ensures View() == Applied(old(View()), update)
    {
      var storePeriod := Period(finalized.slot);
      var updatePeriod := Period(update.FinalizedSlot());
      if nextCommittee.None? {
        nextCommittee := update.nextCommittee;
      } else if updatePeriod == storePeriod + 1 {
        currentCommittee := nextCommittee.value;
        nextCommittee := update.nextCommittee;
        previousMax := currentMax;
        currentMax := 0;
      }
      if update.finalized.Some? && update.finalized.value.slot > finalized.slot {
        finalized := update.finalized.value;
        if finalized.slot > optimistic.slot {
          optimistic := finalized;
        }
      }
    }

    method ProcessUpdate(update: Update)
      modifies this
      ensures View() == Processed(old(View()), update)
    {
      hide IsBetter;
      hide Period;
      hide Applied;
      Record(update);
      var bringsNextCommittee :=
        nextCommittee.None? && update.nextCommittee.Some? && update.finalized.Some?
        && Period(update.FinalizedSlot()) == Period(update.attested.slot);
      if update.participants * 3 >= COMMITTEE_SIZE * 2
         && (update.FinalizedSlot() > finalized.slot || bringsNextCommittee) {
        ApplyValidatedUpdate(update);
        best := None;
      }
    }

    method Record(update: Update)
      modifies this
      ensures View() == Recorded(old(View()), update)
    {
      hide IsBetter;
      if best.None? || IsBetter(update, best.value) {
        best := Some(update);
      }
      currentMax := Max(currentMax, update.participants);
      if update.participants > SafetyThreshold(View()) && update.attested.slot > optimistic.slot {
        optimistic := update.attested;
      }
      if update.HasSupermajority() && update.checkpoint.Some?
         && (checkpoint.None? || update.checkpoint.value.epoch > checkpoint.value.epoch) {
        checkpoint := update.checkpoint;
      }
    }

    method ForceUpdate(currentSlot: u64) returns (forced: bool)
      modifies this
      ensures forced == Forced(old(View()), currentSlot).Some?
      ensures View() == if forced then Forced(old(View()), currentSlot).value else old(View())
    {
      if currentSlot <= SaturatingAdd(finalized.slot, UPDATE_TIMEOUT) || best.None? {
        return false;
      }
      var update := best.value;
      if update.FinalizedSlot() <= finalized.slot {
        update := update.(finalized := Some(update.attested));
      }
      ApplyValidatedUpdate(update);
      best := None;
      return true;
    }
  }

  // ---- Bootstrap and runs ----

  datatype TrustedCheckpoint = TrustedCheckpoint(root: B256, slot: Option<u64>)

  datatype Bootstrap = Bootstrap(header: Header, committee: Committee, branch: seq<B256>)

  function VerifyBootstrap(crypto: Crypto, bootstrap: Bootstrap, trusted: TrustedCheckpoint): Result<Store, Error> {
    var header := bootstrap.header;
    if crypto.headerRoot(header) != trusted.root then Failure(TrustedCheckpointMismatch)
    else if trusted.slot.Some? && trusted.slot.value != header.slot then Failure(TrustedCheckpointSlotMismatch)
    else if !ValidNormalized(crypto.hash, crypto.committeeRoot(bootstrap.committee), bootstrap.branch,
                             CurrentCommitteeGindex(header.slot), header.stateRoot)
    then Failure(InvalidCurrentSyncCommitteeProof)
    else Success(Store(trusted.root, header.slot, bootstrap.committee, None, header, None, header, None, 0, 0))
  }

  datatype Event = Receive(payload: Payload, currentSlot: u64) | Timeout(currentSlot: u64)

  /** The validated update an event contributes at this store, if any. */
  function Accepted(crypto: Crypto, store: Store, event: Event): Option<Update> {
    if event.Timeout? || !event.payload.WellSized() then None
    else
      var decoded := Decode(event.payload);
      if decoded.Failure? then None
      else
        var validated := Validate(crypto, store, decoded.value, event.payload.aggregate, event.currentSlot);
        if validated.Failure? then None else Some(validated.value)
  }

  /** One event: a rejected payload and a premature timeout leave the store alone. */
  function Next(crypto: Crypto, store: Store, event: Event): Store {
    match event
    case Receive(_, _) =>
      var accepted := Accepted(crypto, store, event);
      if accepted.None? then store else Processed(store, accepted.value)
    case Timeout(currentSlot) =>
      var forced := Forced(store, currentSlot);
      if forced.None? then store else forced.value
  }

  function Run(crypto: Crypto, store: Store, events: seq<Event>): Store
    decreases |events|
  {
    if events == [] then store else Run(crypto, Next(crypto, store, events[0]), events[1..])
  }
}
