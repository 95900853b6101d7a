/** The sync protocol's own update validation, written from the specification, and how the
    client's acceptance relates to it. */
module LightClientProtocol {
  import opened Bytes
  import opened Merkle
  import opened LightClient

  // ---- The protocol ----

  /** `LightClientUpdate`: finality and optimistic updates leave the other fields at their defaults. */
  datatype ProtocolUpdate = ProtocolUpdate(
    attested: Header, nextCommittee: Committee, committeeBranch: seq<B256>,
    finalized: Header, finalityBranch: seq<B256>, aggregate: SyncAggregate, signatureSlot: u64)

  function ZeroKeys(n: nat): (keys: seq<PublicKey>)
    ensures |keys| == n && forall i :: 0 <= i < n ==> keys[i] == ZeroBytes(48)
  {
    if n == 0 then [] else [ZeroBytes(48)] + ZeroKeys(n - 1)
  }

  function NoCommittee(): Committee {
    Committee(ZeroKeys(COMMITTEE_SIZE), ZeroBytes(48))
  }

  function AsUpdate(payload: Payload): ProtocolUpdate {
    match payload
    case RangeUpdate(attested, committee, committeeBranch, finalized, finalityBranch, aggregate, slot) =>
      ProtocolUpdate(attested, committee, committeeBranch, finalized, finalityBranch, aggregate, slot)
    case FinalityUpdate(attested, finalized, finalityBranch, aggregate, slot) =>
      ProtocolUpdate(attested, NoCommittee(), [], finalized, finalityBranch, aggregate, slot)
    case OptimisticUpdate(attested, aggregate, slot) =>
      ProtocolUpdate(attested, NoCommittee(), [], DEFAULT_HEADER, [], aggregate, slot)
  }

  /** A branch other than the default one of the same width. */
  predicate Present(branch: seq<B256>) {
    exists i :: 0 <= i < |branch| && branch[i] != ZERO_ROOT
  }

  predicate IsNoCommittee(committee: Committee) {
    && committee.aggregate == ZeroBytes(48)
    && forall i :: 0 <= i < |committee.pubkeys| ==> committee.pubkeys[i] == ZeroBytes(48)
  }

  function PeriodAt(slot: nat): nat {
    slot / 8192
  }

  /** `is_valid_merkle_branch`, from the leaf upward, reading the position bit by bit. */
  function NodeAfter(hash: HashPair, leaf: B256, branch: seq<B256>, i: nat, index: nat): B256
    requires i <= |branch|
  {
    if i == 0 then leaf
    else
      var node := NodeAfter(hash, leaf, branch, i - 1, index);
      if index / Pow2(i - 1) % 2 == 1 then hash(branch[i - 1], node) else hash(node, branch[i - 1])
  }

  /** `is_valid_normalized_merkle_branch`. */
  predicate ProvenAt(hash: HashPair, leaf: B256, branch: seq<B256>, gindex: nat, root: B256)
    requires gindex > 0
  {
    var depth := FloorLog2(gindex);
    && |branch| >= depth
    && (forall i :: 0 <= i < |branch| - depth ==> branch[i] == ZERO_ROOT)
    && NodeAfter(hash, leaf, branch[|branch| - depth..], depth, gindex % Pow2(depth)) == root
  }

  function Participants(bits: seq<bool>): set<nat> {
    set i: nat | i < |bits| && bits[i]
  }

  /** The keys whose bit is set, in order, among the first `n`. */
  function KeysUpTo(pubkeys: seq<PublicKey>, bits: seq<bool>, n: nat): seq<PublicKey>
    requires n <= |bits| == |pubkeys|
  {
    if n == 0 then [] else KeysUpTo(pubkeys, bits, n - 1) + (if bits[n - 1] then [pubkeys[n - 1]] else [])
  }

  /** `FastAggregateVerify`, which validates the keys and the signature it is given. */
  predicate FastAggregateVerify(crypto: Crypto, keys: seq<PublicKey>, message: B256, signature: bytes) {
    && (forall i :: 0 <= i < |keys| ==> crypto.keyValid(keys[i]))
    && crypto.signatureValid(signature)
    && crypto.aggregateVerify(keys, message, signature)
  }

  predicate SignedBy(crypto: Crypto, committee: Committee, u: ProtocolUpdate)
    requires |u.aggregate.bits| == COMMITTEE_SIZE
  {
    && |committee.pubkeys| == COMMITTEE_SIZE
    && FastAggregateVerify(
         crypto, KeysUpTo(committee.pubkeys, u.aggregate.bits, COMMITTEE_SIZE),
         crypto.hash(crypto.headerRoot(u.attested), crypto.domain(u.signatureSlot)), u.aggregate.signature)
  }

  predicate FinalityValid(crypto: Crypto, u: ProtocolUpdate) {
    var gindex := if u.attested.slot / 32 >= 364_032 then 169 else 105;
    if !Present(u.finalityBranch) then u.finalized == DEFAULT_HEADER
    else
      && (u.finalized.slot == 0 ==> u.finalized == DEFAULT_HEADER)
      && var root := if u.finalized.slot == 0 then ZERO_ROOT else crypto.headerRoot(u.finalized);
         ProvenAt(crypto.hash, root, u.finalityBranch, gindex, u.attested.stateRoot)
  }

  predicate CommitteeValid(crypto: Crypto, store: Store, u: ProtocolUpdate) {
    var gindex := if u.attested.slot / 32 >= 364_032 then 87 else 55;
    if !Present(u.committeeBranch) then IsNoCommittee(u.nextCommittee)
    else
      && (PeriodAt(u.attested.slot) == PeriodAt(store.finalized.slot) && store.nextCommittee.Some? ==>
            u.nextCommittee == store.nextCommittee.value)
      && ProvenAt(crypto.hash, crypto.committeeRoot(u.nextCommittee), u.committeeBranch, gindex, u.attested.stateRoot)
  }

  /** `validate_light_client_update` of the altair light-client sync protocol, with the branch
      positions of later forks; header validity is not modelled. */
  predicate ProtocolValid(crypto: Crypto, store: Store, u: ProtocolUpdate, currentSlot: u64)
    requires |u.aggregate.bits| == COMMITTEE_SIZE
  {
    var storePeriod, signaturePeriod := PeriodAt(store.finalized.slot), PeriodAt(u.signatureSlot);
    && |Participants(u.aggregate.bits)| >= 1
    && currentSlot >= u.signatureSlot > u.attested.slot >= u.finalized.slot
    && (signaturePeriod == storePeriod || (signaturePeriod == storePeriod + 1 && store.nextCommittee.Some?))
    && (|| u.attested.slot > store.finalized.slot
        || (store.nextCommittee.None? && Present(u.committeeBranch) && PeriodAt(u.attested.slot) == storePeriod))
    && FinalityValid(crypto, u)
    && CommitteeValid(crypto, store, u)
    && SignedBy(crypto, if signaturePeriod == storePeriod then store.currentCommittee else store.nextCommittee.value, u)
  }

  // ---- What the client asks beyond the protocol ----

  /** The epoch beside the proven root is a zero-padded number whose first slot lies between the
      finalized and the attested header, and is zero for genesis; the proven root is not zero otherwise. */
  ghost predicate CheckpointProven(crypto: Crypto, u: ProtocolUpdate) {
    var depth := if u.attested.slot / 32 >= 364_032 then 7 else 6;
    |u.finalityBranch| >= depth
    && exists epoch: u64 ::
         && u.finalityBranch[|u.finalityBranch| - depth] == EncodeU64(epoch) + ZeroBytes(24)
         && u.finalized.slot <= epoch * 32 <= u.attested.slot
         && (if u.finalized.slot == 0 then epoch == 0 else crypto.headerRoot(u.finalized) != ZERO_ROOT)
  }

  /** A committee proof comes with a committee. */
  predicate CommitteeGiven(u: ProtocolUpdate) {
    Present(u.committeeBranch) ==> !IsNoCommittee(u.nextCommittee)
  }

  // ---- Merkle branches ----

  lemma DivideTwice(n: nat, p: nat)
    requires p > 0
    ensures n / 2 / p == n / (2 * p)
  {
    var half := n / 2;
    var q, r := half / p, half % p;
    assert half == p * q + r;
    assert 2 * (p * q) == (2 * p) * q;
    QuotientUnique(n, 2 * p, q, 2 * r + n % 2);
  }

  lemma QuotientUnique(n: nat, p: nat, q: nat, r: nat)
    requires p > 0 && r < p && n == p * q + r
    ensures n / p == q
  {
    var d := n / p;
    assert n == p * d + n % p;
    LessByMultiple(p, d, q);
    LessByMultiple(p, q, d);
  }

  lemma LessByMultiple(p: nat, a: nat, b: nat)
    ensures a < b ==> p * a + p <= p * b
  {
    if a < b { assert p * (a + 1) <= p * b; }
  }

  lemma {:induction false} HighBitsDivide(index: nat, n: nat)
    ensures HighBits(index, n) == index / Pow2(n)
    decreases n
  {
    if n > 0 {
      HighBitsDivide(index / 2, n - 1);
      DivideTwice(index, Pow2(n - 1));
    }
  }

  /** Reading the position bit by bit and halving it on the way up are the same walk. */
  lemma {:induction false} NodeIsFold(hash: HashPair, leaf: B256, branch: seq<B256>, i: nat, index: nat)
    requires i <= |branch|
    ensures NodeAfter(hash, leaf, branch, i, index) == Fold(hash, leaf, branch[..i], index)
    decreases i
  {
    hide Fold;
    hide HighBits;
    hide Pow2;
    if i > 0 {
      NodeIsFold(hash, leaf, branch, i - 1, index);
      FoldSnoc(hash, leaf, branch[..i - 1], branch[i - 1], index);
      assert branch[..i] == branch[..i - 1] + [branch[i - 1]];
      HighBitsDivide(index, i - 1);
    } else {
      FoldNothing(hash, leaf, branch[..0], index);
    }
  }

  lemma FoldNothing(hash: HashPair, leaf: B256, branch: seq<B256>, index: nat)
    requires branch == []
    ensures Fold(hash, leaf, branch, index) == leaf
  {
  }

  lemma ProvenIsNormalized(hash: HashPair, leaf: B256, branch: seq<B256>, gindex: nat, root: B256)
    requires gindex > 0
    ensures ProvenAt(hash, leaf, branch, gindex, root) <==> ValidNormalized(hash, leaf, branch, gindex, root)
  {
    hide Fold;
    hide NodeAfter;
    hide FloorLog2;
    hide Pow2;
    var depth := FloorLog2(gindex);
    if |branch| >= depth {
      var extra := |branch| - depth;
      NodeIsFold(hash, leaf, branch[extra..], depth, gindex % Pow2(depth));
      assert branch[extra..][..depth] == branch[extra..];
      assert AllZero(branch[..extra]) <==> forall i :: 0 <= i < extra ==> branch[i] == ZERO_ROOT by {
        assert forall i :: 0 <= i < extra ==> branch[..extra][i] == branch[i];
      }
    }
  }

  // ---- Signatures ----

  lemma {:induction false} CountSnoc(bits: seq<bool>, n: nat)
    requires n < |bits|
    ensures CountParticipants(bits[..n + 1]) == CountParticipants(bits[..n]) + if bits[n] then 1 else 0
    decreases n
  {
    if n == 0 {
      assert bits[..1][1..] == [] && bits[..0] == [];
    } else {
      assert bits[..n + 1][1..] == bits[1..][..n] && bits[..n][1..] == bits[1..][..n - 1];
      CountSnoc(bits[1..], n - 1);
    }
  }

  lemma {:induction false} CountIsParticipants(bits: seq<bool>, n: nat)
    requires n <= |bits|
    ensures CountParticipants(bits[..n]) == |Participants(bits[..n])|
    decreases n
  {
    hide CountParticipants;
    if n == 0 {
      assert Participants(bits[..0]) == {};
      CountNothing();
    } else {
      CountIsParticipants(bits, n - 1);
      CountSnoc(bits, n - 1);
      ParticipantsSnoc(bits, n - 1);
      hide Participants;
    }
  }

  lemma ParticipantsSnoc(bits: seq<bool>, n: nat)
    requires n < |bits|
    ensures n !in Participants(bits[..n])
    ensures Participants(bits[..n + 1]) == Participants(bits[..n]) + if bits[n] then {n} else {}
  {
    forall i: nat
      ensures i in Participants(bits[..n + 1]) <==> i in Participants(bits[..n]) || (bits[n] && i == n)
    {
      if i < n { assert bits[..n + 1][i] == bits[..n][i]; }
    }
  }

  lemma CountNothing()
    ensures CountParticipants([]) == 0
  {
  }

  lemma {:induction false} KeysAreSelected(pubkeys: seq<PublicKey>, bits: seq<bool>, n: nat)
    requires n <= |bits| == |pubkeys|
    ensures KeysUpTo(pubkeys, bits, n) == SelectedKeys(pubkeys[..n], bits[..n])
    decreases n
  {
    if n > 0 {
      KeysAreSelected(pubkeys, bits, n - 1);
      SelectedKeysSnoc(pubkeys, bits, n - 1);
    }
  }

  lemma SignatureAgrees(crypto: Crypto, committee: Committee, u: ProtocolUpdate)
    requires |u.aggregate.bits| == COMMITTEE_SIZE
    ensures SignedBy(crypto, committee, u)
            <==> CheckSignature(crypto, committee, u.aggregate, u.attested, u.signatureSlot).None?
  {
    hide SelectedKeys;
    hide KeysUpTo;
    if |committee.pubkeys| == COMMITTEE_SIZE {
      KeysAreSelected(committee.pubkeys, u.aggregate.bits, COMMITTEE_SIZE);
      assert committee.pubkeys[..COMMITTEE_SIZE] == committee.pubkeys;
      assert u.aggregate.bits[..COMMITTEE_SIZE] == u.aggregate.bits;
    }
  }

  // ---- Decoding, finality and committee proofs ----

  lemma PresentIsNotZero(branch: seq<B256>)
    ensures Present(branch) <==> !AllZero(branch)
  {
  }

  lemma DecodeAs(payload: Payload)
    ensures var u := AsUpdate(payload);
            var finalized := DecodeFinalized(u.finalized, u.finalityBranch);
            var next := DecodeCommittee(u.nextCommittee, u.committeeBranch);
            && (Decode(payload).Success? <==> finalized.Success? && next.Success?)
            && (Decode(payload).Success? ==>
                  Decode(payload).value
                  == Decoded(Update(u.attested, finalized.value, None, next.value, u.signatureSlot,
                                    CountParticipants(u.aggregate.bits)),
                             PresentBranch(u.finalityBranch), PresentBranch(u.committeeBranch)))
  {
    hide CountParticipants;
    hide ZeroKeys;
    assert IsDefaultCommittee(NoCommittee());
    assert AllZero([]);
  }

  lemma GindexDepths()
    ensures FloorLog2(105) == 6 && FloorLog2(169) == 7
  {
    assert FloorLog2(1) == 0 && FloorLog2(3) == 1 && FloorLog2(6) == 2 && FloorLog2(13) == 3;
    assert FloorLog2(26) == 4 && FloorLog2(52) == 5 && FloorLog2(105) == 6;
    assert FloorLog2(2) == 1 && FloorLog2(5) == 2 && FloorLog2(10) == 3 && FloorLog2(21) == 4;
    assert FloorLog2(42) == 5 && FloorLog2(84) == 6 && FloorLog2(169) == 7;
  }

  lemma EpochChunk(chunk: B256, epoch: u64)
    ensures chunk == EncodeU64(epoch) + ZeroBytes(24) <==> chunk[8..] == ZeroBytes(24) && DecodeU64(chunk[..8]) == epoch
  {
    hide EncodeU64;
    hide ZeroBytes;
    DecodeU64Canonical(chunk[..8]);
    assert chunk == chunk[..8] + chunk[8..];
    EncodedDecodes(epoch);
  }

  lemma EncodedDecodes(epoch: u64)
    ensures DecodeU64(EncodeU64(epoch)) == epoch
  {
  }

  /** Decoding the finalized header and verifying its proof ask for the protocol's finality condition
      and, when a branch is present, for the checkpoint condition. */
  lemma FinalityAgrees(crypto: Crypto, u: ProtocolUpdate, update: Update)
    requires update.attested == u.attested
    requires DecodeFinalized(u.finalized, u.finalityBranch).Success? ==>
               update.finalized == DecodeFinalized(u.finalized, u.finalityBranch).value
    ensures (&& DecodeFinalized(u.finalized, u.finalityBranch).Success?
             && VerifyFinalityProof(crypto, update, PresentBranch(u.finalityBranch)).Success?)
            <==> FinalityValid(crypto, u) && (Present(u.finalityBranch) ==> CheckpointProven(crypto, u))
  {
    PresentIsNotZero(u.finalityBranch);
    if Present(u.finalityBranch) && DecodeFinalized(u.finalized, u.finalityBranch).Success? {
      PresentFinalityAgrees(crypto, u, update);
    }
  }

  lemma PresentFinalityAgrees(crypto: Crypto, u: ProtocolUpdate, update: Update)
    requires update.attested == u.attested && update.finalized == Some(u.finalized) && Present(u.finalityBranch)
    requires u.finalized == DEFAULT_HEADER || u.finalized.slot > 0
    ensures VerifyFinalityProof(crypto, update, Some(u.finalityBranch)).Success?
            <==> FinalityValid(crypto, u) && CheckpointProven(crypto, u)
  {
    hide ValidNormalized;
    hide ProvenAt;
    hide FloorLog2;
    hide EncodeU64;
    hide DecodeU64;
    hide ZeroBytes;
    GindexDepths();
    var gindex := FinalizedRootGindex(u.attested.slot);
    ProvenIsNormalized(crypto.hash, FinalizedLeaf(crypto, u.finalized), u.finalityBranch, gindex, u.attested.stateRoot);
    var depth := FloorLog2(gindex);
    if |u.finalityBranch| >= depth {
      var chunk := u.finalityBranch[|u.finalityBranch| - depth];
      assert Significant(u.finalityBranch, gindex)[0] == chunk;
      var epoch: u64 := DecodeU64(chunk[..8]);
      CheckpointProvenAt(crypto, u, chunk, epoch);
      assert CheckpointMatchesHeader(crypto, Checkpoint(epoch, FinalizedLeaf(crypto, u.finalized)), u.finalized,
                                     u.attested.slot)
             <==> && u.finalized.slot <= epoch * 32 <= u.attested.slot
                  && (if u.finalized.slot == 0 then epoch == 0 else crypto.headerRoot(u.finalized) != ZERO_ROOT);
    } else {
      ShortIsInvalid(crypto.hash, FinalizedLeaf(crypto, u.finalized), u.finalityBranch, gindex, u.attested.stateRoot);
    }
  }

  lemma CheckpointProvenAt(crypto: Crypto, u: ProtocolUpdate, chunk: B256, epoch: u64)
    requires var depth := if u.attested.slot / 32 >= 364_032 then 7 else 6;
             |u.finalityBranch| >= depth && chunk == u.finalityBranch[|u.finalityBranch| - depth]
    requires epoch == DecodeU64(chunk[..8])
    ensures CheckpointProven(crypto, u) <==>
              && chunk[8..] == ZeroBytes(24)
              && u.finalized.slot <= epoch * 32 <= u.attested.slot
              && (if u.finalized.slot == 0 then epoch == 0 else crypto.headerRoot(u.finalized) != ZERO_ROOT)
  {
    hide EncodeU64;
    hide DecodeU64;
    hide ZeroBytes;
    EpochChunk(chunk, epoch);
    if CheckpointProven(crypto, u) {
      var other: u64 :|
        && chunk == EncodeU64(other) + ZeroBytes(24)
        && u.finalized.slot <= other * 32 <= u.attested.slot
        && (if u.finalized.slot == 0 then other == 0 else crypto.headerRoot(u.finalized) != ZERO_ROOT);
      EpochChunk(chunk, other);
    }
  }

  lemma ShortIsInvalid(hash: HashPair, leaf: B256, branch: seq<B256>, gindex: nat, root: B256)
    requires gindex > 0 && |branch| < FloorLog2(gindex)
    ensures !ValidNormalized(hash, leaf, branch, gindex, root)
  {
  }

  lemma DefaultIsNoCommittee(committee: Committee)
    ensures IsDefaultCommittee(committee) <==> IsNoCommittee(committee)
  {
  }

  lemma SamePeriod(slot: u64)
    ensures Period(slot) == PeriodAt(slot)
  {
  }

  lemma CommitteeAgrees(crypto: Crypto, store: Store, u: ProtocolUpdate, update: Update)
    requires update.attested == u.attested
    requires DecodeCommittee(u.nextCommittee, u.committeeBranch).Success? ==>
               update.nextCommittee == DecodeCommittee(u.nextCommittee, u.committeeBranch).value
    ensures (&& DecodeCommittee(u.nextCommittee, u.committeeBranch).Success?
             && !(&& update.nextCommittee.Some? && store.nextCommittee.Some?
                  && Period(update.attested.slot) == Period(store.finalized.slot)
                  && update.nextCommittee != store.nextCommittee)
             && NextCommitteeProofOk(crypto, update, PresentBranch(u.committeeBranch)))
            <==> CommitteeValid(crypto, store, u) && CommitteeGiven(u)
  {
    hide ValidNormalized;
    hide ProvenAt;
    hide FloorLog2;
    hide AllZero;
    hide Present;
    hide IsDefaultCommittee;
    hide IsNoCommittee;
    hide Period;
    hide PeriodAt;
    DefaultIsNoCommittee(u.nextCommittee);
    SamePeriod(u.attested.slot);
    SamePeriod(store.finalized.slot);
    PresentIsNotZero(u.committeeBranch);
    ProvenIsNormalized(crypto.hash, crypto.committeeRoot(u.nextCommittee), u.committeeBranch,
                       NextCommitteeGindex(u.attested.slot), u.attested.stateRoot);
  }

  /** A payload is accepted if and only if the protocol accepts it, the epoch beside a finality proof is
      a sound checkpoint epoch, and a committee proof comes with a committee. */
  lemma AcceptanceIsProtocol(crypto: Crypto, store: Store, payload: Payload, currentSlot: u64)
    requires payload.WellSized()
    ensures var u := AsUpdate(payload);
            Accepted(crypto, store, Receive(payload, currentSlot)).Some? <==>
              && ProtocolValid(crypto, store, u, currentSlot)
              && (Present(u.finalityBranch) ==> CheckpointProven(crypto, u))
              && CommitteeGiven(u)
  {
    var bits := AsUpdate(payload).aggregate.bits;
    CountIsParticipants(bits, |bits|);
    assert bits[..|bits|] == bits;
    hide Accepted;
    ValidateAgrees(crypto, store, payload, AsUpdate(payload), currentSlot);
  }

  lemma ValidateAgrees(crypto: Crypto, store: Store, payload: Payload, u: ProtocolUpdate, currentSlot: u64)
    requires payload.WellSized() && u == AsUpdate(payload)
    requires CountParticipants(u.aggregate.bits) == |Participants(u.aggregate.bits)|
    ensures Accepted(crypto, store, Receive(payload, currentSlot)).Some? <==>
              && ProtocolValid(crypto, store, u, currentSlot)
              && (Present(u.finalityBranch) ==> CheckpointProven(crypto, u))
              && CommitteeGiven(u)
  {
    hide VerifyFinalityProof;
    hide NextCommitteeProofOk;
    hide CheckSignature;
    hide SignedBy;
    hide FinalityValid;
    hide CommitteeValid;
    hide CheckpointProven;
    hide Decode;
    hide CountParticipants;
    hide Participants;
    hide Present;
    hide AllZero;
    hide IsDefaultCommittee;
    hide IsNoCommittee;
    PeriodsAgree(store.finalized.slot);
    PeriodsAgree(u.signatureSlot);
    PeriodsAgree(u.attested.slot);
    hide Period;
    hide PeriodAt;
    DecodeAs(payload);
    PresentIsNotZero(u.finalityBranch);
    PresentIsNotZero(u.committeeBranch);
    SignatureAgrees(crypto, store.currentCommittee, u);
    if store.nextCommittee.Some? { SignatureAgrees(crypto, store.nextCommittee.value, u); }
    var finalized := DecodeFinalized(u.finalized, u.finalityBranch);
    var next := DecodeCommittee(u.nextCommittee, u.committeeBranch);
    var update := Update(
      u.attested, if finalized.Success? then finalized.value else None, None,
      if next.Success? then next.value else None, u.signatureSlot, CountParticipants(u.aggregate.bits));
    FinalityAgrees(crypto, u, update);
    CommitteeAgrees(crypto, store, u, update);
    FinalizedSlotAgrees(crypto, u);
  }

  lemma PeriodsAgree(slot: nat)
    ensures PeriodAt(slot) == Period(slot)
  {
  }

  lemma FinalizedSlotAgrees(crypto: Crypto, u: ProtocolUpdate)
    ensures FinalityValid(crypto, u) && !Present(u.finalityBranch) ==> u.finalized.slot == 0
  {
  }

  /** An accepted update says what its payload says: header, slot and number of participants; the finalized
      header and the next committee exactly when their branches are present; and the checkpoint whose
      epoch stands beside the proven root. */
  lemma AcceptedIsPayload(crypto: Crypto, store: Store, payload: Payload, currentSlot: u64)
    requires Accepted(crypto, store, Receive(payload, currentSlot)).Some?
    ensures var u, update := AsUpdate(payload), Accepted(crypto, store, Receive(payload, currentSlot)).value;
            && update.attested == u.attested && update.signatureSlot == u.signatureSlot
            && update.participants == |Participants(u.aggregate.bits)|
            && update.finalized == (if Present(u.finalityBranch) then Some(u.finalized) else None)
            && update.nextCommittee == (if Present(u.committeeBranch) then Some(u.nextCommittee) else None)
            && (update.checkpoint.Some? <==> Present(u.finalityBranch))
            && (update.checkpoint.Some? ==>
                  var depth := if u.attested.slot / 32 >= 364_032 then 7 else 6;
                  && update.checkpoint.value.root
                     == (if u.finalized.slot == 0 then ZERO_ROOT else crypto.headerRoot(u.finalized))
                  && |u.finalityBranch| >= depth
                  && u.finalityBranch[|u.finalityBranch| - depth]
                     == EncodeU64(update.checkpoint.value.epoch) + ZeroBytes(24))
  {
    hide CountParticipants;
    hide Participants;
    hide Decode;
    hide VerifyFinalityProof;
    hide Accepted;
    hide ZeroBytes;
    var u := AsUpdate(payload);
    DecodeAs(payload);
    CountIsParticipants(u.aggregate.bits, |u.aggregate.bits|);
    assert u.aggregate.bits[..|u.aggregate.bits|] == u.aggregate.bits;
    PresentIsNotZero(u.finalityBranch);
    PresentIsNotZero(u.committeeBranch);
    AcceptedFields(crypto, store, Receive(payload, currentSlot));
    if Present(u.finalityBranch) {
      ProvenCheckpoint(crypto, Decode(payload).value.update, u.finalityBranch);
    } else {
      NothingProven(crypto, Decode(payload).value.update);
    }
  }

  lemma NothingProven(crypto: Crypto, update: Update)
    ensures VerifyFinalityProof(crypto, update, None) == Success(None)
  {
  }

  lemma AcceptedFields(crypto: Crypto, store: Store, event: Event)
    requires Accepted(crypto, store, event).Some?
    ensures event.Receive? && Decode(event.payload).Success?
    ensures var decoded := Decode(event.payload).value;
            var finality := VerifyFinalityProof(crypto, decoded.update, decoded.finalityBranch);
            finality.Success? && Accepted(crypto, store, event) == Some(decoded.update.(checkpoint := finality.value))
  {
    hide Decode;
    hide VerifyFinalityProof;
    hide CheckSignature;
    hide NextCommitteeProofOk;
    hide SigningCommittee;
  }

  lemma ProvenCheckpoint(crypto: Crypto, update: Update, branch: seq<B256>)
    requires update.finalized.Some? && VerifyFinalityProof(crypto, update, Some(branch)).Success?
    ensures var checkpoint := VerifyFinalityProof(crypto, update, Some(branch)).value;
            var depth := if update.attested.slot / 32 >= 364_032 then 7 else 6;
            && checkpoint.Some?
            && checkpoint.value.root == (if update.finalized.value.slot == 0 then ZERO_ROOT
                                         else crypto.headerRoot(update.finalized.value))
            && |branch| >= depth
            && branch[|branch| - depth] == EncodeU64(checkpoint.value.epoch) + ZeroBytes(24)
  {
    hide FloorLog2;
    hide ZeroBytes;
    GindexDepths();
    var node := Significant(branch, FinalizedRootGindex(update.attested.slot))[0];
    DecodeU64Canonical(node[..8]);
    assert node == node[..8] + node[8..];
  }

  /** A bootstrap is verified if and only if its header is the trusted block, at the trusted slot if one
      is given, and the branch proves its committee; the store starts with that header and committee. */
  lemma BootstrapIsProtocol(crypto: Crypto, bootstrap: Bootstrap, trusted: TrustedCheckpoint)
    ensures var header := bootstrap.header;
            var gindex := if header.slot / 32 >= 364_032 then 86 else 54;
            VerifyBootstrap(crypto, bootstrap, trusted).Success? <==>
              && crypto.headerRoot(header) == trusted.root
              && (trusted.slot.Some? ==> trusted.slot.value == header.slot)
              && ProvenAt(crypto.hash, crypto.committeeRoot(bootstrap.committee), bootstrap.branch, gindex,
                          header.stateRoot)
    ensures VerifyBootstrap(crypto, bootstrap, trusted).Success? ==>
              var store := VerifyBootstrap(crypto, bootstrap, trusted).value;
              && store.finalized == store.optimistic == bootstrap.header
              && store.currentCommittee == bootstrap.committee && store.nextCommittee.None?
              && store.checkpointRoot == trusted.root && store.bootstrapSlot == bootstrap.header.slot
              && store.checkpoint.None? && store.best.None? && store.previousMax == store.currentMax == 0
  {
    hide ValidNormalized;
    hide ProvenAt;
    hide FloorLog2;
    var header := bootstrap.header;
    var gindex := if header.slot / 32 >= 364_032 then 86 else 54;
    ProvenIsNormalized(crypto.hash, crypto.committeeRoot(bootstrap.committee), bootstrap.branch, gindex,
                       header.stateRoot);
  }
}
