/** Concrete inputs at the edges of the light client's promises, over a toy hash that is constant:
    all branches, roots and keys are zero, so every proof is one pair hashed again and again. */
module LightClientExamples {
  import opened Bytes
  import opened Merkle
  import opened LightClient
  import opened LightClientRuns
  import opened LightClientSafety
  import opened LightClientProtocol

  const ZERO_PAIR: (B256, B256) := (ZERO_ROOT, ZERO_ROOT)

  function ZeroHash(): HashPair {
    (a: B256, b: B256) => ZERO_ROOT
  }

  function ToyCrypto(): Crypto {
    Crypto(ZeroHash(), (h: Header) => ZERO_ROOT, (c: Committee) => ZERO_ROOT, (slot: u64) => ZERO_ROOT,
           (k: PublicKey) => true, (s: bytes) => true, (ks: seq<PublicKey>, m: B256, s: bytes) => true)
  }

  /** The chain has one block, the genesis header. */
  function OneBlock(): Chain {
    Chain((p: nat) => NoCommittee(), (h: Header) => h == DEFAULT_HEADER,
          (h: Header) => Zeros(5), (h: Header) => Zeros(5), (h: Header) => Zeros(6),
          (h: Header) => DEFAULT_HEADER, (h: Header) => 0)
  }

  function AllSeen(): Observed {
    Observed({ZERO_PAIR}, {NoCommittee()}, {DEFAULT_HEADER})
  }

  lemma {:induction false} ZeroFold(branch: seq<B256>, index: nat)
    ensures Fold(ZeroHash(), ZERO_ROOT, branch, index) == ZERO_ROOT
    decreases |branch|
  {
    if branch != [] { ZeroFold(branch[1..], index / 2); }
  }

  lemma {:induction false} ZeroInputs(branch: seq<B256>, index: nat)
    requires AllZero(branch)
    ensures HashInputs(ZeroHash(), ZERO_ROOT, branch, index) <= {ZERO_PAIR}
    decreases |branch|
  {
    if branch != [] { ZeroInputs(branch[1..], index / 2); }
  }

  lemma CommitteeDepths()
    ensures FloorLog2(54) == 5 && FloorLog2(55) == 5 && FloorLog2(87) == 6
  {
    assert FloorLog2(1) == 0 && FloorLog2(3) == 1 && FloorLog2(6) == 2 && FloorLog2(13) == 3 && FloorLog2(27) == 4;
    assert FloorLog2(2) == 1 && FloorLog2(5) == 2 && FloorLog2(10) == 3 && FloorLog2(21) == 4 && FloorLog2(43) == 5;
  }

  /** Any branch of full depth proves the zero leaf, and a zero branch hashes one pair only. */
  lemma ZeroProven(branch: seq<B256>, gindex: nat)
    requires gindex > 0 && |branch| == FloorLog2(gindex)
    ensures ValidNormalized(ZeroHash(), ZERO_ROOT, branch, gindex, ZERO_ROOT)
    ensures Significant(branch, gindex) == branch
    ensures AllZero(branch) ==> NormalizedInputs(ZeroHash(), ZERO_ROOT, branch, gindex) <= {ZERO_PAIR}
  {
    hide FloorLog2;
    assert branch[0..] == branch && branch[..0] == [];
    ZeroFold(branch, SubtreeIndex(gindex));
    if AllZero(branch) { ZeroInputs(branch, SubtreeIndex(gindex)); }
  }

  lemma ZeroEpoch()
    ensures ZERO_ROOT[..8] == EncodeU64(0) && ZERO_ROOT[8..] == ZeroBytes(24)
  {
    ZeroPrefix(32, 8);
    ZeroNumber(8);
  }

  lemma {:induction false} ZeroPrefix(n: nat, k: nat)
    requires k <= n
    ensures ZeroBytes(n)[..k] == ZeroBytes(k) && ZeroBytes(n)[k..] == ZeroBytes(n - k)
    decreases k
  {
    if k > 0 {
      ZeroPrefix(n - 1, k - 1);
      assert ZeroBytes(n) == [0] + ZeroBytes(n - 1);
      assert ZeroBytes(n)[..k] == [0] + ZeroBytes(n - 1)[..k - 1];
      assert ZeroBytes(n)[k..] == ZeroBytes(n - 1)[k - 1..];
    }
  }

  lemma {:induction false} ZeroNumber(width: nat)
    ensures LittleEndian(0, width) == ZeroBytes(width)
    decreases width
  {
    if width > 0 { ZeroNumber(width - 1); }
  }

  lemma ToyTrust()
    ensures Trust(ToyCrypto(), OneBlock(), AllSeen())
  {
    hide FloorLog2;
    hide ValidNormalized;
    hide EncodeU64;
    hide ZeroBytes;
    hide ZeroKeys;
    hide Significant;
    hide NormalizedInputs;
    CommitteeDepths();
    GindexDepths();
    ZeroEpoch();
    ZeroProven(Zeros(5), 54);
    ZeroProven(Zeros(5), 55);
    ZeroProven(Zeros(6), 105);
    assert Commits(ToyCrypto(), OneBlock(), DEFAULT_HEADER);
  }

  // ---- One member and a timeout ----

  function NoBits(n: nat): (bits: seq<bool>)
    ensures |bits| == n && forall i :: 0 <= i < n ==> !bits[i]
  {
    if n == 0 then [] else [false] + NoBits(n - 1)
  }

  lemma {:induction false} CountNoBits(n: nat)
    ensures CountParticipants(NoBits(n)) == 0
    decreases n
  {
    if n > 0 {
      CountNoBits(n - 1);
      assert NoBits(n)[1..] == NoBits(n - 1);
    }
  }

  /** One participant out of 512. */
  function OneSigner(): SyncAggregate {
    SyncAggregate([true] + NoBits(511), [])
  }

  lemma OneSignerCounts()
    ensures |OneSigner().bits| == COMMITTEE_SIZE && CountParticipants(OneSigner().bits) == 1
  {
    CountNoBits(511);
    assert OneSigner().bits[1..] == NoBits(511);
  }

  /** A header no chain has. */
  const STRAY := Header(1, 0, ZERO_ROOT, ZERO_ROOT, ZERO_ROOT)

  function StrayUpdate(): Payload {
    OptimisticUpdate(STRAY, OneSigner(), 2)
  }

  function MinorityRun(): seq<Event> {
    [Receive(StrayUpdate(), 2), Timeout(9000)]
  }

  function Genesis(): Bootstrap {
    Bootstrap(DEFAULT_HEADER, NoCommittee(), Zeros(5))
  }

  function GenesisStore(): Store {
    Store(ZERO_ROOT, 0, NoCommittee(), None, DEFAULT_HEADER, None, DEFAULT_HEADER, None, 0, 0)
  }

  const ZERO_CHECKPOINT := TrustedCheckpoint(ZERO_ROOT, None)

  lemma GenesisVerifies()
    ensures VerifyBootstrap(ToyCrypto(), Genesis(), ZERO_CHECKPOINT) == Success(GenesisStore())
    ensures StartsAt(ToyCrypto(), OneBlock(), AllSeen(), Genesis(), ZERO_CHECKPOINT, DEFAULT_HEADER)
  {
    hide FloorLog2;
    hide ZeroKeys;
    hide ValidNormalized;
    hide NormalizedInputs;
    hide Significant;
    hide Zeros;
    CommitteeDepths();
    ZeroProven(Zeros(5), 54);
  }

  lemma StrayAccepted()
    ensures Accepted(ToyCrypto(), GenesisStore(), Receive(StrayUpdate(), 2))
            == Some(Update(STRAY, None, None, None, 2, 1))
  {
    hide ZeroKeys;
    hide CountParticipants;
    hide SelectedKeys;
    OneSignerCounts();
  }

  lemma StrayCovered()
    ensures CoversAll(ToyCrypto(), OneBlock(), AllSeen(), MinorityRun())
  {
    hide FloorLog2;
    hide ZeroKeys;
    hide NormalizedInputs;
    hide Significant;
    hide ValidNormalized;
    hide Zeros;
    CommitteeDepths();
    GindexDepths();
    ZeroProven(Zeros(5), 55);
    ZeroProven(Zeros(6), 105);
    assert Covers(ToyCrypto(), OneBlock(), AllSeen(), StrayUpdate());
  }

  lemma StrayBelowLevel()
    ensures TrustsReceived(ToyCrypto(), OneBlock(), SUPERMAJORITY, MinorityRun())
  {
    hide ZeroKeys;
    hide CheckSignature;
    hide CountParticipants;
    OneSignerCounts();
    assert TrustedSignature(ToyCrypto(), OneBlock(), SUPERMAJORITY, StrayUpdate());
  }

  /** Trusting two thirds is not enough once a timeout forces an update with fewer: one signature and
      a timeout finalize a header that is not canonical. Only the guard on forced updates is missing. */
  lemma OneMemberAndTimeoutBreakFinality()
    ensures Trust(ToyCrypto(), OneBlock(), AllSeen())
    ensures CoversAll(ToyCrypto(), OneBlock(), AllSeen(), MinorityRun())
    ensures StartsAt(ToyCrypto(), OneBlock(), AllSeen(), Genesis(), ZERO_CHECKPOINT, DEFAULT_HEADER)
    ensures TrustsReceived(ToyCrypto(), OneBlock(), SUPERMAJORITY, MinorityRun())
    ensures var start := VerifyBootstrap(ToyCrypto(), Genesis(), ZERO_CHECKPOINT).value;
            && Run(ToyCrypto(), start, MinorityRun()).finalized == STRAY
            && !OneBlock().canonical(STRAY)
            && !AllForcesTrusted(ToyCrypto(), start, MinorityRun(), SUPERMAJORITY)
  {
    ToyTrust();
    StrayCovered();
    StrayBelowLevel();
    GenesisVerifies();
    StrayAccepted();
    hide Accepted;
    hide VerifyBootstrap;
    hide Trust;
    hide StartsAt;
    hide CoversAll;
    hide TrustsReceived;
    var received := Recorded(GenesisStore(), Update(STRAY, None, None, None, 2, 1));
    assert Next(ToyCrypto(), GenesisStore(), MinorityRun()[0]) == received;
    assert received.best == Some(Update(STRAY, None, None, None, 2, 1)) && received.finalized == DEFAULT_HEADER;
    var final := Forced(received, 9000).value;
    assert Next(ToyCrypto(), received, MinorityRun()[1]) == final && final.finalized == STRAY;
    assert MinorityRun()[1..] == [Timeout(9000)] && [Timeout(9000)][1..] == [];
    assert Run(ToyCrypto(), received, [Timeout(9000)]) == final;
  }

  // ---- Beyond the protocol ----

  function Ones(n: nat): (b: bytes)
    ensures |b| == n && forall i :: 0 <= i < n ==> b[i] == 1
  {
    if n == 0 then [] else [1] + Ones(n - 1)
  }

  /** A finality branch whose epoch chunk is not a zero-padded number. */
  function OddBranch(): seq<B256> {
    [Ones(32)] + Zeros(5)
  }

  function OddFinality(): Payload {
    FinalityUpdate(STRAY, DEFAULT_HEADER, OddBranch(), OneSigner(), 2)
  }

  lemma OddNotProven()
    ensures Present(OddBranch()) && !CheckpointProven(ToyCrypto(), AsUpdate(OddFinality()))
  {
    var chunk: B256 := Ones(32);
    assert OddBranch()[0] == chunk && chunk[31] == 1;
    ZeroLast(24);
    forall epoch: u64
      ensures chunk != EncodeU64(epoch) + ZeroBytes(24)
    {
      assert (EncodeU64(epoch) + ZeroBytes(24))[31] == ZeroBytes(24)[23];
    }
  }

  lemma {:induction false} ZeroLast(n: nat)
    requires n > 0
    ensures ZeroBytes(n)[n - 1] == 0
  {
    if n > 1 { ZeroLast(n - 1); }
  }

  lemma OddProven()
    ensures ProvenAt(ZeroHash(), ZERO_ROOT, OddBranch(), 105, ZERO_ROOT)
  {
    hide FloorLog2;
    hide NodeAfter;
    GindexDepths();
    hide Zeros;
    hide Ones;
    ZeroProven(OddBranch(), 105);
    ProvenIsNormalized(ZeroHash(), ZERO_ROOT, OddBranch(), 105, ZERO_ROOT);
    hide ProvenAt;
    hide ValidNormalized;
  }

  lemma OddFinalityValid()
    ensures FinalityValid(ToyCrypto(), AsUpdate(OddFinality()))
  {
    hide FloorLog2;
    hide ZeroKeys;
    hide OneSigner;
    hide OddBranch;
    hide ProvenAt;
    OddProven();
  }

  lemma OddSigned()
    ensures OddFinality().WellSized() && SignedBy(ToyCrypto(), NoCommittee(), AsUpdate(OddFinality()))
  {
    hide ZeroKeys;
    hide KeysUpTo;
    hide CountParticipants;
    OneSignerCounts();
  }

  lemma OneParticipant()
    ensures |Participants(OneSigner().bits)| == 1
  {
    hide CountParticipants;
    hide Participants;
    var bits := OneSigner().bits;
    OneSignerCounts();
    CountIsParticipants(bits, |bits|);
    assert bits[..|bits|] == bits;
  }

  lemma OddCommitteeValid()
    ensures CommitteeValid(ToyCrypto(), GenesisStore(), AsUpdate(OddFinality()))
  {
    hide ProvenAt;
    assert !Present([]);
  }

  lemma OddIsProtocolValid()
    ensures OddFinality().WellSized()
    ensures ProtocolValid(ToyCrypto(), GenesisStore(), AsUpdate(OddFinality()), 2)
  {
    OddFinalityValid();
    OddSigned();
    OneParticipant();
    OddCommitteeValid();
    hide FinalityValid;
    hide CommitteeValid;
    hide SignedBy;
    hide Participants;
    hide ZeroKeys;
    hide NoBits;
    hide Zeros;
    hide Ones;
  }

  /** The protocol accepts an update whose finality proof has any epoch beside the root; the client does not. */
  lemma ProtocolAcceptsMore()
    ensures OddFinality().WellSized()
    ensures ProtocolValid(ToyCrypto(), GenesisStore(), AsUpdate(OddFinality()), 2)
    ensures Accepted(ToyCrypto(), GenesisStore(), Receive(OddFinality(), 2)).None?
  {
    OddIsProtocolValid();
    OddNotProven();
    hide ProtocolValid;
    hide CheckpointProven;
    hide Accepted;
    AcceptanceIsProtocol(ToyCrypto(), GenesisStore(), OddFinality(), 2);
  }

  // ---- Padding ----

  /** A five-node committee branch is refused at an Electra slot, and accepted with one zero in front. */
  lemma PaddingMakesShortBranchAcceptable()
    ensures !ValidNormalized(ZeroHash(), ZERO_ROOT, Zeros(5), 87, ZERO_ROOT)
    ensures ValidNormalized(ZeroHash(), ZERO_ROOT, Zeros(1) + Zeros(5), 87, ZERO_ROOT)
  {
    hide FloorLog2;
    CommitteeDepths();
    ZeroProven(Zeros(1) + Zeros(5), 87);
  }
}
