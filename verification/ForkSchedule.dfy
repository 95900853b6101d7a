/** The fork and blob schedules of a chain: which version and digest hold at an epoch, and
    when they change next. */
module ForkSchedule {
  import opened Bytes

  type Version = v: bytes | |v| == 4 witness ZeroBytes(4)
  type Digest = d: bytes | |d| == 4 witness ZeroBytes(4)

  datatype Fork = Fork(epoch: u64, version: Version)
  datatype Blob = Blob(epoch: u64, maxBlobs: u64)

  datatype ChainSpec = ChainSpec(
    genesisVersion: Version, forks: seq<Fork>, fuluEpoch: u64, electraMaxBlobs: u64, blobs: seq<Blob>)

  /** SHA-256 of the fork data, truncated, and the exclusive-or with the blob parameter hash. */
  datatype Hashes = Hashes(plain: Version -> Digest, mix: (Digest, Blob) -> Digest)

  const ELECTRA: Version := [5, 0, 0, 0]

  // ---- Lookups ----

  /** Forks at the front of the schedule that have started. */
  function Started(forks: seq<Fork>, epoch: u64): (n: nat)
    ensures n <= |forks|
    ensures forall i :: 0 <= i < n ==> forks[i].epoch <= epoch
    ensures n < |forks| ==> forks[n].epoch > epoch
  {
    if forks != [] && forks[0].epoch <= epoch then 1 + Started(forks[1..], epoch) else 0
  }

  function VersionAt(spec: ChainSpec, epoch: u64): Version {
    var n := Started(spec.forks, epoch);
    if n == 0 then spec.genesisVersion else spec.forks[n - 1].version
  }

  method ForkVersionForEpoch(spec: ChainSpec, epoch: u64) returns (version: Version)
    ensures version == VersionAt(spec, epoch)
  {
    version := spec.genesisVersion;
    var index := 0;
    while index < |spec.forks|
      invariant 0 <= index <= |spec.forks|
      invariant Started(spec.forks, epoch) == index + Started(spec.forks[index..], epoch)
      invariant version == if index == 0 then spec.genesisVersion else spec.forks[index - 1].version
    {
      assert spec.forks[index..][1..] == spec.forks[index + 1..];
      if epoch < spec.forks[index].epoch { break; }
      version := spec.forks[index].version;
      index := index + 1;
    }
  }

  function ElectraEpoch(forks: seq<Fork>): u64 {
    if forks == [] then 0
    else if forks[0].version == ELECTRA then forks[0].epoch
    else ElectraEpoch(forks[1..])
  }

  /** Searching the blob schedule from its end. */
  function BlobFrom(spec: ChainSpec, n: nat, epoch: u64): Blob
    requires n <= |spec.blobs|
  {
    if n == 0 then Blob(ElectraEpoch(spec.forks), spec.electraMaxBlobs)
    else if epoch >= spec.blobs[n - 1].epoch then spec.blobs[n - 1]
    else BlobFrom(spec, n - 1, epoch)
  }

  function BlobAt(spec: ChainSpec, epoch: u64): Blob {
    BlobFrom(spec, |spec.blobs|, epoch)
  }

  function DigestAt(hashes: Hashes, spec: ChainSpec, epoch: u64): Digest {
    var plain := hashes.plain(VersionAt(spec, epoch));
    if epoch < spec.fuluEpoch then plain else hashes.mix(plain, BlobAt(spec, epoch))
  }

  function ForkEpoch(f: Fork): u64 { f.epoch }

  function BlobEpoch(b: Blob): u64 { b.epoch }

  /** The first epoch of a schedule after this one. */
  function NextEpoch<T>(schedule: seq<T>, at: T -> u64, epoch: u64): (r: Option<u64>)
    ensures r.Some? ==> r.value > epoch && exists i :: 0 <= i < |schedule| && at(schedule[i]) == r.value
  {
    if schedule == [] then None
    else if at(schedule[0]) > epoch then Some(at(schedule[0]))
    else NextEpoch(schedule[1..], at, epoch)
  }

  function NextScheduled(spec: ChainSpec, epoch: u64): Option<u64> {
    match (NextEpoch(spec.forks, ForkEpoch, epoch), NextEpoch(spec.blobs, BlobEpoch, epoch))
    case (Some(f), Some(b)) => Some(Min(f, b))
    case (Some(f), None) => Some(f)
    case (None, b) => b
  }

  // ---- Well-ordered schedules ----

  predicate InOrder<T(!new)>(schedule: seq<T>, at: T -> u64) {
    forall i, j :: 0 <= i < j < |schedule| ==> at(schedule[i]) < at(schedule[j])
  }

  /** Both schedules are in order, and the digest rule changes at a scheduled fork. */
  predicate WellScheduled(spec: ChainSpec) {
    && InOrder(spec.forks, ForkEpoch) && InOrder(spec.blobs, BlobEpoch)
    && exists i :: 0 <= i < |spec.forks| && spec.forks[i].epoch == spec.fuluEpoch
  }

  const MAINNET: ChainSpec := ChainSpec(
    [0, 0, 0, 0],
    [Fork(74_240, [1, 0, 0, 0]), Fork(144_896, [2, 0, 0, 0]), Fork(194_048, [3, 0, 0, 0]),
     Fork(269_568, [4, 0, 0, 0]), Fork(364_032, [5, 0, 0, 0]), Fork(411_392, [6, 0, 0, 0])],
    411_392, 9,
    [Blob(412_672, 15), Blob(419_072, 21)])

  lemma MainnetWellScheduled()
    ensures WellScheduled(MAINNET)
  {
    assert MAINNET.forks[5].epoch == MAINNET.fuluEpoch;
  }

  // ---- What the lookups mean ----

  /** Entry `i` is the last one of the schedule that has started. */
  predicate InForce<T>(schedule: seq<T>, at: T -> u64, i: nat, epoch: u64) {
    i < |schedule| && at(schedule[i]) <= epoch && (i + 1 < |schedule| ==> epoch < at(schedule[i + 1]))
  }

  predicate NoneInForce<T>(schedule: seq<T>, at: T -> u64, epoch: u64) {
    schedule == [] || epoch < at(schedule[0])
  }

  /** The version of an epoch is that of the fork in force, or genesis. */
  lemma VersionExact(spec: ChainSpec, epoch: u64, i: nat)
    requires InOrder(spec.forks, ForkEpoch)
    ensures NoneInForce(spec.forks, ForkEpoch, epoch) ==> VersionAt(spec, epoch) == spec.genesisVersion
    ensures InForce(spec.forks, ForkEpoch, i, epoch) ==> VersionAt(spec, epoch) == spec.forks[i].version
  {
    hide Started;
    var n := Started(spec.forks, epoch);
    if InForce(spec.forks, ForkEpoch, i, epoch) {
      assert n < |spec.forks| ==> ForkEpoch(spec.forks[n]) > epoch;
      assert n > i + 1 ==> ForkEpoch(spec.forks[i + 1]) > epoch;
    }
  }

  /** The blob parameters of an epoch are those in force, or Electra's own. */
  lemma {:induction false} BlobExact(spec: ChainSpec, n: nat, epoch: u64, i: nat)
    requires n <= |spec.blobs| && InOrder(spec.blobs, BlobEpoch)
    ensures NoneInForce(spec.blobs[..n], BlobEpoch, epoch) ==>
              BlobFrom(spec, n, epoch) == Blob(ElectraEpoch(spec.forks), spec.electraMaxBlobs)
    ensures InForce(spec.blobs[..n], BlobEpoch, i, epoch) ==> BlobFrom(spec, n, epoch) == spec.blobs[i]
    decreases n
  {
    if n > 0 {
      assert spec.blobs[..n][0] == spec.blobs[0] && (n > 1 ==> spec.blobs[..n - 1][0] == spec.blobs[0]);
      assert n > 1 ==> BlobEpoch(spec.blobs[0]) < BlobEpoch(spec.blobs[n - 1]);
      assert forall k :: 0 <= k < n ==> spec.blobs[..n][k] == spec.blobs[k];
      assert forall k :: 0 <= k < n - 1 ==> spec.blobs[..n - 1][k] == spec.blobs[k];
      BlobExact(spec, n - 1, epoch, i);
      assert i + 1 < n - 1 ==> BlobEpoch(spec.blobs[i + 1]) < BlobEpoch(spec.blobs[n - 1]);
    }
  }

  /** The Electra epoch is that of the first fork with Electra's version. */
  lemma {:induction false} ElectraExact(forks: seq<Fork>, i: nat)
    requires i < |forks| && forks[i].version == [5, 0, 0, 0]
    requires forall j :: 0 <= j < i ==> forks[j].version != [5, 0, 0, 0]
    ensures ElectraEpoch(forks) == forks[i].epoch
    decreases |forks|
  {
    if i > 0 {
      assert forks[0].version != [5, 0, 0, 0];
      ElectraExact(forks[1..], i - 1);
    }
  }

  /** `n` is the epoch of a scheduled fork or blob change. */
  predicate Scheduled(spec: ChainSpec, n: u64) {
    || (exists i :: 0 <= i < |spec.forks| && spec.forks[i].epoch == n)
    || (exists i :: 0 <= i < |spec.blobs| && spec.blobs[i].epoch == n)
  }

  /** The next scheduled epoch is the least one above, in either schedule; none only if there is none. */
  lemma NextExact(spec: ChainSpec, epoch: u64)
    requires InOrder(spec.forks, ForkEpoch) && InOrder(spec.blobs, BlobEpoch)
    ensures var next := NextScheduled(spec, epoch);
            && (next.Some? ==> next.value > epoch && Scheduled(spec, next.value))
            && (forall n: u64 :: Scheduled(spec, n) && n > epoch ==> next.Some? && next.value <= n)
  {
    hide NextEpoch;
    hide InOrder;
    forall n: u64 | Scheduled(spec, n) && n > epoch
      ensures NextScheduled(spec, epoch).Some? && NextScheduled(spec, epoch).value <= n
    {
      if i: nat :| i < |spec.forks| && spec.forks[i].epoch == n {
        NextIsNearest(spec.forks, ForkEpoch, epoch, i);
      } else {
        var i: nat :| i < |spec.blobs| && spec.blobs[i].epoch == n;
        NextIsNearest(spec.blobs, BlobEpoch, epoch, i);
      }
    }
  }

  /** Mainnet: Altair, Bellatrix, Capella, Deneb, Electra and Fulu at their epochs; plain digests before
      Fulu, and from then on digests mixed with the blob parameters in force. */
  lemma MainnetDigests(hashes: Hashes, epoch: u64)
    ensures VersionAt(MAINNET, epoch)
            == if epoch < 74_240 then [0, 0, 0, 0] else if epoch < 144_896 then [1, 0, 0, 0]
               else if epoch < 194_048 then [2, 0, 0, 0] else if epoch < 269_568 then [3, 0, 0, 0]
               else if epoch < 364_032 then [4, 0, 0, 0] else if epoch < 411_392 then [5, 0, 0, 0]
               else [6, 0, 0, 0]
    ensures DigestAt(hashes, MAINNET, epoch)
            == var plain := hashes.plain(VersionAt(MAINNET, epoch));
               if epoch < 411_392 then plain
               else if epoch < 412_672 then hashes.mix(plain, Blob(364_032, 9))
               else if epoch < 419_072 then hashes.mix(plain, Blob(412_672, 15))
               else hashes.mix(plain, Blob(419_072, 21))
  {
    hide Started;
    hide BlobFrom;
    hide ElectraEpoch;
    MainnetWellScheduled();
    VersionExact(MAINNET, epoch, MainnetFork(epoch));
    BlobExact(MAINNET, 2, epoch, if epoch < 419_072 then 0 else 1);
    ElectraExact(MAINNET.forks, 4);
    assert MAINNET.blobs[..2] == MAINNET.blobs;
  }

  function MainnetFork(epoch: u64): nat {
    if epoch < 144_896 then 0 else if epoch < 194_048 then 1 else if epoch < 269_568 then 2
    else if epoch < 364_032 then 3 else if epoch < 411_392 then 4 else 5
  }

  lemma {:induction false} NextIsNearest<T(!new)>(schedule: seq<T>, at: T -> u64, epoch: u64, i: nat)
    requires InOrder(schedule, at) && i < |schedule| && at(schedule[i]) > epoch
    ensures NextEpoch(schedule, at, epoch).Some? && NextEpoch(schedule, at, epoch).value <= at(schedule[i])
    decreases |schedule|
  {
    if at(schedule[0]) <= epoch { NextIsNearest(schedule[1..], at, epoch, i - 1); }
  }

  /** No scheduled change lies after `epoch` and up to `later`. */
  predicate Quiet(spec: ChainSpec, epoch: u64, later: u64) {
    epoch <= later && (NextScheduled(spec, epoch).Some? ==> later < NextScheduled(spec, epoch).value)
  }

  lemma QuietForks(spec: ChainSpec, epoch: u64, later: u64, i: nat)
    requires WellScheduled(spec) && Quiet(spec, epoch, later)
    ensures i < |spec.forks| ==> (spec.forks[i].epoch <= epoch <==> spec.forks[i].epoch <= later)
    ensures i < |spec.blobs| ==> (spec.blobs[i].epoch <= epoch <==> spec.blobs[i].epoch <= later)
  {
    hide NextEpoch;
    if i < |spec.forks| && spec.forks[i].epoch > epoch { NextIsNearest(spec.forks, ForkEpoch, epoch, i); }
    if i < |spec.blobs| && spec.blobs[i].epoch > epoch { NextIsNearest(spec.blobs, BlobEpoch, epoch, i); }
  }

  lemma {:induction false} SameBlob(spec: ChainSpec, n: nat, epoch: u64, later: u64)
    requires WellScheduled(spec) && Quiet(spec, epoch, later) && n <= |spec.blobs|
    ensures BlobFrom(spec, n, epoch) == BlobFrom(spec, n, later)
    decreases n
  {
    hide Quiet;
    if n > 0 {
      QuietForks(spec, epoch, later, n - 1);
      SameBlob(spec, n - 1, epoch, later);
    }
  }

  /** The fork digest is constant from any epoch up to its next scheduled epoch. */
  lemma DigestConstant(hashes: Hashes, spec: ChainSpec, epoch: u64, later: u64)
    requires WellScheduled(spec) && Quiet(spec, epoch, later)
    ensures VersionAt(spec, later) == VersionAt(spec, epoch)
    ensures DigestAt(hashes, spec, later) == DigestAt(hashes, spec, epoch)
  {
    hide Quiet;
    hide Started;
    hide BlobFrom;
    forall i: nat ensures i < |spec.forks| ==> (spec.forks[i].epoch <= epoch <==> spec.forks[i].epoch <= later) {
      QuietForks(spec, epoch, later, i);
    }
    var n, m := Started(spec.forks, epoch), Started(spec.forks, later);
    assert n == m;
    SameBlob(spec, |spec.blobs|, epoch, later);
  }

  // ---- Recognising a digest ----

  function PlainMatch(hashes: Hashes, forks: seq<Fork>, digest: Digest): Option<Version> {
    if forks == [] then None
    else if digest == hashes.plain(forks[0].version) then Some(forks[0].version)
    else PlainMatch(hashes, forks[1..], digest)
  }

  function ForkMatch(hashes: Hashes, spec: ChainSpec, forks: seq<Fork>, digest: Digest): Option<Version> {
    if forks == [] then None
    else if digest == DigestAt(hashes, spec, forks[0].epoch) then Some(forks[0].version)
    else ForkMatch(hashes, spec, forks[1..], digest)
  }

  function BlobMatch(hashes: Hashes, spec: ChainSpec, blobs: seq<Blob>, digest: Digest): Option<Version> {
    if blobs == [] then None
    else if digest == DigestAt(hashes, spec, blobs[0].epoch) then Some(VersionAt(spec, blobs[0].epoch))
    else BlobMatch(hashes, spec, blobs[1..], digest)
  }

  function VersionForDigest(hashes: Hashes, spec: ChainSpec, digest: Digest): Option<Version> {
    if digest == hashes.plain(spec.genesisVersion) then Some(spec.genesisVersion)
    else
      var plain := PlainMatch(hashes, spec.forks, digest);
      if plain.Some? then plain
      else if digest == DigestAt(hashes, spec, 0) then Some(VersionAt(spec, 0))
      else
        var byFork := ForkMatch(hashes, spec, spec.forks, digest);
        if byFork.Some? then byFork else BlobMatch(hashes, spec, spec.blobs, digest)
  }

  /** No two versions of the chain share a digest, plain or mixed. */
  ghost predicate Unambiguous(hashes: Hashes, spec: ChainSpec) {
    && (forall e: u64 :: hashes.plain(spec.genesisVersion) == DigestAt(hashes, spec, e) ==>
          VersionAt(spec, e) == spec.genesisVersion)
    && (forall i: nat, e: u64 | i < |spec.forks| ::
          hashes.plain(spec.forks[i].version) == DigestAt(hashes, spec, e) ==>
          VersionAt(spec, e) == spec.forks[i].version)
    && (forall a: u64, b: u64 :: DigestAt(hashes, spec, a) == DigestAt(hashes, spec, b) ==>
          VersionAt(spec, a) == VersionAt(spec, b))
  }

  lemma {:induction false} PlainMatchIs(hashes: Hashes, forks: seq<Fork>, digest: Digest)
    ensures var r := PlainMatch(hashes, forks, digest);
            r.Some? ==> exists i :: 0 <= i < |forks| && forks[i].version == r.value && hashes.plain(r.value) == digest
    decreases |forks|
  {
    if forks != [] && digest != hashes.plain(forks[0].version) {
      PlainMatchIs(hashes, forks[1..], digest);
      var r := PlainMatch(hashes, forks[1..], digest);
      if r.Some? {
        var i :| 0 <= i < |forks[1..]| && forks[1..][i].version == r.value;
        assert forks[i + 1].version == r.value;
      }
    }
  }

  /** In an ordered schedule exactly the forks up to `i` have started when fork `i` starts. */
  lemma {:induction false} StartedAt(forks: seq<Fork>, i: nat)
    requires InOrder(forks, ForkEpoch) && i < |forks|
    ensures Started(forks, forks[i].epoch) == i + 1
    decreases |forks|
  {
    if i > 0 {
      StartedAt(forks[1..], i - 1);
    } else if |forks| > 1 {
      assert forks[1..][0].epoch > forks[0].epoch;
    }
  }

  lemma ForkStarts(spec: ChainSpec, i: nat)
    requires InOrder(spec.forks, ForkEpoch) && i < |spec.forks|
    ensures VersionAt(spec, spec.forks[i].epoch) == spec.forks[i].version
  {
    StartedAt(spec.forks, i);
  }

  /** A fork match names the version of the epoch it matched, and a digest at a fork's epoch matches. */
  lemma {:induction false} ForkMatchIs(hashes: Hashes, spec: ChainSpec, k: nat, digest: Digest)
    requires InOrder(spec.forks, ForkEpoch) && k <= |spec.forks|
    ensures var r := ForkMatch(hashes, spec, spec.forks[k..], digest);
            && (r.Some? ==> exists e: u64 :: DigestAt(hashes, spec, e) == digest && VersionAt(spec, e) == r.value)
            && (forall i :: k <= i < |spec.forks| && DigestAt(hashes, spec, spec.forks[i].epoch) == digest ==> r.Some?)
    decreases |spec.forks| - k
  {
    hide DigestAt;
    hide VersionAt;
    if k < |spec.forks| {
      assert spec.forks[k..][1..] == spec.forks[k + 1..];
      ForkMatchIs(hashes, spec, k + 1, digest);
      ForkStarts(spec, k);
    }
  }

  lemma {:induction false} BlobMatchIs(hashes: Hashes, spec: ChainSpec, k: nat, digest: Digest)
    requires k <= |spec.blobs|
    ensures var r := BlobMatch(hashes, spec, spec.blobs[k..], digest);
            && (r.Some? ==> exists e: u64 :: DigestAt(hashes, spec, e) == digest && VersionAt(spec, e) == r.value)
            && (forall i :: k <= i < |spec.blobs| && DigestAt(hashes, spec, spec.blobs[i].epoch) == digest ==> r.Some?)
    decreases |spec.blobs| - k
  {
    hide DigestAt;
    hide VersionAt;
    if k < |spec.blobs| {
      assert spec.blobs[k..][1..] == spec.blobs[k + 1..];
      BlobMatchIs(hashes, spec, k + 1, digest);
    }
  }

  /** The last scheduled epoch at or before `epoch`, or zero. */
  lemma LastChange(spec: ChainSpec, epoch: u64) returns (start: u64)
    requires WellScheduled(spec)
    ensures Quiet(spec, start, epoch)
    ensures || start == 0
            || (exists i :: 0 <= i < |spec.forks| && spec.forks[i].epoch == start)
            || (exists i :: 0 <= i < |spec.blobs| && spec.blobs[i].epoch == start)
  {
    start := 0;
    while NextScheduled(spec, start).Some? && NextScheduled(spec, start).value <= epoch
      invariant start <= epoch
      invariant || start == 0
                || (exists i :: 0 <= i < |spec.forks| && spec.forks[i].epoch == start)
                || (exists i :: 0 <= i < |spec.blobs| && spec.blobs[i].epoch == start)
      decreases epoch - start
    {
      start := NextScheduled(spec, start).value;
    }
  }

  /** The digest of any epoch is recognised as the version of that epoch. */
  lemma DigestIdentifiesVersion(hashes: Hashes, spec: ChainSpec, epoch: u64)
    requires WellScheduled(spec) && Unambiguous(hashes, spec)
    ensures VersionForDigest(hashes, spec, DigestAt(hashes, spec, epoch)) == Some(VersionAt(spec, epoch))
  {
    hide DigestAt;
    hide VersionAt;
    hide Quiet;
    hide PlainMatch;
    hide ForkMatch;
    hide BlobMatch;
    var digest := DigestAt(hashes, spec, epoch);
    var start := LastChange(spec, epoch);
    DigestConstant(hashes, spec, start, epoch);
    PlainMatchIs(hashes, spec.forks, digest);
    assert spec.forks[0..] == spec.forks && spec.blobs[0..] == spec.blobs;
    ForkMatchIs(hashes, spec, 0, digest);
    BlobMatchIs(hashes, spec, 0, digest);
  }
}
