/** Which verified stores a client feeds to its consensus store: those its own light-client run
    went through. They pass the replay checks, so the journal they are appended to opens. */
module ConsensusSession {
  import opened Bytes
  import opened ConsensusState
  import opened LightClient
  import opened LightClientRuns

  /** Store-carrying deltas hold a store of the run from `start`: the first one or a later one. */
  ghost predicate FromRun(crypto: Crypto, start: Store, events: seq<Event>, d: Delta) {
    match d
    case Bootstrap(v) => v.light == start
    case VerifiedPatch(v) => exists k: nat :: k <= |events| && v.light == Run(crypto, start, events[..k])
    case _ => true
  }

  /** The first store-carrying delta is a bootstrap. */
  predicate BootstrapFirst(deltas: seq<Delta>) {
    deltas == [] || deltas[0].Bootstrap? || (!deltas[0].VerifiedPatch? && BootstrapFirst(deltas[1..]))
  }

  /** Each delta is valid and accepted by the snapshot it meets. */
  predicate AllAccepted(rules: Rules, s: Snapshot, deltas: seq<Delta>)
    decreases |deltas|
  {
    deltas == []
    || (&& DeltaValid(deltas[0]) && StoreAccepted(rules, s, deltas[0])
        && AllAccepted(rules, Apply(s, deltas[0]).value, deltas[1..]))
  }

  lemma RunStoreAccepted(
    rules: Rules, bootstrap: LightClient.Bootstrap, trusted: TrustedCheckpoint, events: seq<Event>, s: Snapshot,
    d: Delta)
    requires rules.root == trusted.root && VerifyBootstrap(rules.crypto, bootstrap, trusted).Success?
    requires CommitteeSized(bootstrap.committee)
    requires FromRun(rules.crypto, VerifyBootstrap(rules.crypto, bootstrap, trusted).value, events, d)
    requires d.VerifiedPatch? ==> s.checkpointSlot == Some(bootstrap.header.slot)
    ensures StoreAccepted(rules, s, d)
  {
    hide PersistedStateOk;
    var start := VerifyBootstrap(rules.crypto, bootstrap, trusted).value;
    if d.Bootstrap? {
      ReachableStoresReopen(rules.crypto, bootstrap, trusted, []);
    } else if d.VerifiedPatch? {
      var k: nat :| k <= |events| && d.store.light == Run(rules.crypto, start, events[..k]);
      ReachableStoresReopen(rules.crypto, bootstrap, trusted, events[..k]);
    }
  }

  lemma SlotAfter(s: Snapshot, d: Delta)
    requires DeltaValid(d)
    ensures Apply(s, d).value.checkpointSlot == if d.Bootstrap? then Some(d.store.BootstrapSlot()) else s.checkpointSlot
  {
  }

  /** Every delta of a session that follows the protocol is accepted: a verified bootstrap before any
      later store, stores of one run only, and any anchor changes in between. */
  lemma {:induction false} SessionAccepted(
    rules: Rules, bootstrap: LightClient.Bootstrap, trusted: TrustedCheckpoint, events: seq<Event>, s: Snapshot,
    deltas: seq<Delta>)
    requires rules.root == trusted.root && VerifyBootstrap(rules.crypto, bootstrap, trusted).Success?
    requires CommitteeSized(bootstrap.committee)
    requires forall i :: 0 <= i < |deltas| ==>
               && DeltaValid(deltas[i])
               && FromRun(rules.crypto, VerifyBootstrap(rules.crypto, bootstrap, trusted).value, events, deltas[i])
    requires s.checkpointSlot == Some(bootstrap.header.slot) || BootstrapFirst(deltas)
    ensures AllAccepted(rules, s, deltas)
    decreases |deltas|
  {
    hide StoreAccepted;
    hide Apply;
    hide DeltaValid;
    if deltas != [] {
      var start := VerifyBootstrap(rules.crypto, bootstrap, trusted).value;
      assert FromRun(rules.crypto, start, events, deltas[0]);
      assert start.bootstrapSlot == bootstrap.header.slot;
      hide FromRun;
      RunStoreAccepted(rules, bootstrap, trusted, events, s, deltas[0]);
      SlotAfter(s, deltas[0]);
      assert deltas[0].Bootstrap? ==> deltas[0].store.light == start by {
        BootstrapOf(rules.crypto, start, events, deltas[0]);
      }
      ApplySome(s, deltas[0]);
      SessionAccepted(rules, bootstrap, trusted, events, Apply(s, deltas[0]).value, deltas[1..]);
    }
  }

  lemma BootstrapOf(crypto: Crypto, start: Store, events: seq<Event>, d: Delta)
    requires FromRun(crypto, start, events, d)
    ensures d.Bootstrap? ==> d.store.light == start
  {
  }

  lemma ApplySome(s: Snapshot, d: Delta)
    requires DeltaValid(d)
    ensures Apply(s, d).Some?
  {
  }
}
