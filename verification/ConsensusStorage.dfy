/** The consensus store: a published snapshot in memory over the journal on disk, with a
    latch that stops every later mutation after the first uncertain write. */
module ConsensusStorage {
  import opened Bytes
  import opened JournalFormat
  import opened DiskModel
  import opened JournalSafety
  import opened JournalWriter
  import opened Anchors
  import opened ConsensusState

  /** JSON round-trips, and the journal restores and replays as the snapshot code does. */
  ghost predicate Lawful(codec: Codec<Snapshot, Delta>, rules: Rules) {
    && (forall s: Snapshot :: codec.decodeSnapshot(codec.encodeSnapshot(s)) == Some(s))
    && (forall d: Delta :: codec.decodeDelta(codec.encodeDelta(d)) == Some(d))
    && (forall s: Snapshot :: codec.restore(s) == Restore(rules, s))
    && (forall s: Snapshot, d: Delta :: codec.replay(s, d) == ApplyReplayed(rules, s, d))
  }

  /** A checkpoint of a normal snapshot reopens to that snapshot. */
  lemma CheckpointReopens(codec: Codec<Snapshot, Delta>, rules: Rules, s: Snapshot)
    requires Lawful(codec, rules) && Normal(rules, s)
    ensures CheckpointOutcome(codec, s) == Some(s)
  {
    RestoreIsNormal(rules, s);
  }

  /** An appended valid delta reopens to the snapshot it produces, except that a store refused by
      the replay checks leaves a journal that does not open at all. */
  lemma AppendReopens(
    codec: Codec<Snapshot, Delta>, rules: Rules, d: Disk, outcomes: set<Option<Snapshot>>, s: Snapshot, delta: Delta)
    requires Lawful(codec, rules) && Normal(rules, s) && DeltaValid(delta)
    requires Safe(codec, d, outcomes) && StateAt(codec, d, CurrentFrontier(codec, d)) == Some(s)
    ensures AppendOutcome(codec, d, delta) == if StoreAccepted(rules, s, delta) then Apply(s, delta) else None
    ensures AppendOutcome(codec, d, delta).None? <==> !StoreAccepted(rules, s, delta)
  {
    hide Safe;
    hide StateAt;
    CheckpointMatchesReplay(rules, s, delta);
  }

  /** Replaying committed deltas keeps the snapshot normal, whatever the deltas are. */
  lemma {:induction false} ReplayKeepsNormal(
    codec: Codec<Snapshot, Delta>, rules: Rules, f: Frontier, cursor: Cursor<Snapshot>, rest: bytes)
    requires Lawful(codec, rules) && Normal(rules, cursor.state)
    ensures var final := Replay(codec, f, cursor, rest); final.Some? ==> Normal(rules, final.value.state)
    decreases |rest|
  {
    hide Normal;
    hide FrameDigest;
    hide FrameHead;
    if rest != [] {
      var next := ReplayFrame(codec, f, cursor, rest);
      if next.Some? {
        var len := FramePayloadLen(f, cursor, rest).value;
        var delta := codec.decodeDelta(rest[104..104 + len]).value;
        ApplyKeepsNormal(rules, cursor.state, delta);
        ReplayKeepsNormal(codec, rules, f, next.value, rest[FRAME_OVERHEAD + len..]);
      }
    }
  }

  /** Whatever bytes a disk holds, an open that succeeds yields a normal snapshot. */
  lemma RecoveredIsNormal(codec: Codec<Snapshot, Delta>, rules: Rules, d: Disk)
    requires Lawful(codec, rules)
    ensures Recover(codec, d).Some? ==> Normal(rules, Recover(codec, d).value)
  {
    hide Normal;
    hide Replay;
    hide SnapshotPayload;
    hide DecodeFrontier;
    if Recover(codec, d).Some? {
      var f := DecodeFrontier(codec.sha, Read(d, CurrentName).value).value;
      var checkpoint := Read(d, CheckpointName(f.generation)).value;
      var journal := Read(d, JournalName(f.generation)).value;
      var snapshot := codec.decodeSnapshot(SnapshotPayload(codec.sha, checkpoint).value.0).value;
      RestoreIsNormal(rules, snapshot);
      ReplayKeepsNormal(codec, rules, f, StartCursor(codec.sha, f, Restore(rules, snapshot).value),
        journal[JOURNAL_HEADER_LEN..f.end]);
    }
  }

  lemma CommittedSafe<S, D>(codec: Codec<S, D>, d: Disk, outcomes: set<Option<S>>, f: Frontier)
    requires Safe(codec, d, outcomes) && Committed(codec, d, f)
    ensures Safe(codec, d, {StateAt(codec, d, f)}) && BoundaryOk(f)
    ensures CurrentFrontier(codec, d) == f && Recover(codec, d) == StateAt(codec, d, f)
  {
    SettledSafe(codec, d, EntryOf(d, CurrentName).current);
  }

  lemma MoreOutcomes<S, D>(codec: Codec<S, D>, d: Disk, few: set<Option<S>>, many: set<Option<S>>)
    requires Safe(codec, d, few) && few <= many
    ensures Safe(codec, d, many)
  {
    forall t | t in EntryOf(d, CurrentName).possible
      ensures TargetSafe(codec, d, t, many, CurrentFrontier(codec, d))
    {
      assert TargetSafe(codec, d, t, few, CurrentFrontier(codec, d));
    }
  }

  /** Everything the writer needs before it starts on `delta`; `durable` is what it will leave. */
  lemma ReadyToWrite(
    codec: Codec<Snapshot, Delta>, rules: Rules, d: Disk, outcomes: set<Option<Snapshot>>, s: Snapshot, delta: Delta)
    requires Lawful(codec, rules) && Normal(rules, s) && DeltaValid(delta)
    requires Safe(codec, d, outcomes) && StateAt(codec, d, CurrentFrontier(codec, d)) == Some(s)
    ensures var durable := ApplyReplayed(rules, s, delta);
            && Summarized(s) && Apply(s, delta).Some?
            && Safe(codec, d, outcomes + {durable})
            && AppendOutcome(codec, d, delta) == durable
            && CheckpointOutcome(codec, Apply(s, delta).value) == durable
    ensures StoreAccepted(rules, s, delta) ==>
              ApplyReplayed(rules, s, delta) == Apply(s, delta) && Normal(rules, Apply(s, delta).value)
  {
    assert Summarized(s);
    assert CheckpointOutcome(codec, Apply(s, delta).value) == Restore(rules, Apply(s, delta).value);
    hide Safe;
    hide StateAt;
    hide Normal;
    CheckpointMatchesReplay(rules, s, delta);
    if StoreAccepted(rules, s, delta) { ApplyKeepsNormal(rules, s, delta); }
    AppendReopens(codec, rules, d, outcomes, s, delta);
    MoreOutcomes(codec, d, outcomes, outcomes + {ApplyReplayed(rules, s, delta)});
  }

  /** What the caller's preparation under the writer lock decided. */
  datatype Prepared = Rejected | Unchanged | Proposed(delta: Delta)

  datatype UpdateResult = Applied | NoChange | Refused | InvalidMutation | Unavailable | PersistFailed

  class ConsensusStore {
    const rules: Rules
    const codec: Codec<Snapshot, Delta>
    const storage: Storage
    const journal: Journal<Snapshot, Delta>
    const inner: SnapshotCell
    var failed: bool
    /** What else a reopen may yield: writes in doubt, and CURRENTs that were not settled at open. */
    ghost var doubt: set<Option<Snapshot>>

    ghost predicate Valid()
      reads this, storage, journal, inner
    {
      && journal.storage == storage && journal.codec == codec
      && Lawful(codec, rules)
      && storage.Valid() && BoundaryOk(journal.frontier)
      && Normal(rules, inner.View())
      && Safe(codec, storage.disk, Outcomes())
      && (!failed ==> Published())
    }

    /** CURRENT, as it reads now, is the writer's frontier and denotes the published snapshot. */
    ghost predicate Published()
      requires Sound(codec.sha, storage.disk, EntryOf(storage.disk, CurrentName).current)
      reads this, storage, journal, inner
    {
      && CurrentFrontier(codec, storage.disk) == journal.frontier
      && StateAt(codec, storage.disk, journal.frontier) == Some(inner.View())
    }

    /** Everything a reopen may yield. */
    ghost function Outcomes(): set<Option<Snapshot>>
      reads this, inner
    {
      {Some(inner.View())} + doubt
    }

    constructor (
      rules: Rules, codec: Codec<Snapshot, Delta>, storage: Storage, frontier: Frontier, snapshot: Snapshot,
      ghost outcomes: set<Option<Snapshot>>)
      requires Lawful(codec, rules) && storage.Valid() && BoundaryOk(frontier)
      requires Normal(rules, snapshot) && Safe(codec, storage.disk, outcomes) && Some(snapshot) in outcomes
      requires CurrentFrontier(codec, storage.disk) == frontier
      requires StateAt(codec, storage.disk, frontier) == Some(snapshot)
      ensures Valid() && !failed && inner.View() == snapshot && doubt == outcomes - {Some(snapshot)}
      ensures this.storage == storage && this.codec == codec && fresh(journal) && fresh(inner)
    {
      hide Lawful;
      hide Normal;
      hide WellFormed;
      hide StateAt;
      this.rules, this.codec, this.storage := rules, codec, storage;
      var j := new Journal(codec, storage, frontier);
      var cell := new SnapshotCell(snapshot);
      this.journal, this.inner := j, cell;
      failed, doubt := false, outcomes - {Some(snapshot)};
      new;
      assert Outcomes() == outcomes;
    }

    /** A reopen, crash or not, gives the published snapshot or one of those in doubt; with nothing
        in doubt it gives the published snapshot. */
    lemma ReopenGivesPublished(e: Disk)
      requires Valid() && (e == storage.disk || CrashTo(storage.disk, e))
      ensures Recover(codec, e) == Some(inner.View()) || Recover(codec, e) in doubt
      ensures doubt == {} ==> Recover(codec, e) == Some(inner.View())
    {
      hide Safe;
      hide Lawful;
      hide Recover;
      AllSafeRecovers(codec, [storage.disk], 0, Outcomes(), 0, e);
    }

    /** The write that this delta needs stays within 64 bits and, for a checkpoint, has a fresh directory. */
    ghost predicate Room(delta: Delta, g: Generation)
      requires BoundaryOk(journal.frontier) && Apply(inner.View(), delta).Some?
      reads this, storage, journal, inner
    {
      if journal.CheckpointDue() then Creatable(codec, storage.disk, g, Apply(inner.View(), delta).value)
      else Extensible(journal.frontier, codec.encodeDelta(delta))
    }

    /** Run one prepared mutation. */
    method UpdateIf(prepared: Prepared, g: Generation) returns (r: UpdateResult)
      requires Valid()
      modifies this, storage, journal, inner
      ensures || Valid()
              || (r == Applied && prepared.Proposed? && !StoreAccepted(rules, old(inner.View()), prepared.delta))
      ensures r == Applied ==> prepared.Proposed? && Written(old(inner.View()), prepared.delta)
      ensures r == NoChange <==> !old(failed) && prepared == Unchanged
      ensures r == Refused <==> !old(failed) && prepared == Rejected
      ensures r == InvalidMutation <==> !old(failed) && prepared.Proposed? && !DeltaValid(prepared.delta)
      ensures old(failed) <==> r == Unavailable
      ensures r != Applied ==> inner.View() == old(inner.View())
      ensures r == PersistFailed ==>
                && prepared.Proposed? && failed
                && doubt == old(doubt) + {ApplyReplayed(rules, inner.View(), prepared.delta)}
      ensures r != PersistFailed ==> failed == old(failed)
      ensures r != Applied && r != PersistFailed ==>
                storage.disk == old(storage.disk) && storage.trace == old(storage.trace) && doubt == old(doubt)
      ensures old(storage.trace) <= storage.trace && old(storage.faults) <= storage.faults
      ensures prepared.Proposed? ==>
                AllSafe(codec, storage.trace, |old(storage.trace)|,
                        old(Outcomes()) + {ApplyReplayed(rules, old(inner.View()), prepared.delta)})
      ensures (&& !old(failed) && prepared.Proposed? && DeltaValid(prepared.delta)
               && storage.faults == old(storage.faults) && old(Room(prepared.delta, g))) ==> r == Applied
      ensures r == Applied ==>
                var before, after := old(journal.frontier), journal.frontier;
                var size := |codec.encodeDelta(prepared.delta)|;
                && after.end - 104 < Max(after.checkpoint.encodedLen, 1_048_576) + 136 + size
                && (if before.end - 104 >= Max(before.checkpoint.encodedLen, 1_048_576)
                    then Emptied(before, after, g, |codec.encodeSnapshot(inner.View())|)
                    else Grown(before, after, size))
    {
      hide Safe;
      hide Lawful;
      hide Normal;
      hide Recomputed;
      hide StoreAccepted;
      hide Published;
      hide Committed;
      hide Recover;
      if failed { return Unavailable; }
      match prepared {
        case Rejected => return Refused;
        case Unchanged => return NoChange;
        case Proposed(delta) =>
          if !DeltaValid(delta) { return InvalidMutation; }
          if journal.CheckpointDue() {
            r := UpdateByCheckpoint(delta, g);
          } else {
            r := UpdateByAppend(delta);
          }
      }
    }

    /** The state after a successful write of `delta` over the snapshot `before`: memory has the delta
        applied, nothing is in doubt, and the disk is settled on what replaying the delta gives. */
    ghost predicate Written(before: Snapshot, delta: Delta)
      reads this, storage, journal, inner
    {
      && !failed && doubt == {} && Some(inner.View()) == Apply(before, delta)
      && Committed(codec, storage.disk, journal.frontier)
      && Recover(codec, storage.disk) == ApplyReplayed(rules, before, delta)
      && Safe(codec, storage.disk, {ApplyReplayed(rules, before, delta)})
    }

    /** A failed write leaves the published snapshot alone and latches the store. */
    method Latch(ghost candidate: set<Option<Snapshot>>)
      requires journal.storage == storage && journal.codec == codec
      requires Lawful(codec, rules) && storage.Valid() && BoundaryOk(journal.frontier)
      requires Normal(rules, inner.View())
      requires Safe(codec, storage.disk, Outcomes() + candidate)
      modifies this
      ensures Valid() && failed && doubt == old(doubt) + candidate
    {
      hide Safe;
      hide Lawful;
      hide Normal;
      failed, doubt := true, doubt + candidate;
      assert Outcomes() == old(Outcomes()) + candidate;
    }

    method UpdateByAppend(delta: Delta) returns (r: UpdateResult)
      requires Valid() && !failed && DeltaValid(delta)
      modifies this, storage, journal, inner
      ensures r == Applied || r == PersistFailed
      ensures r == Applied ==> Written(old(inner.View()), delta)
      ensures r == PersistFailed || StoreAccepted(rules, old(inner.View()), delta) ==> Valid()
      ensures r == PersistFailed ==>
                && inner.View() == old(inner.View()) && failed
                && doubt == old(doubt) + {ApplyReplayed(rules, inner.View(), delta)}
      ensures old(storage.trace) <= storage.trace && old(storage.faults) <= storage.faults
      ensures AllSafe(codec, storage.trace, |old(storage.trace)|,
                      old(Outcomes()) + {ApplyReplayed(rules, old(inner.View()), delta)})
      ensures storage.faults == old(storage.faults) && Extensible(old(journal.frontier), codec.encodeDelta(delta)) ==>
                r == Applied
      ensures r == Applied ==> Grown(old(journal.frontier), journal.frontier, |codec.encodeDelta(delta)|)
    {
      hide Safe;
      hide Lawful;
      hide Apply;
      hide ApplyReplayed;
      hide StoreAccepted;
      hide Normal;
      hide Summarized;
      hide DeltaValid;
      hide AppendOutcome;
      hide CheckpointOutcome;
      hide StateAt;
      hide Recover;
      hide WellFormed;
      hide Committed;
      ghost var before := inner.View();
      ghost var durable := ApplyReplayed(rules, before, delta);
      ghost var outcomes := Outcomes() + {durable};
      ReadyToWrite(codec, rules, storage.disk, Outcomes(), before, delta);
      var ok := journal.Append(delta, outcomes);
      if !ok {
        Latch({durable});
        return PersistFailed;
      }
      CommittedSafe(codec, storage.disk, outcomes, journal.frontier);
      ok := inner.ApplyDelta(delta);
      doubt := {};
      assert Outcomes() == {Some(inner.View())};
      r := Applied;
    }

    method UpdateByCheckpoint(delta: Delta, g: Generation) returns (r: UpdateResult)
      requires Valid() && !failed && DeltaValid(delta)
      modifies this, storage, journal, inner
      ensures r == Applied || r == PersistFailed
      ensures r == Applied ==> Written(old(inner.View()), delta)
      ensures r == PersistFailed || StoreAccepted(rules, old(inner.View()), delta) ==> Valid()
      ensures r == PersistFailed ==>
                && inner.View() == old(inner.View()) && failed
                && doubt == old(doubt) + {ApplyReplayed(rules, inner.View(), delta)}
      ensures old(storage.trace) <= storage.trace && old(storage.faults) <= storage.faults
      ensures AllSafe(codec, storage.trace, |old(storage.trace)|,
                      old(Outcomes()) + {ApplyReplayed(rules, old(inner.View()), delta)})
      ensures Apply(old(inner.View()), delta).Some?
      ensures (&& storage.faults == old(storage.faults)
               && Creatable(codec, old(storage.disk), g, Apply(old(inner.View()), delta).value)) ==> r == Applied
      ensures r == Applied ==>
                Emptied(old(journal.frontier), journal.frontier, g, |codec.encodeSnapshot(inner.View())|)
    {
      hide Safe;
      hide Lawful;
      hide Apply;
      hide ApplyReplayed;
      hide StoreAccepted;
      hide Normal;
      hide Summarized;
      hide DeltaValid;
      hide AppendOutcome;
      hide CheckpointOutcome;
      hide StateAt;
      hide Recover;
      hide WellFormed;
      hide Committed;
      ghost var before := inner.View();
      ghost var durable := ApplyReplayed(rules, before, delta);
      ghost var outcomes := Outcomes() + {durable};
      ReadyToWrite(codec, rules, storage.disk, Outcomes(), before, delta);
      var candidate := new SnapshotCell(inner.View());
      var applied := candidate.ApplyDelta(delta);
      var ok := journal.Checkpoint(g, candidate.View(), outcomes);
      if !ok {
        Latch({durable});
        return PersistFailed;
      }
      CommittedSafe(codec, storage.disk, outcomes, journal.frontier);
      inner.Set(candidate.View());
      doubt := {};
      assert Outcomes() == {Some(inner.View())};
      r := Applied;
    }

    /** Write the published snapshot as a checkpoint; success leaves nothing in doubt. */
    method Persist(g: Generation) returns (r: UpdateResult)
      requires Valid()
      modifies this, storage, journal
      ensures Valid() && inner.View() == old(inner.View())
      ensures r == Applied || r == Unavailable || r == PersistFailed
      ensures r == Unavailable <==> old(failed)
      ensures failed <==> r != Applied
      ensures doubt == if r == Applied then {} else old(doubt)
      ensures r == Applied ==> Committed(codec, storage.disk, journal.frontier)
      ensures old(failed) ==> storage.disk == old(storage.disk) && storage.trace == old(storage.trace)
      ensures old(storage.trace) <= storage.trace && old(storage.faults) <= storage.faults
      ensures AllSafe(codec, storage.trace, |old(storage.trace)|, old(Outcomes()))
      ensures (&& !old(failed) && storage.faults == old(storage.faults)
               && old(Creatable(codec, storage.disk, g, inner.View()))) ==> r == Applied
    {
      hide Safe;
      hide Lawful;
      hide Normal;
      hide CheckpointOutcome;
      hide StateAt;
      hide Recover;
      hide WellFormed;
      hide Committed;
      if failed { return Unavailable; }
      CheckpointReopens(codec, rules, inner.View());
      ghost var outcomes := Outcomes();
      var ok := journal.Checkpoint(g, inner.View(), outcomes);
      if !ok {
        assert outcomes + {} == outcomes;
        Latch({});
        return PersistFailed;
      }
      CommittedSafe(codec, storage.disk, outcomes, journal.frontier);
      doubt := {};
      assert Outcomes() == {Some(inner.View())};
      r := Applied;
    }

    /** Replace a range of anchors, reporting the released roots only once the change is published. */
    method ReplaceAnchorRange(start: u64, end: u64, anchors: seq<Record>, g: Generation)
      returns (r: UpdateResult, replaced: seq<B256>, ghost normalized: seq<Record>)
      requires Valid()
      modifies this, storage, journal, inner
      ensures Valid()
      ensures Sorted(normalized) && SameMap(normalized, anchors)
      ensures r == Applied || r == NoChange ==>
                && inner.ordered == ReplacedRange(old(inner.ordered), start, end, normalized)
                && Distinct(replaced)
                && (set root | root in replaced)
                   == ChangedRoots(old(inner.ordered), inner.ordered, 0, |old(inner.ordered)|)
      ensures r != Applied && r != NoChange ==> replaced == [] && inner.View() == old(inner.View())
    {
      hide Safe;
      hide Lawful;
      hide SameMap;
      hide ReplacedRange;
      hide ChangedRoots;
      hide Distinct;
      hide Published;
      hide Committed;
      hide Recover;
      var incoming := Normalize(anchors);
      normalized := incoming;
      var delta;
      delta, replaced := PrepareReplaceRange(inner.ordered, start, end, incoming);
      var prepared := if delta.None? then Unchanged else Proposed(delta.value);
      r := UpdateIf(prepared, g);
      if r != Applied && r != NoChange {
        replaced := [];
      }
    }
  }

  /** Open a store over any safe disk: it publishes what CURRENT reads as now, and carries in doubt
      what a crash may still reveal instead. Nothing is in doubt exactly when every possible CURRENT
      denotes that one state. */
  method OpenStore(rules: Rules, codec: Codec<Snapshot, Delta>, storage: Storage, ghost outcomes: set<Option<Snapshot>>)
    returns (r: Option<ConsensusStore>)
    requires Lawful(codec, rules) && storage.Valid() && Safe(codec, storage.disk, outcomes)
    ensures r.Some? <==> Recover(codec, storage.disk).Some?
    ensures r.Some? ==>
              && fresh(r.value) && r.value.storage == storage
              && r.value.Valid() && !r.value.failed && r.value.doubt <= outcomes
              && Some(r.value.inner.View()) == Recover(codec, storage.disk)
              && (r.value.doubt == {} <==> OneState(codec, storage.disk, outcomes))
  {
    hide Lawful;
    hide OneState;
    hide StateAt;
    RecoverIsCurrent(codec, storage.disk, outcomes);
    CurrentReads(codec, storage.disk, outcomes);
    ReopenIsStable(codec, storage.disk, outcomes);
    hide Safe;
    hide Recover;
    var found := Journal<Snapshot, Delta>.Open(codec, storage);
    if found.None? { return None; }
    var (frontier, snapshot) := found.value;
    RecoveredIsNormal(codec, rules, storage.disk);
    ghost var kept := if OneState(codec, storage.disk, outcomes) then {Some(snapshot)} else outcomes;
    assert OneState(codec, storage.disk, outcomes) || outcomes != {Some(snapshot)};
    var store := new ConsensusStore(rules, codec, storage, frontier, snapshot, kept);
    r := Some(store);
  }
}
