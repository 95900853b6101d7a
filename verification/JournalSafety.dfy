/** What makes a disk safe to lose power on: every binding CURRENT may turn out to have
    names a complete, stable generation. Each storage operation is shown to keep this. */
module JournalSafety {
  import opened Bytes
  import opened JournalFormat
  import opened DiskModel

  /** Opening a disk as it is: CURRENT, its generation, the checkpoint, the committed frames. */
  function Recover<S, D>(codec: Codec<S, D>, d: Disk): Option<S> {
    var current := Read(d, CurrentName);
    if current.None? then None
    else
      var f := DecodeFrontier(codec.sha, current.value);
      if f.None? || EntryOf(d, GenerationDir(f.value.generation)).current != Subdirectory then None
      else StateAt(codec, d, f.value)
  }

  function StateAt<S, D>(codec: Codec<S, D>, d: Disk, f: Frontier): Option<S> {
    var checkpoint := Read(d, CheckpointName(f.generation));
    var journal := Read(d, JournalName(f.generation));
    if checkpoint.None? || journal.None? then None
    else Opened(codec, f, checkpoint.value, journal.value)
  }

  ghost predicate Fixed(d: Disk, name: Name, target: Target) {
    EntryOf(d, name) == Entry(target, {target})
  }

  function FileIdOf(d: Disk, name: Name): FileId
    requires EntryOf(d, name).current.FileRef?
  {
    EntryOf(d, name).current.id
  }

  /** The name is bound to one file for good. */
  ghost predicate Settled(d: Disk, name: Name) {
    && EntryOf(d, name).current.FileRef?
    && Fixed(d, name, EntryOf(d, name).current)
    && FileIdOf(d, name) in d.files
  }

  /** The generation a frontier names is complete on disk, and its committed bytes are stable. */
  ghost predicate GenerationComplete(d: Disk, f: Frontier) {
    var g := f.generation;
    && Fixed(d, GenerationDir(g), Subdirectory)
    && Settled(d, CheckpointName(g)) && !d.files[FileIdOf(d, CheckpointName(g))].dirty
    && Settled(d, JournalName(g)) && f.end <= d.files[FileIdOf(d, JournalName(g))].StableLen()
  }

  ghost predicate NamesFrontier(sha: bytes -> B256, d: Disk, target: Target) {
    && target.FileRef? && target.id in d.files
    && !d.files[target.id].dirty
    && DecodeFrontier(sha, d.files[target.id].content).Some?
  }

  function FrontierAt(sha: bytes -> B256, d: Disk, target: Target): Frontier
    requires target.FileRef? && target.id in d.files
    requires DecodeFrontier(sha, d.files[target.id].content).Some?
  {
    DecodeFrontier(sha, d.files[target.id].content).value
  }

  ghost predicate Sound(sha: bytes -> B256, d: Disk, target: Target) {
    NamesFrontier(sha, d, target) && GenerationComplete(d, FrontierAt(sha, d, target))
  }

  /** Every possible CURRENT is sound, recovers to one of `outcomes`, and is no newer than
      the CURRENT visible now. */
  ghost predicate Safe<S, D>(codec: Codec<S, D>, d: Disk, outcomes: set<Option<S>>) {
    && WellFormed(d)
    && Sound(codec.sha, d, EntryOf(d, CurrentName).current)
    && AllTargets(codec, d, outcomes, CurrentFrontier(codec, d))
  }

  ghost predicate AllTargets<S, D>(codec: Codec<S, D>, d: Disk, outcomes: set<Option<S>>, newest: Frontier) {
    forall t :: t in EntryOf(d, CurrentName).possible ==> TargetSafe(codec, d, t, outcomes, newest)
  }

  ghost predicate TargetSafe<S, D>(codec: Codec<S, D>, d: Disk, t: Target, outcomes: set<Option<S>>, newest: Frontier) {
    && Sound(codec.sha, d, t)
    && StateAt(codec, d, FrontierAt(codec.sha, d, t)) in outcomes
    && NotNewer(FrontierAt(codec.sha, d, t), newest)
  }

  /** `next` could be renamed onto CURRENT now: its generation is complete, its outcome is
      allowed, and no possible CURRENT is newer. */
  ghost predicate Publishable<S, D>(codec: Codec<S, D>, d: Disk, outcomes: set<Option<S>>, next: Frontier) {
    && GenerationComplete(d, next)
    && StateAt(codec, d, next) in outcomes
    && AllTargets(codec, d, outcomes, next)
  }

  predicate NotNewer(f: Frontier, g: Frontier) {
    f.generation == g.generation ==> f.end <= g.end
  }

  function CurrentFrontier<S, D>(codec: Codec<S, D>, d: Disk): Frontier
    requires var t := EntryOf(d, CurrentName).current;
             t.FileRef? && t.id in d.files && DecodeFrontier(codec.sha, d.files[t.id].content).Some?
  {
    FrontierAt(codec.sha, d, EntryOf(d, CurrentName).current)
  }

  /** CURRENT can only be read as this frontier, whatever happens next. */
  ghost predicate Committed<S, D>(codec: Codec<S, D>, d: Disk, f: Frontier) {
    var entry := EntryOf(d, CurrentName);
    && entry.possible == {entry.current}
    && Sound(codec.sha, d, entry.current)
    && FrontierAt(codec.sha, d, entry.current) == f
  }

  lemma OpenedPrefix<S, D>(codec: Codec<S, D>, f: Frontier, checkpoint: bytes, journal1: bytes, journal2: bytes)
    requires f.end <= |journal1| && f.end <= |journal2| && journal1[..f.end] == journal2[..f.end]
    ensures Opened(codec, f, checkpoint, journal1) == Opened(codec, f, checkpoint, journal2)
  {
    if f.end >= JOURNAL_HEADER_LEN {
      assert journal1[JOURNAL_HEADER_LEN..f.end] == journal1[..f.end][JOURNAL_HEADER_LEN..];
      assert journal2[JOURNAL_HEADER_LEN..f.end] == journal2[..f.end][JOURNAL_HEADER_LEN..];
      assert journal1[..JOURNAL_HEADER_LEN] == journal1[..f.end][..JOURNAL_HEADER_LEN];
      assert journal2[..JOURNAL_HEADER_LEN] == journal2[..f.end][..JOURNAL_HEADER_LEN];
    }
  }

  /** A sound binding that a crash reveals is read back unchanged. */
  lemma CrashKeeps<S, D>(codec: Codec<S, D>, d: Disk, e: Disk, t: Target)
    requires Sound(codec.sha, d, t) && CrashTo(d, e)
    requires var j := d.files[FileIdOf(d, JournalName(FrontierAt(codec.sha, d, t).generation))];
             j.StableLen() <= |j.content|
    ensures Sound(codec.sha, e, t)
    ensures FrontierAt(codec.sha, e, t) == FrontierAt(codec.sha, d, t)
    ensures StateAt(codec, e, FrontierAt(codec.sha, e, t)) == StateAt(codec, d, FrontierAt(codec.sha, d, t))
  {
    var f := FrontierAt(codec.sha, d, t);
    var g := f.generation;
    assert EntryOf(e, GenerationDir(g)).current in EntryOf(d, GenerationDir(g)).possible;
    assert EntryOf(e, CheckpointName(g)).current in EntryOf(d, CheckpointName(g)).possible;
    assert EntryOf(e, JournalName(g)).current in EntryOf(d, JournalName(g)).possible;
    var c, j := FileIdOf(d, CheckpointName(g)), FileIdOf(d, JournalName(g));
    assert Survives(d.files[c], e.files[c]) && Survives(d.files[j], e.files[j])
           && Survives(d.files[t.id], e.files[t.id]);
    StablePrefix(d.files[j], e.files[j], f.end);
    OpenedPrefix(codec, f, d.files[c].content, d.files[j].content, e.files[j].content);
  }

  /** Whatever the crash, reopening yields one of the outcomes, and the disk it leaves is settled on it. */
  lemma CrashRecovers<S, D>(codec: Codec<S, D>, d: Disk, outcomes: set<Option<S>>, e: Disk)
    requires Safe(codec, d, outcomes) && CrashTo(d, e)
    ensures Recover(codec, e) in outcomes
    ensures Safe(codec, e, {Recover(codec, e)})
  {
    var t := EntryOf(e, CurrentName).current;
    assert t in EntryOf(d, CurrentName).possible;
    CrashKeeps(codec, d, e, t);
    CrashWellFormed(d, e);
    SettledSafe(codec, e, t);
  }

  lemma SettledSafe<S, D>(codec: Codec<S, D>, e: Disk, t: Target)
    requires WellFormed(e) && Sound(codec.sha, e, t) && Fixed(e, CurrentName, t)
    ensures Recover(codec, e) == StateAt(codec, e, FrontierAt(codec.sha, e, t))
    ensures Safe(codec, e, {Recover(codec, e)})
  {
  }

  lemma StablePrefix(before: File, after: File, end: nat)
    requires Survives(before, after) && end <= before.StableLen() <= |before.content|
    ensures end <= |after.content| && after.content[..end] == before.content[..end]
  {
    if before.dirty {
      assert after.content[..end] == after.content[..before.stable][..end];
      assert before.content[..end] == before.content[..before.stable][..end];
    }
  }

  lemma CrashWellFormed(d: Disk, e: Disk)
    requires WellFormed(d) && CrashTo(d, e)
    ensures WellFormed(e)
  {
    forall id | id in e.files
      ensures e.files[id].StableLen() <= |e.files[id].content|
    {
      assert Survives(d.files[id], e.files[id]);
    }
    assert forall name, t :: t in EntryOf(e, name).possible ==> t in EntryOf(d, name).possible;
  }

  // ---- Operations keep a disk safe ----

  ghost predicate FilesSized(d: Disk) {
    forall id :: id in d.files ==> d.files[id].StableLen() <= |d.files[id].content|
  }

  /** Nothing that the frontier `f` relies on differs between the two disks. */
  ghost predicate Keeps(d: Disk, e: Disk, f: Frontier)
    requires GenerationComplete(d, f)
  {
    var g := f.generation;
    var c, j := FileIdOf(d, CheckpointName(g)), FileIdOf(d, JournalName(g));
    && EntryOf(e, GenerationDir(g)) == EntryOf(d, GenerationDir(g))
    && EntryOf(e, CheckpointName(g)) == EntryOf(d, CheckpointName(g))
    && EntryOf(e, JournalName(g)) == EntryOf(d, JournalName(g))
    && c in e.files && e.files[c] == d.files[c]
    && j in e.files && f.end <= e.files[j].StableLen() && f.end <= |e.files[j].content|
    && f.end <= |d.files[j].content| && e.files[j].content[..f.end] == d.files[j].content[..f.end]
  }

  lemma KeepsState<S, D>(codec: Codec<S, D>, d: Disk, e: Disk, f: Frontier)
    requires GenerationComplete(d, f) && Keeps(d, e, f)
    ensures GenerationComplete(e, f)
    ensures StateAt(codec, e, f) == StateAt(codec, d, f)
  {
    var c, j := FileIdOf(d, CheckpointName(f.generation)), FileIdOf(d, JournalName(f.generation));
    OpenedPrefix(codec, f, d.files[c].content, d.files[j].content, e.files[j].content);
  }

  ghost predicate KeepsTarget(sha: bytes -> B256, d: Disk, e: Disk, t: Target)
    requires Sound(sha, d, t)
  {
    t.id in e.files && e.files[t.id] == d.files[t.id] && Keeps(d, e, FrontierAt(sha, d, t))
  }

  lemma KeepsTargets<S, D>(codec: Codec<S, D>, d: Disk, e: Disk, outcomes: set<Option<S>>, newest: Frontier)
    requires AllTargets(codec, d, outcomes, newest)
    requires EntryOf(e, CurrentName).possible <= EntryOf(d, CurrentName).possible
    requires forall t :: t in EntryOf(d, CurrentName).possible ==> KeepsTarget(codec.sha, d, e, t)
    ensures AllTargets(codec, e, outcomes, newest)
    ensures forall t :: t in EntryOf(d, CurrentName).possible ==>
              && Sound(codec.sha, e, t)
              && FrontierAt(codec.sha, e, t) == FrontierAt(codec.sha, d, t)
              && StateAt(codec, e, FrontierAt(codec.sha, d, t)) == StateAt(codec, d, FrontierAt(codec.sha, d, t))
  {
    forall t | t in EntryOf(d, CurrentName).possible
      ensures Sound(codec.sha, e, t)
      ensures FrontierAt(codec.sha, e, t) == FrontierAt(codec.sha, d, t)
      ensures StateAt(codec, e, FrontierAt(codec.sha, d, t)) == StateAt(codec, d, FrontierAt(codec.sha, d, t))
    {
      assert TargetSafe(codec, d, t, outcomes, newest);
      KeepsState(codec, d, e, FrontierAt(codec.sha, d, t));
    }
  }

  ghost predicate SameCurrent<S, D>(codec: Codec<S, D>, d: Disk, e: Disk)
    requires Sound(codec.sha, d, EntryOf(d, CurrentName).current)
    requires Sound(codec.sha, e, EntryOf(e, CurrentName).current)
  {
    && CurrentFrontier(codec, e) == CurrentFrontier(codec, d)
    && StateAt(codec, e, CurrentFrontier(codec, e)) == StateAt(codec, d, CurrentFrontier(codec, d))
  }

  lemma KeepsSafe<S, D>(codec: Codec<S, D>, d: Disk, e: Disk, outcomes: set<Option<S>>)
    requires Safe(codec, d, outcomes) && WellFormed(e)
    requires EntryOf(e, CurrentName).current == EntryOf(d, CurrentName).current
    requires EntryOf(e, CurrentName).possible <= EntryOf(d, CurrentName).possible
    requires forall t :: t in EntryOf(d, CurrentName).possible ==> KeepsTarget(codec.sha, d, e, t)
    ensures Safe(codec, e, outcomes) && SameCurrent(codec, d, e)
  {
    KeepsTargets(codec, d, e, outcomes, CurrentFrontier(codec, d));
    assert EntryOf(d, CurrentName).current in EntryOf(d, CurrentName).possible;
  }

  lemma KeepsPublishable<S, D>(codec: Codec<S, D>, d: Disk, e: Disk, outcomes: set<Option<S>>, next: Frontier)
    requires Publishable(codec, d, outcomes, next) && Keeps(d, e, next)
    requires EntryOf(e, CurrentName).possible <= EntryOf(d, CurrentName).possible
    requires forall t :: t in EntryOf(d, CurrentName).possible ==> KeepsTarget(codec.sha, d, e, t)
    ensures Publishable(codec, e, outcomes, next)
    ensures StateAt(codec, e, next) == StateAt(codec, d, next)
  {
    KeepsTargets(codec, d, e, outcomes, next);
    KeepsState(codec, d, e, next);
  }

  // A staged file, bound to no name, can be changed freely.

  lemma StagedKeeps(d: Disk, id: FileId, file: File, f: Frontier)
    requires FilesSized(d) && GenerationComplete(d, f) && Unbound(d, id)
    ensures Keeps(d, WithFile(d, id, file), f)
  {
    var g := f.generation;
    var e := WithFile(d, id, file);
    assert EntryOf(e, GenerationDir(g)) == EntryOf(d, GenerationDir(g));
    assert EntryOf(e, CheckpointName(g)) == EntryOf(d, CheckpointName(g));
    assert EntryOf(e, JournalName(g)) == EntryOf(d, JournalName(g));
    assert FileRef(FileIdOf(d, CheckpointName(g))) in EntryOf(d, CheckpointName(g)).possible;
    assert FileRef(FileIdOf(d, JournalName(g))) in EntryOf(d, JournalName(g)).possible;
  }

  lemma StagedKeepsTargets(sha: bytes -> B256, d: Disk, id: FileId, file: File)
    requires FilesSized(d) && Unbound(d, id)
    requires forall t :: t in EntryOf(d, CurrentName).possible ==> Sound(sha, d, t)
    ensures var e := WithFile(d, id, file);
            && EntryOf(e, CurrentName) == EntryOf(d, CurrentName)
            && forall t :: t in EntryOf(d, CurrentName).possible ==> KeepsTarget(sha, d, e, t)
  {
    forall t | t in EntryOf(d, CurrentName).possible
      ensures KeepsTarget(sha, d, WithFile(d, id, file), t)
    {
      StagedKeeps(d, id, file, FrontierAt(sha, d, t));
    }
  }

  lemma StagedChangeSafe<S, D>(codec: Codec<S, D>, d: Disk, id: FileId, file: File, outcomes: set<Option<S>>)
    requires Safe(codec, d, outcomes) && Unbound(d, id) && file.StableLen() <= |file.content|
    ensures var e := WithFile(d, id, file);
            Safe(codec, e, outcomes) && SameCurrent(codec, d, e) && Unbound(e, id)
  {
    var e := WithFile(d, id, file);
    WellFormedAfterFileChange(d, id, file);
    StagedKeepsTargets(codec.sha, d, id, file);
    KeepsSafe(codec, d, e, outcomes);
    assert forall name :: EntryOf(e, name) == EntryOf(d, name);
  }

  lemma StagedChangePublishable<S, D>(
    codec: Codec<S, D>, d: Disk, id: FileId, file: File, outcomes: set<Option<S>>, next: Frontier)
    requires Publishable(codec, d, outcomes, next) && WellFormed(d) && Unbound(d, id)
    ensures var e := WithFile(d, id, file);
            Publishable(codec, e, outcomes, next) && StateAt(codec, e, next) == StateAt(codec, d, next)
  {
    StagedKeepsTargets(codec.sha, d, id, file);
    StagedKeeps(d, id, file, next);
    KeepsPublishable(codec, d, WithFile(d, id, file), outcomes, next);
  }

  // The current journal can be changed beyond its committed end.

  ghost predicate TailChange(before: File, after: File, end: nat) {
    && end <= after.StableLen() <= |after.content|
    && end <= |before.content| && after.content[..end] == before.content[..end]
  }

  lemma JournalChangeKeeps(d: Disk, f: Frontier, file: File, h: Frontier)
    requires WellFormed(d) && GenerationComplete(d, f) && GenerationComplete(d, h) && NotNewer(h, f)
    requires TailChange(d.files[FileIdOf(d, JournalName(f.generation))], file, f.end)
    ensures Keeps(d, WithFile(d, FileIdOf(d, JournalName(f.generation)), file), h)
  {
    var j := FileIdOf(d, JournalName(f.generation));
    var g := h.generation;
    var e := WithFile(d, j, file);
    assert EntryOf(e, GenerationDir(g)) == EntryOf(d, GenerationDir(g));
    assert EntryOf(e, CheckpointName(g)) == EntryOf(d, CheckpointName(g));
    assert EntryOf(e, JournalName(g)) == EntryOf(d, JournalName(g));
    assert FileRef(j) in EntryOf(d, JournalName(f.generation)).possible;
    assert FileRef(FileIdOf(d, CheckpointName(g))) in EntryOf(d, CheckpointName(g)).possible;
    assert FileRef(FileIdOf(d, JournalName(g))) in EntryOf(d, JournalName(g)).possible;
    if g == f.generation {
      assert file.content[..h.end] == file.content[..f.end][..h.end];
      assert d.files[j].content[..h.end] == d.files[j].content[..f.end][..h.end];
    }
  }

  lemma JournalChangeKeepsTarget(sha: bytes -> B256, d: Disk, f: Frontier, file: File, t: Target)
    requires WellFormed(d) && GenerationComplete(d, f)
    requires Sound(sha, d, t) && t in EntryOf(d, CurrentName).possible && NotNewer(FrontierAt(sha, d, t), f)
    requires TailChange(d.files[FileIdOf(d, JournalName(f.generation))], file, f.end)
    ensures KeepsTarget(sha, d, WithFile(d, FileIdOf(d, JournalName(f.generation)), file), t)
  {
    JournalChangeKeeps(d, f, file, FrontierAt(sha, d, t));
    var j := FileIdOf(d, JournalName(f.generation));
    assert FileRef(j) in EntryOf(d, JournalName(f.generation)).possible;
  }

  lemma JournalChangeSafe<S, D>(codec: Codec<S, D>, d: Disk, file: File, outcomes: set<Option<S>>)
    requires Safe(codec, d, outcomes)
    requires var f := CurrentFrontier(codec, d);
             TailChange(d.files[FileIdOf(d, JournalName(f.generation))], file, f.end)
    ensures var j := FileIdOf(d, JournalName(CurrentFrontier(codec, d).generation));
            var e := WithFile(d, j, file);
            Safe(codec, e, outcomes) && SameCurrent(codec, d, e)
  {
    var f := CurrentFrontier(codec, d);
    var j := FileIdOf(d, JournalName(f.generation));
    var e := WithFile(d, j, file);
    WellFormedAfterFileChange(d, j, file);
    assert EntryOf(e, CurrentName) == EntryOf(d, CurrentName);
    forall t | t in EntryOf(d, CurrentName).possible
      ensures KeepsTarget(codec.sha, d, e, t)
    {
      assert TargetSafe(codec, d, t, outcomes, f);
      JournalChangeKeepsTarget(codec.sha, d, f, file, t);
    }
    KeepsSafe(codec, d, e, outcomes);
  }

  // Names of a generation that no possible CURRENT mentions can be rebound freely.

  ghost predicate Foreign(sha: bytes -> B256, d: Disk, g: Generation) {
    forall t :: t in EntryOf(d, CurrentName).possible && NamesFrontier(sha, d, t) ==>
      FrontierAt(sha, d, t).generation != g
  }

  lemma BindKeeps(d: Disk, name: Name, target: Target, f: Frontier)
    requires FilesSized(d) && GenerationComplete(d, f)
    requires name.CurrentName? || f.generation != name.generation
    ensures Keeps(d, Bind(d, name, target), f)
  {
  }

  lemma ForeignBindSafe<S, D>(codec: Codec<S, D>, d: Disk, name: Name, target: Target, outcomes: set<Option<S>>)
    requires Safe(codec, d, outcomes)
    requires !name.CurrentName? && Foreign(codec.sha, d, name.generation)
    requires target.FileRef? ==> target.id in d.files && Unbound(d, target.id)
    ensures var e := Bind(d, name, target);
            && Safe(codec, e, outcomes) && SameCurrent(codec, d, e)
            && EntryOf(e, CurrentName) == EntryOf(d, CurrentName)
            && forall g :: Foreign(codec.sha, d, g) ==> Foreign(codec.sha, e, g)
  {
    var e := Bind(d, name, target);
    WellFormedAfterBind(d, name, target);
    assert EntryOf(e, CurrentName) == EntryOf(d, CurrentName);
    forall t | t in EntryOf(d, CurrentName).possible
      ensures KeepsTarget(codec.sha, d, e, t)
    {
      assert TargetSafe(codec, d, t, outcomes, CurrentFrontier(codec, d));
      BindKeeps(d, name, target, FrontierAt(codec.sha, d, t));
    }
    KeepsSafe(codec, d, e, outcomes);
  }

  lemma ForeignAfterStage<S, D>(
    codec: Codec<S, D>, d: Disk, id: FileId, file: File, outcomes: set<Option<S>>, g: Generation)
    requires Safe(codec, d, outcomes) && Unbound(d, id) && Foreign(codec.sha, d, g)
    ensures Foreign(codec.sha, WithFile(d, id, file), g)
  {
    hide GenerationComplete;
    hide StateAt;
    hide DecodeFrontier;
    var e := WithFile(d, id, file);
    assert EntryOf(e, CurrentName) == EntryOf(d, CurrentName);
    forall t | t in EntryOf(e, CurrentName).possible && NamesFrontier(codec.sha, e, t)
      ensures FrontierAt(codec.sha, e, t).generation != g
    {
      assert t in EntryOf(d, CurrentName).possible;
      assert TargetSafe(codec, d, t, outcomes, CurrentFrontier(codec, d));
    }
  }

  lemma ForeignAfterSyncDir<S, D>(codec: Codec<S, D>, d: Disk, dir: Directory, outcomes: set<Option<S>>, g: Generation)
    requires Safe(codec, d, outcomes) && Foreign(codec.sha, d, g)
    ensures Foreign(codec.sha, SyncDir(d, dir), g)
  {
    EntryAfterSyncDir(d, dir, CurrentName);
    assert EntryOf(d, CurrentName).current in EntryOf(d, CurrentName).possible;
  }

  /** A generation whose directory does not exist now is named by no possible CURRENT. */
  lemma MissingIsForeign<S, D>(codec: Codec<S, D>, d: Disk, outcomes: set<Option<S>>, g: Generation)
    requires Safe(codec, d, outcomes) && EntryOf(d, GenerationDir(g)).current != Subdirectory
    ensures Foreign(codec.sha, d, g)
    ensures CurrentFrontier(codec, d).generation != g
  {
    assert EntryOf(d, CurrentName).current in EntryOf(d, CurrentName).possible;
    forall t | t in EntryOf(d, CurrentName).possible
      ensures Sound(codec.sha, d, t) && FrontierAt(codec.sha, d, t).generation != g
    {
      assert TargetSafe(codec, d, t, outcomes, CurrentFrontier(codec, d));
    }
  }

  /** A complete generation that no possible CURRENT names can be published. */
  lemma ForeignPublishable<S, D>(codec: Codec<S, D>, d: Disk, outcomes: set<Option<S>>, next: Frontier)
    requires Safe(codec, d, outcomes) && Foreign(codec.sha, d, next.generation)
    requires GenerationComplete(d, next) && StateAt(codec, d, next) in outcomes
    ensures Publishable(codec, d, outcomes, next)
  {
    forall t | t in EntryOf(d, CurrentName).possible
      ensures TargetSafe(codec, d, t, outcomes, next)
    {
      assert TargetSafe(codec, d, t, outcomes, CurrentFrontier(codec, d));
    }
  }

  // Syncing a directory only narrows what a crash may reveal.

  lemma SyncDirKeeps(d: Disk, dir: Directory, f: Frontier)
    requires FilesSized(d) && GenerationComplete(d, f)
    ensures Keeps(d, SyncDir(d, dir), f)
  {
    EntryAfterSyncDir(d, dir, GenerationDir(f.generation));
    EntryAfterSyncDir(d, dir, CheckpointName(f.generation));
    EntryAfterSyncDir(d, dir, JournalName(f.generation));
  }

  lemma SyncDirSafe<S, D>(codec: Codec<S, D>, d: Disk, dir: Directory, outcomes: set<Option<S>>)
    requires Safe(codec, d, outcomes)
    ensures var e := SyncDir(d, dir);
            && Safe(codec, e, outcomes) && SameCurrent(codec, d, e)
            && (dir == RootDir ==> Committed(codec, e, CurrentFrontier(codec, d)))
  {
    var e := SyncDir(d, dir);
    WellFormedAfterSyncDir(d, dir);
    EntryAfterSyncDir(d, dir, CurrentName);
    forall t | t in EntryOf(d, CurrentName).possible
      ensures KeepsTarget(codec.sha, d, e, t)
    {
      assert TargetSafe(codec, d, t, outcomes, CurrentFrontier(codec, d));
      SyncDirKeeps(d, dir, FrontierAt(codec.sha, d, t));
    }
    KeepsSafe(codec, d, e, outcomes);
  }

  /** Renaming a synced file holding a publishable frontier onto CURRENT is safe. */
  lemma PublishSafe<S, D>(codec: Codec<S, D>, d: Disk, id: FileId, next: Frontier, outcomes: set<Option<S>>)
    requires WellFormed(d) && Unbound(d, id)
    requires NamesFrontier(codec.sha, d, FileRef(id)) && FrontierAt(codec.sha, d, FileRef(id)) == next
    requires Publishable(codec, d, outcomes, next)
    ensures var e := Bind(d, CurrentName, FileRef(id));
            && Safe(codec, e, outcomes)
            && CurrentFrontier(codec, e) == next
            && StateAt(codec, e, next) == StateAt(codec, d, next)
  {
    WellFormedAfterBind(d, CurrentName, FileRef(id));
    PublishTargets(codec, d, id, next, outcomes);
  }

  lemma PublishTargets<S, D>(codec: Codec<S, D>, d: Disk, id: FileId, next: Frontier, outcomes: set<Option<S>>)
    requires FilesSized(d)
    requires NamesFrontier(codec.sha, d, FileRef(id)) && FrontierAt(codec.sha, d, FileRef(id)) == next
    requires Publishable(codec, d, outcomes, next)
    ensures var e := Bind(d, CurrentName, FileRef(id));
            && EntryOf(e, CurrentName).current == FileRef(id)
            && AllTargets(codec, e, outcomes, next)
            && CurrentFrontier(codec, e) == next
            && StateAt(codec, e, next) == StateAt(codec, d, next)
  {
    var e := Bind(d, CurrentName, FileRef(id));
    PublishKeeps(codec, d, FileRef(id), FileRef(id), outcomes, next);
    assert EntryOf(e, CurrentName) == Entry(FileRef(id), EntryOf(d, CurrentName).possible + {FileRef(id)});
    forall t | t in EntryOf(d, CurrentName).possible
      ensures TargetSafe(codec, e, t, outcomes, next)
    {
      PublishKeeps(codec, d, FileRef(id), t, outcomes, next);
    }
  }

  lemma PublishKeeps<S, D>(
    codec: Codec<S, D>, d: Disk, target: Target, t: Target, outcomes: set<Option<S>>, newest: Frontier)
    requires TargetSafe(codec, d, t, outcomes, newest) && FilesSized(d)
    ensures var e := Bind(d, CurrentName, target);
            && TargetSafe(codec, e, t, outcomes, newest)
            && FrontierAt(codec.sha, e, t) == FrontierAt(codec.sha, d, t)
            && StateAt(codec, e, FrontierAt(codec.sha, d, t)) == StateAt(codec, d, FrontierAt(codec.sha, d, t))
  {
    BindKeeps(d, CurrentName, target, FrontierAt(codec.sha, d, t));
    KeepsState(codec, d, Bind(d, CurrentName, target), FrontierAt(codec.sha, d, t));
  }

  /** Every disk state recorded from position `from` on is safe. */
  ghost predicate AllSafe<S, D>(codec: Codec<S, D>, trace: seq<Disk>, from: nat, outcomes: set<Option<S>>) {
    forall i :: from <= i < |trace| ==> Safe(codec, trace[i], outcomes)
  }

  /** Reopening at any recorded moment, with or without a crash, gives one of the outcomes. */
  lemma AllSafeRecovers<S, D>(
    codec: Codec<S, D>, trace: seq<Disk>, from: nat, outcomes: set<Option<S>>, i: nat, e: Disk)
    requires AllSafe(codec, trace, from, outcomes) && from <= i < |trace|
    requires e == trace[i] || CrashTo(trace[i], e)
    ensures Recover(codec, e) in outcomes
  {
    if CrashTo(trace[i], e) {
      CrashRecovers(codec, trace[i], outcomes, e);
    } else {
      var t := EntryOf(e, CurrentName).current;
      assert t in EntryOf(e, CurrentName).possible;
      assert GenerationComplete(e, FrontierAt(codec.sha, e, t));
    }
  }

  // ---- Reopening without a crash, then losing power ----

  /** The crash of `d` that keeps all written bytes and reveals `t` as CURRENT. */
  function CrashAt(d: Disk, t: Target): Disk {
    Disk(map id | id in d.files :: File(d.files[id].content, |d.files[id].content|, false),
         map name | name in d.entries ::
           var target := if name == CurrentName then t else d.entries[name].current;
           Entry(target, {target}))
  }

  lemma CrashAtHappens(d: Disk, t: Target)
    requires WellFormed(d) && t in EntryOf(d, CurrentName).possible && CurrentName in d.entries
    ensures CrashTo(d, CrashAt(d, t))
    ensures EntryOf(CrashAt(d, t), CurrentName).current == t
  {
    var e := CrashAt(d, t);
    forall name
      ensures EntryOf(e, name).current in EntryOf(d, name).possible
      ensures EntryOf(e, name).possible == {EntryOf(e, name).current}
    {
      assert EntryOf(d, name).current in EntryOf(d, name).possible;
    }
    assert e.files.Keys == d.files.Keys;
    forall id | id in d.files
      ensures Survives(d.files[id], e.files[id])
    {
      assert d.files[id].StableLen() <= |d.files[id].content|;
    }
  }

  /** Every binding that CURRENT may have is what some crash leaves it recovering to. */
  lemma CrashAtRecovers<S, D>(codec: Codec<S, D>, d: Disk, outcomes: set<Option<S>>, t: Target)
    requires Safe(codec, d, outcomes) && t in EntryOf(d, CurrentName).possible
    ensures Sound(codec.sha, d, t) && CrashTo(d, CrashAt(d, t))
    ensures Recover(codec, CrashAt(d, t)) == StateAt(codec, d, FrontierAt(codec.sha, d, t))
  {
    var e := CrashAt(d, t);
    assert TargetSafe(codec, d, t, outcomes, CurrentFrontier(codec, d));
    CrashAtHappens(d, t);
    CrashKeeps(codec, d, e, t);
    CrashWellFormed(d, e);
    SettledSafe(codec, e, t);
  }

  lemma RecoverIsCurrent<S, D>(codec: Codec<S, D>, d: Disk, outcomes: set<Option<S>>)
    requires Safe(codec, d, outcomes)
    ensures Recover(codec, d) == StateAt(codec, d, CurrentFrontier(codec, d)) && Recover(codec, d) in outcomes
  {
    var t := EntryOf(d, CurrentName).current;
    assert TargetSafe(codec, d, t, outcomes, CurrentFrontier(codec, d));
  }

  /** Every CURRENT that a crash may reveal denotes the state that reading CURRENT now gives. */
  ghost predicate OneState<S, D>(codec: Codec<S, D>, d: Disk, outcomes: set<Option<S>>)
    requires Safe(codec, d, outcomes)
  {
    forall t :: t in EntryOf(d, CurrentName).possible ==>
      && TargetSafe(codec, d, t, outcomes, CurrentFrontier(codec, d))
      && StateAt(codec, d, FrontierAt(codec.sha, d, t)) == Recover(codec, d)
  }

  /** What a reopen without a crash publishes survives every later power loss if and only if all
      possible CURRENTs denote that one state. */
  lemma ReopenIsStable<S, D>(codec: Codec<S, D>, d: Disk, outcomes: set<Option<S>>)
    requires Safe(codec, d, outcomes)
    ensures (forall e | CrashTo(d, e) :: Recover(codec, e) == Recover(codec, d)) <==> OneState(codec, d, outcomes)
    ensures OneState(codec, d, outcomes) <==> Safe(codec, d, {Recover(codec, d)})
  {
    hide Safe;
    hide Recover;
    hide CrashTo;
    hide OneState;
    if forall e | CrashTo(d, e) :: Recover(codec, e) == Recover(codec, d) {
      StableMeansOneState(codec, d, outcomes);
    }
    if OneState(codec, d, outcomes) {
      OneStateSafe(codec, d, outcomes);
      forall e | CrashTo(d, e)
        ensures Recover(codec, e) == Recover(codec, d)
      {
        CrashRecovers(codec, d, {Recover(codec, d)}, e);
      }
    }
    if Safe(codec, d, {Recover(codec, d)}) {
      SafeMeansOneState(codec, d, outcomes);
    }
  }

  lemma StableMeansOneState<S, D>(codec: Codec<S, D>, d: Disk, outcomes: set<Option<S>>)
    requires Safe(codec, d, outcomes) && forall e | CrashTo(d, e) :: Recover(codec, e) == Recover(codec, d)
    ensures OneState(codec, d, outcomes)
  {
    hide Recover;
    forall t | t in EntryOf(d, CurrentName).possible
      ensures TargetSafe(codec, d, t, outcomes, CurrentFrontier(codec, d))
      ensures StateAt(codec, d, FrontierAt(codec.sha, d, t)) == Recover(codec, d)
    {
      CrashAtRecovers(codec, d, outcomes, t);
    }
  }

  lemma SafeMeansOneState<S, D>(codec: Codec<S, D>, d: Disk, outcomes: set<Option<S>>)
    requires Safe(codec, d, outcomes) && Safe(codec, d, {Recover(codec, d)})
    ensures OneState(codec, d, outcomes)
  {
    hide Recover;
    forall t | t in EntryOf(d, CurrentName).possible
      ensures TargetSafe(codec, d, t, outcomes, CurrentFrontier(codec, d))
      ensures StateAt(codec, d, FrontierAt(codec.sha, d, t)) == Recover(codec, d)
    {
      assert TargetSafe(codec, d, t, {Recover(codec, d)}, CurrentFrontier(codec, d));
      assert TargetSafe(codec, d, t, outcomes, CurrentFrontier(codec, d));
    }
  }

  lemma OneStateSafe<S, D>(codec: Codec<S, D>, d: Disk, outcomes: set<Option<S>>)
    requires Safe(codec, d, outcomes) && OneState(codec, d, outcomes)
    ensures Safe(codec, d, {Recover(codec, d)})
  {
    forall t | t in EntryOf(d, CurrentName).possible
      ensures TargetSafe(codec, d, t, {Recover(codec, d)}, CurrentFrontier(codec, d))
    {
      assert TargetSafe(codec, d, t, outcomes, CurrentFrontier(codec, d));
    }
  }

  /** After a rename whose directory sync failed, a reopen reads the new state, and a power loss
      may still take it back to the old one. */
  lemma UnsyncedRenameReverts<S, D>(codec: Codec<S, D>, d: Disk, id: FileId, next: Frontier, outcomes: set<Option<S>>)
    requires Safe(codec, d, outcomes) && Unbound(d, id)
    requires NamesFrontier(codec.sha, d, FileRef(id)) && FrontierAt(codec.sha, d, FileRef(id)) == next
    requires Publishable(codec, d, outcomes, next)
    ensures var renamed := Bind(d, CurrentName, FileRef(id));
            && Recover(codec, renamed) == StateAt(codec, d, next)
            && exists e :: CrashTo(renamed, e) && Recover(codec, e) == Recover(codec, d)
  {
    hide WellFormed;
    var renamed := Bind(d, CurrentName, FileRef(id));
    var t := EntryOf(d, CurrentName).current;
    assert t in EntryOf(d, CurrentName).possible by { CurrentIsPossible(d, CurrentName); }
    PublishSafe(codec, d, id, next, outcomes);
    RecoverIsCurrent(codec, renamed, outcomes);
    RecoverIsCurrent(codec, d, outcomes);
    OldTargetKept(codec, d, id, t, outcomes, next);
    EntryAfterBind(d, CurrentName, FileRef(id), CurrentName);
    CrashAtRecovers(codec, renamed, outcomes, t);
  }

  lemma CurrentIsPossible(d: Disk, name: Name)
    requires WellFormed(d)
    ensures EntryOf(d, name).current in EntryOf(d, name).possible
  {
  }

  lemma OldTargetKept<S, D>(
    codec: Codec<S, D>, d: Disk, id: FileId, t: Target, outcomes: set<Option<S>>, next: Frontier)
    requires WellFormed(d) && t in EntryOf(d, CurrentName).possible && AllTargets(codec, d, outcomes, next)
    ensures var renamed := Bind(d, CurrentName, FileRef(id));
            && Sound(codec.sha, d, t) && Sound(codec.sha, renamed, t)
            && FrontierAt(codec.sha, renamed, t) == FrontierAt(codec.sha, d, t)
            && StateAt(codec, renamed, FrontierAt(codec.sha, d, t)) == StateAt(codec, d, FrontierAt(codec.sha, d, t))
  {
    assert TargetSafe(codec, d, t, outcomes, next);
    PublishKeeps(codec, d, FileRef(id), t, outcomes, next);
  }
}
