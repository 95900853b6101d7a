/** A small model of durable storage. A file's unsynced bytes and a directory's
    unsynced renames may or may not survive a crash. */
module DiskModel {
  import opened Bytes
  import opened JournalFormat

  type FileId = nat

  datatype Name =
    | CurrentName
    | GenerationDir(generation: Generation)
    | CheckpointName(generation: Generation)
    | JournalName(generation: Generation)

  datatype Directory = RootDir | GenDir(generation: Generation)

  function Parent(name: Name): Directory {
    match name
    case CurrentName => RootDir
    case GenerationDir(_) => RootDir
    case CheckpointName(g) => GenDir(g)
    case JournalName(g) => GenDir(g)
  }

  /** While dirty, only the first `stable` bytes are sure to survive a crash. */
  datatype File = File(content: bytes, stable: nat, dirty: bool) {
    function StableLen(): nat {
      if dirty then stable else |content|
    }
  }

  datatype Target = Absent | Subdirectory | FileRef(id: FileId)

  /** What a name is bound to now, and every binding a crash may reveal instead. */
  datatype Entry = Entry(current: Target, possible: set<Target>)

  datatype Disk = Disk(files: map<FileId, File>, entries: map<Name, Entry>)

  function EntryOf(d: Disk, name: Name): Entry {
    if name in d.entries then d.entries[name] else Entry(Absent, {Absent})
  }

  function Read(d: Disk, name: Name): Option<bytes> {
    var target := EntryOf(d, name).current;
    if target.FileRef? && target.id in d.files then Some(d.files[target.id].content) else None
  }

  ghost predicate WellFormed(d: Disk) {
    && (forall id :: id in d.files ==> d.files[id].StableLen() <= |d.files[id].content|)
    && (forall name :: EntryOf(d, name).current in EntryOf(d, name).possible)
    && (forall name, id :: FileRef(id) in EntryOf(d, name).possible ==> id in d.files)
    && (forall n, m, id :: FileRef(id) in EntryOf(d, n).possible && FileRef(id) in EntryOf(d, m).possible ==> n == m)
  }

  ghost predicate Unbound(d: Disk, id: FileId) {
    forall name :: FileRef(id) !in EntryOf(d, name).possible
  }

  // ---- Primitive operations ----

  function WithFile(d: Disk, id: FileId, file: File): Disk {
    d.(files := d.files[id := file])
  }

  lemma WithFileTwice(d: Disk, id: FileId, file1: File, file2: File)
    ensures WithFile(WithFile(d, id, file1), id, file2) == WithFile(d, id, file2)
  {
    assert d.files[id := file1][id := file2] == d.files[id := file2];
  }

  function CreateFile(d: Disk, id: FileId): Disk
    requires id !in d.files
  {
    WithFile(d, id, File([], 0, false))
  }

  function Overwrite(content: bytes, offset: nat, data: bytes): bytes
    requires offset <= |content|
  {
    content[..offset] + data + (if offset + |data| < |content| then content[offset + |data|..] else [])
  }

  /** With empty `data` this is the state of a write that has just started. */
  function WriteAt(d: Disk, id: FileId, offset: nat, data: bytes): Disk
    requires id in d.files && offset <= |d.files[id].content|
  {
    var file := d.files[id];
    WithFile(d, id, File(Overwrite(file.content, offset, data), Min(file.StableLen(), offset), true))
  }

  function Truncate(d: Disk, id: FileId, length: nat): Disk
    requires id in d.files && length <= |d.files[id].content|
  {
    var file := d.files[id];
    WithFile(d, id, File(file.content[..length], Min(file.StableLen(), length), true))
  }

  function SyncFile(d: Disk, id: FileId): Disk
    requires id in d.files
  {
    WithFile(d, id, d.files[id].(stable := |d.files[id].content|, dirty := false))
  }

  /** Rename a staged file onto a name, make a directory, or remove an entry. */
  function Bind(d: Disk, name: Name, target: Target): Disk {
    d.(entries := d.entries[name := Entry(target, EntryOf(d, name).possible + {target})])
  }

  function SyncDir(d: Disk, dir: Directory): Disk {
    d.(entries := map name | name in d.entries ::
         if Parent(name) == dir then Entry(d.entries[name].current, {d.entries[name].current}) else d.entries[name])
  }

  // ---- Crashes ----

  ghost predicate Survives(before: File, after: File) {
    && !after.dirty
    && if before.dirty
       then before.stable <= |before.content|
            && before.stable <= |after.content|
            && after.content[..before.stable] == before.content[..before.stable]
       else after.content == before.content
  }

  /** `e` is a disk that a crash at `d` may leave: one possible binding per name, and any
      bytes after the stable prefix of a dirty file. */
  ghost predicate CrashTo(d: Disk, e: Disk) {
    && (forall name ::
          && EntryOf(e, name).current in EntryOf(d, name).possible
          && EntryOf(e, name).possible == {EntryOf(e, name).current})
    && e.files.Keys == d.files.Keys
    && (forall id :: id in d.files ==> Survives(d.files[id], e.files[id]))
  }

  /** The disk with these file contents and these bindings, all of them durable. */
  function Crashed(d: Disk, kept: map<FileId, bytes>, chosen: map<Name, Target>): Disk {
    Disk(map id | id in kept :: File(kept[id], |kept[id]|, false),
         map name | name in chosen :: Entry(chosen[name], {chosen[name]}))
  }

  /** Nothing that is not synced is safe: every choice of bytes behind the stable prefixes, together with
      every choice of possible bindings, is what some crash leaves. */
  lemma EveryLossPossible(d: Disk, kept: map<FileId, bytes>, chosen: map<Name, Target>)
    requires WellFormed(d) && kept.Keys == d.files.Keys && chosen.Keys == d.entries.Keys
    requires forall id :: id in d.files ==>
               if d.files[id].dirty then d.files[id].content[..d.files[id].stable] <= kept[id]
               else kept[id] == d.files[id].content
    requires forall name :: name in d.entries ==> chosen[name] in d.entries[name].possible
    ensures CrashTo(d, Crashed(d, kept, chosen))
  {
    var e := Crashed(d, kept, chosen);
    forall id | id in d.files
      ensures Survives(d.files[id], e.files[id])
    {
      assert d.files[id].StableLen() <= |d.files[id].content|;
    }
    forall name
      ensures EntryOf(e, name).current in EntryOf(d, name).possible
      ensures EntryOf(e, name).possible == {EntryOf(e, name).current}
    {
    }
  }

  function Contents(d: Disk): map<FileId, bytes> {
    map id | id in d.files :: d.files[id].content
  }

  function Bindings(d: Disk): map<Name, Target> {
    map name | name in d.entries :: d.entries[name].current
  }

  /** An unsynced write may leave anything from the first byte it touched on. */
  lemma WriteMayVanish(d: Disk, id: FileId, offset: nat, data: bytes, junk: bytes)
    requires WellFormed(d) && id in d.files && !d.files[id].dirty && offset <= |d.files[id].content|
    ensures exists e :: CrashTo(WriteAt(d, id, offset, data), e)
                        && id in e.files && e.files[id].content == d.files[id].content[..offset] + junk
  {
    var written := WriteAt(d, id, offset, data);
    var kept := Contents(written)[id := d.files[id].content[..offset] + junk];
    assert WellFormed(written) by {
      assert forall name :: EntryOf(written, name) == EntryOf(d, name);
    }
    assert written.files[id].content[..offset] == d.files[id].content[..offset];
    forall i | i in written.files
      ensures if written.files[i].dirty then written.files[i].content[..written.files[i].stable] <= kept[i]
              else kept[i] == written.files[i].content
    {
      assert written.files[i].StableLen() <= |written.files[i].content|;
    }
    BindingsPossible(written);
    EveryLossPossible(written, kept, Bindings(written));
    assert Crashed(written, kept, Bindings(written)).files[id].content == kept[id];
  }

  lemma BindingsPossible(d: Disk)
    requires WellFormed(d)
    ensures forall name :: name in d.entries ==> Bindings(d)[name] in d.entries[name].possible
  {
    forall name | name in d.entries
      ensures Bindings(d)[name] in d.entries[name].possible
    {
      assert EntryOf(d, name) == d.entries[name];
    }
  }

  /** An unsynced rename may be undone. */
  lemma RenameMayVanish(d: Disk, name: Name, target: Target)
    requires WellFormed(d) && WellFormed(Bind(d, name, target))
    ensures exists e :: CrashTo(Bind(d, name, target), e) && EntryOf(e, name).current == EntryOf(d, name).current
  {
    var bound := Bind(d, name, target);
    var chosen := Bindings(bound)[name := EntryOf(d, name).current];
    BindingsPossible(bound);
    assert EntryOf(d, name).current in EntryOf(d, name).possible;
    forall i | i in bound.files
      ensures if bound.files[i].dirty then bound.files[i].content[..bound.files[i].stable] <= Contents(bound)[i]
              else Contents(bound)[i] == bound.files[i].content
    {
      assert bound.files[i].StableLen() <= |bound.files[i].content|;
    }
    EveryLossPossible(bound, Contents(bound), chosen);
    assert EntryOf(Crashed(bound, Contents(bound), chosen), name).current == chosen[name];
  }

  lemma EntryAfterBind(d: Disk, name: Name, target: Target, other: Name)
    ensures EntryOf(Bind(d, name, target), other)
            == if other == name then Entry(target, EntryOf(d, name).possible + {target}) else EntryOf(d, other)
  {
  }

  lemma EntryAfterSyncDir(d: Disk, dir: Directory, name: Name)
    ensures EntryOf(SyncDir(d, dir), name)
            == if Parent(name) == dir then Entry(EntryOf(d, name).current, {EntryOf(d, name).current})
               else EntryOf(d, name)
  {
  }

  lemma WellFormedAfterBind(d: Disk, name: Name, target: Target)
    requires WellFormed(d)
    requires target.FileRef? ==> target.id in d.files && Unbound(d, target.id)
    ensures WellFormed(Bind(d, name, target))
  {
    var e := Bind(d, name, target);
    forall other
      ensures EntryOf(e, other)
              == if other == name then Entry(target, EntryOf(d, name).possible + {target}) else EntryOf(d, other)
    {
      EntryAfterBind(d, name, target, other);
    }
  }

  lemma WellFormedAfterSyncDir(d: Disk, dir: Directory)
    requires WellFormed(d)
    ensures WellFormed(SyncDir(d, dir))
  {
    var e := SyncDir(d, dir);
    forall name
      ensures EntryOf(e, name).possible <= EntryOf(d, name).possible
      ensures EntryOf(e, name).current in EntryOf(e, name).possible
    {
      EntryAfterSyncDir(d, dir, name);
      assert EntryOf(d, name).current in EntryOf(d, name).possible;
    }
  }

  lemma WellFormedAfterFileChange(d: Disk, id: FileId, file: File)
    requires WellFormed(d) && file.StableLen() <= |file.content|
    ensures WellFormed(WithFile(d, id, file))
  {
    var e := WithFile(d, id, file);
    assert forall name :: EntryOf(e, name) == EntryOf(d, name);
  }

  /** The storage object: every operation may fail, and every state it passes through,
      including the middle of a write, is recorded for crash reasoning. */
  class Storage {
    var disk: Disk
    ghost var trace: seq<Disk>
    /** How many operations have failed. */
    ghost var faults: nat

    ghost predicate Valid()
      reads this
    {
      WellFormed(disk)
    }

    constructor (initial: Disk)
      requires WellFormed(initial)
      ensures Valid() && disk == initial && trace == [initial] && faults == 0
    {
      disk := initial;
      trace := [initial];
      faults := 0;
    }

    method Create() returns (id: FileId)
      requires Valid()
      modifies this
      ensures Valid()
      ensures id !in old(disk).files && Unbound(old(disk), id) && Unbound(disk, id)
      ensures disk == CreateFile(old(disk), id)
      ensures trace == old(trace) + [disk]
      ensures faults == old(faults)
    {
      id := FreshId();
      WellFormedAfterFileChange(disk, id, File([], 0, false));
      disk := CreateFile(disk, id);
      assert forall name :: EntryOf(disk, name) == EntryOf(old(disk), name);
      trace := trace + [disk];
    }

    method FreshId() returns (id: FileId)
      ensures id !in disk.files
    {
      var ids := disk.files.Keys;
      id := 0;
      while ids != {}
        invariant forall k :: k in disk.files && k !in ids ==> k < id
        decreases ids
      {
        var k :| k in ids;
        ids := ids - {k};
        id := Max(id, k + 1);
      }
    }

    method Write(id: FileId, offset: nat, data: bytes) returns (ok: bool)
      requires Valid() && id in disk.files && offset <= |disk.files[id].content|
      modifies this
      ensures Valid()
      ensures ok ==> disk == WriteAt(old(disk), id, offset, data)
      ensures !ok ==> exists k :: 0 <= k <= |data| && disk == WriteAt(old(disk), id, offset, data[..k])
      ensures trace == old(trace) + [WriteAt(old(disk), id, offset, []), disk]
      ensures faults == old(faults) + if ok then 0 else 1
    {
      ok := *;
      var written := |data|;
      if !ok {
        written :| 0 <= written <= |data|;
      }
      assert data[..|data|] == data;
      ghost var before := disk;
      disk := WriteAt(disk, id, offset, data[..written]);
      WellFormedAfterFileChange(before, id, disk.files[id]);
      if !ok { faults := faults + 1; }
      trace := trace + [WriteAt(before, id, offset, []), disk];
    }

    method SetLen(id: FileId, length: nat) returns (ok: bool)
      requires Valid() && id in disk.files && length <= |disk.files[id].content|
      modifies this
      ensures Valid()
      ensures disk == if ok then Truncate(old(disk), id, length) else old(disk)
      ensures trace == old(trace) + [disk]
      ensures faults == old(faults) + if ok then 0 else 1
    {
      ok := *;
      if ok {
        WellFormedAfterFileChange(disk, id, Truncate(disk, id, length).files[id]);
        disk := Truncate(disk, id, length);
      }
      if !ok { faults := faults + 1; }
      trace := trace + [disk];
    }

    method Sync(id: FileId) returns (ok: bool)
      requires Valid() && id in disk.files
      modifies this
      ensures Valid()
      ensures disk == if ok then SyncFile(old(disk), id) else old(disk)
      ensures trace == old(trace) + [disk]
      ensures faults == old(faults) + if ok then 0 else 1
    {
      ok := *;
      if ok {
        WellFormedAfterFileChange(disk, id, SyncFile(disk, id).files[id]);
        disk := SyncFile(disk, id);
      }
      if !ok { faults := faults + 1; }
      trace := trace + [disk];
    }

    method Publish(name: Name, target: Target) returns (ok: bool)
      requires Valid()
      requires target.FileRef? ==> target.id in disk.files && Unbound(disk, target.id)
      modifies this
      ensures Valid()
      ensures disk == if ok then Bind(old(disk), name, target) else old(disk)
      ensures trace == old(trace) + [disk]
      ensures faults == old(faults) + if ok then 0 else 1
    {
      ok := *;
      if ok {
        WellFormedAfterBind(disk, name, target);
        disk := Bind(disk, name, target);
      }
      if !ok { faults := faults + 1; }
      trace := trace + [disk];
    }

    method SyncDirectory(dir: Directory) returns (ok: bool)
      requires Valid()
      modifies this
      ensures Valid()
      ensures disk == if ok then SyncDir(old(disk), dir) else old(disk)
      ensures trace == old(trace) + [disk]
      ensures faults == old(faults) + if ok then 0 else 1
    {
      ok := *;
      if ok {
        WellFormedAfterSyncDir(disk, dir);
        disk := SyncDir(disk, dir);
      }
      if !ok { faults := faults + 1; }
      trace := trace + [disk];
    }
  }
}
