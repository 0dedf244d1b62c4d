/** Installing received bytes: staged into a temporary file, checked, and renamed into place, with
    a fault possible at every stage. */
module Install {
  import opened Prelude
  import opened Bytes
  import opened Paths
  import opened Records
  import opened RecordStore
  import opened Scan
  import opened ScanPass

  const NANOS_PER_SECOND: int := 1_000_000_000
  const BUFFER_BYTES: nat := 64 * 1024

  // ---------------------------------------------------------------- file times

  type Nanos = x: int | 0 <= x < 1_000_000_000

  datatype FileTime = FileTime(seconds: i64, nanos: Nanos)

  /** `set_mtime` splits a timestamp with Euclidean division. */
  function SplitTime(ns: i64): FileTime
  {
    FileTime(ns / NANOS_PER_SECOND, ns % NANOS_PER_SECOND)
  }

  /** `metadata_time_ns` and the scanner recombine it with saturation at both steps. */
  function MetadataNs(t: FileTime): i64
  {
    Saturate(Saturate(t.seconds * NANOS_PER_SECOND) + t.nanos)
  }

  /** Splitting and recombining is exact for every timestamp from -9223372036000000000 up; below
      it the seconds saturate and only the nanoseconds survive. */
  lemma {:induction false} TimeSurvivesSplit(ns: i64)
    ensures MetadataNs(SplitTime(ns)) == ns <==> ns >= -9223372036_000_000_000
    ensures ns < -9223372036_000_000_000 ==> MetadataNs(SplitTime(ns)) == I64_MIN + ns % NANOS_PER_SECOND
  {
    assert ns == NANOS_PER_SECOND * (ns / NANOS_PER_SECOND) + ns % NANOS_PER_SECOND;
    if ns < -9223372036_000_000_000 {
      assert ns / NANOS_PER_SECOND == -9223372037;
    }
  }

  // ---------------------------------------------------------------- the directory

  datatype FileData = FileData(bytes: Bytes, time: FileTime)

  /** What a scan reads from a file. */
  function Observe(digest: Bytes -> Bytes32, f: FileData): DiskFile
    requires |f.bytes| <= U64_MAX
  {
    DiskFile(MetadataNs(f.time), |f.bytes|, digest(f.bytes))
  }

  /** Everything that can go wrong, in the order it is attempted: the hooks and the system calls. */
  datatype Stage =
    | RootOpen | RootStable | ParentCheck | NameCheck | TemporaryName
    | CreateTemporary | BeforeWrite | ReadChunk(index: nat) | WriteChunk(index: nat)
    | AfterWrite | Flush | BeforeMetadata | SetTime | BeforeFileSync | FileSync | ReadMetadata
    | BeforeRename | ParentRecheck | NameRecheck | Rename
    | AfterRename | DirectorySync
    | Cleanup

  datatype Installed = Installed(root: Directory, fingerprint: Fingerprint)

  datatype InstallError =
    | IsTombstone
    | NotTombstone
    | UnstableRoot
    | Failed(stage: Stage)
    | SizeMismatch
    | HashMismatch
    | PostRenameDurability(installed: Installed)
    | PostRenameState(installed: Installed, cause: StoreError)
    | StateFailed(error: StoreError)

  /** The reader: its bytes, and how many of them each read delivers. */
  datatype Source = Source(content: Bytes, chunk: nat -> nat)

  /** The world an installation runs in: which stages fail, the digest, and what the filesystem
      keeps of a time it is asked to store. */
  datatype World = World(fails: Stage -> bool, digest: Bytes -> Bytes32, storeTime: FileTime -> FileTime)

  predicate IsGood(w: World, record: Record, content: Bytes)
  {
    record.kind.File? && |content| == record.kind.size && w.digest(content) == record.kind.contentHash
  }

  /** The file a successful installation leaves. */
  function InstalledData(w: World, record: Record, content: Bytes): FileData
  {
    FileData(content, w.storeTime(SplitTime(record.modifiedNs)))
  }

  function InstalledFingerprint(w: World, record: Record, content: Bytes): Fingerprint
    requires IsGood(w, record, content)
  {
    Fingerprint(MetadataNs(w.storeTime(SplitTime(record.modifiedNs))), record.kind.size, record.kind.contentHash)
  }

  /** The new bytes are in place exactly for these results. */
  predicate InPlace(r: Result<Installed, InstallError>)
  {
    r.Ok? || r.error.PostRenameDurability?
  }

  /** The directory after an installation: the complete new bytes under the destination exactly
      when they are in place, else nothing but, at worst, a temporary file that could not be
      removed. */
  predicate AllOrNothing(w: World, record: Record, content: Bytes, temporary: Path, root: Directory,
                         before: map<Path, FileData>, after: map<Path, FileData>, r: Result<Installed, InstallError>)
  {
    if InPlace(r) then
      && IsGood(w, record, content)
      && after == before[record.path := InstalledData(w, record, content)]
      && (if r.Ok? then r.value else r.error.installed) == Installed(root, InstalledFingerprint(w, record, content))
    else
      && after - {temporary} == before
      && (temporary in after ==> w.fails(Cleanup))
      && (r.error.UnstableRoot? ==> w.fails(RootStable) && after == before)
  }

  class CollectionRoot {
    const path: Directory
    var files: map<Path, FileData>

    constructor (path: Directory, files: map<Path, FileData>)
      ensures this.path == path && this.files == files
    {
      this.path, this.files := path, files;
    }

    /** The read and write loop into the temporary file. */
    method WriteTemporary(w: World, record: Record, source: Source, temporary: Path)
      returns (r: Result<(), InstallError>)
      requires record.kind.File? && temporary !in files
      modifies this
      ensures files - {temporary} == old(files)
      ensures r.Ok? ==>
              temporary in files && files[temporary].bytes == source.content && IsGood(w, record, source.content)
      ensures r.Err? ==> !r.error.PostRenameDurability? && !r.error.UnstableRoot?
      ensures (forall s :: !w.fails(s)) ==>
                r == if |source.content| != record.kind.size then Err(SizeMismatch)
                     else if w.digest(source.content) != record.kind.contentHash then Err(HashMismatch)
                     else Ok(())
    {
      var size: nat := record.kind.size;
      if w.fails(CreateTemporary) {
        return Err(Failed(CreateTemporary));
      }
      ghost var before := files;
      files := files[temporary := FileData([], FileTime(0, 0))];
      if w.fails(BeforeWrite) {
        return Err(Failed(BeforeWrite));
      }
      // `reader.take(size + 1)`: at most one byte too many is ever read.
      var limited := if |source.content| > size + 1 then source.content[..size + 1] else source.content;
      var written := 0;
      var index := 0;
      while written < |limited|
        invariant written <= |limited|
        invariant temporary in files && files[temporary].bytes == limited[..written] && files - {temporary} == before
        invariant written <= size
        decreases |limited| - written
      {
        if w.fails(ReadChunk(index)) {
          return Err(Failed(ReadChunk(index)));
        }
        var available := if |limited| - written < BUFFER_BYTES then |limited| - written else BUFFER_BYTES;
        var wanted := source.chunk(index);
        var read := if wanted < 1 then 1 else if wanted > available then available else wanted;
        if written + read > size {
          return Err(SizeMismatch);
        }
        if w.fails(WriteChunk(index)) {
          return Err(Failed(WriteChunk(index)));
        }
        files := files[temporary :=
            FileData(files[temporary].bytes + limited[written..written + read], FileTime(0, 0))];
        assert limited[..written] + limited[written..written + read] == limited[..written + read];
        written := written + read;
        index := index + 1;
      }
      assert limited[..written] == limited;
      if w.fails(ReadChunk(index)) {
        return Err(Failed(ReadChunk(index)));
      }
      if written != size {
        return Err(SizeMismatch);
      }
      if w.digest(files[temporary].bytes) != record.kind.contentHash {
        return Err(HashMismatch);
      }
      return Ok(());
    }

    /** From the written temporary file to the renamed destination. */
    method Publish(w: World, record: Record, temporary: Path) returns (r: Result<Installed, InstallError>)
      requires temporary in files && IsGood(w, record, files[temporary].bytes) && temporary != record.path
      modifies this
      ensures var content := old(files)[temporary].bytes;
              if InPlace(r) then files == (old(files) - {temporary})[record.path := InstalledData(w, record, content)]
              else files - {temporary} == old(files) - {temporary}
      ensures r.Ok? ==> r.value == Installed(path, InstalledFingerprint(w, record, old(files)[temporary].bytes))
      ensures r.Err? && r.error.PostRenameDurability? ==>
                r.error.installed == Installed(path, InstalledFingerprint(w, record, old(files)[temporary].bytes))
      ensures r.Err? ==> !r.error.UnstableRoot?
      ensures (forall s :: !w.fails(s)) ==> r.Ok?
    {
      if w.fails(AfterWrite) { return Err(Failed(AfterWrite)); }
      if w.fails(Flush) { return Err(Failed(Flush)); }
      if w.fails(BeforeMetadata) { return Err(Failed(BeforeMetadata)); }
      if w.fails(SetTime) { return Err(Failed(SetTime)); }
      var data := files[temporary].(time := w.storeTime(SplitTime(record.modifiedNs)));
      files := files[temporary := data];
      if w.fails(BeforeFileSync) { return Err(Failed(BeforeFileSync)); }
      if w.fails(FileSync) { return Err(Failed(FileSync)); }
      if w.fails(ReadMetadata) { return Err(Failed(ReadMetadata)); }
      var fingerprint := Fingerprint(MetadataNs(data.time), |data.bytes|, record.kind.contentHash);
      if w.fails(BeforeRename) { return Err(Failed(BeforeRename)); }
      if w.fails(ParentRecheck) { return Err(Failed(ParentRecheck)); }
      if w.fails(NameRecheck) { return Err(Failed(NameRecheck)); }
      if w.fails(Rename) { return Err(Failed(Rename)); }
      files := (files - {temporary})[record.path := data];
      var installed := Installed(path, fingerprint);
      if w.fails(AfterRename) || w.fails(DirectorySync) {
        return Err(PostRenameDurability(installed));
      }
      return Ok(installed);
    }

    /** `install_file_with_hook`.  All or nothing under any fault and any chunking: the
        destination holds its old content, or the complete bytes of the declared size and hash;
        the latter exactly when the result is success or a durability failure after the rename.
        Nothing else in the directory changes, and a temporary file is left only when removing
        it failed. */
    method InstallFile(w: World, record: Record, source: Source, temporary: Path)
      returns (r: Result<Installed, InstallError>)
      requires temporary !in files && temporary != record.path
      modifies this
      ensures AllOrNothing(w, record, source.content, temporary, path, old(files), files, r)
      ensures (forall s :: !w.fails(s)) ==>
                if record.kind.Tombstone? then r == Err(IsTombstone)
                else if |source.content| != record.kind.size then r == Err(SizeMismatch)
                else if w.digest(source.content) != record.kind.contentHash then r == Err(HashMismatch)
                else r.Ok?
    {
      if record.kind.Tombstone? { return Err(IsTombstone); }
      if w.fails(RootOpen) { return Err(Failed(RootOpen)); }
      if w.fails(RootStable) { return Err(UnstableRoot); }
      if w.fails(ParentCheck) { return Err(Failed(ParentCheck)); }
      if w.fails(NameCheck) { return Err(Failed(NameCheck)); }
      if w.fails(TemporaryName) { return Err(Failed(TemporaryName)); }
      ghost var before := files;
      var written := WriteTemporary(w, record, source, temporary);
      if written.Err? {
        r := Err(written.error);
      } else {
        r := Publish(w, record, temporary);
      }
      if !(r.Err? && r.error.PostRenameDurability?) && !w.fails(Cleanup) {
        files := files - {temporary};
      }
    }

    method Remove(name: Path)
      modifies this
      ensures files == old(files) - {name}
    {
      files := files - {name};
    }
  }

  // ---------------------------------------------------------------- applying to the store

  /** What `apply_file_fixture_with_hook` records, given how the installation ended. */
  function ApplyTables(t: Tables, record: Record, installed: Result<Installed, InstallError>): (Tables,
      Result<Installed, InstallError>)
  {
    var k := (record.collection, record.path);
    if InPlace(installed) then
      var done := if installed.Ok? then installed.value else installed.error.installed;
      match MarkMaterialized(t, k, done.root, done.fingerprint)
      case Ok(next) => (next, installed)
      case Err(error) => (t, Err(PostRenameState(done, error)))
    else if installed.error.UnstableRoot? then (t, installed)
    else
      match MarkRepair(t, k)
      case Ok(next) => (next, installed)
      case Err(error) => (t, Err(StateFailed(error)))
  }

  /** What an installation put in place is the record's file. */
  predicate RightFile(record: Record, installed: Result<Installed, InstallError>)
  {
    InPlace(installed) ==>
      var done := if installed.Ok? then installed.value else installed.error.installed;
      record.kind.File? && done.fingerprint.size == record.kind.size && done.fingerprint.hash == record.kind.contentHash
  }

  /** The store's side of `apply_file_fixture`. */
  method RecordOutcome(store: RecordTables, record: Record, installed: Result<Installed, InstallError>)
    returns (r: Result<Installed, InstallError>)
    requires store.Valid()
    modifies store
    ensures (store.State(), r) == ApplyTables(old(store.State()), record, installed)
    ensures !InPlace(installed) || (Wins(old(store.rows), record) && RightFile(record, installed)) ==> store.Valid()
  {
    hide RecordOk, RowSound;
    var k := (record.collection, record.path);
    if InPlace(installed) {
      var done := if installed.Ok? then installed.value else installed.error.installed;
      if Wins(store.rows, record) && RightFile(record, installed) {
        MarkingKeepsWellFormed(store.State(), record, done.root, done.fingerprint);
      }
      var marked := store.MarkMaterializedIn(k, done.root, done.fingerprint);
      r := if marked.Err? then Err(PostRenameState(done, marked.error)) else installed;
    } else if installed.error.UnstableRoot? {
      r := installed;
    } else {
      var marked := store.MarkRepairRequired(k);
      r := if marked.Err? then Err(StateFailed(marked.error)) else installed;
    }
  }

  /** `apply_file_fixture`: install, then bring the row into line with what happened.  The row is
      marked materialised exactly when the bytes are in place, marked for repair after any other
      failure, and left alone when the root was unstable. */
  method ApplyFile(store: RecordTables, dir: CollectionRoot, w: World, record: Record, source: Source, temporary: Path)
    returns (r: Result<Installed, InstallError>, installed: Result<Installed, InstallError>)
    requires store.Valid()
    requires temporary !in dir.files && temporary != record.path
    modifies store, dir
    ensures AllOrNothing(w, record, source.content, temporary, dir.path, old(dir.files), dir.files, installed)
    ensures (forall s :: !w.fails(s)) ==> (installed.Ok? <==> IsGood(w, record, source.content))
    ensures (store.State(), r) == ApplyTables(old(store.State()), record, installed)
    ensures Wins(old(store.rows), record) ==> store.Valid()
  {
    installed := dir.InstallFile(w, record, source, temporary);
    r := RecordOutcome(store, record, installed);
  }

  /** The record is the stored winner of its path. */
  predicate Wins(rows: Rows, record: Record)
  {
    var k := (record.collection, record.path);
    k in rows && rows[k].record == record
  }

  lemma {:induction false} MarkingKeepsWellFormed(t: Tables, record: Record, root: Directory, fingerprint: Fingerprint)
    requires WellFormed(t) && Wins(t.rows, record) && record.kind.File?
    requires fingerprint.size == record.kind.size && fingerprint.hash == record.kind.contentHash
    ensures var next := MarkMaterialized(t, (record.collection, record.path), root, fingerprint);
            next.Ok? && WellFormed(next.value) && Wins(next.value.rows, record)
            && next.value.rows[(record.collection, record.path)] == Row(record, true, Some(fingerprint))
            && next.value.collections[record.collection].resolvedRoot == Some(root)
  {
    hide IsUtf8, ParsePath;
    var k := (record.collection, record.path);
    assert k.0 in t.collections && RecordOk(t.rows[k].record);
  }

  /** No echo.  When the winner has been installed and recorded, a pass over that root finds the
      file it installed and leaves the row exactly as it is: it authors nothing for it, however the
      filesystem rounded the time, whatever the time limit and whatever else is on the disk, and
      even if the pass is aborted later on. */
  lemma {:induction false} InstallDoesNotEcho(hash: RecordHashing, t: Tables, w: World, record: Record,
      content: Bytes, p: Pass, files: Files)
    requires WellFormed(t) && Wins(t.rows, record) && IsGood(w, record, content)
    requires FilesOk(files) && p.collection == record.collection && OnDisk(files, record.path)
    requires DiskAt(files, record.path) == Observe(w.digest, InstalledData(w, record, content))
    ensures var k := (record.collection, record.path);
            var fingerprint := InstalledFingerprint(w, record, content);
            var marked := MarkMaterialized(t, k, p.root, fingerprint);
            && marked.Ok?
            && Lookup(ScanTables(hash, marked.value, p, files).0.rows, k) == Some(Row(record, true, Some(fingerprint)))
  {
    hide RecordOk, RowSound, ScanTables;
    var fingerprint := InstalledFingerprint(w, record, content);
    MarkingKeepsWellFormed(t, record, p.root, fingerprint);
    var marked := MarkMaterialized(t, (record.collection, record.path), p.root, fingerprint).value;
    UnchangedFileIsLeftAlone(hash, marked, p, files, record.path);
  }

  /** Nor does it for the files that were there before, if they are unchanged and the root was the
      one on record: installing one file disturbs no other row. */
  lemma {:induction false} InstallDisturbsNoOther(hash: RecordHashing, t: Tables, record: Record,
      fingerprint: Fingerprint, p: Pass, files: Files, path: Path)
    requires WellFormed(t) && Wins(t.rows, record) && record.kind.File? && p.collection == record.collection
    requires fingerprint.size == record.kind.size && fingerprint.hash == record.kind.contentHash
    requires record.collection in t.collections ==> t.collections[record.collection].resolvedRoot == Some(p.root)
    requires FilesOk(files) && path != record.path && OnDisk(files, path)
    requires (p.collection, path) in t.rows && MaterializedFile(t.rows[(p.collection, path)])
    requires t.rows[(p.collection, path)].fingerprint == Some(FingerprintOf(DiskAt(files, path)))
    ensures var marked := MarkMaterialized(t, (record.collection, record.path), p.root, fingerprint);
            && marked.Ok?
            && Lookup(ScanTables(hash, marked.value, p, files).0.rows, (p.collection, path))
               == Some(t.rows[(p.collection, path)])
  {
    hide RecordOk, RowSound, ScanTables;
    MarkingKeepsWellFormed(t, record, p.root, fingerprint);
    var marked := MarkMaterialized(t, (record.collection, record.path), p.root, fingerprint).value;
    assert marked.rows[(p.collection, path)] == t.rows[(p.collection, path)];
    UnchangedFileIsLeftAlone(hash, marked, p, files, path);
  }

  /** Without the stored fingerprint the same scan would author a new record whenever rounding
      moved the time forward: the fingerprint is what prevents the echo. */
  lemma {:induction false} RoundingWouldEcho(hash: RecordHashing, p: Pass, w: World, record: Record, content: Bytes)
    requires IsGood(w, record, content) && RecordOk(record) && p.collection == record.collection
    requires record.modifiedNs < MetadataNs(w.storeTime(SplitTime(record.modifiedNs))) <= FutureLimit(p)
    ensures var disk := Observe(w.digest, InstalledData(w, record, content));
            var row := Row(record, false, None);
            FileStep(hash, p, record.path, Some(row), disk)
            == Ok(Some(NewRow(Record(record.collection, record.path, disk.modifiedNs, p.author, record.kind), true)))
  {
    hide IsUtf8, ParsePath;
  }

  // ---------------------------------------------------------------- carrying out deletions

  /** `materialize_tombstone`: the file is removed, then the deletion is recorded. */
  method MaterializeTombstone(store: RecordTables, dir: CollectionRoot, fails: Stage -> bool, record: Record)
    returns (r: Result<(), InstallError>)
    requires store.Valid()
    modifies store, dir
    ensures store.Valid()
    ensures r.Ok? ==> record.kind.Tombstone? && dir.files == old(dir.files) - {record.path}
                      && MarkTombstone(old(store.State()), (record.collection, record.path)) == Ok(store.State())
    ensures r.Err? ==> store.State() == old(store.State())
    ensures dir.files == old(dir.files) || dir.files == old(dir.files) - {record.path}
  {
    if record.kind.File? { return Err(NotTombstone); }
    if fails(RootOpen) { return Err(Failed(RootOpen)); }
    if fails(RootStable) { return Err(UnstableRoot); }
    if fails(ParentCheck) { return Err(Failed(ParentCheck)); }
    if record.path in dir.files {
      if fails(Rename) { return Err(Failed(Rename)); }
      dir.Remove(record.path);
      if fails(DirectorySync) { return Err(Failed(DirectorySync)); }
    }
    var marked := store.MarkTombstoneMaterialized((record.collection, record.path));
    if marked.Err? {
      return Err(StateFailed(marked.error));
    }
    assert dir.files == old(dir.files) - {record.path};
    return Ok(());
  }
}
