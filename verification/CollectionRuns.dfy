/** Whole histories of a device's collections: attaching, retargeting and detaching roots, scans,
    records from peers, installations and repairs, in any order. */
module CollectionRuns {
  import opened Prelude
  import opened Bytes
  import opened Paths
  import opened Records
  import opened RecordStore
  import opened Scan
  import opened ScanPass
  import opened Install

  datatype Step =
    | AttachStep(name: Name, localPath: Directory, resolved: Option<Directory>)
    | ReplaceStep(name: Name, localPath: Directory)
    | DetachStep(name: Name)
    | ScanStep(pass: Pass, files: Files)
    | RemoteStep(record: Record)
    | InstallStep(record: Record, root: Directory, fingerprint: Fingerprint)
    | RepairStep(key: Key)
    | TombstoneStep(key: Key)

  /** A path was found by a scan of a root of a collection, or installed into it. */
  type Sighting = (Name, Directory, Path)

  /** The tables, and the history of sightings. */
  datatype Device = Device(tables: Tables, seen: set<Sighting>)

  const START: Device := Device(Tables(map[], map[]), {})

  /** What the callers of the store guarantee for a step to be taken at all. */
  ghost predicate Enabled(d: Device, step: Step)
  {
    match step
    case ScanStep(pass, files) => FilesOk(files) && IsUtf8(pass.collection)
    case RemoteStep(record) => RecordOk(record)
    case InstallStep(record, _, fingerprint) =>
      && Wins(d.tables.rows, record) && record.kind.File?
      && fingerprint.size == record.kind.size && fingerprint.hash == record.kind.contentHash
    case _ => true
  }

  function OrSame(t: Tables, next: Result<Tables, StoreError>): Tables
  {
    match next
    case Ok(value) => value
    case Err(_) => t
  }

  ghost function Sightings(pass: Pass, files: Files): set<Sighting>
  {
    set i | 0 <= i < |files| :: (pass.collection, pass.root, files[i].0)
  }

  ghost function After(hash: RecordHashing, d: Device, step: Step): Device
  {
    var t := d.tables;
    match step
    case AttachStep(name, localPath, root) => d.(tables := OrSame(t, AddCollection(t, name, localPath, root)))
    case ReplaceStep(name, localPath) => d.(tables := OrSame(t, ReplacePath(t, name, localPath)))
    case DetachStep(name) => d.(tables := RemoveCollection(t, name))
    case ScanStep(pass, files) => Device(ScanTables(hash, t, pass, files).0, d.seen + Sightings(pass, files))
    case RemoteStep(record) => d.(tables := OrSame(t, Merge(hash, t, record, false)))
    case InstallStep(record, root, fingerprint) =>
      Device(OrSame(t, MarkMaterialized(t, (record.collection, record.path), root, fingerprint)),
             d.seen + {(record.collection, root, record.path)})
    case RepairStep(key) => d.(tables := OrSame(t, MarkRepair(t, key)))
    case TombstoneStep(key) => d.(tables := OrSame(t, MarkTombstone(t, key)))
  }

  /** A materialised file row always means that the path was seen in, or installed into, the
      root its collection resolves to now. */
  ghost predicate Justified(d: Device, k: Key)
    requires k in d.tables.rows
  {
    MaterializedFile(d.tables.rows[k]) ==>
      && k.0 in d.tables.collections
      && d.tables.collections[k.0].resolvedRoot.Some?
      && (k.0, d.tables.collections[k.0].resolvedRoot.value, k.1) in d.seen
  }

  ghost predicate Inv(d: Device)
  {
    WellFormed(d.tables) && forall k :: k in d.tables.rows ==> Justified(d, k)
  }

  // ---------------------------------------------------------------- each kind of step

  lemma {:induction false} KeptFileIsUnchanged(hash: RecordHashing, p: Pass, row: Row)
    ensures MaterializedFile(MissingStep(hash, p, row)) ==> MissingStep(hash, p, row) == row
  {
  }

  /** The rows a scan starts from: a materialised file there was one in the same root before. */
  lemma {:induction false} StartIsJustified(d: Device, pass: Pass, k: Key)
    requires Inv(d)
    requires var started := CompleteScan(d.tables, pass.collection, pass.localPath, pass.root);
             started.Ok? && k in started.value.rows && MaterializedFile(started.value.rows[k])
    ensures k in d.tables.rows
            && d.tables.rows[k] == CompleteScan(d.tables, pass.collection, pass.localPath, pass.root).value.rows[k]
    ensures k.0 in d.tables.collections && d.tables.collections[k.0].resolvedRoot.Some?
    ensures (k.0, d.tables.collections[k.0].resolvedRoot.value, k.1) in d.seen
    ensures k.0 == pass.collection ==> d.tables.collections[k.0].resolvedRoot.value == pass.root
  {
    hide WellFormed;
    assert k in d.tables.rows && Justified(d, k);
  }

  lemma {:induction false} ScanRowJustified(hash: RecordHashing, d: Device, pass: Pass, files: Files, k: Key)
    requires Inv(d) && FilesOk(files)
    requires k in After(hash, d, ScanStep(pass, files)).tables.rows
    ensures Justified(After(hash, d, ScanStep(pass, files)), k)
  {
    hide FileStep, MissingStep, Hidden, WellFormed, Inv, ScanFiles, UnmaterializeFiles;
    var t := d.tables;
    var next := After(hash, d, ScanStep(pass, files));
    var started := CompleteScan(t, pass.collection, pass.localPath, pass.root);
    if started.Err? {
      InvJustifies(d, k);
    } else if MaterializedFile(next.tables.rows[k]) {
      var rows := ScanFiles(hash, pass, started.value.rows, files).0;
      ScanFilesPointwise(hash, pass, started.value.rows, files, k);
      if k.0 == pass.collection && OnDisk(files, k.1) {
        var i :| 0 <= i < |files| && files[i].0 == k.1;
        assert (pass.collection, pass.root, files[i].0) in Sightings(pass, files);
      } else {
        KeptFileIsUnchanged(hash, pass, rows[k]);
        assert Lookup(rows, k) == Lookup(started.value.rows, k);
        StartIsJustified(d, pass, k);
      }
    }
  }

  lemma {:induction false} InvJustifies(d: Device, k: Key)
    requires Inv(d) && k in d.tables.rows
    ensures Justified(d, k)
  {
  }

  lemma {:induction false} CollectionStepKeepsInv(hash: RecordHashing, d: Device, step: Step)
    requires Inv(d) && (step.AttachStep? || step.ReplaceStep? || step.DetachStep?)
    ensures Inv(After(hash, d, step))
  {
    hide RecordOk, RowSound;
    var next := After(hash, d, step);
    SoundWithoutMaterialization();
    forall k | k in next.tables.rows
      ensures Justified(next, k)
    {
      InvJustifies(d, k);
    }
  }

  lemma {:induction false} SoundWithoutMaterialization()
    ensures forall row: Row {:trigger Unmaterialize(row)} :: RowSound(row) && row.record.kind.File? ==>
            RowSound(Unmaterialize(row))
  {
  }

  lemma {:induction false} RowStepKeepsInv(hash: RecordHashing, d: Device, step: Step)
    requires Inv(d) && Enabled(d, step) && (step.RemoteStep? || step.RepairStep? || step.TombstoneStep?)
    ensures Inv(After(hash, d, step))
  {
    hide IsUtf8, ParsePath, CompareWinner, RecordOk;
    var next := After(hash, d, step);
    forall k | k in next.tables.rows
      ensures Justified(next, k)
    {
      if k in d.tables.rows {
        InvJustifies(d, k);
      }
    }
  }

  lemma {:induction false} InstallKeepsInv(hash: RecordHashing, d: Device, record: Record, root: Directory,
      fingerprint: Fingerprint)
    requires Inv(d) && Enabled(d, InstallStep(record, root, fingerprint))
    ensures Inv(After(hash, d, InstallStep(record, root, fingerprint)))
  {
    hide RecordOk, RowSound;
    MarkingKeepsWellFormed(d.tables, record, root, fingerprint);
    var next := After(hash, d, InstallStep(record, root, fingerprint));
    forall k | k in next.tables.rows
      ensures Justified(next, k)
    {
      assert k in d.tables.rows && Justified(d, k);
    }
  }

  lemma {:induction false} StepKeepsInv(hash: RecordHashing, d: Device, step: Step)
    requires Inv(d) && Enabled(d, step)
    ensures Inv(After(hash, d, step))
  {
    hide WellFormed, ScanTables;
    match step
    case ScanStep(pass, files) =>
      ScanKeepsWellFormed(hash, d.tables, pass, files);
      forall k | k in After(hash, d, step).tables.rows
        ensures Justified(After(hash, d, step), k)
      {
        ScanRowJustified(hash, d, pass, files, k);
      }
    case InstallStep(record, root, fingerprint) => InstallKeepsInv(hash, d, record, root, fingerprint);
    case AttachStep(_, _, _) => CollectionStepKeepsInv(hash, d, step);
    case ReplaceStep(_, _) => CollectionStepKeepsInv(hash, d, step);
    case DetachStep(_) => CollectionStepKeepsInv(hash, d, step);
    case _ => RowStepKeepsInv(hash, d, step);
  }

  // ---------------------------------------------------------------- deletions

  /** The scan step replaced the winner at `k` by a tombstone. */
  ghost predicate Deletes(hash: RecordHashing, d: Device, step: Step, k: Key)
  {
    && step.ScanStep?
    && k in After(hash, d, step).tables.rows
    && After(hash, d, step).tables.rows[k].record.kind.Tombstone?
    && (k in d.tables.rows ==> d.tables.rows[k].record != After(hash, d, step).tables.rows[k].record)
  }

  /** No invented deletions: a scan authors a tombstone only for a path that had been seen in, or
      installed into, the very root it scanned, that the completed scan did not find there, and
      that is neither ignored nor below an excluded place. */
  lemma {:induction false} DeletionsAreWarranted(hash: RecordHashing, d: Device, step: Step, k: Key)
    requires Inv(d) && Enabled(d, step) && Deletes(hash, d, step, k)
    ensures var pass := step.pass;
            && k.0 == pass.collection
            && ScanTables(hash, d.tables, pass, step.files).1.Ok?
            && !OnDisk(step.files, k.1) && !Hidden(pass, k.1)
            && k in d.tables.rows && MaterializedFile(d.tables.rows[k])
            && d.tables.collections[k.0].resolvedRoot == Some(pass.root)
            && (k.0, pass.root, k.1) in d.seen
  {
    hide Hidden, RecordOk, RowSound, FutureLimit;
    var pass, files := step.pass, step.files;
    var started := CompleteScan(d.tables, pass.collection, pass.localPath, pass.root);
    if started.Ok? {
      ScanFilesPointwise(hash, pass, started.value.rows, files, k);
      if k.0 == pass.collection && OnDisk(files, k.1) {
        StepAuthorsNoTombstone(hash, pass, k.1, Lookup(started.value.rows, k), DiskAt(files, k.1));
      }
      assert k in d.tables.rows && Justified(d, k);
    }
  }

  lemma {:induction false} StepAuthorsNoTombstone(hash: RecordHashing, p: Pass, path: Path, row: Option<Row>,
      disk: DiskFile)
    requires FileStep(hash, p, path, row, disk).Ok?
    ensures var after := FileStep(hash, p, path, row, disk).value;
            after.Some? && after.value.record.kind.Tombstone? ==> row.Some? && row.value.record == after.value.record
  {
  }

  // ---------------------------------------------------------------- whole histories

  ghost predicate IsRun(hash: RecordHashing, devices: seq<Device>, steps: seq<Step>)
  {
    && |devices| == |steps| + 1
    && devices[0] == START
    && forall i :: 0 <= i < |steps| ==> Follows(hash, devices[i], steps[i], devices[i + 1])
  }

  ghost predicate Follows(hash: RecordHashing, d: Device, step: Step, next: Device)
  {
    Enabled(d, step) && next == After(hash, d, step)
  }

  lemma {:induction false} RunsKeepInv(hash: RecordHashing, devices: seq<Device>, steps: seq<Step>, n: nat)
    requires IsRun(hash, devices, steps) && n < |devices|
    ensures Inv(devices[n])
    decreases n
  {
    hide Inv, After;
    if n > 0 {
      RunsKeepInv(hash, devices, steps, n - 1);
      var i := n - 1;
      assert Follows(hash, devices[i], steps[i], devices[i + 1]);
      StepKeepsInv(hash, devices[i], steps[i]);
    } else {
      StartKeepsInv();
    }
  }

  lemma {:induction false} StartKeepsInv()
    ensures Inv(START)
  {
  }

  /** The step is a scan of the root that found the path, or an installation into it. */
  ghost predicate Sees(step: Step, s: Sighting)
  {
    match step
    case ScanStep(pass, files) => pass.collection == s.0 && pass.root == s.1 && OnDisk(files, s.2)
    case InstallStep(record, root, _) => record.collection == s.0 && root == s.1 && record.path == s.2
    case _ => false
  }

  lemma {:induction false} SightingsHaveSources(hash: RecordHashing, devices: seq<Device>, steps: seq<Step>, n: nat,
      s: Sighting)
    requires IsRun(hash, devices, steps) && n < |devices| && s in devices[n].seen
    ensures exists i :: 0 <= i < n && Sees(steps[i], s)
    decreases n
  {
    if n > 0 {
      var i := n - 1;
      assert Follows(hash, devices[i], steps[i], devices[i + 1]);
      if s in devices[i].seen {
        SightingsHaveSources(hash, devices, steps, i, s);
        var j :| 0 <= j < i && Sees(steps[j], s);
        assert Sees(steps[j], s);
      } else {
        assert Sees(steps[i], s);
      }
    }
  }

  /** The root a materialised file row vouches for. */
  ghost predicate VouchesFor(d: Device, k: Key, root: Directory)
  {
    && k in d.tables.rows && MaterializedFile(d.tables.rows[k])
    && RootIs(d, k.0, root)
  }

  /** The collection is attached and resolves to this root. */
  predicate RootIs(d: Device, name: Name, root: Directory)
  {
    name in d.tables.collections && d.tables.collections[name].resolvedRoot == Some(root)
  }

  /** Where a materialised file row comes from: the step itself saw the path in the root, or the
      row was materialised before it already, under that same root. */
  lemma {:induction false} RowHasSource(hash: RecordHashing, d: Device, step: Step, k: Key, root: Directory)
    requires Inv(d) && Enabled(d, step) && VouchesFor(After(hash, d, step), k, root)
    ensures Sees(step, (k.0, root, k.1)) || VouchesFor(d, k, root)
  {
    hide WellFormed, ScanTables;
    match step
    case ScanStep(pass, files) => ScannedRowHasSource(hash, d, pass, files, k, root);
    case InstallStep(record, r, fingerprint) =>
      assert k in d.tables.rows && Justified(d, k);
    case _ =>
      assert k in d.tables.rows ==> Justified(d, k);
  }

  lemma {:induction false} ScannedRowHasSource(hash: RecordHashing, d: Device, pass: Pass, files: Files, k: Key,
      root: Directory)
    requires Inv(d) && FilesOk(files) && VouchesFor(After(hash, d, ScanStep(pass, files)), k, root)
    ensures Sees(ScanStep(pass, files), (k.0, root, k.1)) || VouchesFor(d, k, root)
  {
    hide FileStep, MissingStep, Hidden, WellFormed, Inv, ScanFiles, UnmaterializeFiles, OnDisk;
    var t := d.tables;
    var next := After(hash, d, ScanStep(pass, files));
    var started := CompleteScan(t, pass.collection, pass.localPath, pass.root);
    if started.Ok? {
      var rows := ScanFiles(hash, pass, started.value.rows, files).0;
      ScanFilesPointwise(hash, pass, started.value.rows, files, k);
      if !(k.0 == pass.collection && OnDisk(files, k.1)) {
        KeptFileIsUnchanged(hash, pass, rows[k]);
        assert Lookup(rows, k) == Lookup(started.value.rows, k);
        StartIsJustified(d, pass, k);
      }
    }
  }

  /** Since some step, the collection has always been attached and resolved to the root. */
  ghost predicate HeldSince(devices: seq<Device>, from: nat, to: nat, name: Name, root: Directory)
    requires to < |devices|
  {
    forall j :: from < j <= to ==> RootIs(devices[j], name, root)
  }

  /** Behind every materialised file row stands an earlier step that saw the path in the root the
      row vouches for, and from then on the collection never left that root. */
  lemma {:induction false} RowsHaveHistory(hash: RecordHashing, devices: seq<Device>, steps: seq<Step>, n: nat,
      k: Key, root: Directory)
    requires IsRun(hash, devices, steps) && n < |devices| && VouchesFor(devices[n], k, root)
    ensures exists i :: 0 <= i < n && Sees(steps[i], (k.0, root, k.1)) && HeldSince(devices, i, n, k.0, root)
    decreases n
  {
    hide Inv, After, Sees;
    if n > 0 {
      var i := n - 1;
      assert Follows(hash, devices[i], steps[i], devices[i + 1]);
      RunsKeepInv(hash, devices, steps, i);
      RowHasSource(hash, devices[i], steps[i], k, root);
      if Sees(steps[i], (k.0, root, k.1)) {
        assert HeldSince(devices, i, n, k.0, root);
      } else {
        RowsHaveHistory(hash, devices, steps, i, k, root);
        var j :| 0 <= j < i && Sees(steps[j], (k.0, root, k.1)) && HeldSince(devices, j, i, k.0, root);
        assert HeldSince(devices, j, n, k.0, root);
      }
    }
  }

  /** Over whole histories: whenever a scan deletes a path, an earlier step of the same history
      scanned that same root and found the path, or installed the path into it; from that step to
      the deletion the collection stayed attached and resolved to that root; and the deleting scan
      completed without finding the path. */
  lemma {:induction false} DeletionsHaveHistory(hash: RecordHashing, devices: seq<Device>, steps: seq<Step>, n: nat,
      k: Key)
    requires IsRun(hash, devices, steps) && n < |steps| && Deletes(hash, devices[n], steps[n], k)
    ensures !OnDisk(steps[n].files, k.1)
    ensures ScanTables(hash, devices[n].tables, steps[n].pass, steps[n].files).1.Ok?
    ensures var root := steps[n].pass.root;
            exists i :: 0 <= i < n && Sees(steps[i], (k.0, root, k.1)) && HeldSince(devices, i, n, k.0, root)
  {
    hide Deletes, ScanTables, Inv, Sees, HeldSince;
    RunsKeepInv(hash, devices, steps, n);
    assert Follows(hash, devices[n], steps[n], devices[n + 1]);
    assert steps[n].ScanStep? by { DeletesIsScan(hash, devices[n], steps[n], k); }
    DeletionsAreWarranted(hash, devices[n], steps[n], k);
    AttachedRows(devices[n], k);
    RowsHaveHistory(hash, devices, steps, n, k, steps[n].pass.root);
  }

  lemma {:induction false} AttachedRows(d: Device, k: Key)
    requires Inv(d) && k in d.tables.rows
    ensures k.0 in d.tables.collections
  {
    hide RecordOk, RowSound;
  }

  lemma {:induction false} DeletesIsScan(hash: RecordHashing, d: Device, step: Step, k: Key)
    requires Deletes(hash, d, step, k)
    ensures step.ScanStep?
  {
  }
}
