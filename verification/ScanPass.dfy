/** Whole scan passes: the method with its two loops, and what a completed pass guarantees. */
module ScanPass {
  import opened Prelude
  import opened Bytes
  import opened Paths
  import opened Records
  import opened RecordStore
  import opened Scan

  /** What the directory walk hands over: distinct protocol paths. */
  ghost predicate FilesOk(files: Files)
  {
    Distinct(files) && forall i :: 0 <= i < |files| ==> IsUtf8(files[i].0) && ParsePath(files[i].0).Ok?
  }

  // ---------------------------------------------------------------- what a pass guarantees

  lemma {:induction false} CompleteScanKeepsWellFormed(t: Tables, p: Pass)
    requires WellFormed(t)
    ensures CompleteScan(t, p.collection, p.localPath, p.root).Ok? ==>
              WellFormed(CompleteScan(t, p.collection, p.localPath, p.root).value)
  {
  }

  lemma {:induction false} ScanFilesKeepsWellFormed(hash: RecordHashing, t: Tables, p: Pass, files: Files)
    requires WellFormed(t) && FilesOk(files) && IsUtf8(p.collection) && p.collection in t.collections
    ensures WellFormed(t.(rows := ScanFiles(hash, p, t.rows, files).0))
    decreases |files|
  {
    hide FileStep, RowSound, RecordOk;
    if |files| > 0 {
      var path, key := files[0].0, (p.collection, files[0].0);
      match FileStep(hash, p, path, Lookup(t.rows, key), files[0].1)
      case Err(_) => assert t.(rows := t.rows) == t;
      case Ok(row) =>
        if row.Some? {
          StepKeepsSound(hash, p, path, Lookup(t.rows, key), files[0].1);
        }
        ScanFilesKeepsWellFormed(hash, t.(rows := Put(t.rows, key, row)), p, files[1..]);
    } else {
      assert t.(rows := t.rows) == t;
    }
  }

  lemma {:induction false} MissingStepKeepsSound(hash: RecordHashing, p: Pass, row: Row)
    requires RowSound(row) && RecordOk(row.record)
    ensures var after := MissingStep(hash, p, row);
            && RowSound(after) && RecordOk(after.record)
            && after.record.collection == row.record.collection && after.record.path == row.record.path
  {
    hide Hidden, IsUtf8, ParsePath;
  }

  /** A pass, successful or aborted, leaves the tables well formed. */
  lemma {:induction false} ScanKeepsWellFormed(hash: RecordHashing, t: Tables, p: Pass, files: Files)
    requires WellFormed(t) && FilesOk(files) && IsUtf8(p.collection)
    ensures WellFormed(ScanTables(hash, t, p, files).0)
  {
    hide MissingStep, RowSound, RecordOk, FileStep;
    CompleteScanKeepsWellFormed(t, p);
    var started := CompleteScan(t, p.collection, p.localPath, p.root);
    if started.Ok? {
      var start := started.value;
      ScanFilesKeepsWellFormed(hash, start, p, files);
      var (rows, result) := ScanFiles(hash, p, start.rows, files);
      var after := ScanMissing(hash, p, rows, files);
      if result.Ok? {
        forall k | k in after
          ensures k == (after[k].record.collection, after[k].record.path)
          ensures k.0 in start.collections && RecordOk(after[k].record) && RowSound(after[k])
        {
          assert k in start.(rows := rows).rows;
          MissingStepKeepsSound(hash, p, rows[k]);
        }
      }
    }
  }

  /** The rows a pass starts from, once the resolved root is settled. */
  function StartRows(t: Tables, p: Pass): Rows
    requires p.collection in t.collections
  {
    if t.collections[p.collection].resolvedRoot == Some(p.root) then t.rows
       else UnmaterializeFiles(t.rows, p.collection, None)
  }

  /** After a completed pass the index agrees with the disk.  A file within the time limit either
      is the recorded materialised file, or lost to a kept winner that is not materialised; a
      path that is gone and not hidden is not a materialised file unless its winner carries the
      last representable timestamp; other collections are untouched. */
  lemma {:induction false} IndexAgreesWithDisk(hash: RecordHashing, t: Tables, p: Pass, files: Files, path: Path)
    requires WellFormed(t) && FilesOk(files)
    requires ScanTables(hash, t, p, files).1.Ok?
    ensures p.collection in t.collections
    ensures var k := (p.collection, path);
            var before, after := Lookup(StartRows(t, p), k), Lookup(ScanTables(hash, t, p, files).0.rows, k);
            if OnDisk(files, path) then
              DiskAt(files, path).modifiedNs <= FutureLimit(p) ==>
                after.Some? && Agrees(hash, p, path, before, DiskAt(files, path), after.value)
            else
              && (after.Some? <==> before.Some?)
              && (before.Some? ==> after.value == MissingStep(hash, p, before.value))
              && (after.Some? && MaterializedFile(after.value) && !Hidden(p, path) ==>
                 after.value.record.modifiedNs == I64_MAX)
    ensures forall k: Key :: k.0 != p.collection ==>
            Lookup(ScanTables(hash, t, p, files).0.rows, k) == Lookup(t.rows, k)
  {
    hide FileStep, MissingStep, Agrees, Hidden, RowSound, RecordOk;
    var start := CompleteScan(t, p.collection, p.localPath, p.root).value;
    CompleteScanKeepsWellFormed(t, p);
    var k := (p.collection, path);
    ScanFilesPointwise(hash, p, start.rows, files, k);
    if OnDisk(files, path) {
      var disk := DiskAt(files, path);
      if disk.modifiedNs <= FutureLimit(p) {
        StepAgreesWithDisk(hash, p, path, Lookup(start.rows, k), disk);
      }
    } else if k in start.rows {
      DeletedUnlessLast(hash, p, start.rows[k]);
    }
    forall j: Key | j.0 != p.collection
      ensures Lookup(ScanTables(hash, t, p, files).0.rows, j) == Lookup(t.rows, j)
    {
      ScanFilesPointwise(hash, p, start.rows, files, j);
    }
  }

  lemma {:induction false} DeletedUnlessLast(hash: RecordHashing, p: Pass, row: Row)
    ensures var after := MissingStep(hash, p, row);
            MaterializedFile(after) && !Hidden(p, row.record.path) ==> after.record.modifiedNs == I64_MAX
  {
    hide Hidden;
    if MaterializedFile(row) && !Hidden(p, row.record.path) {
      MissingFileIsDeleted(hash, p, row);
    }
  }

  /** A pass fails only before it starts, on a record it cannot construct, or on a file dated
      beyond the limit at a deletion that was already carried out. */
  lemma {:induction false} PassFails(hash: RecordHashing, t: Tables, p: Pass, files: Files)
    requires WellFormed(t) && FilesOk(files)
    requires p.collection in t.collections && p.localPath != []
    requires forall i :: 0 <= i < |files| ==>
               NewRecord(p.collection, files[i].0, files[i].1.modifiedNs, p.author,
                   File(files[i].1.size, files[i].1.hash)).Ok?
    ensures ScanTables(hash, t, p, files).1.Err? <==>
            exists i :: 0 <= i < |files| && files[i].1.modifiedNs > FutureLimit(p)
                        && DeletionDone(t, (p.collection, files[i].0))
  {
    hide FileStep, RecordOk;
    var start := CompleteScan(t, p.collection, p.localPath, p.root).value;
    CompleteScanKeepsWellFormed(t, p);
    ScanFilesFails(hash, p, start.rows, files);
    forall i | 0 <= i < |files|
      ensures FileStep(hash, p, files[i].0, Lookup(start.rows, (p.collection, files[i].0)), files[i].1).Err? <==>
              files[i].1.modifiedNs > FutureLimit(p) && DeletionDone(t, (p.collection, files[i].0))
    {
      StepFails(hash, p, files[i].0, Lookup(start.rows, (p.collection, files[i].0)), files[i].1);
    }
  }

  /** The winner at the key is a tombstone that was carried out. */
  predicate DeletionDone(t: Tables, k: Key)
  {
    k in t.rows && t.rows[k].record.kind.Tombstone? && t.rows[k].materialized
  }

  /** Two passes over one disk that see the same hidden paths and the same files as too late. */
  ghost predicate SameView(p: Pass, q: Pass, files: Files)
  {
    && p.collection == q.collection && p.author == q.author && p.root == q.root && p.localPath == q.localPath
    && (forall path :: Hidden(p, path) <==> Hidden(q, path))
    && (forall i :: 0 <= i < |files| ==>
       (files[i].1.modifiedNs > FutureLimit(p) <==> files[i].1.modifiedNs > FutureLimit(q)))
  }

  /** The root is settled by the first pass, so the second starts from the rows the first left. */
  lemma {:induction false} SecondPassStart(hash: RecordHashing, t: Tables, p: Pass, files: Files)
    requires ScanTables(hash, t, p, files).1.Ok?
    ensures var once := ScanTables(hash, t, p, files).0;
            CompleteScan(once, p.collection, p.localPath, p.root) == Ok(once)
  {
    hide ScanFiles, ScanMissing;
    var once := ScanTables(hash, t, p, files).0;
    var done := Collection(p.localPath, Some(p.root), Active);
    assert once.collections[p.collection] == done;
    assert once.collections[p.collection := done] == once.collections;
  }

  lemma {:induction false} SecondFileStep(hash: RecordHashing, t: Tables, p: Pass, q: Pass, files: Files, i: nat)
    requires WellFormed(t) && FilesOk(files) && SameView(p, q, files) && i < |files|
    requires ScanTables(hash, t, p, files).1.Ok?
    ensures var row := Lookup(ScanTables(hash, t, p, files).0.rows, (p.collection, files[i].0));
            FileStep(hash, q, files[i].0, row, files[i].1) == Ok(row)
  {
    hide FileStep, Hidden, RowSound, RecordOk, FutureLimit;
    var start := CompleteScan(t, p.collection, p.localPath, p.root).value;
    CompleteScanKeepsWellFormed(t, p);
    var k := (p.collection, files[i].0);
    assert OnDisk(files, k.1) && DiskAt(files, k.1) == files[i].1;
    ScanFilesPointwise(hash, p, start.rows, files, k);
    SecondStepIsIdle(hash, p, q, k.1, Lookup(start.rows, k), files[i].1);
  }

  /** A second pass over the same disk, with no file crossing the time limit in between, succeeds
      and changes no row at all. */
  lemma {:induction false} SecondPassIsIdle(hash: RecordHashing, t: Tables, p: Pass, q: Pass, files: Files)
    requires WellFormed(t) && FilesOk(files) && SameView(p, q, files)
    requires ScanTables(hash, t, p, files).1.Ok?
    ensures ScanTables(hash, ScanTables(hash, t, p, files).0, q, files) == (ScanTables(hash, t, p, files).0, Ok(()))
  {
    hide FileStep, MissingStep, Hidden, RowSound, RecordOk, FutureLimit;
    var start := CompleteScan(t, p.collection, p.localPath, p.root).value;
    CompleteScanKeepsWellFormed(t, p);
    var once := ScanTables(hash, t, p, files).0;
    var twice := ScanTables(hash, once, q, files).0;
    SecondPassStart(hash, t, p, files);
    forall i | 0 <= i < |files|
      ensures FileStep(hash, q, files[i].0, Lookup(once.rows, (q.collection, files[i].0)), files[i].1).Ok?
    {
      SecondFileStep(hash, t, p, q, files, i);
    }
    ScanFilesFails(hash, q, once.rows, files);
    forall k: Key
      ensures Lookup(twice.rows, k) == Lookup(once.rows, k)
    {
      ScanFilesPointwise(hash, p, start.rows, files, k);
      ScanFilesPointwise(hash, q, once.rows, files, k);
      if k.0 == p.collection {
        if OnDisk(files, k.1) {
          var i :| 0 <= i < |files| && files[i].0 == k.1;
          assert DiskAt(files, k.1) == files[i].1;
          SecondFileStep(hash, t, p, q, files, i);
        } else if k in start.rows {
          SecondMissingStepIsIdle(hash, p, q, start.rows[k]);
        }
      }
    }
    SameLookups(twice.rows, once.rows);
  }

  lemma {:induction false} SameLookups(a: Rows, b: Rows)
    requires forall k: Key :: Lookup(a, k) == Lookup(b, k)
    ensures a == b
  {
    forall k: Key
      ensures k in a <==> k in b
      ensures k in a ==> a[k] == b[k]
    {
      assert Lookup(a, k) == Lookup(b, k);
    }
  }

  // ---------------------------------------------------------------- unchanged files

  /** On a pass over the root on record, a materialised file whose fingerprint still is the disk's
      keeps its row exactly as it was, whatever the rest of the disk holds, whatever the time
      limit, and whether the pass finishes or is aborted. */
  lemma {:induction false} UnchangedFileIsLeftAlone(hash: RecordHashing, t: Tables, p: Pass, files: Files, path: Path)
    requires WellFormed(t) && FilesOk(files)
    requires (p.collection, path) in t.rows && MaterializedFile(t.rows[(p.collection, path)])
    requires p.collection in t.collections ==> t.collections[p.collection].resolvedRoot == Some(p.root)
    requires OnDisk(files, path)
    requires t.rows[(p.collection, path)].fingerprint == Some(FingerprintOf(DiskAt(files, path)))
    ensures Lookup(ScanTables(hash, t, p, files).0.rows, (p.collection, path)) == Some(t.rows[(p.collection, path)])
  {
    hide FileStep, FutureLimit, RecordOk, RowSound;
    var k := (p.collection, path);
    var started := CompleteScan(t, p.collection, p.localPath, p.root);
    if started.Ok? {
      assert started.value.rows == t.rows;
      ScanFilesPointwise(hash, p, t.rows, files, k);
      assert k.0 in t.collections && RecordOk(t.rows[k].record) && RowSound(t.rows[k]);
      UnchangedStep(hash, p, t.rows[k], DiskAt(files, path));
    }
  }

  lemma {:induction false} UnchangedStep(hash: RecordHashing, p: Pass, row: Row, disk: DiskFile)
    requires RowSound(row) && RecordOk(row.record) && MaterializedFile(row)
    requires p.collection == row.record.collection && row.fingerprint == Some(FingerprintOf(disk))
    ensures FileStep(hash, p, row.record.path, Some(row), disk) == Ok(Some(row))
  {
    hide IsUtf8, ParsePath;
  }

  /** A disk that holds exactly what the index says, under the root on record: every listed file
      is a materialised row with that very fingerprint, and every visible one is listed. */
  ghost predicate Faithful(t: Tables, p: Pass, files: Files)
  {
    && (forall i :: 0 <= i < |files| ==>
          var k := (p.collection, files[i].0);
          k in t.rows && MaterializedFile(t.rows[k]) && t.rows[k].fingerprint == Some(FingerprintOf(files[i].1)))
    && (forall k :: k in t.rows && k.0 == p.collection && MaterializedFile(t.rows[k]) && !Hidden(p, k.1) ==>
          OnDisk(files, k.1))
  }

  /** A pass over a faithful disk authors nothing: no row of any collection changes. */
  lemma {:induction false} FaithfulDiskIsIdle(hash: RecordHashing, t: Tables, p: Pass, files: Files)
    requires WellFormed(t) && FilesOk(files) && Faithful(t, p, files)
    requires p.collection in t.collections && t.collections[p.collection].resolvedRoot == Some(p.root)
    ensures ScanTables(hash, t, p, files).0.rows == t.rows
  {
    hide FileStep, MissingStep, Hidden, FutureLimit, RecordOk, RowSound;
    var after := ScanTables(hash, t, p, files).0.rows;
    forall k: Key
      ensures Lookup(after, k) == Lookup(t.rows, k)
    {
      ScanFilesPointwise(hash, p, t.rows, files, k);
      if k.0 == p.collection && OnDisk(files, k.1) {
        var i :| 0 <= i < |files| && files[i].0 == k.1;
        assert DiskAt(files, k.1) == files[i].1;
        UnchangedFileIsLeftAlone(hash, t, p, files, k.1);
      } else if k in t.rows {
        FaithfulMissingStep(hash, t, p, files, k);
      }
    }
    SameLookups(after, t.rows);
  }

  lemma {:induction false} FaithfulMissingStep(hash: RecordHashing, t: Tables, p: Pass, files: Files, k: Key)
    requires WellFormed(t) && Faithful(t, p, files) && k in t.rows && !(k.0 == p.collection && OnDisk(files, k.1))
    ensures k.0 == p.collection ==> MissingStep(hash, p, t.rows[k]) == t.rows[k]
  {
    hide Hidden, RecordOk, RowSound;
  }

  // ---------------------------------------------------------------- the method

  /** The body of the first loop, for one file, given the row as it was when the pass began. */
  method ScanFile(store: RecordTables, p: Pass, path: Path, disk: DiskFile, current: Option<Row>)
    returns (r: Result<(), ScanError>)
    requires store.Valid() && p.collection in store.collections
    requires IsUtf8(p.collection) && IsUtf8(path) && ParsePath(path).Ok?
    requires current == Lookup(store.rows, (p.collection, path))
    modifies store
    ensures store.Valid() && store.collections == old(store.collections)
    ensures match FileStep(store.hash, p, path, current, disk)
            case Ok(row) => r == Ok(()) && store.rows == Put(old(store.rows), (p.collection, path), row)
            case Err(error) => r == Err(error) && store.rows == old(store.rows)
  {
    hide Hidden, IsUtf8, ParsePath, LexLess;
    var k := (p.collection, path);
    if current.None? {
      assert store.rows - {k} == store.rows;
    } else {
      assert store.rows[k := store.rows[k]] == store.rows;
    }
    if disk.modifiedNs > FutureLimit(p) {
      if current.Some? && current.value.materialized && !BytesMatch(disk, current.value.record) {
        var marked := store.MarkRepairRequired(k);
        if marked.Err? {
          return Err(StoreFailed(marked.error));
        }
      }
      return Ok(());
    }
    var candidate := NewRecord(p.collection, path, disk.modifiedNs, p.author, File(disk.size, disk.hash));
    if candidate.Err? {
      return Err(RecordFailed(candidate.error));
    }
    if current.None? {
      var _ := store.MergeRecord(candidate.value, true);
      return Ok(());
    }
    var winner := current.value.record;
    var durableMatch := current.value.fingerprint == Some(FingerprintOf(disk));
    if durableMatch || Matches(disk, winner) {
      var set_ := store.SetMaterializedFingerprint(k, FingerprintOf(disk));
      return Ok(());
    }
    var accepted := store.MergeRecord(candidate.value, true);
    if accepted == Ok(false) {
      if winner.kind.File? {
        var _ := store.MarkRepairRequired(k);
      }
    }
    return Ok(());
  }

  /** The first loop: every file on disk. */
  method ScanAll(store: RecordTables, p: Pass, files: Files) returns (r: Result<(), ScanError>)
    requires store.Valid() && FilesOk(files) && IsUtf8(p.collection) && p.collection in store.collections
    modifies store
    ensures store.Valid() && store.collections == old(store.collections)
    ensures (store.rows, r) == ScanFiles(store.hash, p, old(store.rows), files)
  {
    hide FileStep, WellFormed;
    var current := store.rows;
    var i := 0;
    assert files[0..] == files;
    while i < |files|
      invariant 0 <= i <= |files|
      invariant store.Valid() && store.collections == old(store.collections)
      invariant ScanFiles(store.hash, p, current, files) == ScanFiles(store.hash, p, store.rows, files[i..])
      invariant forall j :: i <= j < |files| ==>
                  Lookup(store.rows, (p.collection, files[j].0)) == Lookup(current, (p.collection, files[j].0))
    {
      assert files[i..][0] == files[i] && files[i..][1..] == files[i + 1..];
      var k := (p.collection, files[i].0);
      var scanned := ScanFile(store, p, files[i].0, files[i].1, Lookup(current, k));
      if scanned.Err? {
        return Err(scanned.error);
      }
      i := i + 1;
    }
    return Ok(());
  }

  /** `scan_collection`, after the walk: the root is settled, then the files, then the winners
      that are gone. */
  method ScanCollection(store: RecordTables, p: Pass, files: Files) returns (r: Result<(), ScanError>)
    requires store.Valid() && FilesOk(files) && IsUtf8(p.collection)
    modifies store
    ensures store.Valid()
    ensures (store.State(), r) == ScanTables(store.hash, old(store.State()), p, files)
  {
    hide FileStep, WellFormed;
    var completed := store.CompleteCollectionScan(p.collection, p.localPath, p.root);
    if completed.Err? {
      return Err(StoreFailed(completed.error));
    }
    ghost var start := store.State();
    var current := store.rows;
    var scanned := ScanAll(store, p, files);
    if scanned.Err? {
      return Err(scanned.error);
    }
    forall k: Key | k.0 == p.collection && !OnDisk(files, k.1)
      ensures Lookup(store.rows, k) == Lookup(current, k)
    {
      ScanFilesPointwise(store.hash, p, start.rows, files, k);
    }
    DeleteMissing(store, p, files, current);
    return Ok(());
  }

  /** Authors the tombstone for one winner that is gone. */
  method DeleteOne(store: RecordTables, p: Pass, k: Key, row: Row)
    requires store.Valid() && p.collection in store.collections && k.0 == p.collection
    requires Lookup(store.rows, k) == Some(row)
    modifies store
    ensures store.Valid() && store.collections == old(store.collections)
    ensures store.rows == old(store.rows)[k := MissingStep(store.hash, p, row)]
  {
    hide Hidden, IsUtf8, ParsePath, LexLess;
    assert store.rows[k := row] == store.rows;
    assert RecordOk(row.record) && k == (row.record.collection, row.record.path);
    if MaterializedFile(row) && !Hidden(p, row.record.path) {
      var tombstone := TombstoneFor(p, row.record);
      assert RecordOk(tombstone);
      var _ := store.MergeRecord(tombstone, true);
    }
  }

  /** The second loop: tombstones for materialised winners that are no longer on disk. */
  method DeleteMissing(store: RecordTables, p: Pass, files: Files, current: Rows)
    requires store.Valid() && p.collection in store.collections
    requires forall k: Key :: k.0 == p.collection && !OnDisk(files, k.1) ==> Lookup(store.rows, k) == Lookup(current, k)
    modifies store
    ensures store.Valid() && store.collections == old(store.collections)
    ensures store.rows == ScanMissing(store.hash, p, old(store.rows), files)
  {
    hide MissingStep, WellFormed;
    ghost var before := store.rows;
    ghost var after := ScanMissing(store.hash, p, before, files);
    var pending := set k | k in current && k.0 == p.collection;
    while pending != {}
      invariant forall k :: k in pending ==> k in current && k.0 == p.collection
      invariant store.Valid() && store.collections == old(store.collections)
      invariant store.rows.Keys == before.Keys
      invariant forall k :: k in before ==> store.rows[k] == if k in pending then before[k] else after[k]
      decreases pending
    {
      var k :| k in pending;
      pending := pending - {k};
      var onDisk := exists i :: 0 <= i < |files| && files[i].0 == k.1;
      assert onDisk <==> OnDisk(files, k.1);
      if !onDisk {
        assert Lookup(before, k) == Lookup(current, k);
        DeleteOne(store, p, k, current[k]);
      }
    }
    assert store.rows == after;
  }
}
