/** A scan pass: comparing what is on disk with the stored winners, path by path, and authoring
    new records and tombstones. */
module Scan {
  import opened Prelude
  import opened Bytes
  import opened Paths
  import opened Records
  import opened RecordStore

  datatype DiskFile = DiskFile(modifiedNs: i64, size: u64, hash: Bytes32)

  datatype ScanError = StoreFailed(error: StoreError) | RecordFailed(reason: RecordError)

  /** ".skillsync-tmp-": names the program keeps for itself. */
  const INTERNAL_PREFIX: Bytes := [46, 115, 107, 105, 108, 108, 115, 121, 110, 99, 45, 116, 109, 112, 45]

  /** One pass over one collection.  `matchesGlob` is the configured ignore set. */
  datatype Pass = Pass(
    collection: Name,
    localPath: Directory,
    root: Directory,
    observedNs: i64,
    maxSkew: nat,
    author: Bytes32,
    matchesGlob: Path -> bool,
    excludedPrefixes: seq<Path>)

  predicate HasInternalComponent(path: Path)
    decreases |path|
  {
    var c := FirstComponent(path);
    INTERNAL_PREFIX <= c || (|c| < |path| && HasInternalComponent(path[|c| + 1..]))
  }

  predicate IsIgnored(p: Pass, path: Path)
  {
    HasInternalComponent(path) || p.matchesGlob(path)
  }

  /** The path is an excluded prefix or lies below one. */
  predicate IsExcluded(prefixes: seq<Path>, path: Path)
  {
    exists prefix :: prefix in prefixes && (path == prefix || prefix + [SLASH] <= path)
  }

  predicate Hidden(p: Pass, path: Path)
  {
    IsIgnored(p, path) || IsExcluded(p.excludedPrefixes, path)
  }

  /** `duration_ns` saturates, and so does adding it to the clock. */
  function FutureLimit(p: Pass): i64
  {
    Saturate(p.observedNs + (if p.maxSkew > I64_MAX then I64_MAX else p.maxSkew))
  }

  function FingerprintOf(disk: DiskFile): Fingerprint
  {
    Fingerprint(disk.modifiedNs, disk.size, disk.hash)
  }

  predicate BytesMatch(disk: DiskFile, record: Record)
  {
    record.kind.File? && disk.size == record.kind.size && disk.hash == record.kind.contentHash
  }

  predicate Matches(disk: DiskFile, record: Record)
  {
    BytesMatch(disk, record) && disk.modifiedNs == record.modifiedNs
  }

  // ---------------------------------------------------------------- one path

  /** What the pass does to the row of a path it found on disk. */
  function FileStep(hash: RecordHashing, p: Pass, path: Path, row: Option<Row>,
      disk: DiskFile): Result<Option<Row>, ScanError>
  {
    if disk.modifiedNs > FutureLimit(p) then
      if row.Some? && row.value.materialized && !BytesMatch(disk, row.value.record) then
        if row.value.record.kind.File? then Ok(Some(Unmaterialize(row.value)))
        else Err(StoreFailed(MissingPathRecord))
      else Ok(row)
    else
      match NewRecord(p.collection, path, disk.modifiedNs, p.author, File(disk.size, disk.hash))
      case Err(error) => Err(RecordFailed(error))
      case Ok(candidate) =>
        if row.None? then Ok(Some(NewRow(candidate, true)))
        else if row.value.fingerprint == Some(FingerprintOf(disk)) || Matches(disk, row.value.record) then
          Ok(Some(row.value.(materialized := true, fingerprint := Some(FingerprintOf(disk)))))
        else if Beats(hash, candidate, row.value.record) then Ok(Some(NewRow(candidate, true)))
        else if row.value.record.kind.File? then Ok(Some(Unmaterialize(row.value)))
        else Ok(row)
  }

  /** The tombstone authored for a winner that is gone: strictly later than the winner unless
      the winner's time is the last representable one. */
  function TombstoneFor(p: Pass, winner: Record): Record
  {
    var next := Saturate(winner.modifiedNs + 1);
    Record(winner.collection, winner.path, if p.observedNs > next then p.observedNs else next, p.author, Tombstone)
  }

  /** What the pass does to the row of a path it did not find on disk. */
  function MissingStep(hash: RecordHashing, p: Pass, row: Row): Row
  {
    if MaterializedFile(row) && !Hidden(p, row.record.path)
    then MergeRow(hash, Some(row), TombstoneFor(p, row.record), true)
    else row
  }

  // ---------------------------------------------------------------- the two loops

  type Files = seq<(Path, DiskFile)>

  /** The walk reports each path once. */
  ghost predicate Distinct(files: Files)
  {
    forall i, j :: 0 <= i < j < |files| ==> files[i].0 != files[j].0
  }

  ghost predicate OnDisk(files: Files, path: Path)
  {
    exists i :: 0 <= i < |files| && files[i].0 == path
  }

  ghost function DiskAt(files: Files, path: Path): (d: DiskFile)
    requires OnDisk(files, path)
  {
    var i :| 0 <= i < |files| && files[i].0 == path;
    files[i].1
  }

  function ScanFiles(hash: RecordHashing, p: Pass, rows: Rows, files: Files): (Rows, Result<(), ScanError>)
    decreases |files|
  {
    if |files| == 0 then (rows, Ok(()))
    else
      var k := (p.collection, files[0].0);
      match FileStep(hash, p, files[0].0, Lookup(rows, k), files[0].1)
      case Err(error) => (rows, Err(error))
      case Ok(row) => ScanFiles(hash, p, Put(rows, k, row), files[1..])
  }

  /** The rows of the collection whose path is not on disk take the missing step. */
  ghost function ScanMissing(hash: RecordHashing, p: Pass, rows: Rows, files: Files): Rows
  {
    map k | k in rows ::
      if k.0 == p.collection && !OnDisk(files, k.1) then MissingStep(hash, p, rows[k]) else rows[k]
  }

  /** A whole pass on the tables. */
  ghost function ScanTables(hash: RecordHashing, t: Tables, p: Pass, files: Files): (Tables, Result<(), ScanError>)
  {
    match CompleteScan(t, p.collection, p.localPath, p.root)
    case Err(error) => (t, Err(StoreFailed(error)))
    case Ok(start) =>
      match ScanFiles(hash, p, start.rows, files)
      case (rows, Err(error)) => (start.(rows := rows), Err(error))
      case (rows, Ok(_)) => (start.(rows := ScanMissing(hash, p, rows, files)), Ok(()))
  }

  // ---------------------------------------------------------------- the loops, pointwise

  lemma {:induction false} ScanFilesPointwise(hash: RecordHashing, p: Pass, rows: Rows, files: Files, k: Key)
    requires Distinct(files)
    ensures var (after, result) := ScanFiles(hash, p, rows, files);
            && (k.0 != p.collection || !OnDisk(files, k.1) ==> Lookup(after, k) == Lookup(rows, k))
            && (k.0 == p.collection && OnDisk(files, k.1) && result.Ok? ==>
                  FileStep(hash, p, k.1, Lookup(rows, k), DiskAt(files, k.1)) == Ok(Lookup(after, k)))
            && (k.0 == p.collection && OnDisk(files, k.1) && result.Err? ==>
                  || Lookup(after, k) == Lookup(rows, k)
                  || FileStep(hash, p, k.1, Lookup(rows, k), DiskAt(files, k.1)) == Ok(Lookup(after, k)))
    decreases |files|
  {
    hide FileStep;
    if |files| > 0 {
      var path, rest := files[0].0, files[1..];
      var key := (p.collection, path);
      assert OnDisk(files, path) && DiskAt(files, path) == files[0].1;
      assert !OnDisk(rest, path);
      OnDiskRest(files, k.1);
      match FileStep(hash, p, path, Lookup(rows, key), files[0].1)
      case Err(_) =>
      case Ok(row) => ScanFilesPointwise(hash, p, Put(rows, key, row), rest, k);
    }
  }

  lemma {:induction false} OnDiskRest(files: Files, path: Path)
    requires |files| > 0 && Distinct(files)
    ensures OnDisk(files, path) <==> path == files[0].0 || OnDisk(files[1..], path)
    ensures OnDisk(files[1..], path) ==> DiskAt(files[1..], path) == DiskAt(files, path)
  {
    if i :| 0 <= i < |files| && files[i].0 == path && i > 0 {
      assert files[1..][i - 1].0 == path;
    }
    if OnDisk(files[1..], path) {
      var i :| 0 <= i < |files[1..]| && files[1..][i].0 == path;
      assert files[i + 1].0 == path;
    }
  }

  /** The first loop fails exactly when some path's step fails. */
  lemma {:induction false} ScanFilesFails(hash: RecordHashing, p: Pass, rows: Rows, files: Files)
    requires Distinct(files)
    ensures ScanFiles(hash, p, rows, files).1.Err? <==>
            exists i :: 0 <= i < |files|
                && FileStep(hash, p, files[i].0, Lookup(rows, (p.collection, files[i].0)), files[i].1).Err?
    decreases |files|
  {
    hide FileStep;
    if |files| > 0 {
      var key := (p.collection, files[0].0);
      match FileStep(hash, p, files[0].0, Lookup(rows, key), files[0].1)
      case Err(_) =>
      case Ok(row) =>
        var next, rest := Put(rows, key, row), files[1..];
        ScanFilesFails(hash, p, next, rest);
        forall i | 0 <= i < |rest|
          ensures rest[i] == files[i + 1]
          ensures Lookup(next, (p.collection, rest[i].0)) == Lookup(rows, (p.collection, files[i + 1].0))
        {
        }
        if i :|
          && 0 <= i < |files|
          && FileStep(hash, p, files[i].0, Lookup(rows, (p.collection, files[i].0)), files[i].1).Err?
        {
          var (path, disk) := rest[i - 1];
          assert i > 0 && FileStep(hash, p, path, Lookup(next, (p.collection, path)), disk).Err?;
        }
    }
  }

  // ---------------------------------------------------------------- properties of one step

  /** The exact failure of a step on a well-formed row.  Of a scan that could construct its
      records it says: it stops with an error precisely when a file dated beyond the limit sits
      on a deletion that was already carried out. */
  lemma {:induction false} StepFails(hash: RecordHashing, p: Pass, path: Path, row: Option<Row>, disk: DiskFile)
    requires row.Some? ==> RowOk(row.value)
    requires NewRecord(p.collection, path, disk.modifiedNs, p.author, File(disk.size, disk.hash)).Ok?
    ensures FileStep(hash, p, path, row, disk).Err? <==>
            disk.modifiedNs > FutureLimit(p) && row.Some? && row.value.record.kind.Tombstone? && row.value.materialized
  {
  }

  /** That failure is reachable: a deletion carried out earlier, and a file dated a year ahead. */
  lemma {:induction false} FutureFileOverTombstoneAborts(hash: RecordHashing, author: Bytes32)
    ensures var p := Pass([97], [47], [47], 1000, 300, author, _ => false, []);
            var row := Row(Record([97], [98], 5, author, Tombstone), true, None);
            var disk := DiskFile(31536000000000000, 3, 7);
            RowSound(row) && FileStep(hash, p, [98], Some(row), disk) == Err(StoreFailed(MissingPathRecord))
  {
  }

  /** The row a non-future file leaves behind: either exactly the disk's fingerprint on a
      materialised file, or a kept winner that the disk does not beat and that is not a
      materialised file. */
  ghost predicate Agrees(hash: RecordHashing, p: Pass, path: Path, row: Option<Row>, disk: DiskFile, after: Row)
  {
    if MaterializedFile(after) then
      && after.fingerprint == Some(FingerprintOf(disk))
      && BytesMatch(disk, after.record)
    else
      && row.Some? && after.record == row.value.record
      && !Beats(hash, Record(p.collection, path, disk.modifiedNs, p.author, File(disk.size, disk.hash)), after.record)
      && after.record != Record(p.collection, path, disk.modifiedNs, p.author, File(disk.size, disk.hash))
  }

  lemma {:induction false} StepAgreesWithDisk(hash: RecordHashing, p: Pass, path: Path, row: Option<Row>,
      disk: DiskFile)
    requires row.Some? ==> RowSound(row.value)
    requires disk.modifiedNs <= FutureLimit(p)
    requires FileStep(hash, p, path, row, disk).Ok?
    ensures FileStep(hash, p, path, row, disk).value.Some?
    ensures Agrees(hash, p, path, row, disk, FileStep(hash, p, path, row, disk).value.value)
  {
  }

  /** With records that the order distinguishes, the kept winner is strictly greater. */
  lemma {:induction false} LoserLeavesGreaterWinner(hash: RecordHashing, p: Pass, path: Path, row: Option<Row>,
      disk: DiskFile)
    requires row.Some? ==> RowSound(row.value)
    requires disk.modifiedNs <= FutureLimit(p) && FileStep(hash, p, path, row, disk).Ok?
    requires var candidate := Record(p.collection, path, disk.modifiedNs, p.author, File(disk.size, disk.hash));
             row.Some? && CompareWinner(hash, candidate, row.value.record).Equal? ==> candidate == row.value.record
    ensures var candidate := Record(p.collection, path, disk.modifiedNs, p.author, File(disk.size, disk.hash));
            var after := FileStep(hash, p, path, row, disk).value.value;
            !MaterializedFile(after) ==> Beats(hash, after.record, candidate)
  {
    var after := FileStep(hash, p, path, row, disk).value.value;
    StepAgreesWithDisk(hash, p, path, row, disk);
    WinnerOrderIsTotal(hash, Record(p.collection, path, disk.modifiedNs, p.author, File(disk.size, disk.hash)),
        after.record, after.record);
  }

  /** A materialised file that is gone from disk does not stay materialised, except that at the
      last representable timestamp the tombstone ties in time and must win on author or hash. */
  lemma {:induction false} MissingFileIsDeleted(hash: RecordHashing, p: Pass, row: Row)
    requires MaterializedFile(row) && !Hidden(p, row.record.path)
    ensures var tombstone := TombstoneFor(p, row.record);
            var after := MissingStep(hash, p, row);
            && (MaterializedFile(after) <==>
                  row.record.modifiedNs == I64_MAX
                  && (p.author < row.record.author
                      || (p.author == row.record.author && hash(tombstone) <= hash(row.record))))
            && (!MaterializedFile(after) ==> after == NewRow(tombstone, true) && Beats(hash, tombstone, row.record))
  {
  }

  /** That exception is reachable: a file dated at the last representable instant, written by a
      device with a greater identifier than the one that misses it, outlives its deletion. */
  lemma {:induction false} LastInstantOutlivesDeletion(hash: RecordHashing)
    ensures var p := Pass([97], [47], [47], 1000, 300, 1, _ => false, []);
            var record := Record([97], [98], I64_MAX, 2, File(3, 7));
            var row := Row(record, true, Some(Fingerprint(I64_MAX, 3, 7)));
            RowSound(row) && MaterializedFile(row) && !Hidden(p, [98]) && MissingStep(hash, p, row) == row
  {
    var p := Pass([97], [47], [47], 1000, 300, 1, _ => false, []);
    var record := Record([97], [98], I64_MAX, 2, File(3, 7));
    assert FirstComponent([98]) == [98];
    assert !HasInternalComponent([98]);
    MissingFileIsDeleted(hash, p, Row(record, true, Some(Fingerprint(I64_MAX, 3, 7))));
  }

  /** A step keeps rows sound, filed under their key, and made of proper records. */
  lemma {:induction false} StepKeepsSound(hash: RecordHashing, p: Pass, path: Path, row: Option<Row>, disk: DiskFile)
    requires IsUtf8(p.collection) && IsUtf8(path) && ParsePath(path).Ok?
    requires row.Some? ==>
               && RowSound(row.value) && RecordOk(row.value.record)
               && row.value.record.collection == p.collection && row.value.record.path == path
    requires FileStep(hash, p, path, row, disk).Ok? && FileStep(hash, p, path, row, disk).value.Some?
    ensures var after := FileStep(hash, p, path, row, disk).value.value;
            RowSound(after) && RecordOk(after.record) && after.record.collection == p.collection
                && after.record.path == path
  {
    hide IsUtf8, ParsePath, CompareWinner, FutureLimit;
  }

  /** A second look at the same disk, with the file on the same side of the time limit, changes
      nothing at all in the row. */
  lemma {:induction false} SecondStepIsIdle(hash: RecordHashing, p: Pass, q: Pass, path: Path, row: Option<Row>,
      disk: DiskFile)
    requires row.Some? ==> RowSound(row.value)
    requires p.collection == q.collection && p.author == q.author
    requires disk.modifiedNs > FutureLimit(p) <==> disk.modifiedNs > FutureLimit(q)
    requires FileStep(hash, p, path, row, disk).Ok?
    ensures FileStep(hash, q, path, FileStep(hash, p, path, row, disk).value, disk)
            == FileStep(hash, p, path, row, disk)
  {
    var candidate := Record(p.collection, path, disk.modifiedNs, p.author, File(disk.size, disk.hash));
    WinnerOrderIsTotal(hash, candidate, candidate, candidate);
  }

  lemma {:induction false} SecondMissingStepIsIdle(hash: RecordHashing, p: Pass, q: Pass, row: Row)
    requires p.author == q.author && (Hidden(p, row.record.path) <==> Hidden(q, row.record.path))
    ensures MissingStep(hash, q, MissingStep(hash, p, row)) == MissingStep(hash, p, row)
  {
    hide Hidden;
    if MissingStep(hash, p, row) == row && MaterializedFile(row) && !Hidden(p, row.record.path) {
      assert row.record.modifiedNs == I64_MAX;
      assert TombstoneFor(p, row.record) == TombstoneFor(q, row.record);
    }
  }
}
