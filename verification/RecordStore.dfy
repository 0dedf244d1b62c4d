/** The record half of the state store: collections, one winning record for each path, and what
    the store believes is on disk. */
module RecordStore {
  import opened Prelude
  import opened Bytes
  import opened Records

  type Path = Bytes
  type Name = Bytes
  type Directory = Bytes
  type Key = (Name, Path)

  /** The metadata of an installed or scanned file. */
  datatype Fingerprint = Fingerprint(modifiedNs: i64, size: u64, hash: Bytes32)

  datatype Row = Row(record: Record, materialized: bool, fingerprint: Option<Fingerprint>)

  datatype ScanStatus = Pending | Active | Missing | NotDirectory

  datatype Collection = Collection(localPath: Directory, resolvedRoot: Option<Directory>, scanStatus: ScanStatus)

  type Rows = map<Key, Row>

  /** The two tables. */
  datatype Tables = Tables(collections: map<Name, Collection>, rows: Rows)

  datatype StoreError =
    | MissingCollection
    | MissingPathRecord
    | NumberOverflow
    | ConstraintViolation

  // ---------------------------------------------------------------- the schema's constraints

  predicate RowOk(row: Row)
  {
    match row.record.kind
    case Tombstone => row.fingerprint.None?
    case File(_, _) => row.materialized <==> row.fingerprint.Some?
  }

  /** A materialised file row's fingerprint is of its winner's bytes. */
  predicate RowSound(row: Row)
  {
    && RowOk(row)
    && (row.fingerprint.Some? ==>
          row.fingerprint.value.size == row.record.kind.size
              && row.fingerprint.value.hash == row.record.kind.contentHash)
  }

  predicate MaterializedFile(row: Row)
  {
    row.record.kind.File? && row.materialized
  }

  /** Rows are filed under their record's own key, belong to an attached collection, and are
      sound. */
  ghost predicate WellFormed(t: Tables)
  {
    forall k :: k in t.rows ==>
      && k == (t.rows[k].record.collection, t.rows[k].record.path)
      && k.0 in t.collections
      && RecordOk(t.rows[k].record)
      && RowSound(t.rows[k])
  }

  // ---------------------------------------------------------------- rows

  function Lookup(rows: Rows, k: Key): Option<Row>
  {
    if k in rows then Some(rows[k]) else None
  }

  function Put(rows: Rows, k: Key, row: Option<Row>): Rows
  {
    if row.Some? then rows[k := row.value] else rows - {k}
  }

  function RecordFingerprint(record: Record): Option<Fingerprint>
  {
    match record.kind
    case Tombstone => None
    case File(size, contentHash) => Some(Fingerprint(record.modifiedNs, size, contentHash))
  }

  /** `upsert_record`. */
  function NewRow(record: Record, materialized: bool): Row
  {
    Row(record, materialized, if materialized then RecordFingerprint(record) else None)
  }

  function Unmaterialize(row: Row): Row
  {
    row.(materialized := false, fingerprint := None)
  }

  /** One path's row after `merge_record`: the greater record wins, and a local winner counts as
      already on disk. */
  function MergeRow(hash: RecordHashing, current: Option<Row>, record: Record, local: bool): Row
  {
    if current.None? || Beats(hash, record, current.value.record) then NewRow(record, local) else current.value
  }

  /** Every file row of a collection except one loses its materialisation. */
  function UnmaterializeFiles(rows: Rows, name: Name, except: Option<Path>): Rows
  {
    map k | k in rows ::
      if k.0 == name && rows[k].record.kind.File? && except != Some(k.1) then Unmaterialize(rows[k]) else rows[k]
  }

  // ---------------------------------------------------------------- operations on the tables

  function AddCollection(t: Tables, name: Name, localPath: Directory,
      resolvedRoot: Option<Directory>): Result<Tables, StoreError>
  {
    if name == [] || localPath == [] || name in t.collections then Err(ConstraintViolation)
    else Ok(t.(collections := t.collections[name := Collection(localPath, resolvedRoot, Pending)]))
  }

  function ReplacePath(t: Tables, name: Name, localPath: Directory): Result<Tables, StoreError>
  {
    if name !in t.collections then Ok(t.(rows := UnmaterializeFiles(t.rows, name, None)))
    else if localPath == [] then Err(ConstraintViolation)
    else Ok(Tables(t.collections[name := Collection(localPath, None, Pending)], UnmaterializeFiles(t.rows, name, None)))
  }

  /** `complete_collection_scan`: a different resolved root means nothing there is known to be on
      disk any more. */
  function CompleteScan(t: Tables, name: Name, localPath: Directory, root: Directory): Result<Tables, StoreError>
  {
    if name !in t.collections then Err(MissingCollection)
    else if localPath == [] then Err(ConstraintViolation)
    else
      var changed := t.collections[name].resolvedRoot != Some(root);
      Ok(Tables(t.collections[name := Collection(localPath, Some(root), Active)],
                if changed then UnmaterializeFiles(t.rows, name, None) else t.rows))
  }

  /** Removing a collection removes its rows. */
  function RemoveCollection(t: Tables, name: Name): Tables
  {
    Tables(t.collections - {name}, map k | k in t.rows && k.0 != name :: t.rows[k])
  }

  function Merge(hash: RecordHashing, t: Tables, record: Record, local: bool): Result<Tables, StoreError>
  {
    var k := (record.collection, record.path);
    if record.collection !in t.collections then Err(ConstraintViolation)
    else Ok(t.(rows := t.rows[k := MergeRow(hash, Lookup(t.rows, k), record, local)]))
  }

  function MarkRepair(t: Tables, k: Key): Result<Tables, StoreError>
  {
    if k !in t.rows || t.rows[k].record.kind.Tombstone? then Err(MissingPathRecord)
    else Ok(t.(rows := t.rows[k := Unmaterialize(t.rows[k])]))
  }

  function SetFingerprint(t: Tables, k: Key, fingerprint: Fingerprint): Result<Tables, StoreError>
  {
    if fingerprint.size > I64_MAX then Err(NumberOverflow)
    else if k !in t.rows || t.rows[k].record.kind.Tombstone? then Err(MissingPathRecord)
    else Ok(t.(rows := t.rows[k := t.rows[k].(materialized := true, fingerprint := Some(fingerprint))]))
  }

  /** `mark_materialized_and_log`: binds the row to the root it was installed into; if that is not
      the root on record, every other file row of the collection is unmaterialised first. */
  function MarkMaterialized(t: Tables, k: Key, root: Directory, fingerprint: Fingerprint): Result<Tables, StoreError>
  {
    if k.0 !in t.collections then Err(MissingCollection)
    else
      var c := t.collections[k.0];
      SetFingerprint(if c.resolvedRoot == Some(root) then t
                     else Tables(t.collections[k.0 := c.(resolvedRoot := Some(root))],
                                 UnmaterializeFiles(t.rows, k.0, Some(k.1))),
                     k, fingerprint)
  }

  function MarkTombstone(t: Tables, k: Key): Result<Tables, StoreError>
  {
    if k !in t.rows || t.rows[k].record.kind.File? then Err(MissingPathRecord)
    else Ok(t.(rows := t.rows[k := t.rows[k].(materialized := true)]))
  }

  // ---------------------------------------------------------------- the store

  class RecordTables {
    const hash: RecordHashing
    var collections: map<Name, Collection>
    var rows: Rows

    ghost function State(): Tables
      reads this
    {
      Tables(collections, rows)
    }

    ghost predicate Valid()
      reads this
    {
      WellFormed(State())
    }

    constructor (hash: RecordHashing)
      ensures Valid() && State() == Tables(map[], map[]) && this.hash == hash
    {
      this.hash := hash;
      collections, rows := map[], map[];
    }

    method UnmaterializeAll(name: Name, except: Option<Path>)
      modifies this`rows
      ensures rows == UnmaterializeFiles(old(rows), name, except)
    {
      var pending := rows.Keys;
      ghost var before := rows;
      while pending != {}
        invariant pending <= rows.Keys && rows.Keys == before.Keys
        invariant forall k :: k in before ==>
                    rows[k] == if k in pending then before[k] else UnmaterializeFiles(before, name, except)[k]
      {
        var k :| k in pending;
        pending := pending - {k};
        if k.0 == name && rows[k].record.kind.File? && except != Some(k.1) {
          rows := rows[k := Unmaterialize(rows[k])];
        }
      }
      assert rows == UnmaterializeFiles(before, name, except);
    }

    method Attach(name: Name, localPath: Directory, resolvedRoot: Option<Directory>) returns (r: Result<(), StoreError>)
      requires Valid()
      modifies this
      ensures Valid()
      ensures Committed(AddCollection(old(State()), name, localPath, resolvedRoot), old(State()), State(), r)
    {
      if name == [] || localPath == [] || name in collections {
        return Err(ConstraintViolation);
      }
      collections := collections[name := Collection(localPath, resolvedRoot, Pending)];
      return Ok(());
    }

    method ReplaceCollectionPath(name: Name, localPath: Directory) returns (r: Result<(), StoreError>)
      requires Valid()
      modifies this
      ensures Valid()
      ensures Committed(ReplacePath(old(State()), name, localPath), old(State()), State(), r)
    {
      if name in collections {
        if localPath == [] {
          return Err(ConstraintViolation);
        }
        collections := collections[name := Collection(localPath, None, Pending)];
      }
      UnmaterializeAll(name, None);
      return Ok(());
    }

    method CompleteCollectionScan(name: Name, localPath: Directory, root: Directory)
      returns (r: Result<bool, StoreError>)
      requires Valid()
      modifies this
      ensures Valid()
      ensures match CompleteScan(old(State()), name, localPath, root)
              case Ok(next) => State() == next && r == Ok(old(collections)[name].resolvedRoot != Some(root))
              case Err(error) => State() == old(State()) && r == Err(error)
    {
      if name !in collections {
        return Err(MissingCollection);
      }
      if localPath == [] {
        return Err(ConstraintViolation);
      }
      var changed := collections[name].resolvedRoot != Some(root);
      collections := collections[name := Collection(localPath, Some(root), Active)];
      if changed {
        UnmaterializeAll(name, None);
      }
      return Ok(changed);
    }

    method Detach(name: Name)
      requires Valid()
      modifies this
      ensures Valid() && State() == RemoveCollection(old(State()), name)
    {
      collections := collections - {name};
      rows := map k | k in rows && k.0 != name :: rows[k];
    }

    method MergeRecord(record: Record, local: bool) returns (r: Result<bool, StoreError>)
      requires Valid() && RecordOk(record)
      modifies this
      ensures Valid()
      ensures match Merge(hash, old(State()), record, local)
              case Ok(next) => State() == next && r == Ok(Accepts(hash, old(rows), record))
              case Err(error) => State() == old(State()) && r == Err(error)
    {
      hide RecordOk, CompareWinner;
      var k := (record.collection, record.path);
      if record.collection !in collections {
        return Err(ConstraintViolation);
      }
      var accepted := k !in rows || Beats(hash, record, rows[k].record);
      if accepted {
        rows := rows[k := NewRow(record, local)];
      } else {
        assert rows == rows[k := rows[k]];
      }
      return Ok(accepted);
    }

    method MarkRepairRequired(k: Key) returns (r: Result<(), StoreError>)
      requires Valid()
      modifies this
      ensures Valid()
      ensures Committed(MarkRepair(old(State()), k), old(State()), State(), r)
    {
      if k !in rows || rows[k].record.kind.Tombstone? {
        return Err(MissingPathRecord);
      }
      rows := rows[k := Unmaterialize(rows[k])];
      return Ok(());
    }

    method SetMaterializedFingerprint(k: Key, fingerprint: Fingerprint) returns (r: Result<(), StoreError>)
      modifies this
      ensures Committed(SetFingerprint(old(State()), k, fingerprint), old(State()), State(), r)
    {
      if fingerprint.size > I64_MAX {
        return Err(NumberOverflow);
      }
      if k !in rows || rows[k].record.kind.Tombstone? {
        return Err(MissingPathRecord);
      }
      rows := rows[k := rows[k].(materialized := true, fingerprint := Some(fingerprint))];
      return Ok(());
    }

    method MarkMaterializedIn(k: Key, root: Directory, fingerprint: Fingerprint) returns (r: Result<(), StoreError>)
      modifies this
      ensures Committed(MarkMaterialized(old(State()), k, root, fingerprint), old(State()), State(), r)
    {
      if k.0 !in collections {
        return Err(MissingCollection);
      }
      var savedCollections, savedRows := collections, rows;
      if collections[k.0].resolvedRoot != Some(root) {
        collections := collections[k.0 := collections[k.0].(resolvedRoot := Some(root))];
        UnmaterializeAll(k.0, Some(k.1));
      }
      r := SetMaterializedFingerprint(k, fingerprint);
      if r.Err? {
        // The transaction is dropped without a commit.
        collections, rows := savedCollections, savedRows;
      }
    }

    method MarkTombstoneMaterialized(k: Key) returns (r: Result<(), StoreError>)
      requires Valid()
      modifies this
      ensures Valid()
      ensures Committed(MarkTombstone(old(State()), k), old(State()), State(), r)
    {
      if k !in rows || rows[k].record.kind.File? {
        return Err(MissingPathRecord);
      }
      rows := rows[k := rows[k].(materialized := true)];
      return Ok(());
    }
  }

  /** A transaction either commits what its specification says or leaves the tables alone. */
  predicate Committed(spec: Result<Tables, StoreError>, before: Tables, after: Tables, r: Result<(), StoreError>)
  {
    match spec
    case Ok(next) => after == next && r == Ok(())
    case Err(error) => after == before && r == Err(error)
  }

  predicate Accepts(hash: RecordHashing, rows: Rows, record: Record)
  {
    var k := (record.collection, record.path);
    k !in rows || Beats(hash, record, rows[k].record)
  }
}
