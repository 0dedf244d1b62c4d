/** Using a received manifest bundle: merging its records, and choosing which files to ask for. */
module Exchange {
  import opened Prelude
  import opened Bytes
  import opened Paths
  import opened Records
  import opened Manifests
  import opened RecordStore
  import opened Gossip
  import opened Wire
  import opened Bundles

  datatype SyncError =
    | WrongCollections
    | UnsolicitedFile
    | CorruptFile
    | UnexpectedState
    | Protocol(protocol: ProtocolError)

  // ---------------------------------------------------------------- bundles

  /** Every record of a bundle, in bundle order. */
  function AllRecords(manifests: seq<NamedManifest>): seq<Record>
  {
    if |manifests| == 0 then []
    else AllRecords(manifests[..|manifests| - 1]) + manifests[|manifests| - 1].1.records
  }

  /** What decoding a bundle establishes (`Bundles.ManifestsRoundTrip`). */
  ghost predicate BundleOk(manifests: seq<NamedManifest>)
  {
    && CheckManifests(manifests).Ok?
    && forall i :: 0 <= i < |manifests| ==> ManifestText(manifests[i])
  }

  function NamesOf(manifests: seq<NamedManifest>): set<Name>
  {
    set i | 0 <= i < |manifests| :: manifests[i].0
  }

  function SetOf(names: seq<Name>): set<Name>
  {
    set s | s in names
  }

  /** A record as it may stand in a bundle. */
  ghost predicate Sendable(r: Record)
  {
    RecordOk(r) && CheckRecord(r, r.collection).Ok?
  }

  ghost predicate DistinctRecords(cs: seq<Record>)
  {
    forall i, j :: 0 <= i < j < |cs| ==> KeyOf(cs[i]) != KeyOf(cs[j])
  }

  lemma {:induction false} BundleRecords(manifests: seq<NamedManifest>)
    requires BundleOk(manifests)
    ensures DistinctRecords(AllRecords(manifests))
    ensures forall c :: c in AllRecords(manifests) ==> Sendable(c) && IsNamed(manifests, c.collection)
  {
    hide RecordOk, Strict, RecordTotal, IsUtf8, CheckShort;
    if |manifests| > 0 {
      var n := |manifests| - 1;
      var init, records := manifests[..n], manifests[n].1.records;
      BundleRecords(init);
      LastManifest(manifests);
      forall c | c in AllRecords(manifests)
        ensures Sendable(c) && IsNamed(manifests, c.collection)
      {
        if c in AllRecords(init) {
          var i :| 0 <= i < n && init[i].0 == c.collection;
          assert manifests[i].0 == c.collection;
        } else {
          assert manifests[n].0 == c.collection;
        }
      }
      forall c | c in AllRecords(init)
        ensures c.collection != manifests[n].0
      {
        assert IsNamed(init, c.collection);
      }
    }
  }

  lemma {:induction false} LastManifest(manifests: seq<NamedManifest>)
    requires BundleOk(manifests) && |manifests| > 0
    ensures var (name, m) := manifests[|manifests| - 1];
            && BundleOk(manifests[..|manifests| - 1]) && !IsNamed(manifests[..|manifests| - 1], name)
            && DistinctRecords(m.records)
            && forall c :: c in m.records ==> Sendable(c) && c.collection == name
  {
    hide RecordOk, RecordTotal, IsUtf8, CheckShort, IsNamed;
    var n := |manifests| - 1;
    var (name, m) := manifests[n];
    assert ManifestText(manifests[n]);
    assert CheckManifest(manifests[..n], manifests[n]).Ok?;
    forall c | c in m.records
      ensures Sendable(c) && c.collection == name
    {
      var i :| 0 <= i < |m.records| && m.records[i] == c;
      assert CheckRecord(m.records[i], name).Ok?;
      assert Encodable(m.records[i]);
    }
    forall i, j | 0 <= i < j < |m.records|
      ensures KeyOf(m.records[i]) != KeyOf(m.records[j])
    {
      KeyOrder(m.records[i], m.records[j], m.records[i]);
    }
  }

  // ---------------------------------------------------------------- merging

  /** A deletion that has won but is not yet carried out on disk. */
  predicate Due(t: Tables, c: Record)
  {
    && c.kind.Tombstone? && KeyOf(c) in t.rows
    && t.rows[KeyOf(c)].record == c && !t.rows[KeyOf(c)].materialized
  }

  /** What one received record does.  `removes` says for which deletions the file could be removed
      from disk (`Install.MaterializeTombstone`). */
  function MergeCandidate(hash: RecordHashing, t: Tables, c: Record, limit: i64, removes: Record -> bool): Tables
  {
    if c.modifiedNs > limit || c.collection !in t.collections then t
    else
      var merged := if KeyOf(c) in t.rows && t.rows[KeyOf(c)].record == c then t else Merge(hash, t, c, false).value;
      if Due(merged, c) && removes(c) then MarkTombstone(merged, KeyOf(c)).value else merged
  }

  function MergeAll(hash: RecordHashing, t: Tables, cs: seq<Record>, limit: i64, removes: Record -> bool): Tables
  {
    if |cs| == 0 then t
    else MergeCandidate(hash, MergeAll(hash, t, cs[..|cs| - 1], limit, removes), cs[|cs| - 1], limit, removes)
  }

  lemma {:induction false} MergeNothing(hash: RecordHashing, t: Tables, limit: i64, removes: Record -> bool)
    ensures MergeAll(hash, t, [], limit, removes) == t
  {
  }

  lemma {:induction false} MergeAllMore(hash: RecordHashing, t: Tables, xs: seq<Record>, ys: seq<Record>, j: nat,
      limit: i64, removes: Record -> bool)
    requires j < |ys|
    ensures MergeAll(hash, t, xs + ys[..j + 1], limit, removes)
            == MergeCandidate(hash, MergeAll(hash, t, xs + ys[..j], limit, removes), ys[j], limit, removes)
  {
    var cs := xs + ys[..j + 1];
    assert cs[..|cs| - 1] == xs + ys[..j];
  }

  /** How many manifests, from the front, are for collections attached here. */
  function AttachedCount(collections: map<Name, Collection>, manifests: seq<NamedManifest>): (n: nat)
    ensures n <= |manifests|
    ensures forall i :: 0 <= i < n ==> manifests[i].0 in collections
    ensures n < |manifests| ==> manifests[n].0 !in collections
  {
    if |manifests| == 0 then 0
    else
      var n := AttachedCount(collections, manifests[..|manifests| - 1]);
      if n == |manifests| - 1 && manifests[n].0 in collections then n + 1 else n
  }

  lemma {:induction false} AttachedCountIs(collections: map<Name, Collection>, manifests: seq<NamedManifest>, n: nat)
    requires n <= |manifests| && (forall i :: 0 <= i < n ==> manifests[i].0 in collections)
    requires n < |manifests| ==> manifests[n].0 !in collections
    ensures AttachedCount(collections, manifests) == n
  {
    var m := AttachedCount(collections, manifests);
    assert m < |manifests| ==> manifests[m].0 !in collections;
  }

  /** The first half of `merge_remote_manifests`: the bundle must name exactly the shared
      collections; then each record within the clock limit is merged, and a deletion that wins is
      carried out. */
  method MergeRemote(store: RecordTables, shared: seq<Name>, manifests: seq<NamedManifest>, limit: i64,
      removes: Record -> bool)
    returns (r: Result<(), SyncError>)
    requires store.Valid() && BundleOk(manifests)
    modifies store
    ensures store.Valid()
    ensures NamesOf(manifests) != SetOf(shared) ==> r == Err(WrongCollections) && store.State() == old(store.State())
    ensures NamesOf(manifests) == SetOf(shared) ==>
              var n := AttachedCount(old(store.collections), manifests);
              && r == (if n == |manifests| then Ok(()) else Err(WrongCollections))
              && store.State() == MergeAll(store.hash, old(store.State()), AllRecords(manifests[..n]), limit, removes)
  {
    hide MergeAll, RecordOk, BundleOk, AttachedCount;
    if NamesOf(manifests) != SetOf(shared) {
      return Err(WrongCollections);
    }
    ghost var t := store.State();
    assert AllRecords(manifests[..0]) == [];
    MergeNothing(store.hash, t, limit, removes);
    for i := 0 to |manifests|
      invariant store.Valid() && store.collections == t.collections
      invariant forall k :: 0 <= k < i ==> manifests[k].0 in t.collections
      invariant store.State() == MergeAll(store.hash, t, AllRecords(manifests[..i]), limit, removes)
    {
      var (name, manifest) := manifests[i];
      if name !in store.collections {
        AttachedCountIs(t.collections, manifests, i);
        return Err(WrongCollections);
      }
      assert manifests[..i + 1][..i] == manifests[..i];
      forall j | 0 <= j < |manifest.records|
        ensures RecordOk(manifest.records[j]) && manifest.records[j].collection == name
      {
        RecordOfBundle(manifests, i, j);
      }
      MergeRecords(store, t, AllRecords(manifests[..i]), manifest.records, limit, removes);
    }
    AttachedCountIs(t.collections, manifests, |manifests|);
    return Ok(());
  }

  /** One manifest of the bundle. */
  method MergeRecords(store: RecordTables, ghost t: Tables, ghost done: seq<Record>, records: seq<Record>, limit: i64,
      removes: Record -> bool)
    requires store.Valid() && store.collections == t.collections
    requires store.State() == MergeAll(store.hash, t, done, limit, removes)
    requires forall j :: 0 <= j < |records| ==> RecordOk(records[j]) && records[j].collection in store.collections
    modifies store
    ensures store.Valid() && store.collections == t.collections
    ensures store.State() == MergeAll(store.hash, t, done + records, limit, removes)
  {
    hide MergeAll, MergeCandidate, RecordOk;
    assert done + records[..0] == done;
    for j := 0 to |records|
      invariant store.Valid() && store.collections == t.collections
      invariant store.State() == MergeAll(store.hash, t, done + records[..j], limit, removes)
    {
      MergeAllMore(store.hash, t, done, records, j, limit, removes);
      MergeOneRemote(store, records[j], limit, removes);
    }
    assert records[..|records|] == records;
  }

  lemma {:induction false} RecordOfBundle(manifests: seq<NamedManifest>, i: nat, j: nat)
    requires BundleOk(manifests) && i < |manifests| && j < |manifests[i].1.records|
    ensures RecordOk(manifests[i].1.records[j]) && manifests[i].1.records[j].collection == manifests[i].0
  {
    hide RecordOk, IsUtf8;
    assert ManifestText(manifests[i]);
    assert Encodable(manifests[i].1.records[j]);
    CheckedNames(manifests, i);
    assert CheckRecord(manifests[i].1.records[j], manifests[i].0).Ok?;
  }

  method MergeOneRemote(store: RecordTables, c: Record, limit: i64, removes: Record -> bool)
    requires store.Valid() && RecordOk(c) && c.collection in store.collections
    modifies store
    ensures store.Valid() && store.collections == old(store.collections)
    ensures store.State() == MergeCandidate(store.hash, old(store.State()), c, limit, removes)
  {
    hide RecordOk, RowSound;
    if c.modifiedNs > limit {
      return;
    }
    var k := KeyOf(c);
    if !(k in store.rows && store.rows[k].record == c) {
      var _ := store.MergeRecord(c, false);
    }
    if c.kind.Tombstone? && store.rows[k].record == c && !store.rows[k].materialized && removes(c) {
      var _ := store.MarkTombstoneMaterialized(k);
    }
  }

  /** A bundle as a map of winners. */
  function Remote(cs: seq<Record>): Winners
  {
    if |cs| == 0 then map[] else Remote(cs[..|cs| - 1])[KeyOf(cs[|cs| - 1]) := cs[|cs| - 1]]
  }

  lemma {:induction false} RemoteHolds(cs: seq<Record>)
    requires DistinctRecords(cs)
    ensures forall k: Key :: k in Remote(cs) <==> exists i :: 0 <= i < |cs| && KeyOf(cs[i]) == k
    ensures forall i :: 0 <= i < |cs| ==> Remote(cs)[KeyOf(cs[i])] == cs[i]
  {
    if |cs| > 0 {
      var n := |cs| - 1;
      RemoteHolds(cs[..n]);
      forall k: Key
        ensures k in Remote(cs) <==> exists i :: 0 <= i < |cs| && KeyOf(cs[i]) == k
      {
        if k == KeyOf(cs[n]) {
          assert KeyOf(cs[n]) == k;
        } else if i :| 0 <= i < |cs| && KeyOf(cs[i]) == k {
          assert KeyOf(cs[..n][i]) == k;
        }
      }
      forall i | 0 <= i < |cs|
        ensures Remote(cs)[KeyOf(cs[i])] == cs[i]
      {
        assert i < n ==> cs[..n][i] == cs[i];
      }
    }
  }

  /** The loop computes the merge of winner maps that convergence is proved for. */
  lemma {:induction false} MergingIsGossip(hash: RecordHashing, t: Tables, cs: seq<Record>, limit: i64,
      removes: Record -> bool)
    requires DistinctRecords(cs) && forall c :: c in cs ==> c.collection in t.collections
    ensures MergeAll(hash, t, cs, limit, removes).collections == t.collections
    ensures WinnersOf(MergeAll(hash, t, cs, limit, removes).rows)
            == MergeManifest(hash, WinnersOf(t.rows), Remote(cs), limit)
  {
    if |cs| > 0 {
      var init, c := cs[..|cs| - 1], cs[|cs| - 1];
      MergingIsGossip(hash, t, init, limit, removes);
      RemoteHolds(init);
      assert KeyOf(c) !in Remote(init);
      var before := MergeAll(hash, t, init, limit, removes);
      CandidateIsMerge(hash, before, c, limit, removes);
      ManifestGrows(hash, WinnersOf(t.rows), Remote(init), c, limit);
    } else {
      assert MergeManifest(hash, WinnersOf(t.rows), map[], limit) == WinnersOf(t.rows);
    }
  }

  lemma {:induction false} CandidateIsMerge(hash: RecordHashing, t: Tables, c: Record, limit: i64,
      removes: Record -> bool)
    requires c.collection in t.collections
    ensures var next := MergeCandidate(hash, t, c, limit, removes);
            && next.collections == t.collections
            && WinnersOf(next.rows)
               == if c.modifiedNs <= limit then MergeOne(hash, WinnersOf(t.rows), c) else WinnersOf(t.rows)
  {
    var w, k := WinnersOf(t.rows), KeyOf(c);
    if c.modifiedNs <= limit {
      var next := WinnersOf(MergeCandidate(hash, t, c, limit, removes).rows);
      assert next.Keys == w.Keys + {k};
      assert next[k] == MergeOne(hash, w, c)[k];
    }
  }

  lemma {:induction false} ManifestGrows(hash: RecordHashing, w: Winners, remote: Winners, c: Record, limit: i64)
    requires KeyOf(c) !in remote
    ensures MergeManifest(hash, w, remote[KeyOf(c) := c], limit)
            == if c.modifiedNs <= limit then MergeOne(hash, MergeManifest(hash, w, remote, limit), c)
               else MergeManifest(hash, w, remote, limit)
  {
    hide Best;
    var next := MergeManifest(hash, w, remote[KeyOf(c) := c], limit);
    var before := MergeManifest(hash, w, remote, limit);
    if c.modifiedNs <= limit {
      assert next.Keys == before.Keys + {KeyOf(c)};
      assert next == MergeOne(hash, before, c);
    } else {
      assert next.Keys == before.Keys;
    }
  }

  // ---------------------------------------------------------------- requests

  /** A received file that won here and whose bytes are missing. */
  predicate Wanted(rows: Rows, limit: i64, r: Record)
  {
    && r.modifiedNs <= limit && KeyOf(r) in rows
    && rows[KeyOf(r)].record == r && r.kind.File? && !rows[KeyOf(r)].materialized
  }

  function RequestFor(hash: RecordHashing, r: Record): FileRequest
  {
    FileRequest(r.collection, r.path, hash(r))
  }

  function Requests(hash: RecordHashing, rows: Rows, limit: i64, cs: seq<Record>): seq<FileRequest>
  {
    if |cs| == 0 then []
    else
      var before, r := Requests(hash, rows, limit, cs[..|cs| - 1]), cs[|cs| - 1];
      if Wanted(rows, limit, r) then before + [RequestFor(hash, r)] else before
  }

  lemma {:induction false} RequestsHold(hash: RecordHashing, rows: Rows, limit: i64, cs: seq<Record>, q: FileRequest)
    ensures q in Requests(hash, rows, limit, cs) <==>
            exists i :: 0 <= i < |cs| && Wanted(rows, limit, cs[i]) && q == RequestFor(hash, cs[i])
  {
    if |cs| > 0 {
      var n := |cs| - 1;
      RequestsHold(hash, rows, limit, cs[..n], q);
      if i :| 0 <= i < n && Wanted(rows, limit, cs[..n][i]) && q == RequestFor(hash, cs[..n][i]) {
        assert Wanted(rows, limit, cs[i]);
      }
      if i :| 0 <= i < |cs| && Wanted(rows, limit, cs[i]) && q == RequestFor(hash, cs[i]) {
        assert i < n ==> Wanted(rows, limit, cs[..n][i]);
      }
    }
  }

  method CollectRequests(store: RecordTables, manifests: seq<NamedManifest>, limit: i64)
    returns (requests: seq<FileRequest>)
    ensures requests == Requests(store.hash, store.rows, limit, AllRecords(manifests))
  {
    hide Requests, Wanted;
    requests := [];
    assert AllRecords(manifests[..0]) == [];
    NothingRequested(store.hash, store.rows, limit);
    for i := 0 to |manifests|
      invariant requests == Requests(store.hash, store.rows, limit, AllRecords(manifests[..i]))
    {
      assert manifests[..i + 1][..i] == manifests[..i];
      requests := CollectFrom(store, AllRecords(manifests[..i]), manifests[i].1.records, limit, requests);
    }
    assert manifests[..|manifests|] == manifests;
  }

  lemma {:induction false} NothingRequested(hash: RecordHashing, rows: Rows, limit: i64)
    ensures Requests(hash, rows, limit, []) == []
  {
  }

  /** The requests one manifest adds. */
  method CollectFrom(store: RecordTables, ghost done: seq<Record>, records: seq<Record>, limit: i64,
      before: seq<FileRequest>)
    returns (requests: seq<FileRequest>)
    requires before == Requests(store.hash, store.rows, limit, done)
    ensures requests == Requests(store.hash, store.rows, limit, done + records)
  {
    requests := before;
    assert done + records[..0] == done;
    for j := 0 to |records|
      invariant requests == Requests(store.hash, store.rows, limit, done + records[..j])
    {
      assert (done + records[..j + 1])[..|done| + j] == done + records[..j];
      if records[j].modifiedNs <= limit && KeyOf(records[j]) in store.rows {
        var row := store.rows[KeyOf(records[j])];
        if row.record == records[j] && records[j].kind.File? && !row.materialized {
          requests := requests + [RequestFor(store.hash, records[j])];
        }
      }
    }
    assert records[..|records|] == records;
  }

  // ---------------------------------------------------------------- sorting

  predicate SortedRequests(rs: seq<FileRequest>)
  {
    forall i, j :: 0 <= i < j < |rs| ==> RequestLess(rs[i], rs[j])
  }

  lemma {:induction false} RequestOrder(a: FileRequest, b: FileRequest, c: FileRequest)
    ensures a == b || RequestLess(a, b) || RequestLess(b, a)
    ensures !RequestLess(a, a)
    ensures RequestLess(a, b) && RequestLess(b, c) ==> RequestLess(a, c)
  {
    LexTotal(a.collection, b.collection);
    LexTotal(a.path, b.path);
    LexIrreflexive(a.collection);
    LexIrreflexive(a.path);
    if LexLess(a.collection, b.collection) && LexLess(b.collection, c.collection) {
      LexTransitive(a.collection, b.collection, c.collection);
    }
    if LexLess(a.path, b.path) && LexLess(b.path, c.path) {
      LexTransitive(a.path, b.path, c.path);
    }
  }

  function InsertRequest(sorted: seq<FileRequest>, r: FileRequest): (out: seq<FileRequest>)
    ensures forall q :: q in out <==> q in sorted || q == r
  {
    if |sorted| == 0 then [r]
    else if r == sorted[0] then sorted
    else if RequestLess(r, sorted[0]) then [r] + sorted
    else
      var rest := InsertRequest(sorted[1..], r);
      assert sorted == [sorted[0]] + sorted[1..];
      [sorted[0]] + rest
  }

  /** `sort` followed by `dedup`. */
  function SortDedup(rs: seq<FileRequest>): (out: seq<FileRequest>)
    ensures forall q :: q in out <==> q in rs
  {
    if |rs| == 0 then []
    else
      assert rs == rs[..|rs| - 1] + [rs[|rs| - 1]];
      InsertRequest(SortDedup(rs[..|rs| - 1]), rs[|rs| - 1])
  }

  lemma {:induction false} InsertKeepsSorted(sorted: seq<FileRequest>, r: FileRequest)
    requires SortedRequests(sorted)
    ensures SortedRequests(InsertRequest(sorted, r))
  {
    hide RequestLess;
    if |sorted| > 0 && r != sorted[0] {
      RequestOrder(r, sorted[0], r);
      if RequestLess(r, sorted[0]) {
        forall q | q in sorted
          ensures RequestLess(r, q)
        {
          RequestOrder(r, sorted[0], q);
        }
      } else {
        InsertKeepsSorted(sorted[1..], r);
        var rest := InsertRequest(sorted[1..], r);
        forall j | 0 <= j < |rest|
          ensures RequestLess(sorted[0], rest[j])
        {
          assert rest[j] in sorted[1..] || rest[j] == r;
        }
      }
    }
  }

  lemma {:induction false} SortDedupSorts(rs: seq<FileRequest>)
    ensures SortedRequests(SortDedup(rs))
  {
    if |rs| > 0 {
      SortDedupSorts(rs[..|rs| - 1]);
      InsertKeepsSorted(SortDedup(rs[..|rs| - 1]), rs[|rs| - 1]);
    }
  }

  // ---------------------------------------------------------------- the transfer budget

  /** The size of the file that wins at a request's path, if a file wins there. */
  function SizeAt(rows: Rows, q: FileRequest): Option<nat>
  {
    var k := (q.collection, q.path);
    if k in rows && rows[k].record.kind.File? then Some(rows[k].record.kind.size) else None
  }

  function Select(rows: Rows, requests: seq<FileRequest>, count: nat, bytes: nat): seq<FileRequest>
  {
    if |requests| == 0 || count == MAX_TRANSFERS then []
    else
      match SizeAt(rows, requests[0])
      case None => Select(rows, requests[1..], count, bytes)
      case Some(size) =>
        if bytes + size > MAX_SESSION_FILE_BYTES then []
        else [requests[0]] + Select(rows, requests[1..], count + 1, bytes + size)
  }

  method SelectTransfers(store: RecordTables, requests: seq<FileRequest>) returns (selected: seq<FileRequest>)
    ensures selected == Select(store.rows, requests, 0, 0)
  {
    hide Select;
    selected := [];
    var selectedBytes: u64 := 0;
    var i := 0;
    assert requests[0..] == requests;
    while i < |requests|
      invariant 0 <= i <= |requests| && selectedBytes <= MAX_SESSION_FILE_BYTES
      invariant selected + Select(store.rows, requests[i..], |selected|, selectedBytes)
                == Select(store.rows, requests, 0, 0)
    {
      SelectNext(store.rows, requests, i, selected, selectedBytes);
      if |selected| == MAX_TRANSFERS {
        return;
      }
      var k := (requests[i].collection, requests[i].path);
      if k in store.rows && store.rows[k].record.kind.File? {
        var size := store.rows[k].record.kind.size;
        if selectedBytes + size > U64_MAX {
          return;
        }
        if selectedBytes + size > MAX_SESSION_FILE_BYTES {
          return;
        }
        selectedBytes := selectedBytes + size;
        selected := selected + [requests[i]];
      }
      i := i + 1;
    }
    SelectNothing(store.rows, |selected|, selectedBytes);
    assert requests[i..] == [] && selected + [] == selected;
  }

  lemma {:induction false} SelectNothing(rows: Rows, count: nat, bytes: nat)
    ensures Select(rows, [], count, bytes) == []
  {
  }

  lemma {:induction false} SelectNext(rows: Rows, requests: seq<FileRequest>, i: nat, selected: seq<FileRequest>,
      bytes: nat)
    requires i < |requests|
    ensures var size := SizeAt(rows, requests[i]);
            selected + Select(rows, requests[i..], |selected|, bytes)
            == if |selected| == MAX_TRANSFERS then selected
               else if size.None? then selected + Select(rows, requests[i + 1..], |selected|, bytes)
               else if bytes + size.value > MAX_SESSION_FILE_BYTES then selected
               else selected + [requests[i]] + Select(rows, requests[i + 1..], |selected| + 1, bytes + size.value)
  {
    assert requests[i..][0] == requests[i] && requests[i..][1..] == requests[i + 1..];
  }

  function TotalSize(rows: Rows, rs: seq<FileRequest>): nat
  {
    if |rs| == 0 then 0
    else (match SizeAt(rows, rs[0]) case None => 0 case Some(size) => size) + TotalSize(rows, rs[1..])
  }

  /** The selection is a sub-list of files within both caps. */
  lemma {:induction false} SelectionFits(rows: Rows, requests: seq<FileRequest>, count: nat, bytes: nat)
    requires count <= MAX_TRANSFERS && bytes <= MAX_SESSION_FILE_BYTES
    ensures var s := Select(rows, requests, count, bytes);
            && count + |s| <= MAX_TRANSFERS && bytes + TotalSize(rows, s) <= MAX_SESSION_FILE_BYTES
            && (forall q :: q in s ==> q in requests && SizeAt(rows, q).Some?)
  {
    hide SizeAt;
    if |requests| > 0 && count < MAX_TRANSFERS {
      var q := requests[0];
      assert requests == [q] + requests[1..];
      match SizeAt(rows, q)
      case None => SelectionFits(rows, requests[1..], count, bytes);
      case Some(size) =>
        if bytes + size <= MAX_SESSION_FILE_BYTES {
          SelectionFits(rows, requests[1..], count + 1, bytes + size);
          var rest := Select(rows, requests[1..], count + 1, bytes + size);
          assert ([q] + rest)[1..] == rest;
        }
    }
  }

  lemma {:induction false} FirstIsLeast(requests: seq<FileRequest>, x: FileRequest)
    requires |requests| > 0 && SortedRequests(requests) && x in requests[1..]
    ensures RequestLess(requests[0], x)
  {
    hide RequestLess;
    var i :| 0 <= i < |requests[1..]| && requests[1..][i] == x;
    assert requests[i + 1] == x;
  }

  lemma {:induction false} PrependSorted(q: FileRequest, rest: seq<FileRequest>)
    requires SortedRequests(rest) && forall x :: x in rest ==> RequestLess(q, x)
    ensures SortedRequests([q] + rest)
  {
    hide RequestLess;
  }

  lemma {:induction false} TailSorted(requests: seq<FileRequest>)
    requires |requests| > 0 && SortedRequests(requests)
    ensures SortedRequests(requests[1..])
  {
    hide RequestLess;
  }

  lemma {:induction false} SelectionIsSorted(rows: Rows, requests: seq<FileRequest>, count: nat, bytes: nat)
    requires count <= MAX_TRANSFERS && bytes <= MAX_SESSION_FILE_BYTES && SortedRequests(requests)
    ensures SortedRequests(Select(rows, requests, count, bytes))
  {
    hide RequestLess, SizeAt, SortedRequests;
    if |requests| == 0 || count == MAX_TRANSFERS {
      NothingIsSorted();
    } else {
      TailSorted(requests);
      match SizeAt(rows, requests[0])
      case None => SelectionIsSorted(rows, requests[1..], count, bytes);
      case Some(size) =>
        if bytes + size <= MAX_SESSION_FILE_BYTES {
          SelectionIsSorted(rows, requests[1..], count + 1, bytes + size);
          SelectionFits(rows, requests[1..], count + 1, bytes + size);
          var rest := Select(rows, requests[1..], count + 1, bytes + size);
          forall x | x in rest
            ensures RequestLess(requests[0], x)
          {
            FirstIsLeast(requests, x);
          }
          PrependSorted(requests[0], rest);
        } else {
          NothingIsSorted();
        }
    }
  }

  lemma {:induction false} NothingIsSorted()
    ensures SortedRequests([])
  {
  }

  /** The selection stops only when a cap stops it: whatever file was left out, either the count
      is reached or some file left out would not fit beside the selected ones. */
  lemma {:induction false} SelectionIsMaximal(rows: Rows, requests: seq<FileRequest>, count: nat, bytes: nat,
      q: FileRequest)
    requires count <= MAX_TRANSFERS && q in requests && SizeAt(rows, q).Some? && SortedRequests(requests)
    requires q !in Select(rows, requests, count, bytes)
    ensures var s := Select(rows, requests, count, bytes);
            || count + |s| == MAX_TRANSFERS
            || exists x :: x in requests && x !in s && SizeAt(rows, x).Some?
                           && bytes + TotalSize(rows, s) + SizeAt(rows, x).value > MAX_SESSION_FILE_BYTES
  {
    hide SizeAt, RequestLess;
    if count < MAX_TRANSFERS {
      var first, others := requests[0], requests[1..];
      assert requests == [first] + others;
      match SizeAt(rows, first)
      case None => SelectionIsMaximal(rows, others, count, bytes, q);
      case Some(size) =>
        if bytes + size <= MAX_SESSION_FILE_BYTES {
          var rest := Select(rows, others, count + 1, bytes + size);
          assert ([first] + rest)[1..] == rest;
          SelectionIsMaximal(rows, others, count + 1, bytes + size, q);
          forall x | x in others
            ensures x != first
          {
            RequestOrder(first, first, first);
          }
        } else {
          assert first in requests;
        }
    }
  }

  /** Any one file fits the session, so when files are wanted some file is selected. */
  lemma {:induction false} SomethingIsSelected(rows: Rows, requests: seq<FileRequest>)
    requires |requests| > 0 && SizeAt(rows, requests[0]).Some? && SizeAt(rows, requests[0]).value <= MAX_FILE_BYTES
    ensures |Select(rows, requests, 0, 0)| > 0
  {
  }

  /** The request list of a session. */
  function Choose(hash: RecordHashing, rows: Rows, limit: i64, cs: seq<Record>): seq<FileRequest>
  {
    Select(rows, SortDedup(Requests(hash, rows, limit, cs)), 0, 0)
  }

  /** The tables after a bundle was merged: untouched if it names other collections than the
      shared ones, else merged as far as the collections are attached. */
  ghost function MergeBundle(hash: RecordHashing, t: Tables, shared: seq<Name>, manifests: seq<NamedManifest>,
      limit: i64, removes: Record -> bool): Tables
  {
    if NamesOf(manifests) != SetOf(shared) then t
    else MergeAll(hash, t, AllRecords(manifests[..AttachedCount(t.collections, manifests)]), limit, removes)
  }

  /** What is then asked for. */
  ghost function ChooseFrom(hash: RecordHashing, t: Tables, shared: seq<Name>, manifests: seq<NamedManifest>,
      limit: i64, removes: Record -> bool): Result<seq<FileRequest>, SyncError>
  {
    if NamesOf(manifests) != SetOf(shared) || AttachedCount(t.collections, manifests) < |manifests|
    then Err(WrongCollections)
    else Ok(Choose(hash, MergeBundle(hash, t, shared, manifests, limit, removes).rows, limit, AllRecords(manifests)))
  }

  /** `merge_remote_manifests`. */
  method MergeAndChoose(store: RecordTables, shared: seq<Name>, manifests: seq<NamedManifest>, limit: i64,
      removes: Record -> bool)
    returns (r: Result<seq<FileRequest>, SyncError>)
    requires store.Valid() && BundleOk(manifests)
    modifies store
    ensures store.Valid()
    ensures store.State() == MergeBundle(store.hash, old(store.State()), shared, manifests, limit, removes)
    ensures r == ChooseFrom(store.hash, old(store.State()), shared, manifests, limit, removes)
  {
    var merged := MergeRemote(store, shared, manifests, limit, removes);
    if merged.Err? {
      return Err(merged.error);
    }
    assert manifests[..|manifests|] == manifests;
    var requests := CollectRequests(store, manifests, limit);
    requests := SortDedup(requests);
    var selected := SelectTransfers(store, requests);
    return Ok(selected);
  }

  /** What every request list satisfies, whatever the peer sent: each request is for a file that
      won here, came from the peer and is missing; the list is strictly sorted, within the count
      and size caps; and if anything is missing that the peer listed, something is requested. */
  lemma {:induction false} ChosenRequests(hash: RecordHashing, rows: Rows, limit: i64, cs: seq<Record>)
    requires forall c :: c in cs ==> Sendable(c)
    ensures var s := Choose(hash, rows, limit, cs);
            && SortedRequests(s) && |s| <= MAX_TRANSFERS && TotalSize(rows, s) <= MAX_SESSION_FILE_BYTES
            && (forall q :: q in s ==> exists c :: c in cs && Wanted(rows, limit, c) && q == RequestFor(hash, c))
            && (|s| == 0 ==> forall c :: c in cs ==> !Wanted(rows, limit, c))
  {
    hide RecordOk, Select, SortDedup, Requests;
    var all := Requests(hash, rows, limit, cs);
    var sorted := SortDedup(all);
    SortDedupSorts(all);
    SelectionFits(rows, sorted, 0, 0);
    SelectionIsSorted(rows, sorted, 0, 0);
    var s := Select(rows, sorted, 0, 0);
    forall q | q in sorted
      ensures exists c :: c in cs && Wanted(rows, limit, c) && q == RequestFor(hash, c)
    {
      RequestsHold(hash, rows, limit, cs, q);
      var i :| 0 <= i < |cs| && Wanted(rows, limit, cs[i]) && q == RequestFor(hash, cs[i]);
      assert cs[i] in cs;
    }
    if |sorted| > 0 {
      assert sorted[0] in sorted;
      var c :| c in cs && Wanted(rows, limit, c) && sorted[0] == RequestFor(hash, c);
      assert Sendable(c);
      SomethingIsSelected(rows, sorted);
    } else {
      forall c | c in cs
        ensures !Wanted(rows, limit, c)
      {
        RequestsHold(hash, rows, limit, cs, RequestFor(hash, c));
      }
    }
  }
}
