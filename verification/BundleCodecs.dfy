/** The bundle encoders and decoders as they run: a writer or reader driven field by field, with
    running counts and the previous item. */
module BundleCodecs {
  import opened Prelude
  import opened Bytes
  import opened Canonical
  import opened Paths
  import opened Records
  import opened Manifests
  import opened Roster
  import opened RosterCodec
  import opened Wire
  import opened Bundles

  // ---------------------------------------------------------------- hello

  lemma {:induction false} NothingWritten<T>(c: ItemCodec<T>, head: Bytes)
    ensures head == head + ItemsBytes(c, [])
  {
  }

  /** One more item of a list has been written. */
  lemma {:induction false} ItemWritten<T>(c: ItemCodec<T>, head: Bytes, xs: seq<T>, i: nat, written: Bytes)
    requires i < |xs| && written == head + ItemsBytes(c, xs[..i])
    ensures written + c.encode(xs[i]) == head + ItemsBytes(c, xs[..i + 1])
  {
    assert xs[..i + 1] == xs[..i] + [xs[i]];
    ItemsBytesAppend(c, xs[..i], xs[i]);
  }

  lemma {:induction false} NameEncodes(s: Bytes)
    requires |s| <= U32_MAX
    ensures NameCodec().encode(s) == Sized(s)
  {
  }

  method WriteHello(h: Hello) returns (r: Result<Bytes, ProtocolError>)
    ensures r == EncodeHello(h)
  {
    hide U32Bytes, Sized, CheckNames, LexLess, ItemsBytes, NameCodec;
    var checked := ValidateCollections(h.collections);
    if checked.Err? {
      return Err(checked.error);
    }
    if |h.address| > MAX_ADDRESS_HINT_BYTES {
      return Err(AddressHintTooLarge);
    }
    CheckedNamesAreShort(h.collections);
    var writer := new WireWriter();
    var _ := writer.Count(|h.collections|);
    assert writer.bytes == U32Bytes(|h.collections|);
    ghost var c := NameCodec();
    ghost var head := writer.bytes;
    NothingWritten(c, head);
    for i := 0 to |h.collections|
      invariant writer.bytes == head + ItemsBytes(c, h.collections[..i])
    {
      NameEncodes(h.collections[i]);
      ItemWritten(c, head, h.collections, i, writer.bytes);
      var _ := writer.Field(h.collections[i]);
    }
    assert h.collections[..|h.collections|] == h.collections;
    var _ := writer.Field(h.address);
    return Ok(writer.bytes);
  }

  method ParseHello(b: Bytes) returns (r: Result<Hello, ProtocolError>)
    ensures r == DecodeHello(b)
  {
    hide ReadCount, ReadString, CheckNames, LexLess;
    var reader := new WireReader(b);
    var count :- reader.Count(MAX_COLLECTIONS);
    ghost var start := reader.position;
    var collections := [];
    var i := 0;
    while i < count
      invariant 0 <= i <= count
      invariant ReadItems(NameCodec(), b, start, count, [])
                == ReadItems(NameCodec(), b, reader.position, count - i, collections)
    {
      assert NameCodec().read(collections, b, reader.position)
             == ReadString(b, reader.position, MAX_COLLECTION_NAME_BYTES);
      var name :- reader.Text(MAX_COLLECTION_NAME_BYTES);
      collections := collections + [name];
      i := i + 1;
    }
    var _ :- ValidateCollections(collections);
    var address :- reader.Text(MAX_ADDRESS_HINT_BYTES);
    var _ :- reader.End();
    return Ok(Hello(collections, address));
  }

  // ---------------------------------------------------------------- requests

  method WriteRequests(requests: seq<FileRequest>) returns (r: Result<Bytes, ProtocolError>)
    ensures r == EncodeRequests(requests)
  {
    hide CheckRequest, RequestLess, ItemsBytes, RequestCodec, RequestBytes, U32Bytes;
    if |requests| > MAX_TRANSFERS {
      return Err(TransferLimit);
    }
    var previous: Option<FileRequest> := None;
    var writer := new WireWriter();
    var _ := writer.Count(|requests|);
    assert writer.bytes == U32Bytes(|requests|);
    ghost var c, head := RequestCodec(), writer.bytes;
    NothingWritten(c, head);
    for i := 0 to |requests|
      invariant previous == if i == 0 then None else Some(requests[i - 1])
      invariant CheckRequests(requests[..i]).Ok?
      invariant writer.bytes == head + ItemsBytes(c, requests[..i])
    {
      assert requests[..i + 1][..i] == requests[..i];
      var checked := CheckRequest(requests[i]);
      if checked.Err? {
        RefusedRequests(requests, i + 1);
        return Err(checked.error);
      }
      if previous.Some? && !RequestLess(previous.value, requests[i]) {
        RefusedRequests(requests, i + 1);
        return Err(UnorderedRequests);
      }
      ItemWritten(c, head, requests, i, writer.bytes);
      WriteRequest(writer, requests[i]);
      previous := Some(requests[i]);
    }
    assert requests[..|requests|] == requests;
    return Ok(writer.bytes);
  }

  method WriteRequest(writer: WireWriter, request: FileRequest)
    requires CheckRequest(request).Ok?
    modifies writer
    ensures writer.bytes == old(writer.bytes) + RequestCodec().encode(request)
  {
    hide Sized, Fixed32, CheckRequest;
    CheckedRequestIsShort(request);
    ghost var before := writer.bytes;
    var _ := writer.Field(request.collection);
    var _ := writer.Field(request.path);
    writer.Fixed(Fixed32(request.recordHash));
    assert writer.bytes == before + RequestBytes(request);
  }

  lemma {:induction false} CheckedRequestIsShort(r: FileRequest)
    requires CheckRequest(r).Ok?
    ensures |r.collection| <= MAX_COLLECTION_NAME_BYTES && |r.path| <= MAX_PATH_BYTES
  {
  }

  lemma {:induction false} RefusedRequests(requests: seq<FileRequest>, n: nat)
    requires n <= |requests| && CheckRequests(requests[..n]).Err?
    ensures CheckRequests(requests) == CheckRequests(requests[..n])
  {
    if n == |requests| {
      assert requests[..n] == requests;
    } else {
      assert requests[..|requests| - 1][..n] == requests[..n];
      RefusedRequests(requests[..|requests| - 1], n);
    }
  }

  method ParseRequests(b: Bytes) returns (r: Result<seq<FileRequest>, ProtocolError>)
    ensures r == DecodeRequests(b)
  {
    hide ReadCount, ReadString, ReadHash, CheckRequest, RequestLess, RequestBytes;
    var reader := new WireReader(b);
    var count :- reader.Count(MAX_TRANSFERS);
    ghost var start := reader.position;
    var requests := [];
    var i := 0;
    while i < count
      invariant 0 <= i <= count
      invariant ReadItems(RequestCodec(), b, start, count, [])
                == ReadItems(RequestCodec(), b, reader.position, count - i, requests)
    {
      assert RequestCodec().read(requests, b, reader.position) == ReadRequest(requests, b, reader.position);
      var collection :- reader.Text(MAX_COLLECTION_NAME_BYTES);
      var path :- reader.Text(MAX_PATH_BYTES);
      var hash :- reader.Hash();
      var request := FileRequest(collection, path, hash);
      var _ :- CheckRequest(request);
      if |requests| > 0 && !RequestLess(requests[|requests| - 1], request) {
        return Err(UnorderedRequests);
      }
      requests := requests + [request];
      i := i + 1;
    }
    var _ :- reader.End();
    return Ok(requests);
  }

  // ---------------------------------------------------------------- manifests

  method ValidateRecords(records: seq<Record>, collection: Bytes) returns (r: Result<(), ProtocolError>)
    ensures r == CheckRecords(records, collection)
  {
    for i := 0 to |records|
      invariant CheckRecords(records[..i], collection) == Ok(())
    {
      assert records[..i + 1][..i] == records[..i];
      var checked := CheckRecord(records[i], collection);
      if checked.Err? {
        RefusedRecords(records, collection, i + 1);
        return Err(checked.error);
      }
    }
    assert records[..|records|] == records;
    return Ok(());
  }

  lemma {:induction false} RefusedRecords(records: seq<Record>, collection: Bytes, n: nat)
    requires n <= |records| && CheckRecords(records[..n], collection).Err?
    ensures CheckRecords(records, collection) == CheckRecords(records[..n], collection)
  {
    if n == |records| {
      assert records[..n] == records;
    } else {
      assert records[..|records| - 1][..n] == records[..n];
      RefusedRecords(records[..|records| - 1], collection, n);
    }
  }

  lemma {:induction false} RefusedManifests(manifests: seq<NamedManifest>, n: nat)
    requires n <= |manifests| && CheckManifests(manifests[..n]).Err?
    ensures CheckManifests(manifests) == CheckManifests(manifests[..n])
  {
    hide CheckManifest;
    if n == |manifests| {
      assert manifests[..n] == manifests;
    } else {
      assert manifests[..|manifests| - 1][..n] == manifests[..n];
      RefusedManifests(manifests[..|manifests| - 1], n);
    }
  }

  /** Encodes manifests.  The length of a canonical form always fits its prefix: by then the
      manifest has passed the checks. */
  method WriteManifests(manifests: seq<NamedManifest>) returns (r: Result<Bytes, ProtocolError>)
    requires forall i, j :: 0 <= i < |manifests| && 0 <= j < |manifests[i].1.records| ==>
               RecordOk(manifests[i].1.records[j])
    ensures r == EncodeManifests(manifests)
  {
    hide RecordOk, CheckRecords, ItemsBytes, ManifestCodec, ManifestBytes, ManifestOk, U32Bytes;
    if |manifests| > MAX_COLLECTIONS {
      return Err(CollectionLimit);
    }
    var seen: set<Bytes> := {};
    var records := 0;
    var writer := new WireWriter();
    var _ := writer.Count(|manifests|);
    assert writer.bytes == U32Bytes(|manifests|);
    ghost var c, head := ManifestCodec(), writer.bytes;
    NothingWritten(c, head);
    for i := 0 to |manifests|
      invariant forall name :: name in seen <==> IsNamed(manifests[..i], name)
      invariant records == RecordTotal(manifests[..i])
      invariant CheckManifests(manifests[..i]).Ok?
      invariant writer.bytes == head + ItemsBytes(c, manifests[..i])
    {
      var (name, manifest) := manifests[i];
      assert manifests[..i + 1][..i] == manifests[..i];
      var short := CheckShort(name);
      if short.Err? {
        RefusedManifests(manifests, i + 1);
        return Err(short.error);
      }
      if name in seen {
        RefusedManifests(manifests, i + 1);
        return Err(DuplicateCollection);
      }
      records := records + |manifest.records|;
      if records > MAX_MANIFEST_RECORDS {
        RefusedManifests(manifests, i + 1);
        return Err(ProtocolError.ManifestLimit);
      }
      var checked := ValidateRecords(manifest.records, name);
      if checked.Err? {
        RefusedManifests(manifests, i + 1);
        return Err(checked.error);
      }
      CheckedManifestIsShort(manifests[..i], manifests[i]);
      ItemWritten(c, head, manifests, i, writer.bytes);
      WriteManifest(writer, manifests[i]);
      NamesGrow(manifests, i);
      seen := seen + {name};
    }
    assert manifests[..|manifests|] == manifests;
    if |writer.bytes| > MAX_MANIFEST_BYTES {
      return Err(ProtocolError.ManifestLimit);
    }
    return Ok(writer.bytes);
  }

  method WriteManifest(writer: WireWriter, m: NamedManifest)
    requires |m.0| <= MAX_COLLECTION_NAME_BYTES
    requires ManifestOk(m.1.records) && |ManifestBytes(MANIFEST_DOMAIN, m.1.records)| <= U32_MAX
    modifies writer
    ensures writer.bytes == old(writer.bytes) + ManifestCodec().encode(m)
  {
    hide Sized, ManifestBytes, ManifestOk;
    ghost var before := writer.bytes;
    var _ := writer.Field(m.0);
    var canonical := EncodeManifest(m.1.records);
    var _ := writer.Field(canonical);
    assert writer.bytes == before + NamedBytes(m);
  }

  lemma {:induction false} NamesGrow(manifests: seq<NamedManifest>, i: nat)
    requires i < |manifests|
    ensures forall name :: IsNamed(manifests[..i + 1], name) <==>
            IsNamed(manifests[..i], name) || name == manifests[i].0
  {
    forall name
      ensures IsNamed(manifests[..i + 1], name) <==> IsNamed(manifests[..i], name) || name == manifests[i].0
    {
      if IsNamed(manifests[..i], name) {
        var j :| 0 <= j < i && manifests[..i][j].0 == name;
        assert manifests[..i + 1][j].0 == name;
      }
      if IsNamed(manifests[..i + 1], name) {
        var j :| 0 <= j < i + 1 && manifests[..i + 1][j].0 == name;
        assert j < i ==> manifests[..i][j].0 == name;
      }
      assert manifests[..i + 1][i].0 == manifests[i].0;
    }
  }

  lemma {:induction false} NoManifests()
    ensures RecordTotal([]) == 0 && forall name :: !IsNamed([], name)
  {
  }

  lemma {:induction false} OneMoreManifest(manifests: seq<NamedManifest>, m: NamedManifest)
    ensures RecordTotal(manifests + [m]) == RecordTotal(manifests) + |m.1.records|
    ensures forall name :: IsNamed(manifests + [m], name) <==> IsNamed(manifests, name) || name == m.0
  {
    var next := manifests + [m];
    assert next[..|manifests|] == manifests && next[..|next|] == next;
    NamesGrow(next, |manifests|);
  }

  method ParseManifests(b: Bytes) returns (r: Result<seq<NamedManifest>, ProtocolError>)
    ensures r == DecodeManifests(b)
  {
    hide ReadCount, ReadString, ReadBytes, ParseManifest, CheckRecords, ManifestBytes, ManifestOk, IsUtf8, Strict;
    hide IsNamed, RecordTotal;
    if |b| > MAX_MANIFEST_BYTES {
      return Err(ProtocolError.ManifestLimit);
    }
    var reader := new WireReader(b);
    var count :- reader.Count(MAX_COLLECTIONS);
    ghost var start := reader.position;
    var seen: set<Bytes> := {};
    var recordCount := 0;
    var manifests := [];
    NoManifests();
    var i := 0;
    while i < count
      invariant 0 <= i <= count
      invariant forall name :: name in seen <==> IsNamed(manifests, name)
      invariant recordCount == RecordTotal(manifests)
      invariant ReadItems(ManifestCodec(), b, start, count, [])
                == ReadItems(ManifestCodec(), b, reader.position, count - i, manifests)
    {
      assert ManifestCodec().read(manifests, b, reader.position) == ReadManifest(manifests, b, reader.position);
      var name :- reader.Text(MAX_COLLECTION_NAME_BYTES);
      var _ :- CheckShort(name);
      if name in seen {
        return Err(DuplicateCollection);
      }
      seen := seen + {name};
      var canonical :- reader.Field(MAX_MANIFEST_BYTES);
      var remaining := if recordCount > MAX_MANIFEST_RECORDS then 0 else MAX_MANIFEST_RECORDS - recordCount;
      var manifest := DecodeManifest(canonical, remaining);
      if manifest.Err? {
        return Err(BadRecord(manifest.error));
      }
      recordCount := recordCount + |manifest.value.records|;
      if recordCount > MAX_MANIFEST_RECORDS {
        return Err(ProtocolError.ManifestLimit);
      }
      var _ :- ValidateRecords(manifest.value.records, name);
      OneMoreManifest(manifests, (name, manifest.value));
      manifests := manifests + [(name, manifest.value)];
      i := i + 1;
    }
    var _ :- reader.End();
    return Ok(manifests);
  }

  // ---------------------------------------------------------------- rosters

  method WriteRoster(revisions: seq<RosterRevision>) returns (r: Result<Bytes, ProtocolError>)
    requires forall i :: 0 <= i < |revisions| ==> RevisionNames(revisions[i])
    ensures r == EncodeRoster(revisions)
  {
    hide ItemsBytes, RevisionCodec, RevisionBytes, RevisionNames, U32Bytes;
    if |revisions| == 0 || |revisions| > MAX_ROSTER_REVISIONS {
      return Err(RosterLimit);
    }
    var writer := new WireWriter();
    var _ := writer.Count(|revisions|);
    assert writer.bytes == U32Bytes(|revisions|);
    ghost var c, head := RevisionCodec(), writer.bytes;
    NothingWritten(c, head);
    for i := 0 to |revisions|
      invariant CheckRevisions(revisions[..i]) == Ok(())
      invariant writer.bytes == head + ItemsBytes(c, revisions[..i])
    {
      assert revisions[..i + 1][..i] == revisions[..i];
      if |revisions[i].members| > MAX_ROSTER_MEMBERS {
        RefusedRevisions(revisions, i + 1);
        return Err(RosterLimit);
      }
      var canonical := EncodeRevision(revisions[i]);
      ghost var before := writer.bytes;
      var written := writer.Field(canonical);
      if written.Err? {
        RefusedRevisions(revisions, i + 1);
        return Err(written.error);
      }
      RevisionIsSized(revisions[i]);
      ItemWritten(c, head, revisions, i, before);
    }
    assert revisions[..|revisions|] == revisions;
    if |writer.bytes| > MAX_ROSTER_BYTES {
      return Err(RosterLimit);
    }
    return Ok(writer.bytes);
  }

  lemma {:induction false} RefusedRevisions(revisions: seq<RosterRevision>, n: nat)
    requires n <= |revisions| && CheckRevisions(revisions[..n]).Err?
    ensures CheckRevisions(revisions) == CheckRevisions(revisions[..n])
  {
    hide RevisionOk, RevisionBytes;
    if n == |revisions| {
      assert revisions[..n] == revisions;
    } else {
      assert revisions[..|revisions| - 1][..n] == revisions[..n];
      RefusedRevisions(revisions[..|revisions| - 1], n);
    }
  }

  lemma {:induction false} RevisionIsSized(r: RosterRevision)
    requires RevisionOk(r) && |RevisionBytes(r)| <= U32_MAX
    ensures RevisionCodec().encode(r) == Sized(RevisionBytes(r))
  {
  }

  /** `validate_roster_chain`: an empty chain is refused, then the genesis and every adjacent pair
      are validated. */
  method ValidateRosterChain(e: RosterEnv, revisions: seq<RosterRevision>) returns (r: Result<(), ProtocolError>)
    ensures r.Ok? <==> IsChain(e, revisions)
    ensures |revisions| == 0 ==> r == Err(InvalidRoster)
    ensures r.Err? && |revisions| > 0 ==> r.error == BadRoster(CheckChain(e, revisions).error)
  {
    if |revisions| == 0 {
      return Err(InvalidRoster);
    }
    var checked := ValidateChain(e, revisions);
    if checked.Err? {
      return Err(BadRoster(checked.error));
    }
    return Ok(());
  }

  method ParseRoster(e: RosterEnv, b: Bytes) returns (r: Result<seq<RosterRevision>, ProtocolError>)
    ensures r == DecodeRoster(e, b)
  {
    hide ReadCount, ReadBytes, ParseRevision, RevisionBytes, RevisionOk, CheckChain, ValidateGenesis;
    if |b| > MAX_ROSTER_BYTES {
      return Err(RosterLimit);
    }
    var reader := new WireReader(b);
    var count :- reader.Count(MAX_ROSTER_REVISIONS);
    if count == 0 {
      return Err(InvalidRoster);
    }
    ghost var start := reader.position;
    var revisions := [];
    var i := 0;
    while i < count
      invariant 0 <= i <= count && |revisions| == i
      invariant ReadItems(RevisionCodec(), b, start, count, [])
                == ReadItems(RevisionCodec(), b, reader.position, count - i, revisions)
    {
      assert RevisionCodec().read(revisions, b, reader.position) == ReadRevision(b, reader.position);
      var canonical :- reader.Field(MAX_ROSTER_BYTES);
      var revision := DecodeRevision(canonical, MAX_ROSTER_MEMBERS);
      if revision.Err? {
        return Err(BadRoster(revision.error));
      }
      if |revision.value.members| > MAX_ROSTER_MEMBERS {
        return Err(RosterLimit);
      }
      revisions := revisions + [revision.value];
      i := i + 1;
    }
    var _ :- reader.End();
    var _ :- ValidateRosterChain(e, revisions);
    return Ok(revisions);
  }
}
