/** The four payloads of a session: hello, roster, manifests and requests.  For each, decoding
    accepts exactly what encoding produces. */
module Bundles {
  import opened Prelude
  import opened Bytes
  import opened Canonical
  import opened Paths
  import opened Records
  import opened Manifests
  import opened Roster
  import opened RosterCodec
  import opened Wire

  // ---------------------------------------------------------------- validators

  function CheckShort(s: Bytes): Result<(), ProtocolError>
  {
    if |s| == 0 || |s| > MAX_COLLECTION_NAME_BYTES then Err(StringLimit) else Ok(())
  }

  /** `validate_collections`: short names in strictly increasing order. */
  function CheckNames(names: seq<Bytes>): Result<(), ProtocolError>
  {
    if |names| == 0 then Ok(())
    else
      var _ :- CheckNames(names[..|names| - 1]);
      var _ :- CheckShort(names[|names| - 1]);
      if |names| > 1 && !LexLess(names[|names| - 2], names[|names| - 1]) then Err(UnorderedCollections) else Ok(())
  }

  function CheckCollections(names: seq<Bytes>): Result<(), ProtocolError>
  {
    if |names| > MAX_COLLECTIONS then Err(CollectionLimit) else CheckNames(names)
  }

  method ValidateCollections(names: seq<Bytes>) returns (r: Result<(), ProtocolError>)
    ensures r == CheckCollections(names)
  {
    if |names| > MAX_COLLECTIONS {
      return Err(CollectionLimit);
    }
    var previous: Option<Bytes> := None;
    for i := 0 to |names|
      invariant previous == if i == 0 then None else Some(names[i - 1])
      invariant CheckNames(names[..i]).Ok?
    {
      assert names[..i + 1][..i] == names[..i];
      var short := CheckShort(names[i]);
      if short.Err? {
        CheckNamesFails(names, i + 1);
        return Err(short.error);
      }
      if previous.Some? && !LexLess(previous.value, names[i]) {
        CheckNamesFails(names, i + 1);
        return Err(UnorderedCollections);
      }
      previous := Some(names[i]);
    }
    assert names[..|names|] == names;
    return Ok(());
  }

  lemma {:induction false} CheckNamesFails(names: seq<Bytes>, n: nat)
    requires n <= |names| && CheckNames(names[..n]).Err?
    ensures CheckNames(names) == CheckNames(names[..n])
  {
    if n == |names| {
      assert names[..n] == names;
    } else {
      var init := names[..|names| - 1];
      assert init[..n] == names[..n];
      CheckNamesFails(init, n);
    }
  }

  function CheckRecord(r: Record, collection: Bytes): Result<(), ProtocolError>
  {
    var _ :- CheckShort(collection);
    if r.collection != collection then Err(WrongCollection)
    else if |r.path| > MAX_PATH_BYTES then Err(PathLimit)
    else if r.kind.File? && r.kind.size > MAX_FILE_BYTES then Err(FileLimit)
    else Ok(())
  }

  /** The exact length of a record's canonical bytes, and the bound the field limits give it. */
  lemma {:induction false} RecordLength(r: Record)
    requires |r.collection| <= U32_MAX && |r.path| <= U32_MAX
    ensures |RecordBytes(r)| == 69 + |r.collection| + |r.path| + if r.kind.File? then 40 else 0
    ensures CheckRecord(r, r.collection).Ok? ==> |RecordBytes(r)| <= 4_460
  {
    hide U32Bytes;
  }

  // ---------------------------------------------------------------- hello

  datatype Hello = Hello(collections: seq<Bytes>, address: Bytes)

  /** The fields are Rust strings. */
  predicate HelloText(h: Hello)
  {
    IsUtf8(h.address) && forall i :: 0 <= i < |h.collections| ==> IsUtf8(h.collections[i])
  }

  function NameCodec(): ItemCodec<Bytes>
  {
    ItemCodec(s => if |s| <= U32_MAX then Sized(s) else [],
              (before, b, p) => ReadString(b, p, MAX_COLLECTION_NAME_BYTES),
              (before, s) => |s| <= MAX_COLLECTION_NAME_BYTES && IsUtf8(s))
  }

  lemma {:induction false} NameCodecExact()
    ensures Exact(NameCodec())
  {
    hide ReadString, Sized, IsUtf8;
    var c := NameCodec();
    forall before: seq<Bytes>, b: Bytes, p: nat, x: Bytes, end: nat
      ensures ExactAt(c, before, b, p, x, end)
    {
      ReadStringExact(b, p, MAX_COLLECTION_NAME_BYTES, x, end);
    }
  }

  function HelloBytes(h: Hello): Bytes
    requires |h.collections| <= U32_MAX && |h.address| <= U32_MAX
  {
    U32Bytes(|h.collections|) + ItemsBytes(NameCodec(), h.collections) + Sized(h.address)
  }

  function EncodeHello(h: Hello): Result<Bytes, ProtocolError>
  {
    var _ :- CheckCollections(h.collections);
    if |h.address| > MAX_ADDRESS_HINT_BYTES then Err(AddressHintTooLarge) else Ok(HelloBytes(h))
  }

  function DecodeHello(b: Bytes): Result<Hello, ProtocolError>
  {
    var (count, p1) :- ReadCount(b, 0, MAX_COLLECTIONS);
    var (collections, p2) :- ReadItems(NameCodec(), b, p1, count, []);
    var _ :- CheckCollections(collections);
    var (address, p3) :- ReadString(b, p2, MAX_ADDRESS_HINT_BYTES);
    var _ :- ReadEnd(b, p3);
    Ok(Hello(collections, address))
  }

  lemma {:induction false} CheckedNamesAreShort(names: seq<Bytes>)
    requires CheckNames(names).Ok?
    ensures forall i :: 0 <= i < |names| ==> 0 < |names[i]| <= MAX_COLLECTION_NAME_BYTES
    ensures forall i :: 0 < i < |names| ==> LexLess(names[i - 1], names[i])
  {
    hide LexLess;
    if |names| > 0 {
      CheckedNamesAreShort(names[..|names| - 1]);
    }
  }

  lemma {:induction false} ShortNamesAdmitted(before: seq<Bytes>, names: seq<Bytes>)
    ensures AdmitsAll(NameCodec(), before, names) <==>
            forall i :: 0 <= i < |names| ==> |names[i]| <= MAX_COLLECTION_NAME_BYTES && IsUtf8(names[i])
    decreases |names|
  {
    hide IsUtf8;
    if |names| > 0 {
      ShortNamesAdmitted(before + [names[0]], names[1..]);
      assert forall i :: 0 < i < |names| ==> names[i] == names[1..][i - 1];
    }
  }

  /** Where the three parts of a hello stand. */
  lemma {:induction false} ThreeParts(b: Bytes, x: Bytes, y: Bytes, z: Bytes)
    ensures b == x + y + z <==> At(b, 0, x) && At(b, |x|, y) && At(b, |x| + |y|, z) && |b| == |x| + |y| + |z|
  {
    AtWhole(b, x + y + z);
    AtConcat(b, 0, x + y, z);
    AtConcat(b, 0, x, y);
  }

  /** Decoding a hello accepts exactly what encoding one produces. */
  lemma {:induction false} HelloRoundTrip(h: Hello, b: Bytes)
    ensures DecodeHello(b) == Ok(h) <==> HelloText(h) && EncodeHello(h) == Ok(b)
  {
    hide U32Bytes, Sized, IsUtf8, ReadString, ReadCount, ItemsBytes, ReadItems, AdmitsAll, CheckNames;
    var c, names := NameCodec(), h.collections;
    NameCodecExact();
    ShortNamesAdmitted([], names);
    assert [] + names == names;
    if |names| <= U32_MAX && |h.address| <= U32_MAX {
      var x, y, z := U32Bytes(|names|), ItemsBytes(c, names), Sized(h.address);
      ThreeParts(b, x, y, z);
      ReadCountExact(b, 0, MAX_COLLECTIONS, |names|, 4);
      if |b| >= 4 {
        ItemsExact(c, b, 4, [], names, 4 + |y|);
      }
      ReadStringExact(b, 4 + |y|, MAX_ADDRESS_HINT_BYTES, h.address, |b|);
    }
    if HelloText(h) && EncodeHello(h) == Ok(b) {
      CheckedNamesAreShort(names);
    }
    if DecodeHello(b) == Ok(h) {
      DecodedHello(h, b);
    }
  }

  lemma {:induction false} DecodedHello(h: Hello, b: Bytes)
    requires DecodeHello(b) == Ok(h)
    ensures HelloText(h) && EncodeHello(h) == Ok(b)
  {
    hide U32Bytes, Sized, IsUtf8, ReadString, ReadCount, ItemsBytes, ReadItems, AdmitsAll, CheckNames;
    var c, names := NameCodec(), h.collections;
    NameCodecExact();
    ShortNamesAdmitted([], names);
    var (count, p1) := ReadCount(b, 0, MAX_COLLECTIONS).value;
    ReadCountExact(b, 0, MAX_COLLECTIONS, count, p1);
    var (items, p2) := ReadItems(c, b, p1, count, []).value;
    ReadItemsExtends(c, b, p1, count, []);
    assert [] + names == names;
    ItemsExact(c, b, p1, [], names, p2);
    var (address, p3) := ReadString(b, p2, MAX_ADDRESS_HINT_BYTES).value;
    ReadStringExact(b, p2, MAX_ADDRESS_HINT_BYTES, address, p3);
    ThreeParts(b, U32Bytes(|names|), ItemsBytes(c, names), Sized(address));
  }

  // ---------------------------------------------------------------- requests

  datatype FileRequest = FileRequest(collection: Bytes, path: Bytes, recordHash: Bytes32)

  /** The derived order: collection, then path, then hash. */
  predicate RequestLess(a: FileRequest, b: FileRequest)
  {
    LexLess(a.collection, b.collection)
    || (a.collection == b.collection
        && (LexLess(a.path, b.path) || (a.path == b.path && a.recordHash < b.recordHash)))
  }

  function CheckRequest(r: FileRequest): Result<(), ProtocolError>
  {
    var _ :- CheckShort(r.collection);
    if |r.path| > MAX_PATH_BYTES then Err(PathLimit)
    else
      match ParsePath(r.path)
      case Err(error) => Err(BadRequestPath(error))
      case Ok(_) => Ok(())
  }

  predicate RequestText(r: FileRequest)
  {
    IsUtf8(r.collection) && IsUtf8(r.path)
  }

  function RequestBytes(r: FileRequest): Bytes
    requires |r.collection| <= U32_MAX && |r.path| <= U32_MAX
  {
    Sized(r.collection) + Sized(r.path) + Fixed32(r.recordHash)
  }

  function ReadRequest(before: seq<FileRequest>, b: Bytes, p: nat): Result<(FileRequest, nat), ProtocolError>
  {
    var (collection, p1) :- ReadString(b, p, MAX_COLLECTION_NAME_BYTES);
    var (path, p2) :- ReadString(b, p1, MAX_PATH_BYTES);
    var (hash, p3) :- ReadHash(b, p2);
    var request := FileRequest(collection, path, hash);
    var _ :- CheckRequest(request);
    if |before| > 0 && !RequestLess(before[|before| - 1], request) then Err(UnorderedRequests)
    else Ok((request, p3))
  }

  /** Valid, and above the request before it. */
  predicate AdmitsRequest(before: seq<FileRequest>, r: FileRequest)
  {
    && CheckRequest(r).Ok? && RequestText(r)
    && (|before| > 0 ==> RequestLess(before[|before| - 1], r))
  }

  function RequestCodec(): ItemCodec<FileRequest>
  {
    ItemCodec((r: FileRequest) => if |r.collection| <= U32_MAX && |r.path| <= U32_MAX then RequestBytes(r) else [],
              (before, b, p) => ReadRequest(before, b, p),
              (before, r) => AdmitsRequest(before, r))
  }

  lemma {:induction false} RequestCodecExact()
    ensures Exact(RequestCodec())
  {
    hide ReadRequest, RequestBytes, IsUtf8, ParsePath, RequestLess;
    var c := RequestCodec();
    forall before: seq<FileRequest>, b: Bytes, p: nat, x: FileRequest, end: nat
      ensures ExactAt(c, before, b, p, x, end)
    {
      ReadRequestExact(before, b, p, x, end);
    }
  }

  lemma {:induction false} ReadRequestExact(before: seq<FileRequest>, b: Bytes, p: nat, r: FileRequest, end: nat)
    ensures ReadRequest(before, b, p) == Ok((r, end)) <==>
            && AdmitsRequest(before, r)
            && At(b, p, RequestBytes(r)) && end == p + |RequestBytes(r)|
  {
    hide ReadString, ReadHash, Sized, Fixed32, IsUtf8, ParsePath, RequestLess;
    if |r.collection| <= U32_MAX && |r.path| <= U32_MAX {
      var x, y := Sized(r.collection), Sized(r.path);
      AtConcat(b, p, x + y, Fixed32(r.recordHash));
      AtConcat(b, p, x, y);
      ReadStringExact(b, p, MAX_COLLECTION_NAME_BYTES, r.collection, p + |x|);
      ReadStringExact(b, p + |x|, MAX_PATH_BYTES, r.path, p + |x| + |y|);
      ReadHashExact(b, p + |x| + |y|, r.recordHash, p + |x| + |y| + 32);
    }
    if ReadRequest(before, b, p) == Ok((r, end)) {
      var (collection, p1) := ReadString(b, p, MAX_COLLECTION_NAME_BYTES).value;
      ReadStringExact(b, p, MAX_COLLECTION_NAME_BYTES, collection, p1);
      var (path, p2) := ReadString(b, p1, MAX_PATH_BYTES).value;
      ReadStringExact(b, p1, MAX_PATH_BYTES, path, p2);
      var (hash, p3) := ReadHash(b, p2).value;
      ReadHashExact(b, p2, hash, p3);
    }
  }

  function RequestsBytes(requests: seq<FileRequest>): Bytes
    requires |requests| <= U32_MAX
  {
    U32Bytes(|requests|) + ItemsBytes(RequestCodec(), requests)
  }

  /** The first reason a request list is refused, in list order. */
  function CheckRequests(requests: seq<FileRequest>): Result<(), ProtocolError>
  {
    if |requests| == 0 then Ok(())
    else
      var n := |requests| - 1;
      var _ :- CheckRequests(requests[..n]);
      var _ :- CheckRequest(requests[n]);
      if n > 0 && !RequestLess(requests[n - 1], requests[n]) then Err(UnorderedRequests) else Ok(())
  }

  function EncodeRequests(requests: seq<FileRequest>): Result<Bytes, ProtocolError>
  {
    if |requests| > MAX_TRANSFERS then Err(TransferLimit)
    else
      var _ :- CheckRequests(requests);
      Ok(RequestsBytes(requests))
  }

  function DecodeRequests(b: Bytes): Result<seq<FileRequest>, ProtocolError>
  {
    var (count, p1) :- ReadCount(b, 0, MAX_TRANSFERS);
    var (requests, p2) :- ReadItems(RequestCodec(), b, p1, count, []);
    var _ :- ReadEnd(b, p2);
    Ok(requests)
  }

  /** Admission item by item is the check of the whole list. */
  lemma {:induction false} RequestsAdmitted(requests: seq<FileRequest>)
    ensures AdmitsAll(RequestCodec(), [], requests) <==>
            CheckRequests(requests).Ok? && forall i :: 0 <= i < |requests| ==> RequestText(requests[i])
  {
    hide RequestLess, CheckRequest, RequestText, AdmitsAll, RequestCodec;
    if |requests| == 0 {
      NothingToAdmit(RequestCodec());
    } else {
      RequestCodecAdmits(requests[..|requests| - 1], requests[|requests| - 1]);
      var init, last := requests[..|requests| - 1], requests[|requests| - 1];
      assert requests == init + [last] && [] + init == init;
      RequestsAdmitted(init);
      AdmitsAppend(RequestCodec(), [], init, last);
    }
  }

  lemma {:induction false} RequestCodecAdmits(before: seq<FileRequest>, r: FileRequest)
    ensures RequestCodec().admits(before, r) <==> AdmitsRequest(before, r)
  {
  }

  lemma {:induction false} NothingToAdmit<T>(c: ItemCodec<T>)
    ensures AdmitsAll(c, [], [])
  {
  }

  lemma {:induction false} TwoParts(b: Bytes, x: Bytes, y: Bytes)
    ensures b == x + y <==> At(b, 0, x) && At(b, |x|, y) && |b| == |x| + |y|
  {
    AtWhole(b, x + y);
    AtConcat(b, 0, x, y);
  }

  /** Decoding requests accepts exactly what encoding them produces. */
  lemma {:induction false} RequestsRoundTrip(requests: seq<FileRequest>, b: Bytes)
    ensures DecodeRequests(b) == Ok(requests) <==>
            (forall i :: 0 <= i < |requests| ==> RequestText(requests[i])) && EncodeRequests(requests) == Ok(b)
  {
    hide U32Bytes, ReadCount, ItemsBytes, ReadItems, AdmitsAll, CheckRequests, RequestText;
    var c := RequestCodec();
    RequestCodecExact();
    assert [] + requests == requests;
    RequestsAdmitted(requests);
    if |requests| <= U32_MAX {
      TwoParts(b, U32Bytes(|requests|), ItemsBytes(c, requests));
      ReadCountExact(b, 0, MAX_TRANSFERS, |requests|, 4);
      if |b| >= 4 {
        ItemsExact(c, b, 4, [], requests, |b|);
      }
    }
    if DecodeRequests(b) == Ok(requests) {
      var (count, p1) := ReadCount(b, 0, MAX_TRANSFERS).value;
      ReadCountExact(b, 0, MAX_TRANSFERS, count, p1);
      ReadItemsExtends(c, b, p1, count, []);
    }
  }

  // ---------------------------------------------------------------- manifests

  type NamedManifest = (Bytes, Manifest)

  function RecordTotal(manifests: seq<NamedManifest>): nat
  {
    if |manifests| == 0 then 0
    else RecordTotal(manifests[..|manifests| - 1]) + |manifests[|manifests| - 1].1.records|
  }

  predicate IsNamed(manifests: seq<NamedManifest>, name: Bytes)
  {
    exists i :: 0 <= i < |manifests| && manifests[i].0 == name
  }

  function CheckRecords(records: seq<Record>, collection: Bytes): (r: Result<(), ProtocolError>)
    ensures r.Ok? <==> forall i :: 0 <= i < |records| ==> CheckRecord(records[i], collection).Ok?
  {
    if |records| == 0 then Ok(())
    else
      var n := |records| - 1;
      var _ :- CheckRecords(records[..n], collection);
      CheckRecord(records[n], collection)
  }

  /** A value of type `Manifest`, under a name that is a Rust string. */
  ghost predicate ManifestText(m: NamedManifest)
  {
    IsUtf8(m.0) && ManifestOk(m.1.records) && Strict(m.1.records)
  }

  /** The same without lengths: what the types alone promise. */
  ghost predicate ManifestValue(m: NamedManifest)
  {
    IsUtf8(m.0) && Strict(m.1.records) && forall i :: 0 <= i < |m.1.records| ==> RecordOk(m.1.records[i])
  }

  /** The checks both ends make of one manifest, given those before it. */
  function CheckManifest(before: seq<NamedManifest>, m: NamedManifest): Result<(), ProtocolError>
  {
    var _ :- CheckShort(m.0);
    if IsNamed(before, m.0) then Err(DuplicateCollection)
    else if RecordTotal(before) + |m.1.records| > MAX_MANIFEST_RECORDS then Err(ProtocolError.ManifestLimit)
    else CheckRecords(m.1.records, m.0)
  }

  function CheckManifests(manifests: seq<NamedManifest>): Result<(), ProtocolError>
  {
    if |manifests| == 0 then Ok(())
    else
      var n := |manifests| - 1;
      var _ :- CheckManifests(manifests[..n]);
      CheckManifest(manifests[..n], manifests[n])
  }

  function NamedBytes(m: NamedManifest): Bytes
    requires |m.0| <= U32_MAX && ManifestOk(m.1.records)
    requires |ManifestBytes(MANIFEST_DOMAIN, m.1.records)| <= U32_MAX
  {
    Sized(m.0) + Sized(ManifestBytes(MANIFEST_DOMAIN, m.1.records))
  }

  /** One manifest on the wire; the record limit shrinks by what came before. */
  function ReadManifest(before: seq<NamedManifest>, b: Bytes, p: nat): Result<(NamedManifest, nat), ProtocolError>
  {
    var (name, p1) :- ReadString(b, p, MAX_COLLECTION_NAME_BYTES);
    var _ :- CheckShort(name);
    if IsNamed(before, name) then Err(DuplicateCollection)
    else
      var (canonical, p2) :- ReadBytes(b, p1, MAX_MANIFEST_BYTES);
      var total := RecordTotal(before);
      match ParseManifest(canonical, if total > MAX_MANIFEST_RECORDS then 0 else MAX_MANIFEST_RECORDS - total)
      case Err(error) => Err(BadRecord(error))
      case Ok(manifest) =>
        if total + |manifest.records| > MAX_MANIFEST_RECORDS then Err(ProtocolError.ManifestLimit)
        else
          var _ :- CheckRecords(manifest.records, name);
          Ok(((name, manifest), p2))
  }

  ghost predicate AdmitsManifest(before: seq<NamedManifest>, m: NamedManifest)
  {
    && CheckManifest(before, m).Ok? && ManifestText(m)
    && |ManifestBytes(MANIFEST_DOMAIN, m.1.records)| <= MAX_MANIFEST_BYTES
  }

  ghost function ManifestCodec(): ItemCodec<NamedManifest>
  {
    ItemCodec((m: NamedManifest) =>
                if |m.0| <= U32_MAX && ManifestOk(m.1.records)
                   && |ManifestBytes(MANIFEST_DOMAIN, m.1.records)| <= U32_MAX
                then NamedBytes(m) else [],
              (before, b, p) => ReadManifest(before, b, p),
              (before, m) => AdmitsManifest(before, m))
  }

  lemma {:induction false} ReadManifestExact(before: seq<NamedManifest>, b: Bytes, p: nat, m: NamedManifest, end: nat)
    ensures ReadManifest(before, b, p) == Ok((m, end)) <==>
            AdmitsManifest(before, m) && At(b, p, NamedBytes(m)) && end == p + |NamedBytes(m)|
  {
    hide ReadString, ReadBytes, Sized, IsUtf8, ManifestBytes, ParseManifest, CheckRecords, RecordTotal, Strict,
         ManifestOk, IsNamed;
    if AdmitsManifest(before, m) {
      var x, s := Sized(m.0), ManifestBytes(MANIFEST_DOMAIN, m.1.records);
      AtConcat(b, p, x, Sized(s));
      ReadStringExact(b, p, MAX_COLLECTION_NAME_BYTES, m.0, p + |x|);
      ReadBytesExact(b, p + |x|, MAX_MANIFEST_BYTES, s, p + |x| + |Sized(s)|);
      ManifestRoundTrip(s, MAX_MANIFEST_RECORDS - RecordTotal(before));
      assert ParseManifest(s, MAX_MANIFEST_RECORDS - RecordTotal(before)) == Ok(Manifest(m.1.records));
      assert m == (m.0, Manifest(m.1.records));
    }
    if ReadManifest(before, b, p) == Ok((m, end)) {
      var (name, p1) := ReadString(b, p, MAX_COLLECTION_NAME_BYTES).value;
      ReadStringExact(b, p, MAX_COLLECTION_NAME_BYTES, name, p1);
      var (canonical, p2) := ReadBytes(b, p1, MAX_MANIFEST_BYTES).value;
      ReadBytesExact(b, p1, MAX_MANIFEST_BYTES, canonical, p2);
      var total := RecordTotal(before);
      ManifestRoundTrip(canonical, if total > MAX_MANIFEST_RECORDS then 0 else MAX_MANIFEST_RECORDS - total);
      AtConcat(b, p, Sized(name), Sized(canonical));
    }
  }

  lemma {:induction false} ManifestCodecExact()
    ensures Exact(ManifestCodec())
  {
    hide ReadManifest, NamedBytes, CheckManifest, ManifestBytes, IsUtf8, Strict;
    var c := ManifestCodec();
    forall before: seq<NamedManifest>, b: Bytes, p: nat, x: NamedManifest, end: nat
      ensures ExactAt(c, before, b, p, x, end)
    {
      ReadManifestExact(before, b, p, x, end);
      if CheckManifest(before, x).Ok? {
        CheckedNameIsShort(before, x);
      }
    }
  }

  lemma {:induction false} CheckedNameIsShort(before: seq<NamedManifest>, m: NamedManifest)
    requires CheckManifest(before, m).Ok?
    ensures |m.0| <= MAX_COLLECTION_NAME_BYTES
  {
  }

  ghost function ManifestsBytes(manifests: seq<NamedManifest>): Bytes
    requires |manifests| <= U32_MAX
  {
    U32Bytes(|manifests|) + ItemsBytes(ManifestCodec(), manifests)
  }

  ghost function EncodeManifests(manifests: seq<NamedManifest>): Result<Bytes, ProtocolError>
  {
    if |manifests| > MAX_COLLECTIONS then Err(CollectionLimit)
    else
      var _ :- CheckManifests(manifests);
      if |ManifestsBytes(manifests)| > MAX_MANIFEST_BYTES then Err(ProtocolError.ManifestLimit)
      else Ok(ManifestsBytes(manifests))
  }

  ghost function DecodeManifests(b: Bytes): Result<seq<NamedManifest>, ProtocolError>
  {
    if |b| > MAX_MANIFEST_BYTES then Err(ProtocolError.ManifestLimit)
    else
      var (count, p1) :- ReadCount(b, 0, MAX_COLLECTIONS);
      var (manifests, p2) :- ReadItems(ManifestCodec(), b, p1, count, []);
      var _ :- ReadEnd(b, p2);
      Ok(manifests)
  }

  /** Manifests that pass the checks and fit a bundle are admitted one by one: a part is never
      larger than the whole. */
  lemma {:induction false} ManifestsAdmitted(manifests: seq<NamedManifest>)
    ensures AdmitsAll(ManifestCodec(), [], manifests) ==>
              CheckManifests(manifests).Ok? && forall i :: 0 <= i < |manifests| ==> ManifestText(manifests[i])
    ensures CheckManifests(manifests).Ok? && (forall i :: 0 <= i < |manifests| ==> ManifestText(manifests[i]))
            && (forall i :: 0 <= i < |manifests| ==> Small(manifests[i])) ==>
              AdmitsAll(ManifestCodec(), [], manifests)
  {
    hide CheckManifest, ManifestText, AdmitsAll, ManifestBytes, ManifestOk;
    if |manifests| == 0 {
      NothingToAdmit(ManifestCodec());
    } else {
      var init, last := manifests[..|manifests| - 1], manifests[|manifests| - 1];
      assert manifests == init + [last] && [] + init == init;
      ManifestsAdmitted(init);
      AdmitsAppend(ManifestCodec(), [], init, last);
    }
  }

  ghost predicate Small(m: NamedManifest)
  {
    ManifestOk(m.1.records) && |ManifestBytes(MANIFEST_DOMAIN, m.1.records)| <= MAX_MANIFEST_BYTES
  }

  /** Each encoded item is a part of the encoded list. */
  lemma {:induction false} PartIsSmaller<T>(c: ItemCodec<T>, xs: seq<T>, i: nat)
    requires i < |xs|
    ensures |c.encode(xs[i])| <= |ItemsBytes(c, xs)|
    decreases |xs|
  {
    if i > 0 {
      PartIsSmaller(c, xs[1..], i - 1);
    }
  }

  lemma {:induction false} RecordsLength(records: seq<Record>)
    requires AllEncodable(records) && forall i :: 0 <= i < |records| ==> |RecordBytes(records[i])| <= 4_460
    ensures |RecordsBytes(records)| <= 4_464 * |records|
  {
    hide RecordOk, RecordBytes, U32Bytes;
    if |records| > 0 {
      RecordsLength(records[1..]);
    }
  }

  /** A manifest that passes the checks is short: its length always fits 32 bits. */
  lemma {:induction false} CheckedManifestIsShort(before: seq<NamedManifest>, m: NamedManifest)
    requires CheckManifest(before, m).Ok? && forall i :: 0 <= i < |m.1.records| ==> RecordOk(m.1.records[i])
    ensures ManifestOk(m.1.records) && |ManifestBytes(MANIFEST_DOMAIN, m.1.records)| <= U32_MAX
  {
    hide RecordOk, RecordBytes, U32Bytes, IsNamed, RecordsBytes;
    forall i | 0 <= i < |m.1.records|
      ensures Encodable(m.1.records[i]) && |RecordBytes(m.1.records[i])| <= 4_460
    {
      CheckedRecordIsShort(m.1.records[i], m.0);
    }
    RecordsLength(m.1.records);
  }

  lemma {:induction false} CheckedRecordIsShort(r: Record, collection: Bytes)
    requires RecordOk(r) && CheckRecord(r, collection).Ok?
    ensures Encodable(r) && |RecordBytes(r)| <= 4_460
  {
    hide IsUtf8, ParsePath, RecordBytes;
    RecordLength(r);
  }

  lemma {:induction false} ManifestAt(manifests: seq<NamedManifest>, i: nat)
    requires CheckManifests(manifests).Ok? && i < |manifests|
    ensures CheckManifest(manifests[..i], manifests[i]).Ok?
  {
    hide CheckManifest;
    if i < |manifests| - 1 {
      ManifestAt(manifests[..|manifests| - 1], i);
      assert manifests[..|manifests| - 1][..i] == manifests[..i];
    }
  }

  /** Decoding a manifest bundle, under the receiver's limits, accepts exactly what encoding one
      produces. */
  lemma {:induction false} ManifestsRoundTrip(manifests: seq<NamedManifest>, b: Bytes)
    ensures DecodeManifests(b) == Ok(manifests) <==>
            (forall i :: 0 <= i < |manifests| ==> ManifestValue(manifests[i])) && EncodeManifests(manifests) == Ok(b)
  {
    hide CheckManifests, ManifestBytes, IsUtf8, Strict, ManifestOk, RecordOk, DecodeManifests, ManifestsBytes;
    if DecodeManifests(b) == Ok(manifests) {
      DecodedManifests(manifests, b);
      forall i | 0 <= i < |manifests|
        ensures ManifestValue(manifests[i])
      {
        assert ManifestText(manifests[i]);
        TextIsValue(manifests[i]);
      }
    }
    if (forall i :: 0 <= i < |manifests| ==> ManifestValue(manifests[i])) && EncodeManifests(manifests) == Ok(b) {
      forall i | 0 <= i < |manifests|
        ensures ManifestText(manifests[i]) && |ManifestBytes(MANIFEST_DOMAIN, manifests[i].1.records)| <= U32_MAX
      {
        ManifestAt(manifests, i);
        CheckedManifestIsShort(manifests[..i], manifests[i]);
      }
      EncodedManifests(manifests, b);
    }
  }

  lemma {:induction false} TextIsValue(m: NamedManifest)
    requires ManifestText(m)
    ensures ManifestValue(m)
  {
    hide RecordOk, Strict, IsUtf8;
    assert forall i :: 0 <= i < |m.1.records| ==> Encodable(m.1.records[i]);
  }

  lemma {:induction false} DecodedManifests(manifests: seq<NamedManifest>, b: Bytes)
    requires DecodeManifests(b) == Ok(manifests)
    ensures (forall i :: 0 <= i < |manifests| ==> ManifestText(manifests[i])) && EncodeManifests(manifests) == Ok(b)
  {
    hide U32Bytes, ReadCount, ItemsBytes, ReadItems, AdmitsAll, CheckManifests, ManifestBytes, IsUtf8, Strict,
         ManifestOk;
    var c := ManifestCodec();
    ManifestCodecExact();
    ManifestsAdmitted(manifests);
    assert [] + manifests == manifests;
    var (count, p1) := ReadCount(b, 0, MAX_COLLECTIONS).value;
    ReadCountExact(b, 0, MAX_COLLECTIONS, count, p1);
    ReadItemsExtends(c, b, p1, count, []);
    TwoParts(b, U32Bytes(|manifests|), ItemsBytes(c, manifests));
    ItemsExact(c, b, 4, [], manifests, |b|);
  }

  lemma {:induction false} EncodedManifests(manifests: seq<NamedManifest>, b: Bytes)
    requires EncodeManifests(manifests) == Ok(b)
    requires forall i :: 0 <= i < |manifests| ==>
               ManifestText(manifests[i]) && |ManifestBytes(MANIFEST_DOMAIN, manifests[i].1.records)| <= U32_MAX
    ensures DecodeManifests(b) == Ok(manifests)
  {
    hide U32Bytes, ReadCount, ItemsBytes, ReadItems, AdmitsAll, CheckManifests, ManifestBytes, IsUtf8, Strict,
         ManifestOk;
    var c := ManifestCodec();
    ManifestCodecExact();
    ManifestsAdmitted(manifests);
    assert [] + manifests == manifests;
    TwoParts(b, U32Bytes(|manifests|), ItemsBytes(c, manifests));
    ReadCountExact(b, 0, MAX_COLLECTIONS, |manifests|, 4);
    forall i | 0 <= i < |manifests|
      ensures Small(manifests[i])
    {
      PartIsSmaller(c, manifests, i);
      CheckedNames(manifests, i);
      SizedIsLonger(manifests[i]);
    }
    ItemsExact(c, b, 4, [], manifests, |b|);
  }

  lemma {:induction false} CheckedNames(manifests: seq<NamedManifest>, i: nat)
    requires CheckManifests(manifests).Ok? && i < |manifests|
    ensures |manifests[i].0| <= MAX_COLLECTION_NAME_BYTES
    ensures CheckRecords(manifests[i].1.records, manifests[i].0).Ok?
  {
    hide CheckRecords, IsNamed, RecordTotal;
    if i < |manifests| - 1 {
      CheckedNames(manifests[..|manifests| - 1], i);
    }
  }

  lemma {:induction false} SizedIsLonger(m: NamedManifest)
    requires |m.0| <= U32_MAX && ManifestOk(m.1.records) && |ManifestBytes(MANIFEST_DOMAIN, m.1.records)| <= U32_MAX
    ensures |NamedBytes(m)| >= |ManifestBytes(MANIFEST_DOMAIN, m.1.records)|
  {
    hide ManifestBytes;
  }

  // ---------------------------------------------------------------- rosters

  ghost function RevisionCodec(): ItemCodec<RosterRevision>
  {
    ItemCodec((r: RosterRevision) =>
                if RevisionOk(r) && |RevisionBytes(r)| <= U32_MAX then Sized(RevisionBytes(r)) else [],
              (before, b, p) => ReadRevision(b, p),
              (before, r) => AdmitsRevision(r))
  }

  ghost function ReadRevision(b: Bytes, p: nat): Result<(RosterRevision, nat), ProtocolError>
  {
    var (canonical, p1) :- ReadBytes(b, p, MAX_ROSTER_BYTES);
    match ParseRevision(canonical, MAX_ROSTER_MEMBERS)
    case Err(error) => Err(BadRoster(error))
    case Ok(r) => if |r.members| > MAX_ROSTER_MEMBERS then Err(RosterLimit) else Ok((r, p1))
  }

  ghost predicate AdmitsRevision(r: RosterRevision)
  {
    RevisionOk(r) && |r.members| <= MAX_ROSTER_MEMBERS && |RevisionBytes(r)| <= MAX_ROSTER_BYTES
  }

  lemma {:induction false} RevisionCodecExact()
    ensures Exact(RevisionCodec())
  {
    hide ReadBytes, Sized, RevisionBytes, RevisionOk, TakeRevision;
    var c := RevisionCodec();
    forall before: seq<RosterRevision>, b: Bytes, p: nat, r: RosterRevision, end: nat
      ensures ExactAt(c, before, b, p, r, end)
    {
      if AdmitsRevision(r) {
        var s := RevisionBytes(r);
        ReadBytesExact(b, p, MAX_ROSTER_BYTES, s, end);
        RevisionDecodes(r, MAX_ROSTER_MEMBERS);
      }
      if ReadRevision(b, p) == Ok((r, end)) {
        var (canonical, p1) := ReadBytes(b, p, MAX_ROSTER_BYTES).value;
        ReadBytesExact(b, p, MAX_ROSTER_BYTES, canonical, p1);
        RevisionEncodes(canonical, MAX_ROSTER_MEMBERS);
      }
    }
  }

  ghost function RosterBytes(revisions: seq<RosterRevision>): Bytes
    requires |revisions| <= U32_MAX
  {
    U32Bytes(|revisions|) + ItemsBytes(RevisionCodec(), revisions)
  }

  /** The first revision that cannot be written: too many members, or too long for its prefix. */
  ghost function CheckRevisions(revisions: seq<RosterRevision>): Result<(), ProtocolError>
  {
    if |revisions| == 0 then Ok(())
    else
      var last := revisions[|revisions| - 1];
      var _ :- CheckRevisions(revisions[..|revisions| - 1]);
      if |last.members| > MAX_ROSTER_MEMBERS then Err(RosterLimit)
      else if RevisionOk(last) && |RevisionBytes(last)| > U32_MAX then Err(ProtocolError.LengthOverflow)
      else Ok(())
  }

  ghost function EncodeRoster(revisions: seq<RosterRevision>): Result<Bytes, ProtocolError>
  {
    if |revisions| == 0 || |revisions| > MAX_ROSTER_REVISIONS then Err(RosterLimit)
    else
      var _ :- CheckRevisions(revisions);
      if |RosterBytes(revisions)| > MAX_ROSTER_BYTES then Err(RosterLimit) else Ok(RosterBytes(revisions))
  }

  ghost function DecodeRoster(e: RosterEnv, b: Bytes): Result<seq<RosterRevision>, ProtocolError>
  {
    if |b| > MAX_ROSTER_BYTES then Err(RosterLimit)
    else
      var (count, p1) :- ReadCount(b, 0, MAX_ROSTER_REVISIONS);
      if count == 0 then Err(InvalidRoster)
      else
        var (revisions, p2) :- ReadItems(RevisionCodec(), b, p1, count, []);
        var _ :- ReadEnd(b, p2);
        if |revisions| == 0 then Err(InvalidRoster)
        else
          match CheckChain(e, revisions)
          case Err(error) => Err(BadRoster(error))
          case Ok(_) => Ok(revisions)
  }

  lemma {:induction false} RevisionsAdmitted(before: seq<RosterRevision>, revisions: seq<RosterRevision>)
    ensures AdmitsAll(RevisionCodec(), before, revisions) <==>
            forall i :: 0 <= i < |revisions| ==> AdmitsRevision(revisions[i])
    decreases |revisions|
  {
    hide AdmitsRevision;
    if |revisions| > 0 {
      RevisionsAdmitted(before + [revisions[0]], revisions[1..]);
      assert forall i :: 0 < i < |revisions| ==> revisions[i] == revisions[1..][i - 1];
    }
  }

  lemma {:induction false} CheckedRevisions(revisions: seq<RosterRevision>)
    ensures CheckRevisions(revisions).Ok? <==>
            forall i :: 0 <= i < |revisions| ==>
              && |revisions[i].members| <= MAX_ROSTER_MEMBERS
              && (RevisionOk(revisions[i]) ==> |RevisionBytes(revisions[i])| <= U32_MAX)
  {
    hide RevisionOk, RevisionBytes;
    if |revisions| > 0 {
      CheckedRevisions(revisions[..|revisions| - 1]);
    }
  }

  /** Decoding a roster accepts exactly what encoding a valid chain of usable names produces. */
  lemma {:induction false} RosterRoundTrip(e: RosterEnv, revisions: seq<RosterRevision>, b: Bytes)
    ensures DecodeRoster(e, b) == Ok(revisions) <==>
            && IsChain(e, revisions) && EncodeRoster(revisions) == Ok(b)
            && forall i :: 0 <= i < |revisions| ==> RevisionNames(revisions[i])
  {
    hide EncodeRoster, DecodeRoster, RevisionNames, IsChain;
    if DecodeRoster(e, b) == Ok(revisions) {
      DecodedRoster(e, revisions, b);
    }
    if IsChain(e, revisions) && EncodeRoster(revisions) == Ok(b)
       && forall i :: 0 <= i < |revisions| ==> RevisionNames(revisions[i]) {
      EncodedRoster(e, revisions, b);
    }
  }

  lemma {:induction false} DecodedRoster(e: RosterEnv, revisions: seq<RosterRevision>, b: Bytes)
    requires DecodeRoster(e, b) == Ok(revisions)
    ensures IsChain(e, revisions) && EncodeRoster(revisions) == Ok(b)
    ensures forall i :: 0 <= i < |revisions| ==> RevisionNames(revisions[i])
  {
    hide U32Bytes, ReadCount, ItemsBytes, ReadItems, AdmitsAll, RevisionBytes, RevisionNames, IsChain, CheckChain;
    hide CheckRevisions;
    var c := RevisionCodec();
    RevisionCodecExact();
    RevisionsAdmitted([], revisions);
    CheckedRevisions(revisions);
    assert [] + revisions == revisions;
    var (count, p1) := ReadCount(b, 0, MAX_ROSTER_REVISIONS).value;
    ReadCountExact(b, 0, MAX_ROSTER_REVISIONS, count, p1);
    ReadItemsExtends(c, b, p1, count, []);
    TwoParts(b, U32Bytes(|revisions|), ItemsBytes(c, revisions));
    ItemsExact(c, b, 4, [], revisions, |b|);
  }

  lemma {:induction false} EncodedRoster(e: RosterEnv, revisions: seq<RosterRevision>, b: Bytes)
    requires IsChain(e, revisions) && EncodeRoster(revisions) == Ok(b)
    requires forall i :: 0 <= i < |revisions| ==> RevisionNames(revisions[i])
    ensures DecodeRoster(e, b) == Ok(revisions)
  {
    hide U32Bytes, ReadCount, ItemsBytes, ReadItems, AdmitsAll, RevisionBytes, RevisionNames, IsChain, CheckChain;
    hide CheckRevisions;
    var c := RevisionCodec();
    RevisionCodecExact();
    RevisionsAdmitted([], revisions);
    CheckedRevisions(revisions);
    assert [] + revisions == revisions;
    TwoParts(b, U32Bytes(|revisions|), ItemsBytes(c, revisions));
    ReadCountExact(b, 0, MAX_ROSTER_REVISIONS, |revisions|, 4);
    forall i | 0 <= i < |revisions|
      ensures AdmitsRevision(revisions[i])
    {
      PartIsSmaller(c, revisions, i);
    }
    ItemsExact(c, b, 4, [], revisions, |b|);
  }
}
