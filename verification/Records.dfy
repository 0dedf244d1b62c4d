/** File and deletion records, their canonical bytes, and the last-write-wins order. */
module Records {
  import opened Prelude
  import opened Bytes
  import opened Canonical
  import opened Paths

  datatype RecordKind = File(size: u64, contentHash: Bytes32) | Tombstone

  datatype Record = Record(
    collection: Bytes,
    path: Bytes,
    modifiedNs: i64,
    author: Bytes32,
    kind: RecordKind)

  datatype RecordError =
    | EmptyCollection
    | FieldTooLong
    | FileTooLarge
    | DuplicatePath
    | ManifestLimit
    | BadEncoding(encoding: CanonicalError)
    | BadPath(path: PathError)

  /** What every constructed record satisfies: `String` and `ProtocolPath` are UTF-8 by type, and
      `Record::new` checks the rest. */
  predicate RecordOk(r: Record)
  {
    && 0 < |r.collection| <= U32_MAX && IsUtf8(r.collection)
    && |r.path| <= U32_MAX && IsUtf8(r.path) && ParsePath(r.path).Ok?
    && (r.kind.File? ==> r.kind.size <= I64_MAX)
  }

  function NewRecord(collection: Bytes, path: Bytes, modifiedNs: i64, author: Bytes32,
      kind: RecordKind): Result<Record, RecordError>
  {
    if |collection| == 0 then Err(EmptyCollection)
    else if |collection| > U32_MAX || |path| > U32_MAX then Err(FieldTooLong)
    else if kind.File? && kind.size > I64_MAX then Err(FileTooLarge)
    else Ok(Record(collection, path, modifiedNs, author, kind))
  }

  // ---------------------------------------------------------------- canonical bytes

  /** "skillsync-record-v1" and a NUL. */
  const RECORD_DOMAIN: Bytes :=
      [115, 107, 105, 108, 108, 115, 121, 110, 99, 45, 114, 101, 99, 111, 114, 100, 45, 118, 49, 0]

  function KindBytes(kind: RecordKind): Bytes
  {
    match kind
    case Tombstone => [0]
    case File(size, contentHash) => [1] + U64Bytes(size) + Fixed32(contentHash)
  }

  function NameBytes(domain: Bytes, collection: Bytes, path: Bytes): Bytes
    requires |collection| <= U32_MAX && |path| <= U32_MAX
  {
    domain + Sized(collection) + Sized(path)
  }

  function BodyBytes(modifiedNs: i64, author: Bytes32, kind: RecordKind): Bytes
  {
    I64Bytes(modifiedNs) + Fixed32(author) + KindBytes(kind)
  }

  function RecordBytes(r: Record): Bytes
    requires |r.collection| <= U32_MAX && |r.path| <= U32_MAX
  {
    NameBytes(RECORD_DOMAIN, r.collection, r.path) + BodyBytes(r.modifiedNs, r.author, r.kind)
  }

  /** A canonical error inside a record error, as `?` converts it. */
  function Lift<T>(r: Result<T, CanonicalError>): Result<T, RecordError>
  {
    match r
    case Ok(value) => Ok(value)
    case Err(error) => Err(BadEncoding(error))
  }

  function TakeKind(b: Bytes, p: nat): Result<(RecordKind, nat), CanonicalError>
  {
    var (tag, p1) :- TakeU8(b, p);
    if tag == 0 then Ok((Tombstone, p1))
    else if tag == 1 then
      var (size, p2) :- TakeU64(b, p1);
      var (contentHash, p3) :- TakeFixed32(b, p2);
      Ok((File(size, contentHash), p3))
    else Err(UnknownTag)
  }

  /** The domain prefix, the collection and the path. */
  function TakeName(b: Bytes, domain: Bytes): Result<(Bytes, Bytes, nat), RecordError>
  {
    var p0 :- Lift(Open(b, domain));
    var (collection, p1) :- Lift(TakeString(b, p0));
    var (path, p2) :- Lift(TakeString(b, p1));
    match ParsePath(path)
    case Err(error) => Err(BadPath(error))
    case Ok(_) => Ok((collection, path, p2))
  }

  /** The remaining fields. */
  function TakeBody(b: Bytes, p: nat): Result<(i64, Bytes32, RecordKind, nat), CanonicalError>
  {
    var (modifiedNs, p1) :- TakeI64(b, p);
    var (author, p2) :- TakeFixed32(b, p1);
    var (kind, p3) :- TakeKind(b, p2);
    Ok((modifiedNs, author, kind, p3))
  }

  /** `from_canonical`. */
  function ParseRecord(b: Bytes): Result<Record, RecordError>
  {
    var (collection, path, p) :- TakeName(b, RECORD_DOMAIN);
    var (modifiedNs, author, kind, end) :- Lift(TakeBody(b, p));
    var _ :- Lift(Finish(b, end));
    NewRecord(collection, path, modifiedNs, author, kind)
  }

  lemma {:induction false} KindAt(b: Bytes, p: nat, kind: RecordKind)
    ensures At(b, p, KindBytes(kind)) <==> TakeKind(b, p) == Ok((kind, p + |KindBytes(kind)|))
    ensures TakeKind(b, p).Ok? && TakeKind(b, p).value.0 == kind ==> TakeKind(b, p).value.1 == p + |KindBytes(kind)|
  {
    match kind
    case Tombstone =>
      if At(b, p, [0]) {
        TakesU8(b, p, 0);
      }
    case File(size, contentHash) =>
      AtConcat(b, p, [1] + U64Bytes(size), Fixed32(contentHash));
      AtConcat(b, p, [1], U64Bytes(size));
      if At(b, p, KindBytes(kind)) {
        TakesU8(b, p, 1);
        TakesU64(b, p + 1, size);
        TakesFixed32(b, p + 9, contentHash);
      }
  }

  lemma {:induction false} NameDecodes(b: Bytes, domain: Bytes, collection: Bytes, path: Bytes)
    requires |collection| <= U32_MAX && IsUtf8(collection)
    requires |path| <= U32_MAX && IsUtf8(path) && ParsePath(path).Ok?
    requires At(b, 0, NameBytes(domain, collection, path))
    ensures TakeName(b, domain) == Ok((collection, path, |NameBytes(domain, collection, path)|))
  {
    hide Sized, IsUtf8, ParsePath, TakeString, LexLess;
    AtConcat(b, 0, domain + Sized(collection), Sized(path));
    AtConcat(b, 0, domain, Sized(collection));
    TakesString(b, |domain|, collection);
    TakesString(b, |domain| + |Sized(collection)|, path);
  }

  lemma {:induction false} NameEncodes(b: Bytes, domain: Bytes)
    requires TakeName(b, domain).Ok?
    ensures var (collection, path, p) := TakeName(b, domain).value;
            && |collection| <= U32_MAX && IsUtf8(collection)
            && |path| <= U32_MAX && IsUtf8(path) && ParsePath(path).Ok?
            && At(b, 0, NameBytes(domain, collection, path))
            && p == |NameBytes(domain, collection, path)|
  {
    hide IsUtf8, ParsePath, U32Bytes;
    var (collection, path, p) := TakeName(b, domain).value;
    AtConcat(b, 0, domain, Sized(collection));
    AtConcat(b, 0, domain + Sized(collection), Sized(path));
  }

  lemma {:induction false} BodyDecodes(b: Bytes, p: nat, modifiedNs: i64, author: Bytes32, kind: RecordKind)
    requires At(b, p, BodyBytes(modifiedNs, author, kind))
    ensures TakeBody(b, p) == Ok((modifiedNs, author, kind, p + |BodyBytes(modifiedNs, author, kind)|))
  {
    AtConcat(b, p, I64Bytes(modifiedNs) + Fixed32(author), KindBytes(kind));
    AtConcat(b, p, I64Bytes(modifiedNs), Fixed32(author));
    TakesI64(b, p, modifiedNs);
    TakesFixed32(b, p + 8, author);
    KindAt(b, p + 40, kind);
  }

  lemma {:induction false} BodyEncodes(b: Bytes, p: nat)
    requires TakeBody(b, p).Ok?
    ensures var (modifiedNs, author, kind, end) := TakeBody(b, p).value;
            At(b, p, BodyBytes(modifiedNs, author, kind)) && end == p + |BodyBytes(modifiedNs, author, kind)|
  {
    hide I64Bytes, Fixed32, KindBytes, TakeI64, TakeFixed32, TakeKind;
    var (modifiedNs, author, kind, end) := TakeBody(b, p).value;
    KindAt(b, p + 40, kind);
    AtConcat(b, p, I64Bytes(modifiedNs), Fixed32(author));
    AtConcat(b, p, I64Bytes(modifiedNs) + Fixed32(author), KindBytes(kind));
  }

  /** Decoding an encoded record returns the record. */
  lemma {:induction false} RecordDecodes(r: Record)
    requires RecordOk(r)
    ensures ParseRecord(RecordBytes(r)) == Ok(r)
  {
    hide NameBytes, BodyBytes, TakeName, TakeBody, IsUtf8, ParsePath;
    var b := RecordBytes(r);
    var name, body := NameBytes(RECORD_DOMAIN, r.collection, r.path), BodyBytes(r.modifiedNs, r.author, r.kind);
    AtWhole(b, b);
    AtConcat(b, 0, name, body);
    NameDecodes(b, RECORD_DOMAIN, r.collection, r.path);
    BodyDecodes(b, |name|, r.modifiedNs, r.author, r.kind);
  }

  /** Any accepted byte string is the encoding of the record it decodes to. */
  lemma {:induction false} RecordEncodes(b: Bytes)
    requires ParseRecord(b).Ok?
    ensures RecordOk(ParseRecord(b).value) && RecordBytes(ParseRecord(b).value) == b
  {
    hide NameBytes, BodyBytes, TakeName, TakeBody, IsUtf8, ParsePath;
    var (collection, path, p) := TakeName(b, RECORD_DOMAIN).value;
    var (modifiedNs, author, kind, end) := TakeBody(b, p).value;
    NameEncodes(b, RECORD_DOMAIN);
    BodyEncodes(b, p);
    AtConcat(b, 0, NameBytes(RECORD_DOMAIN, collection, path), BodyBytes(modifiedNs, author, kind));
    AtWhole(b, RecordBytes(ParseRecord(b).value));
  }

  lemma {:induction false} RecordBytesInjective(x: Record, y: Record)
    requires RecordOk(x) && RecordOk(y) && RecordBytes(x) == RecordBytes(y)
    ensures x == y
  {
    RecordDecodes(x);
    RecordDecodes(y);
  }

  // ---------------------------------------------------------------- codec methods

  method EncodeKind(encoder: Encoder, kind: RecordKind)
    modifies encoder
    ensures encoder.bytes == old(encoder.bytes) + KindBytes(kind)
  {
    match kind
    case Tombstone =>
      encoder.U8(0);
    case File(size, contentHash) =>
      ghost var start := encoder.bytes;
      encoder.U8(1);
      encoder.U64(size);
      encoder.Fixed(Fixed32(contentHash));
      assert encoder.bytes == start + ([1] + U64Bytes(size) + Fixed32(contentHash));
  }

  method EncodeBody(encoder: Encoder, r: Record)
    modifies encoder
    ensures encoder.bytes == old(encoder.bytes) + BodyBytes(r.modifiedNs, r.author, r.kind)
  {
    ghost var start := encoder.bytes;
    encoder.I64(r.modifiedNs);
    encoder.Fixed(Fixed32(r.author));
    EncodeKind(encoder, r.kind);
    assert encoder.bytes == start + (I64Bytes(r.modifiedNs) + Fixed32(r.author) + KindBytes(r.kind));
  }

  method EncodeRecord(r: Record) returns (b: Bytes)
    requires RecordOk(r)
    ensures b == RecordBytes(r)
  {
    var encoder := new Encoder(RECORD_DOMAIN);
    var _ := encoder.SizedBytes(r.collection);
    var _ := encoder.SizedBytes(r.path);
    EncodeBody(encoder, r);
    b := encoder.bytes;
  }

  method DecodeKind(decoder: Decoder) returns (r: Result<RecordKind, CanonicalError>)
    modifies decoder
    ensures Moved(TakeKind(decoder.bytes, old(decoder.position)), r, decoder.position)
  {
    var tag :- decoder.U8();
    if tag == 0 {
      return Ok(Tombstone);
    } else if tag == 1 {
      var size :- decoder.U64();
      var contentHash :- decoder.F32();
      return Ok(File(size, contentHash));
    }
    return Err(UnknownTag);
  }

  method DecodeBody(decoder: Decoder) returns (r: Result<(i64, Bytes32, RecordKind), CanonicalError>)
    modifies decoder
    ensures match TakeBody(decoder.bytes, old(decoder.position))
            case Ok((modifiedNs, author, kind, end)) => r == Ok((modifiedNs, author, kind)) && decoder.position == end
            case Err(error) => r == Err(error)
  {
    var modifiedNs :- decoder.I64();
    var author :- decoder.F32();
    var kind :- DecodeKind(decoder);
    return Ok((modifiedNs, author, kind));
  }

  method DecodeRecord(b: Bytes) returns (r: Result<Record, RecordError>)
    ensures r == ParseRecord(b)
  {
    var start :- Lift(Open(b, RECORD_DOMAIN));
    var decoder := new Decoder(b, start);
    var collection := decoder.String();
    if collection.Err? {
      return Err(BadEncoding(collection.error));
    }
    var path := decoder.String();
    if path.Err? {
      return Err(BadEncoding(path.error));
    }
    var parsed := ParsePath(path.value);
    if parsed.Err? {
      return Err(BadPath(parsed.error));
    }
    var body := DecodeBody(decoder);
    if body.Err? {
      return Err(BadEncoding(body.error));
    }
    var end := decoder.End();
    if end.Err? {
      return Err(BadEncoding(end.error));
    }
    return NewRecord(collection.value, path.value, body.value.0, body.value.1, body.value.2);
  }

  // ---------------------------------------------------------------- last write wins

  /** The digest of a record's canonical bytes, as an arbitrary function. */
  type RecordHashing = Record -> Bytes32

  datatype Ordering = Less | Equal | Greater

  function CompareInts(a: int, b: int): Ordering
  {
    if a < b then Less else if a > b then Greater else Equal
  }

  function Then(first: Ordering, second: Ordering): Ordering
  {
    if first.Equal? then second else first
  }

  /** `compare_winner`: write time, then author, then record hash. */
  function CompareWinner(hash: RecordHashing, a: Record, b: Record): Ordering
  {
    Then(CompareInts(a.modifiedNs, b.modifiedNs),
         Then(CompareInts(a.author, b.author), CompareInts(hash(a), hash(b))))
  }

  predicate Beats(hash: RecordHashing, a: Record, b: Record)
  {
    CompareWinner(hash, a, b).Greater?
  }

  /** The order decides every pair one way, both ways round agree, and it is transitive. */
  lemma {:induction false} WinnerOrderIsTotal(hash: RecordHashing, a: Record, b: Record, c: Record)
    ensures CompareWinner(hash, a, b).Greater? <==> CompareWinner(hash, b, a).Less?
    ensures CompareWinner(hash, a, b).Equal? <==> CompareWinner(hash, b, a).Equal?
    ensures Beats(hash, a, b) && Beats(hash, b, c) ==> Beats(hash, a, c)
    ensures CompareWinner(hash, a, b).Equal? ==> CompareWinner(hash, a, c) == CompareWinner(hash, b, c)
  {
  }

  /** A finite set of records in use in which hashing canonical bytes has no collision. */
  ghost predicate NoByteCollision(digest: Bytes -> Bytes32, s: set<Record>)
  {
    && (forall x :: x in s ==> RecordOk(x))
    && forall x, y :: x in s && y in s && digest(RecordBytes(x)) == digest(RecordBytes(y)) ==>
       RecordBytes(x) == RecordBytes(y)
  }

  /** Hashing through the canonical bytes, for any digest on bytes. */
  function CanonicalHash(digest: Bytes -> Bytes32): RecordHashing
  {
    (r: Record) => var h: Bytes32 := if RecordOk(r) then digest(RecordBytes(r)) else 0; h
  }

  /** Unless the digest collides, two records compare equal only when they are the same record:
      the order is total on distinct records because the encoding is injective. */
  lemma {:induction false} EqualOnlyOnEqualRecords(digest: Bytes -> Bytes32, s: set<Record>, a: Record, b: Record)
    requires NoByteCollision(digest, s) && a in s && b in s
    ensures CompareWinner(CanonicalHash(digest), a, b).Equal? <==> a == b
  {
    if CompareWinner(CanonicalHash(digest), a, b).Equal? {
      RecordBytesInjective(a, b);
    }
  }
}
