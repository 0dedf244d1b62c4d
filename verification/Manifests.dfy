/** Manifests: one record for each path of a collection, in strict key order. */
module Manifests {
  import opened Prelude
  import opened Bytes
  import opened Canonical
  import opened Paths
  import opened Records

  datatype Manifest = Manifest(records: seq<Record>)

  // ---------------------------------------------------------------- key order

  /** Order of `(collection, path)` pairs. */
  predicate KeyLess(a: Record, b: Record)
  {
    LexLess(a.collection, b.collection) || (a.collection == b.collection && LexLess(a.path, b.path))
  }

  predicate SameKey(a: Record, b: Record)
  {
    a.collection == b.collection && a.path == b.path
  }

  lemma {:induction false} KeyOrder(a: Record, b: Record, c: Record)
    ensures !KeyLess(a, a)
    ensures KeyLess(a, b) && KeyLess(b, c) ==> KeyLess(a, c)
    ensures KeyLess(a, b) || KeyLess(b, a) || SameKey(a, b)
    ensures KeyLess(a, b) ==> !KeyLess(b, a) && !SameKey(a, b)
  {
    LexIrreflexive(a.collection);
    LexIrreflexive(a.path);
    LexTotal(a.collection, b.collection);
    LexTotal(a.path, b.path);
    Transitive(a, b, a);
    Transitive(a, b, c);
  }

  lemma {:induction false} Transitive(a: Record, b: Record, c: Record)
    ensures KeyLess(a, b) && KeyLess(b, c) ==> KeyLess(a, c)
  {
    if KeyLess(a, b) && KeyLess(b, c) {
      if LexLess(a.collection, b.collection) && LexLess(b.collection, c.collection) {
        LexTransitive(a.collection, b.collection, c.collection);
      } else if a.collection == b.collection == c.collection {
        LexTransitive(a.path, b.path, c.path);
      }
    }
  }

  /** Strictly increasing keys: adjacent records, hence all pairs. */
  ghost predicate Strict(records: seq<Record>)
  {
    forall i, j :: 0 <= i < j < |records| ==> KeyLess(records[i], records[j])
  }

  ghost predicate Ordered(records: seq<Record>)
  {
    forall i, j :: 0 <= i < j < |records| ==> !KeyLess(records[j], records[i])
  }

  ghost predicate DistinctKeys(records: seq<Record>)
  {
    forall i, j :: 0 <= i < j < |records| ==> !SameKey(records[i], records[j])
  }

  // ---------------------------------------------------------------- the stable sort

  /** Inserts behind every record whose key is not greater. */
  function InsertByKey(sorted: seq<Record>, r: Record): (out: seq<Record>)
    ensures |out| == |sorted| + 1
  {
    if |sorted| == 0 || !KeyLess(r, sorted[|sorted| - 1]) then sorted + [r]
    else InsertByKey(sorted[..|sorted| - 1], r) + [sorted[|sorted| - 1]]
  }

  /** `slice::sort_by` on the key: stable. */
  function SortByKey(records: seq<Record>): (out: seq<Record>)
    ensures |out| == |records|
  {
    if |records| == 0 then [] else InsertByKey(SortByKey(records[..|records| - 1]), records[|records| - 1])
  }

  lemma {:induction false} InsertAddsOne(sorted: seq<Record>, r: Record)
    ensures multiset(InsertByKey(sorted, r)) == multiset(sorted) + multiset{r}
  {
    if |sorted| > 0 && KeyLess(r, sorted[|sorted| - 1]) {
      InsertAddsOne(sorted[..|sorted| - 1], r);
      assert sorted == sorted[..|sorted| - 1] + [sorted[|sorted| - 1]];
    }
  }

  lemma {:induction false} InsertKeepsOrder(sorted: seq<Record>, r: Record)
    requires Ordered(sorted)
    ensures Ordered(InsertByKey(sorted, r))
  {
    hide KeyLess, LexLess;
    if |sorted| == 0 || !KeyLess(r, sorted[|sorted| - 1]) {
      forall i | 0 <= i < |sorted|
        ensures !KeyLess(r, sorted[i])
      {
        KeyOrder(r, sorted[i], sorted[|sorted| - 1]);
        KeyOrder(sorted[i], sorted[|sorted| - 1], r);
        KeyOrder(sorted[|sorted| - 1], r, r);
        SameKeysCompareAlike(sorted[i], sorted[|sorted| - 1], r);
      }
    } else {
      var init, last := sorted[..|sorted| - 1], sorted[|sorted| - 1];
      InsertKeepsOrder(init, r);
      InsertAddsOne(init, r);
      var out := InsertByKey(init, r);
      forall i | 0 <= i < |out|
        ensures !KeyLess(last, out[i])
      {
        assert out[i] in multiset(out);
        assert out[i] == r || out[i] in init;
        KeyOrder(last, out[i], last);
        KeyOrder(r, last, r);
      }
    }
  }

  lemma {:induction false} SameKeysCompareAlike(a: Record, b: Record, c: Record)
    ensures SameKey(a, b) ==> (KeyLess(c, a) <==> KeyLess(c, b)) && (KeyLess(a, c) <==> KeyLess(b, c))
  {
  }

  lemma {:induction false} SortIsSort(records: seq<Record>)
    ensures Ordered(SortByKey(records))
    ensures multiset(SortByKey(records)) == multiset(records)
  {
    if |records| > 0 {
      var init := records[..|records| - 1];
      SortIsSort(init);
      InsertKeepsOrder(SortByKey(init), records[|records| - 1]);
      InsertAddsOne(SortByKey(init), records[|records| - 1]);
      assert records == init + [records[|records| - 1]];
    }
  }

  lemma {:induction false} SortFixesStrict(records: seq<Record>)
    requires Strict(records)
    ensures SortByKey(records) == records
  {
    if |records| > 0 {
      var init, last := records[..|records| - 1], records[|records| - 1];
      SortFixesStrict(init);
      if |init| > 0 {
        KeyOrder(init[|init| - 1], last, last);
      }
      assert records == init + [last];
    }
  }

  lemma {:induction false} OrderedDistinctIsStrict(records: seq<Record>)
    requires Ordered(records)
    ensures DistinctKeys(records) <==> Strict(records)
  {
    forall i, j | 0 <= i < j < |records|
      ensures KeyLess(records[i], records[j]) <==> !SameKey(records[i], records[j])
    {
      KeyOrder(records[i], records[j], records[i]);
    }
  }

  // ---------------------------------------------------------------- construction

  function NewManifest(records: seq<Record>): Result<Manifest, RecordError>
  {
    var sorted := SortByKey(records);
    if exists i, j :: 0 <= i < j < |sorted| && SameKey(sorted[i], sorted[j]) then Err(DuplicatePath)
    else Ok(Manifest(sorted))
  }

  method BuildManifest(records: seq<Record>) returns (r: Result<Manifest, RecordError>)
    ensures r == NewManifest(records)
  {
    var sorted := SortByKey(records);
    var keys: set<(Bytes, Bytes)> := {};
    var i := 0;
    while i < |sorted|
      invariant 0 <= i <= |sorted|
      invariant forall k :: 0 <= k < i ==> (sorted[k].collection, sorted[k].path) in keys
      invariant forall key :: key in keys ==> exists k :: 0 <= k < i && key == (sorted[k].collection, sorted[k].path)
      invariant forall k, l :: 0 <= k < l < i ==> !SameKey(sorted[k], sorted[l])
    {
      var key := (sorted[i].collection, sorted[i].path);
      if key in keys {
        ghost var k :| 0 <= k < i && key == (sorted[k].collection, sorted[k].path);
        assert SameKey(sorted[k], sorted[i]);
        return Err(DuplicatePath);
      }
      keys := keys + {key};
      i := i + 1;
    }
    return Ok(Manifest(sorted));
  }

  /** A manifest is built exactly from records with distinct keys; it then holds those records
      in strict key order. */
  lemma {:induction false} NewManifestIsStrict(records: seq<Record>)
    ensures NewManifest(records).Ok? ==>
              Strict(NewManifest(records).value.records)
                  && multiset(NewManifest(records).value.records) == multiset(records)
    ensures Strict(records) ==> NewManifest(records) == Ok(Manifest(records))
  {
    SortIsSort(records);
    OrderedDistinctIsStrict(SortByKey(records));
    if Strict(records) {
      SortFixesStrict(records);
    }
  }

  // ---------------------------------------------------------------- canonical bytes

  /** "skillsync-manifest-v1" and a NUL. */
  const MANIFEST_DOMAIN: Bytes :=
      [115, 107, 105, 108, 108, 115, 121, 110, 99, 45, 109, 97, 110, 105, 102, 101, 115, 116, 45, 118, 49, 0]

  predicate Encodable(r: Record)
  {
    RecordOk(r) && |RecordBytes(r)| <= U32_MAX
  }

  predicate AllEncodable(records: seq<Record>)
  {
    forall i :: 0 <= i < |records| ==> Encodable(records[i])
  }

  predicate ManifestOk(records: seq<Record>)
  {
    |records| <= U32_MAX && AllEncodable(records)
  }

  function RecordsBytes(records: seq<Record>): Bytes
    requires AllEncodable(records)
  {
    if |records| == 0 then [] else Sized(RecordBytes(records[0])) + RecordsBytes(records[1..])
  }

  function ManifestBytes(domain: Bytes, records: seq<Record>): Bytes
    requires ManifestOk(records)
  {
    domain + U32Bytes(|records|) + RecordsBytes(records)
  }

  /** Reads `count` length-prefixed records behind those already read. */
  function TakeRecords(b: Bytes, p: nat, count: nat, before: seq<Record>): Result<(seq<Record>, nat), RecordError>
    decreases count
  {
    if count == 0 then Ok((before, p))
    else
      var (s, next) :- Lift(TakeSized(b, p));
      var r :- ParseRecord(s);
      TakeRecords(b, next, count - 1, before + [r])
  }

  function TakeManifest(b: Bytes, domain: Bytes, maxRecords: nat): Result<seq<Record>, RecordError>
  {
    var p0 :- Lift(Open(b, domain));
    var (count, p1) :- Lift(TakeU32(b, p0));
    if count > maxRecords then Err(ManifestLimit)
    else
      var (records, end) :- TakeRecords(b, p1, count, []);
      var _ :- Lift(Finish(b, end));
      Ok(records)
  }

  /** `from_canonical_with_limit`: the decoded records are sorted and checked for duplicates, and
      the result must encode to the very bytes received. */
  function ParseManifest(b: Bytes, maxRecords: nat): Result<Manifest, RecordError>
  {
    var records :- TakeManifest(b, MANIFEST_DOMAIN, maxRecords);
    var manifest :- NewManifest(records);
    WireRecordsEncode(b, maxRecords);
    if ManifestBytes(MANIFEST_DOMAIN, manifest.records) != b then Err(BadEncoding(UnorderedKeys))
    else Ok(manifest)
  }

  lemma {:induction false} RecordsDecode(b: Bytes, p: nat, records: seq<Record>, before: seq<Record>)
    requires AllEncodable(records)
    requires At(b, p, RecordsBytes(records))
    ensures TakeRecords(b, p, |records|, before) == Ok((before + records, p + |RecordsBytes(records)|))
    decreases |records|
  {
    hide RecordBytes, ParseRecord, Sized, TakeSized, IsUtf8, ParsePath, U32Bytes;
    if |records| > 0 {
      var r, s := records[0], RecordBytes(records[0]);
      AtConcat(b, p, Sized(s), RecordsBytes(records[1..]));
      TakesSized(b, p, s);
      assert Encodable(r);
      RecordDecodes(r);
      RecordsDecode(b, p + |Sized(s)|, records[1..], before + [r]);
      assert before + [r] + records[1..] == before + records;
    } else {
      assert before + records == before;
    }
  }

  lemma {:induction false} RecordsEncode(b: Bytes, p: nat, count: nat, before: seq<Record>)
    requires p <= |b| && TakeRecords(b, p, count, before).Ok?
    ensures var (all, end) := TakeRecords(b, p, count, before).value;
            && |all| == |before| + count && before <= all
            && AllEncodable(all[|before|..])
            && At(b, p, RecordsBytes(all[|before|..])) && end == p + |RecordsBytes(all[|before|..])|
    decreases count
  {
    hide RecordBytes, ParseRecord, Sized, TakeSized, IsUtf8, ParsePath, U32Bytes;
    var (all, end) := TakeRecords(b, p, count, before).value;
    if count > 0 {
      var (s, next) := TakeSized(b, p).value;
      var r := ParseRecord(s).value;
      RecordEncodes(s);
      assert Encodable(r);
      RecordsEncode(b, next, count - 1, before + [r]);
      var rest := all[|before| + 1..];
      assert all[|before|..] == [r] + rest;
      AtConcat(b, p, Sized(s), RecordsBytes(rest));
    } else {
      assert all[|before|..] == [];
      assert b[p..p] == [];
    }
  }

  lemma {:induction false} ManifestDecodes(domain: Bytes, records: seq<Record>, maxRecords: nat)
    requires ManifestOk(records) && |records| <= maxRecords
    ensures TakeManifest(ManifestBytes(domain, records), domain, maxRecords) == Ok(records)
  {
    hide U32Bytes, TakeU32, RecordsBytes, TakeRecords;
    var b := ManifestBytes(domain, records);
    AtWhole(b, b);
    AtConcat(b, 0, domain + U32Bytes(|records|), RecordsBytes(records));
    AtConcat(b, 0, domain, U32Bytes(|records|));
    TakesU32(b, |domain|, |records|);
    RecordsDecode(b, |domain| + 4, records, []);
    assert [] + records == records;
  }

  lemma {:induction false} ManifestEncodes(b: Bytes, domain: Bytes, maxRecords: nat)
    requires TakeManifest(b, domain, maxRecords).Ok?
    ensures var records := TakeManifest(b, domain, maxRecords).value;
            ManifestOk(records) && |records| <= maxRecords && ManifestBytes(domain, records) == b
  {
    hide U32Bytes, TakeU32, RecordsBytes, TakeRecords, RecordsBytes;
    var (count, p1) := TakeU32(b, |domain|).value;
    var (records, end) := TakeRecords(b, p1, count, []).value;
    RecordsEncode(b, p1, count, []);
    assert records[0..] == records;
    AtConcat(b, 0, domain, U32Bytes(count));
    AtConcat(b, 0, domain + U32Bytes(count), RecordsBytes(records));
    AtWhole(b, ManifestBytes(domain, records));
  }

  /** Records that came off the wire can be encoded again, in whatever order. */
  lemma {:induction false} WireRecordsEncode(b: Bytes, maxRecords: nat)
    requires TakeManifest(b, MANIFEST_DOMAIN, maxRecords).Ok?
    requires NewManifest(TakeManifest(b, MANIFEST_DOMAIN, maxRecords).value).Ok?
    ensures ManifestOk(NewManifest(TakeManifest(b, MANIFEST_DOMAIN, maxRecords).value).value.records)
  {
    hide ManifestBytes, TakeManifest, Encodable;
    var wire := TakeManifest(b, MANIFEST_DOMAIN, maxRecords).value;
    var records := NewManifest(wire).value.records;
    ManifestEncodes(b, MANIFEST_DOMAIN, maxRecords);
    SortIsSort(wire);
    forall i | 0 <= i < |records|
      ensures Encodable(records[i])
    {
      assert records[i] in multiset(records);
      var j :| 0 <= j < |wire| && wire[j] == records[i];
    }
  }

  lemma {:induction false} ManifestBytesInjective(domain: Bytes, x: seq<Record>, y: seq<Record>)
    requires ManifestOk(x) && ManifestOk(y) && ManifestBytes(domain, x) == ManifestBytes(domain, y)
    ensures x == y
  {
    ManifestDecodes(domain, x, |x| + |y|);
    ManifestDecodes(domain, y, |x| + |y|);
  }

  /** The decoder accepts exactly the encodings of records in strict key order within the limit,
      and returns those records: an unsorted or repeated list on the wire is refused. */
  lemma {:induction false} ManifestRoundTrip(b: Bytes, maxRecords: nat)
    ensures ParseManifest(b, maxRecords).Ok? ==>
              var records := ParseManifest(b, maxRecords).value.records;
              && ManifestOk(records) && Strict(records) && |records| <= maxRecords
              && ManifestBytes(MANIFEST_DOMAIN, records) == b
    ensures forall records ::
              (ManifestOk(records) && Strict(records) && |records| <= maxRecords
                  && b == ManifestBytes(MANIFEST_DOMAIN, records)) ==>
              ParseManifest(b, maxRecords) == Ok(Manifest(records))
  {
    hide ManifestBytes, TakeManifest, NewManifest;
    if ParseManifest(b, maxRecords).Ok? {
      var wire := TakeManifest(b, MANIFEST_DOMAIN, maxRecords).value;
      var records := ParseManifest(b, maxRecords).value.records;
      ManifestEncodes(b, MANIFEST_DOMAIN, maxRecords);
      NewManifestIsStrict(wire);
      WireRecordsEncode(b, maxRecords);
      ManifestBytesInjective(MANIFEST_DOMAIN, wire, records);
    }
    forall records | ManifestOk(records) && Strict(records) && |records| <= maxRecords
              && b == ManifestBytes(MANIFEST_DOMAIN, records)
      ensures ParseManifest(b, maxRecords) == Ok(Manifest(records))
    {
      ManifestDecodes(MANIFEST_DOMAIN, records, maxRecords);
      NewManifestIsStrict(records);
    }
  }

  /** Which lists on the wire are refused, and why: repeated keys, else any other order. */
  lemma {:induction false} UnsortedIsRefused(records: seq<Record>, maxRecords: nat)
    requires ManifestOk(records) && |records| <= maxRecords && !Strict(records)
    ensures ParseManifest(ManifestBytes(MANIFEST_DOMAIN, records), maxRecords) ==
            Err(if DistinctKeys(SortByKey(records)) then BadEncoding(UnorderedKeys) else DuplicatePath)
  {
    hide ManifestBytes, TakeManifest;
    ManifestDecodes(MANIFEST_DOMAIN, records, maxRecords);
    var manifest := NewManifest(records);
    if manifest.Ok? {
      NewManifestIsStrict(records);
      WireRecordsEncode(ManifestBytes(MANIFEST_DOMAIN, records), maxRecords);
      if ManifestBytes(MANIFEST_DOMAIN, manifest.value.records) == ManifestBytes(MANIFEST_DOMAIN, records) {
        ManifestBytesInjective(MANIFEST_DOMAIN, manifest.value.records, records);
      }
    }
  }

  // ---------------------------------------------------------------- codec methods

  method EncodeManifest(records: seq<Record>) returns (b: Bytes)
    requires ManifestOk(records)
    ensures b == ManifestBytes(MANIFEST_DOMAIN, records)
  {
    hide RecordBytes, Sized, U32Bytes, IsUtf8, ParsePath;
    var encoder := new Encoder(MANIFEST_DOMAIN);
    encoder.U32(|records|);
    var i := 0;
    assert records[0..] == records;
    while i < |records|
      invariant 0 <= i <= |records| && AllEncodable(records[i..])
      invariant encoder.bytes + RecordsBytes(records[i..]) == ManifestBytes(MANIFEST_DOMAIN, records)
    {
      assert Encodable(records[i]);
      assert records[i..][0] == records[i] && records[i..][1..] == records[i + 1..];
      ghost var start := encoder.bytes;
      var canonical := EncodeRecord(records[i]);
      var _ := encoder.SizedBytes(canonical);
      assert start + (Sized(canonical) + RecordsBytes(records[i + 1..]))
             == encoder.bytes + RecordsBytes(records[i + 1..]);
      i := i + 1;
    }
    assert encoder.bytes + [] == encoder.bytes;
    b := encoder.bytes;
  }

  method DecodeManifest(b: Bytes, maxRecords: nat) returns (r: Result<Manifest, RecordError>)
    ensures r == ParseManifest(b, maxRecords)
  {
    hide TakeSized, ParseRecord, TakeU32, ManifestBytes, NewManifest;
    var start :- Lift(Open(b, MANIFEST_DOMAIN));
    var decoder := new Decoder(b, start);
    var count := decoder.U32();
    if count.Err? {
      return Err(BadEncoding(count.error));
    }
    if count.value > maxRecords {
      return Err(ManifestLimit);
    }
    var records := [];
    var i := 0;
    while i < count.value
      invariant 0 <= i <= count.value
      invariant TakeManifest(b, MANIFEST_DOMAIN, maxRecords) ==
                match TakeRecords(b, decoder.position, count.value - i, records)
                case Err(error) => Err(error)
                case Ok((all, end)) => if end == |b| then Ok(all) else Err(BadEncoding(TrailingBytes))
      invariant decoder.bytes == b
    {
      var canonical := decoder.SizedBytes();
      if canonical.Err? {
        return Err(BadEncoding(canonical.error));
      }
      var record :- DecodeRecord(canonical.value);
      records := records + [record];
      i := i + 1;
    }
    var end := decoder.End();
    if end.Err? {
      return Err(BadEncoding(end.error));
    }
    var manifest :- BuildManifest(records);
    WireRecordsEncode(b, maxRecords);
    var again := EncodeManifest(manifest.records);
    if again != b {
      return Err(BadEncoding(UnorderedKeys));
    }
    return Ok(manifest);
  }
}
