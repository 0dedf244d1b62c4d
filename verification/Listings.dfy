/** What a peer lists of its index: the winners of each shared collection in path order, bundled
    into manifests. */
module Listings {
  import opened Prelude
  import opened Bytes
  import opened Canonical
  import opened Paths
  import opened Records
  import opened Manifests
  import opened RecordStore
  import opened Gossip
  import opened Wire
  import opened Bundles
  import opened Exchange

  ghost predicate Listed(c: Record, w: Winners, names: set<Name>)
  {
    KeyOf(c) in w && c.collection in names && w[KeyOf(c)] == c
  }

  /** The records are exactly the winners of the named collections. */
  ghost predicate Lists(cs: seq<Record>, w: Winners, names: set<Name>)
  {
    forall c :: c in cs <==> Listed(c, w, names)
  }

  // ---------------------------------------------------------------- one collection

  /** The winners of one collection in path order. */
  ghost function ListingOf(w: Winners, name: Name): (cs: seq<Record>)
    ensures Strict(cs) && Lists(cs, w, {name})
  {
    ListingExists(w, name);
    var cs :| Strict(cs) && Lists(cs, w, {name});
    cs
  }

  lemma {:induction false} ListingExists(w: Winners, name: Name)
    ensures exists cs :: Strict(cs) && Lists(cs, w, {name})
  {
    hide Strict;
    var cs, pending := [], w.Keys;
    while pending != {}
      invariant pending <= w.Keys && DistinctKeys(cs)
      invariant forall c :: c in cs <==> Listed(c, w, {name}) && KeyOf(c) !in pending
    {
      var k :| k in pending;
      pending := pending - {k};
      if k.0 == name && KeyOf(w[k]) == k {
        AppendDistinct(cs, w[k]);
        ghost var before := cs;
        cs := cs + [w[k]];
        assert forall c :: c in cs <==> c in before || c == w[k];
      }
    }
    SortedListing(cs, w, name);
  }

  lemma {:induction false} AppendDistinct(cs: seq<Record>, c: Record)
    requires DistinctKeys(cs) && forall x :: x in cs ==> KeyOf(x) != KeyOf(c)
    ensures DistinctKeys(cs + [c])
  {
    forall i, j | 0 <= i < j < |cs + [c]|
      ensures !SameKey((cs + [c])[i], (cs + [c])[j])
    {
      assert cs[i] in cs;
    }
  }

  lemma {:induction false} SortedListing(cs: seq<Record>, w: Winners, name: Name)
    requires DistinctKeys(cs) && Lists(cs, w, {name})
    ensures Strict(SortByKey(cs)) && Lists(SortByKey(cs), w, {name})
  {
    hide Listed;
    var sorted := SortByKey(cs);
    SortIsSort(cs);
    forall i, j | 0 <= i < j < |sorted|
      ensures !SameKey(sorted[i], sorted[j])
    {
      KeptApart(cs, sorted, i, j);
    }
    OrderedDistinctIsStrict(sorted);
    forall c
      ensures c in sorted <==> c in cs
    {
      assert c in sorted <==> c in multiset(sorted);
      assert c in cs <==> c in multiset(cs);
    }
  }

  /** A permutation of records with distinct keys has distinct keys. */
  lemma {:induction false} KeptApart(records: seq<Record>, sorted: seq<Record>, i: nat, j: nat)
    requires DistinctKeys(records) && multiset(sorted) == multiset(records)
    requires i < j < |sorted|
    ensures !SameKey(sorted[i], sorted[j])
  {
    hide SameKey;
    var x, y := sorted[i], sorted[j];
    assert x in multiset(sorted) && y in multiset(sorted);
    assert x in records && y in records;
    if x == y {
      OccursOnce(records, x);
      OccursTwice(sorted, i, j);
    } else {
      SameKeyIsSymmetric(x, y);
    }
  }

  lemma {:induction false} SameKeyIsSymmetric(x: Record, y: Record)
    ensures SameKey(x, x) && (SameKey(x, y) <==> SameKey(y, x))
  {
  }

  lemma {:induction false} OccursOnce(records: seq<Record>, x: Record)
    requires DistinctKeys(records)
    ensures multiset(records)[x] <= 1
  {
    hide SameKey;
    if |records| > 0 {
      var n := |records| - 1;
      assert records == records[..n] + [records[n]];
      OccursOnce(records[..n], x);
      if x == records[n] {
        SameKeyIsSymmetric(x, x);
        assert x !in records[..n];
      }
    }
  }

  lemma {:induction false} OccursTwice(sorted: seq<Record>, i: nat, j: nat)
    requires i < j < |sorted| && sorted[i] == sorted[j]
    ensures multiset(sorted)[sorted[i]] >= 2
  {
    assert sorted == sorted[..i] + ([sorted[i]] + sorted[i + 1..j] + [sorted[j]]) + sorted[j + 1..];
  }

  /** A set of records has one strictly ordered list. */
  lemma {:induction false} StrictIsUnique(x: seq<Record>, y: seq<Record>)
    requires Strict(x) && Strict(y) && forall c :: c in x <==> c in y
    ensures x == y
  {
    hide KeyLess;
    HeadIsIn(x);
    HeadIsIn(y);
    if |x| > 0 && |y| > 0 {
      assert x[0] in y;
      KeyOrder(x[0], y[0], x[0]);
      var j :| 0 <= j < |y| && y[j] == x[0];
      assert y[0] in x;
      var i :| 0 <= i < |x| && x[i] == y[0];
      assert x[0] == y[0];
      HeadIsApart(x);
      HeadIsApart(y);
      forall c
        ensures c in x[1..] <==> c in y[1..]
      {
        assert c in x <==> c == x[0] || c in x[1..];
        assert c in y <==> c == y[0] || c in y[1..];
      }
      StrictIsUnique(x[1..], y[1..]);
      assert x == [x[0]] + x[1..] && y == [y[0]] + y[1..];
    }
  }

  lemma {:induction false} HeadIsIn(x: seq<Record>)
    ensures |x| > 0 ==> x[0] in x
  {
  }

  lemma {:induction false} HeadIsApart(x: seq<Record>)
    requires Strict(x) && |x| > 0
    ensures x[0] !in x[1..]
  {
    hide KeyLess;
    KeyOrder(x[0], x[0], x[0]);
    forall i | 0 < i < |x|
      ensures x[i] != x[0]
    {
    }
  }

  /** The query for one collection's records, ordered by path. */
  method RecordsOf(store: RecordTables, name: Name) returns (records: seq<Record>)
    requires store.Valid()
    ensures records == ListingOf(WinnersOf(store.rows), name)
  {
    hide RecordOk, RowSound, Strict;
    ghost var w := WinnersOf(store.rows);
    records := [];
    var pending := store.rows.Keys;
    while pending != {}
      invariant pending <= store.rows.Keys && DistinctKeys(records)
      invariant forall c :: c in records <==> Listed(c, w, {name}) && KeyOf(c) !in pending
    {
      var k :| k in pending;
      pending := pending - {k};
      if k.0 == name {
        AppendDistinct(records, store.rows[k].record);
        ghost var before := records;
        records := records + [store.rows[k].record];
        assert forall c :: c in records <==> c in before || c == store.rows[k].record;
      }
    }
    SortedListing(records, w, name);
    records := SortByKey(records);
    StrictIsUnique(records, ListingOf(w, name));
  }

  // ---------------------------------------------------------------- the bundle

  /** The manifests of the shared collections. */
  ghost function BundleOf(w: Winners, shared: seq<Name>): (m: seq<NamedManifest>)
    ensures |m| == |shared|
    ensures forall i :: 0 <= i < |shared| ==> m[i] == (shared[i], Manifest(ListingOf(w, shared[i])))
  {
    if |shared| == 0 then []
    else
      var n := |shared| - 1;
      BundleOf(w, shared[..n]) + [(shared[n], Manifest(ListingOf(w, shared[n])))]
  }

  /** `build_manifests`.  The error for a path listed twice cannot arise. */
  method BuildManifests(store: RecordTables, shared: seq<Name>) returns (manifests: seq<NamedManifest>)
    requires store.Valid()
    ensures manifests == BundleOf(WinnersOf(store.rows), shared)
  {
    hide WellFormed, NewManifest, Strict;
    manifests := [];
    for i := 0 to |shared|
      invariant manifests == BundleOf(WinnersOf(store.rows), shared[..i])
    {
      assert shared[..i + 1][..i] == shared[..i];
      var records := RecordsOf(store, shared[i]);
      NewManifestIsStrict(records);
      var manifest := BuildManifest(records);
      manifests := manifests + [(shared[i], manifest.value)];
    }
    assert shared[..|shared|] == shared;
  }

  /** The bundle names exactly the shared collections and lists exactly their winners. */
  lemma {:induction false} BundleLists(w: Winners, shared: seq<Name>)
    ensures Lists(AllRecords(BundleOf(w, shared)), w, SetOf(shared)) && NamesOf(BundleOf(w, shared)) == SetOf(shared)
  {
    hide Strict;
    var m := BundleOf(w, shared);
    if |shared| > 0 {
      var n := |shared| - 1;
      var init, last := m[..n], m[n].1.records;
      assert init == BundleOf(w, shared[..n]);
      BundleLists(w, shared[..n]);
      assert shared == shared[..n] + [shared[n]];
      assert AllRecords(m) == AllRecords(init) + last;
      forall c
        ensures c in AllRecords(m) <==> Listed(c, w, SetOf(shared))
      {
        assert c in AllRecords(init) <==> Listed(c, w, SetOf(shared[..n]));
        assert c in last <==> Listed(c, w, {shared[n]});
      }
    }
    forall i | 0 <= i < |shared|
      ensures shared[i] in NamesOf(m)
    {
      assert m[i].0 == shared[i];
    }
  }

  /** It depends on nothing but the winners there. */
  lemma {:induction false} BundleDepends(w: Winners, v: Winners, shared: seq<Name>)
    requires Shared(w, SetOf(shared)) == Shared(v, SetOf(shared))
    ensures BundleOf(w, shared) == BundleOf(v, shared)
  {
    hide Strict;
    forall i | 0 <= i < |shared|
      ensures ListingOf(w, shared[i]) == ListingOf(v, shared[i])
    {
      forall c
        ensures Listed(c, w, {shared[i]}) <==> Listed(c, v, {shared[i]})
      {
        assert shared[i] in SetOf(shared);
        assert KeyOf(c).0 == shared[i] && KeyOf(c) in w ==> KeyOf(c) in Shared(w, SetOf(shared));
        assert KeyOf(c).0 == shared[i] && KeyOf(c) in v ==> KeyOf(c) in Shared(v, SetOf(shared));
      }
      StrictIsUnique(ListingOf(w, shared[i]), ListingOf(v, shared[i]));
    }
  }

  // ---------------------------------------------------------------- sending it

  /** The bundle fits the wire: collections, records and bytes are within their limits. */
  ghost predicate Encodes(w: Winners, shared: seq<Name>)
  {
    EncodeManifests(BundleOf(w, shared)).Ok?
  }

  /** What the peer decodes from a bundle, if it can be encoded at all. */
  ghost function Arriving(manifests: seq<NamedManifest>): Option<seq<NamedManifest>>
  {
    var b := EncodeManifests(manifests);
    if b.Err? || DecodeManifests(b.value).Err? then None else Some(DecodeManifests(b.value).value)
  }

  /** The winners of the named collections are constructible records filed under their key. */
  ghost predicate Filed(w: Winners, names: set<Name>)
  {
    forall k :: k in w && k.0 in names ==> KeyOf(w[k]) == k && RecordOk(w[k])
  }

  /** A bundle that encodes arrives as it was sent, and each of its records may be requested. */
  lemma {:induction false} BundleArrives(w: Winners, shared: seq<Name>)
    requires Encodes(w, shared) && Filed(w, SetOf(shared)) && forall i :: 0 <= i < |shared| ==> IsUtf8(shared[i])
    ensures var m := BundleOf(w, shared);
            Arriving(m) == Some(m) && BundleOk(m) && |EncodeManifests(m).value| <= MAX_MANIFEST_BYTES
    ensures forall k :: k in w && k.0 in SetOf(shared) ==> Sendable(w[k])
  {
    hide RecordOk, Strict, IsUtf8, DecodeManifests, CheckManifests, ManifestText, ManifestsBytes, Sendable;
    var m := BundleOf(w, shared);
    forall i | 0 <= i < |m|
      ensures ManifestValue(m[i])
    {
      assert forall j :: 0 <= j < |m[i].1.records| ==> Listed(m[i].1.records[j], w, {shared[i]});
    }
    ManifestsRoundTrip(m, EncodeManifests(m).value);
    DecodedManifests(m, EncodeManifests(m).value);
    BundleRecords(m);
    BundleLists(w, shared);
    forall k | k in w && k.0 in SetOf(shared)
      ensures Sendable(w[k])
    {
      assert Listed(w[k], w, SetOf(shared));
    }
  }

  // ---------------------------------------------------------------- what fits

  ghost predicate DistinctNames(shared: seq<Name>)
  {
    forall i, j :: 0 <= i < j < |shared| ==> shared[i] != shared[j]
  }

  function KeysOf(cs: seq<Record>): set<Key>
  {
    set i | 0 <= i < |cs| :: KeyOf(cs[i])
  }

  lemma {:induction false} DistinctKeyCount(cs: seq<Record>)
    requires DistinctRecords(cs)
    ensures |KeysOf(cs)| == |cs|
  {
    if |cs| > 0 {
      var n := |cs| - 1;
      DistinctKeyCount(cs[..n]);
      assert KeysOf(cs) == KeysOf(cs[..n]) + {KeyOf(cs[n])};
      assert KeyOf(cs[n]) !in KeysOf(cs[..n]);
    } else {
      assert KeysOf(cs) == {};
    }
  }

  /** No path is listed twice. */
  lemma {:induction false} BundleIsDistinct(w: Winners, shared: seq<Name>)
    requires DistinctNames(shared)
    ensures DistinctRecords(AllRecords(BundleOf(w, shared)))
  {
    if |shared| > 0 {
      var n := |shared| - 1;
      var m := BundleOf(w, shared);
      var before, last := AllRecords(m[..n]), m[n].1.records;
      assert m[..n] == BundleOf(w, shared[..n]);
      BundleIsDistinct(w, shared[..n]);
      BundleLists(w, shared[..n]);
      forall i, j | 0 <= i < j < |before + last|
        ensures KeyOf((before + last)[i]) != KeyOf((before + last)[j])
      {
        if i < |before| && j >= |before| {
          assert Listed(before[i], w, SetOf(shared[..n]));
          assert Listed(last[j - |before|], w, {shared[n]});
        } else if i >= |before| {
          KeyOrder(last[i - |before|], last[j - |before|], last[i - |before|]);
        }
      }
    }
  }

  lemma {:induction false} AllRecordsTotal(m: seq<NamedManifest>)
    ensures |AllRecords(m)| == RecordTotal(m)
  {
    if |m| > 0 {
      AllRecordsTotal(m[..|m| - 1]);
    }
  }

  /** The bundle holds one record for each shared path. */
  lemma {:induction false} BundleTotal(w: Winners, shared: seq<Name>)
    requires DistinctNames(shared) && Filed(w, SetOf(shared))
    ensures RecordTotal(BundleOf(w, shared)) == |Shared(w, SetOf(shared)).Keys|
  {
    hide RecordOk;
    var cs := AllRecords(BundleOf(w, shared));
    BundleIsDistinct(w, shared);
    BundleLists(w, shared);
    AllRecordsTotal(BundleOf(w, shared));
    DistinctKeyCount(cs);
    forall k
      ensures k in KeysOf(cs) <==> k in Shared(w, SetOf(shared))
    {
      if k in KeysOf(cs) {
        var i :| 0 <= i < |cs| && KeyOf(cs[i]) == k;
        assert Listed(cs[i], w, SetOf(shared));
      }
      if k in Shared(w, SetOf(shared)) {
        assert Listed(w[k], w, SetOf(shared));
      }
    }
    assert KeysOf(cs) == Shared(w, SetOf(shared)).Keys;
  }

  lemma {:induction false} CheckedTotal(m: seq<NamedManifest>)
    requires CheckManifests(m).Ok?
    ensures RecordTotal(m) <= MAX_MANIFEST_RECORDS
  {
    hide IsNamed, CheckRecords, CheckShort;
  }

  /** More shared paths than the record limit never fit, however short they are. */
  lemma {:induction false} CrowdedBundlesDoNotFit(w: Winners, shared: seq<Name>)
    requires DistinctNames(shared) && Filed(w, SetOf(shared))
    requires |Shared(w, SetOf(shared)).Keys| > MAX_MANIFEST_RECORDS
    ensures !Encodes(w, shared)
  {
    hide CheckManifests, ManifestsBytes, BundleOf, Filed, RecordTotal;
    BundleTotal(w, shared);
    if Encodes(w, shared) {
      CheckedTotal(BundleOf(w, shared));
    }
  }

  /** A record that may stand in a bundle and whose names take at most so many bytes. */
  ghost predicate Narrow(r: Record, collection: Name, width: nat)
  {
    Encodable(r) && CheckRecord(r, collection).Ok? && |r.collection| + |r.path| <= width
  }

  lemma {:induction false} NarrowLength(records: seq<Record>, collection: Name, width: nat)
    requires forall i :: 0 <= i < |records| ==> Narrow(records[i], collection, width)
    ensures AllEncodable(records) && |RecordsBytes(records)| <= (113 + width) * |records|
  {
    hide RecordOk, RecordBytes, U32Bytes, CheckRecord;
    if |records| > 0 {
      NarrowLength(records[1..], collection, width);
      assert Narrow(records[0], collection, width);
      NarrowRecord(records[0], collection, width);
      assert (113 + width) * |records| == (113 + width) + (113 + width) * |records[1..]|;
    }
  }

  lemma {:induction false} NarrowRecord(r: Record, collection: Name, width: nat)
    requires Narrow(r, collection, width)
    ensures |Sized(RecordBytes(r))| <= 113 + width
  {
    hide IsUtf8, ParsePath, RecordBytes;
    RecordLength(r);
  }

  /** The most bytes that manifests of narrow records take. */
  function MostBytes(manifests: nat, records: nat, width: nat): nat
  {
    289 * manifests + (113 + width) * records
  }

  lemma {:induction false} MostBytesAdd(m: nat, n: nat, x: nat, y: nat, width: nat)
    ensures MostBytes(m + n, x + y, width) == MostBytes(m, x, width) + MostBytes(n, y, width)
  {
    assert (113 + width) * (x + y) == (113 + width) * x + (113 + width) * y;
  }

  /** The listed records of a collection are narrow. */
  ghost predicate NarrowAt(w: Winners, name: Name, width: nat)
  {
    0 < |name| <= MAX_COLLECTION_NAME_BYTES && forall k :: k in w && k.0 == name ==> Narrow(w[k], name, width)
  }

  lemma {:induction false} OneManifestFits(w: Winners, name: Name, width: nat, before: seq<NamedManifest>)
    requires NarrowAt(w, name, width) && !IsNamed(before, name)
    requires RecordTotal(before) + |ListingOf(w, name)| <= MAX_MANIFEST_RECORDS
    ensures var m := (name, Manifest(ListingOf(w, name)));
            && CheckManifest(before, m) == Ok(())
            && |ManifestCodec().encode(m)| <= MostBytes(1, |m.1.records|, width)
  {
    hide Strict, RecordsBytes, IsNamed, RecordTotal, Narrow, U32Bytes;
    var records := ListingOf(w, name);
    forall i | 0 <= i < |records|
      ensures Narrow(records[i], name, width) && CheckRecord(records[i], name).Ok?
    {
      assert Listed(records[i], w, {name});
      NarrowIsChecked(records[i], name, width);
    }
    NarrowLength(records, name, width);
  }

  lemma {:induction false} NarrowIsChecked(r: Record, collection: Name, width: nat)
    requires Narrow(r, collection, width)
    ensures CheckRecord(r, collection).Ok?
  {
  }

  lemma {:induction false} ManifestsFit(w: Winners, shared: seq<Name>, width: nat)
    requires DistinctNames(shared) && forall i :: 0 <= i < |shared| ==> NarrowAt(w, shared[i], width)
    requires RecordTotal(BundleOf(w, shared)) <= MAX_MANIFEST_RECORDS
    ensures var m := BundleOf(w, shared);
            && CheckManifests(m) == Ok(())
            && |ItemsBytes(ManifestCodec(), m)| <= MostBytes(|m|, RecordTotal(m), width)
  {
    hide ManifestCodec, CheckManifest, CheckManifests, NarrowAt, ItemsBytes, MostBytes, ListingOf, IsNamed;
    hide RecordTotal, BundleOf;
    var m := BundleOf(w, shared);
    if |shared| > 0 {
      var n := |shared| - 1;
      var init, last := BundleOf(w, shared[..n]), (shared[n], Manifest(ListingOf(w, shared[n])));
      BundleSplits(w, shared);
      TotalSplits(init, last);
      ManifestsFit(w, shared[..n], width);
      NewName(w, shared);
      OneManifestFits(w, shared[n], width, init);
      ItemsBytesAppend(ManifestCodec(), init, last);
      MostBytesAdd(n, 1, RecordTotal(init), |last.1.records|, width);
      ChecksSplit(init, last);
    } else {
      NoItems(m, width);
    }
  }

  lemma {:induction false} BundleSplits(w: Winners, shared: seq<Name>)
    requires |shared| > 0
    ensures var n := |shared| - 1;
            BundleOf(w, shared) == BundleOf(w, shared[..n]) + [(shared[n], Manifest(ListingOf(w, shared[n])))]
  {
  }

  lemma {:induction false} TotalSplits(init: seq<NamedManifest>, last: NamedManifest)
    ensures RecordTotal(init + [last]) == RecordTotal(init) + |last.1.records|
  {
    assert (init + [last])[..|init|] == init;
  }

  lemma {:induction false} ChecksSplit(init: seq<NamedManifest>, last: NamedManifest)
    requires CheckManifests(init) == Ok(()) && CheckManifest(init, last) == Ok(())
    ensures CheckManifests(init + [last]) == Ok(())
  {
    hide CheckManifest;
    assert (init + [last])[..|init|] == init;
  }

  lemma {:induction false} NewName(w: Winners, shared: seq<Name>)
    requires DistinctNames(shared) && |shared| > 0
    ensures !IsNamed(BundleOf(w, shared[..|shared| - 1]), shared[|shared| - 1])
  {
  }

  lemma {:induction false} NoItems(m: seq<NamedManifest>, width: nat)
    requires m == []
    ensures CheckManifests(m) == Ok(()) && |ItemsBytes(ManifestCodec(), m)| <= MostBytes(|m|, RecordTotal(m), width)
  {
  }

  /** A bundle fits whenever its collections, its paths and the lengths of their names do. */
  lemma {:induction false} SmallBundlesFit(w: Winners, shared: seq<Name>, width: nat)
    requires |shared| <= MAX_COLLECTIONS && DistinctNames(shared) && Filed(w, SetOf(shared))
    requires forall i :: 0 <= i < |shared| ==> NarrowAt(w, shared[i], width)
    requires var paths := |Shared(w, SetOf(shared)).Keys|;
             paths <= MAX_MANIFEST_RECORDS && 4 + MostBytes(|shared|, paths, width) <= MAX_MANIFEST_BYTES
    ensures Encodes(w, shared)
  {
    hide NarrowAt, Filed, CheckManifests, BundleOf, ItemsBytes, RecordTotal, Shared;
    BundleTotal(w, shared);
    ManifestsFit(w, shared, width);
  }
}
