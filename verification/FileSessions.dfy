/** A session from the manifests on, as a function of both peers' tables, and what its parts do:
    merging a bundle, choosing files to ask for, and moving them in either direction. */
module FileSessions {
  import opened Prelude
  import opened Bytes
  import opened Records
  import opened Manifests
  import opened RecordStore
  import opened Gossip
  import opened Install
  import opened Wire
  import opened Bundles
  import opened Exchange
  import opened Transfers
  import opened Listings

  // ---------------------------------------------------------------- what is to be reached

  /** A peer's index of the named collections after it merged another's. */
  function Joined(hash: RecordHashing, mine: Winners, theirs: Winners, names: set<Name>, horizon: i64): Winners
  {
    Shared(MergeManifest(hash, mine, Shared(theirs, names), horizon), names)
  }

  /** The greater of both peers' winners at each path of the named collections where neither record
      is from the future. */
  function Together(hash: RecordHashing, a: Winners, b: Winners, names: set<Name>, horizon: i64): Winners
  {
    Timely(MergeManifest(hash, a, Shared(b, names), horizon), a, b, names, horizon, horizon)
  }

  /** These records win here. */
  predicate Knows(rows: Rows, w: Winners)
  {
    forall k :: k in w ==> k in rows && rows[k].record == w[k]
  }

  predicate Held(rows: Rows, k: Key, r: Record)
  {
    k in rows && rows[k].record == r && rows[k].materialized
  }

  /** Winning files whose bytes are not on this disk. */
  function MissingFiles(w: Winners, rows: Rows): set<Key>
  {
    set k | k in w && w[k].kind.File? && !Held(rows, k, w[k])
  }

  /** Winning deletions that are not carried out here. */
  function Undone(w: Winners, rows: Rows): set<Key>
  {
    set k | k in w && w[k].kind.Tombstone? && !Held(rows, k, w[k])
  }

  function SizeOf(w: Winners, k: Key): nat
  {
    if k in w && w[k].kind.File? then w[k].kind.size else 0
  }

  ghost function BytesOf(w: Winners, keys: set<Key>): nat
  {
    if keys == {} then 0
    else
      var k :| k in keys;
      SizeOf(w, k) + BytesOf(w, keys - {k})
  }

  /** Everything missing here is within the caps of a single session. */
  ghost predicate OneSessionTakes(w: Winners, rows: Rows)
  {
    |MissingFiles(w, rows)| <= MAX_TRANSFERS && BytesOf(w, MissingFiles(w, rows)) <= MAX_SESSION_FILE_BYTES
  }

  // ---------------------------------------------------------------- a session

  datatype Two = Two(a: Tables, b: Tables)

  /** What one end and its surroundings contribute to a session: its clock limit, which deletions
      it can carry out, which stored files still open, how each installation goes, and its first
      two payloads. */
  datatype Side = Side(
    limit: i64,
    removes: Record -> bool,
    opens: nat -> bool,
    installs: Record -> Outcome,
    hello: Bytes,
    roster: Bytes)

  datatype Plan = Plan(a: Side, b: Side)

  /** The request list the peer decodes, if it can be encoded. */
  function RequestsArriving(requests: seq<FileRequest>): Option<seq<FileRequest>>
  {
    var b := EncodeRequests(requests);
    if b.Err? || DecodeRequests(b.value).Err? then None else Some(DecodeRequests(b.value).value)
  }

  /** The bytes of the four control frames. */
  function ControlBytes(s: Side, manifests: Bytes, requests: Bytes): nat
  {
    4 * HEADER_BYTES + |s.hello| + |s.roster| + |manifests| + |requests|
  }

  function Outcomes(replies: seq<Reply>, installs: Record -> Outcome): nat -> Outcome
  {
    (i: nat) =>
      if i < |replies| && replies[i].FileReply? then installs(replies[i].record)
      else Outcome(false, Err(IsTombstone))
  }

  /** What the asking end does with the answers that reached it. */
  function Receive(hash: RecordHashing, t: Tables, requests: seq<FileRequest>, replies: seq<Reply>,
      installs: Record -> Outcome, received: nat): Receiving
  {
    var n := if |replies| < |requests| then |replies| else |requests|;
    ReceiveAll(hash, t, requests[..n], replies[..n], Outcomes(replies, installs), received)
  }

  /** The dialer `a` serves and then receives; the acceptor `b` receives and then serves. */
  function Files(hash: RecordHashing, s: Two, x: Plan, asksA: seq<FileRequest>, asksB: seq<FileRequest>,
      receivedA: nat, receivedB: nat): Two
  {
    var served := SendAll(hash, s.a, asksB, x.a.opens);
    var got := Receive(hash, s.b, asksB, served.replies, x.b.installs, receivedB);
    if served.error.Some? || got.error.Some? then Two(served.tables, got.tables)
    else
      var answered := SendAll(hash, got.tables, asksA, x.b.opens);
      Two(Receive(hash, served.tables, asksA, answered.replies, x.a.installs, receivedA).tables, answered.tables)
  }

  /** A whole session from the manifests on.  It ends early where a bundle cannot be encoded, or
      names the wrong collections. */
  ghost function Session(hash: RecordHashing, shared: seq<Name>, s: Two, x: Plan): Two
  {
    var sentA, sentB := BundleOf(WinnersOf(s.a.rows), shared), BundleOf(WinnersOf(s.b.rows), shared);
    var toA, toB := Arriving(sentB), Arriving(sentA);
    if toA.None? || toB.None? then s
    else
      var merged := Two(MergeBundle(hash, s.a, shared, toA.value, x.a.limit, x.a.removes),
                        MergeBundle(hash, s.b, shared, toB.value, x.b.limit, x.b.removes));
      var asksA := ChooseFrom(hash, s.a, shared, toA.value, x.a.limit, x.a.removes);
      var asksB := ChooseFrom(hash, s.b, shared, toB.value, x.b.limit, x.b.removes);
      if asksA.Err? || asksB.Err? then merged
      else
        var askedA, askedB := RequestsArriving(asksA.value), RequestsArriving(asksB.value);
        if askedA.None? || askedB.None? then merged
        else
          Files(hash, merged, x, askedA.value, askedB.value,
                ControlBytes(x.b, EncodeManifests(sentB).value, EncodeRequests(asksB.value).value),
                ControlBytes(x.a, EncodeManifests(sentA).value, EncodeRequests(asksA.value).value))
  }

  // ---------------------------------------------------------------- the setting

  /** What does not change from session to session: the shared collections, how far both clocks
      accept records, from where on both refuse them, and where each peer keeps its collections. */
  datatype Setting = Setting(
    shared: seq<Name>,
    horizon: i64,
    ceiling: int,
    rootA: Name -> Directory,
    rootB: Name -> Directory)

  /** Each record is accepted by both clocks or refused by both. */
  ghost predicate Apart(w: Winners, names: set<Name>, horizon: i64, ceiling: int)
  {
    forall k :: k in w && k.0 in names ==> w[k].modifiedNs <= horizon || w[k].modifiedNs >= ceiling
  }

  /** The collection's recorded root is where its files are installed, or none is recorded yet and
      no file is known to be on disk. */
  ghost predicate RootedAt(t: Tables, name: Name, root: Directory)
  {
    && name in t.collections
    && match t.collections[name].resolvedRoot
       case Some(known) => known == root
       case None => forall k :: k in t.rows && k.0 == name ==> !MaterializedFile(t.rows[k])
  }

  ghost predicate Rooted(t: Tables, names: set<Name>, root: Name -> Directory)
  {
    forall name :: name in names ==> RootedAt(t, name, root(name))
  }

  /** One peer's index, where shared: attached, filed, and in its root. */
  ghost predicate Placed(t: Tables, names: set<Name>, horizon: i64, ceiling: int, root: Name -> Directory)
  {
    && names <= t.collections.Keys && Rooted(t, names, root)
    && Filed(WinnersOf(t.rows), names) && Apart(WinnersOf(t.rows), names, horizon, ceiling)
  }

  ghost function Goal(hash: RecordHashing, g: Setting, s: Two): Winners
  {
    Together(hash, WinnersOf(s.a.rows), WinnersOf(s.b.rows), SetOf(g.shared), g.horizon)
  }

  /** Both indexes are in order and fit a bundle, the order tells their records apart, and every
      file that wins over both is on one of the disks. */
  ghost predicate Ready(hash: RecordHashing, g: Setting, s: Two)
  {
    && (forall i :: 0 <= i < |g.shared| ==> IsUtf8(g.shared[i]))
    && Placed(s.a, SetOf(g.shared), g.horizon, g.ceiling, g.rootA)
    && Placed(s.b, SetOf(g.shared), g.horizon, g.ceiling, g.rootB)
    && Encodes(WinnersOf(s.a.rows), g.shared) && Encodes(WinnersOf(s.b.rows), g.shared)
    && Decides(hash, WinnersOf(s.a.rows), WinnersOf(s.b.rows), SetOf(g.shared))
    && MissingFiles(Goal(hash, g, s), s.a.rows) !! MissingFiles(Goal(hash, g, s), s.b.rows)
  }

  /** What each peer knows after they met still fits a bundle. */
  ghost predicate StillFits(hash: RecordHashing, g: Setting, s: Two)
  {
    && Encodes(Joined(hash, WinnersOf(s.a.rows), WinnersOf(s.b.rows), SetOf(g.shared), g.horizon), g.shared)
    && Encodes(Joined(hash, WinnersOf(s.b.rows), WinnersOf(s.a.rows), SetOf(g.shared), g.horizon), g.shared)
  }

  /** The file arrives intact and is installed in the collection's root. */
  ghost predicate CleanInstall(r: Record, o: Outcome, root: Directory)
  {
    o.intact && o.installed.Ok? && RightFile(r, o.installed) && o.installed.value.root == root
  }

  /** No fault at one end: its clock accepts and refuses as expected, files open, installations
      succeed, and the first two payloads fit their frames. */
  ghost predicate Sound(s: Side, horizon: i64, ceiling: int, root: Name -> Directory)
  {
    && horizon <= s.limit < ceiling && (forall i :: s.opens(i))
    && (forall r: Record :: r.kind.File? ==> CleanInstall(r, s.installs(r), root(r.collection)))
    && Fits((HelloTag, s.hello)) && Fits((RosterTag, s.roster))
  }

  ghost predicate FaultFree(g: Setting, x: Plan)
  {
    Sound(x.a, g.horizon, g.ceiling, g.rootA) && Sound(x.b, g.horizon, g.ceiling, g.rootB)
  }

  /** Every deleted file can be removed. */
  ghost predicate Removes(s: Side)
  {
    forall r: Record :: s.removes(r)
  }

  /** The winners may be requested, and are not from the future. */
  ghost predicate GoodWinners(w: Winners, names: set<Name>, horizon: i64)
  {
    forall k :: k in w ==> k.0 in names && KeyOf(w[k]) == k && Sendable(w[k]) && w[k].modifiedNs <= horizon
  }

  // ---------------------------------------------------------------- merging

  /** A bundle of shared, attached collections is merged whole. */
  lemma {:induction false} WholeBundleIsMerged(hash: RecordHashing, t: Tables, w: Winners, shared: seq<Name>,
      limit: i64, removes: Record -> bool)
    requires SetOf(shared) <= t.collections.Keys
    ensures var m := BundleOf(w, shared);
            var cs := AllRecords(m);
            && MergeBundle(hash, t, shared, m, limit, removes) == MergeAll(hash, t, cs, limit, removes)
            && ChooseFrom(hash, t, shared, m, limit, removes)
               == Ok(Choose(hash, MergeAll(hash, t, cs, limit, removes).rows, limit, cs))
  {
    hide MergeAll, Choose, AttachedCount;
    var m := BundleOf(w, shared);
    BundleLists(w, shared);
    forall i | 0 <= i < |m|
      ensures m[i].0 in t.collections
    {
      assert shared[i] in SetOf(shared);
    }
    AttachedCountIs(t.collections, m, |m|);
    assert m[..|m|] == m;
  }

  lemma {:induction false} RemoteIsShared(cs: seq<Record>, w: Winners, names: set<Name>)
    requires DistinctRecords(cs) && Lists(cs, w, names) && Filed(w, names)
    ensures Remote(cs) == Shared(w, names)
  {
    hide RecordOk;
    RemoteHolds(cs);
    var remote := Remote(cs);
    forall k: Key
      ensures k in remote <==> k in w && k.0 in names
      ensures k in remote ==> remote[k] == w[k]
    {
      if k in w && k.0 in names {
        assert Listed(w[k], w, names);
        var i :| 0 <= i < |cs| && cs[i] == w[k];
      }
      if i :| 0 <= i < |cs| && KeyOf(cs[i]) == k {
        assert cs[i] in cs;
      }
    }
  }

  /** Winners after the merge: the greater of both, save for records from the future. */
  lemma {:induction false} MergedWinners(hash: RecordHashing, t: Tables, w: Winners, cs: seq<Record>,
      names: set<Name>, horizon: i64, ceiling: int, limit: i64, removes: Record -> bool)
    requires DistinctRecords(cs) && Lists(cs, w, names) && Filed(w, names) && Apart(w, names, horizon, ceiling)
    requires names <= t.collections.Keys && horizon <= limit < ceiling
    ensures var next := MergeAll(hash, t, cs, limit, removes);
            && next.collections == t.collections
            && Shared(WinnersOf(next.rows), names) == Joined(hash, WinnersOf(t.rows), w, names, horizon)
  {
    hide RecordOk, MergeAll, Best;
    forall c | c in cs
      ensures c.collection in t.collections
    {
      assert Listed(c, w, names);
    }
    MergingIsGossip(hash, t, cs, limit, removes);
    RemoteIsShared(cs, w, names);
    assert MergeManifest(hash, WinnersOf(t.rows), Shared(w, names), limit)
        == MergeManifest(hash, WinnersOf(t.rows), Shared(w, names), horizon);
  }

  /** A row after a merge: the same record, nothing taken back, and for a file the same row; or a
      greater record, and for a file nothing on disk. */
  lemma {:induction false} MergedRow(hash: RecordHashing, t: Tables, cs: seq<Record>, limit: i64,
      removes: Record -> bool, k: Key)
    ensures var next := MergeAll(hash, t, cs, limit, removes);
            && next.collections == t.collections
            && (k in next.rows ==> RowMerged(hash, Lookup(t.rows, k), next.rows[k]))
            && (k in t.rows ==> k in next.rows)
  {
    if |cs| > 0 {
      var init, c := cs[..|cs| - 1], cs[|cs| - 1];
      MergedRow(hash, t, init, limit, removes, k);
      CandidateRow(hash, MergeAll(hash, t, init, limit, removes), c, limit, removes, Lookup(t.rows, k), k);
    }
  }

  predicate RowMerged(hash: RecordHashing, before: Option<Row>, after: Row)
  {
    || (before.Some? && after.record == before.value.record && (before.value.materialized ==> after.materialized)
        && (after.record.kind.File? ==> after == before.value))
    || ((before.Some? ==> Beats(hash, after.record, before.value.record))
        && (after.record.kind.File? ==> !after.materialized))
  }

  lemma {:induction false} CandidateRow(hash: RecordHashing, t: Tables, c: Record, limit: i64,
      removes: Record -> bool, first: Option<Row>, k: Key)
    requires k in t.rows ==> RowMerged(hash, first, t.rows[k])
    requires k !in t.rows ==> first.None?
    ensures var next := MergeCandidate(hash, t, c, limit, removes);
            && next.collections == t.collections
            && (k in next.rows ==> RowMerged(hash, first, next.rows[k]))
            && (k !in next.rows ==> first.None?)
  {
    if first.Some? && k in t.rows {
      WinnerOrderIsTotal(hash, c, t.rows[k].record, first.value.record);
    }
  }

  /** Merging brings no file and loses none, takes back no deletion, and leaves the roots alone. */
  lemma {:induction false} MergingMarksNothing(hash: RecordHashing, t: Tables, cs: seq<Record>, limit: i64,
      removes: Record -> bool, w: Winners, names: set<Name>, root: Name -> Directory)
    requires Knows(MergeAll(hash, t, cs, limit, removes).rows, w) && Rooted(t, names, root)
    ensures var next := MergeAll(hash, t, cs, limit, removes);
            && MissingFiles(w, next.rows) == MissingFiles(w, t.rows) && Undone(w, next.rows) <= Undone(w, t.rows)
            && Rooted(next, names, root)
  {
    hide MergeAll;
    var next := MergeAll(hash, t, cs, limit, removes);
    MergedRow(hash, t, cs, limit, removes, ([], []));
    forall k | k in next.rows
      ensures MaterializedFile(next.rows[k]) ==> k in t.rows && next.rows[k] == t.rows[k]
      ensures Held(t.rows, k, next.rows[k].record) ==> Held(next.rows, k, next.rows[k].record)
      ensures next.rows[k].record.kind.File? && Held(next.rows, k, next.rows[k].record) ==>
                Held(t.rows, k, next.rows[k].record)
    {
      MergedRow(hash, t, cs, limit, removes, k);
    }
    forall name | name in names
      ensures RootedAt(next, name, root(name))
    {
      assert RootedAt(t, name, root(name));
    }
  }

  /** A record elsewhere leaves a row alone. */
  lemma {:induction false} CandidateElsewhere(hash: RecordHashing, t: Tables, c: Record, limit: i64,
      removes: Record -> bool, k: Key)
    requires KeyOf(c) != k
    ensures var next := MergeCandidate(hash, t, c, limit, removes);
            next.collections == t.collections && Lookup(next.rows, k) == Lookup(t.rows, k)
  {
  }

  /** A listed deletion that wins is carried out, if the file can be removed. */
  lemma {:induction false} ListedDeletionIsDone(hash: RecordHashing, t: Tables, cs: seq<Record>, limit: i64,
      removes: Record -> bool, c: Record)
    requires DistinctRecords(cs) && c in cs && c.kind.Tombstone? && c.modifiedNs <= limit
    requires c.collection in t.collections && removes(c)
    ensures var next := MergeAll(hash, t, cs, limit, removes);
            && KeyOf(c) in next.rows
            && (next.rows[KeyOf(c)].record == c ==> next.rows[KeyOf(c)].materialized)
  {
    var init, last := cs[..|cs| - 1], cs[|cs| - 1];
    var before := MergeAll(hash, t, init, limit, removes);
    MergedRow(hash, t, init, limit, removes, KeyOf(c));
    if c != last {
      assert c in init;
      ListedDeletionIsDone(hash, t, init, limit, removes, c);
      CandidateElsewhere(hash, before, last, limit, removes, KeyOf(c));
      assert KeyOf(c) in before.rows;
    }
  }

  /** So what stays undone after the merge is what the peer does not list. */
  lemma {:induction false} ListedAreDone(hash: RecordHashing, t: Tables, cs: seq<Record>, limit: i64,
      removes: Record -> bool, w: Winners, other: Winners, names: set<Name>, horizon: i64)
    requires DistinctRecords(cs) && Lists(cs, other, names) && names <= t.collections.Keys && horizon <= limit
    requires GoodWinners(w, names, horizon) && Knows(MergeAll(hash, t, cs, limit, removes).rows, w)
    requires forall r: Record :: removes(r)
    ensures forall k :: k in Undone(w, MergeAll(hash, t, cs, limit, removes).rows) ==> !(k in other && other[k] == w[k])
  {
    hide MergeAll, Sendable;
    forall k | k in Undone(w, MergeAll(hash, t, cs, limit, removes).rows) && k in other && other[k] == w[k]
      ensures false
    {
      assert Listed(w[k], other, names);
      ListedDeletionIsDone(hash, t, cs, limit, removes, w[k]);
    }
  }

  // ---------------------------------------------------------------- what is asked for

  /** The files asked for. */
  function Keys(requests: seq<FileRequest>): set<Key>
  {
    set i | 0 <= i < |requests| :: RequestKey(requests[i])
  }

  /** A peer after the merge. */
  ghost predicate Merged(t: Tables, w: Winners, names: set<Name>, root: Name -> Directory)
  {
    Rooted(t, names, root) && Knows(t.rows, w)
  }

  /** A request that one end makes and the other can serve: both have the winner, and the server
      has its file. */
  ghost predicate Servable(hash: RecordHashing, w: Winners, server: Rows, q: FileRequest)
  {
    var k := RequestKey(q);
    k in w && Matches(hash, q, w[k]) && Held(server, k, w[k])
  }

  /** Whatever is listed and wanted is one of the winners. */
  ghost predicate WantsWinners(rows: Rows, limit: i64, cs: seq<Record>, w: Winners)
  {
    forall c :: c in cs && Wanted(rows, limit, c) ==> KeyOf(c) in w && w[KeyOf(c)] == c
  }

  /** A request for a missing winner. */
  ghost predicate ForMissing(hash: RecordHashing, w: Winners, rows: Rows, q: FileRequest)
  {
    var k := RequestKey(q);
    k in MissingFiles(w, rows) && q == RequestFor(hash, w[k]) && SizeAt(rows, q) == Some(SizeOf(w, k))
  }

  /** What a peer asks for after the merge: missing files, and one at least if any is missing. */
  lemma {:induction false} AsksForMissing(hash: RecordHashing, t: Tables, other: Rows, cs: seq<Record>, w: Winners,
      names: set<Name>, horizon: i64, limit: i64, root: Name -> Directory)
    requires Merged(t, w, names, root) && GoodWinners(w, names, horizon) && horizon <= limit
    requires Lists(cs, WinnersOf(other), names) && forall c :: c in cs ==> Sendable(c)
    requires MissingFiles(w, t.rows) !! MissingFiles(w, other) && WantsWinners(t.rows, limit, cs, w)
    ensures var qs := Choose(hash, t.rows, limit, cs);
            && Keys(qs) <= MissingFiles(w, t.rows) && (MissingFiles(w, t.rows) != {} ==> Keys(qs) != {})
            && |qs| <= MAX_TRANSFERS && TotalSize(t.rows, qs) <= MAX_SESSION_FILE_BYTES
            && forall i :: 0 <= i < |qs| ==> Servable(hash, w, other, qs[i])
  {
    hide Sendable, Choose, TotalSize, SortedRequests, Rooted;
    var qs := Choose(hash, t.rows, limit, cs);
    ChosenRequests(hash, t.rows, limit, cs);
    forall i | 0 <= i < |qs|
      ensures RequestKey(qs[i]) in MissingFiles(w, t.rows) && Servable(hash, w, other, qs[i])
    {
      assert qs[i] in qs;
      var c :| c in cs && Wanted(t.rows, limit, c) && qs[i] == RequestFor(hash, c);
      var k := KeyOf(c);
      assert k in MissingFiles(w, t.rows) && k !in MissingFiles(w, other);
    }
    if k :| k in MissingFiles(w, t.rows) {
      MissingIsWanted(t, other, cs, w, names, horizon, limit, k);
      assert RequestKey(qs[0]) in Keys(qs);
    }
  }

  lemma {:induction false} MissingIsWanted(t: Tables, other: Rows, cs: seq<Record>, w: Winners, names: set<Name>,
      horizon: i64, limit: i64, k: Key)
    requires Knows(t.rows, w) && GoodWinners(w, names, horizon) && horizon <= limit
    requires Lists(cs, WinnersOf(other), names) && MissingFiles(w, t.rows) !! MissingFiles(w, other)
    requires k in MissingFiles(w, t.rows)
    ensures k in w && w[k] in cs && Wanted(t.rows, limit, w[k])
  {
    hide Sendable;
    assert k !in MissingFiles(w, other);
    assert Listed(w[k], WinnersOf(other), names);
  }

  // ---------------------------------------------------------------- when one session is enough

  lemma {:induction false} BytesOfOne(w: Winners, keys: set<Key>, k: Key)
    requires k in keys
    ensures BytesOf(w, keys) == SizeOf(w, k) + BytesOf(w, keys - {k})
    decreases |keys|
  {
    hide SizeOf;
    var first :| first in keys && BytesOf(w, keys) == SizeOf(w, first) + BytesOf(w, keys - {first});
    if first != k {
      BytesOfOne(w, keys - {first}, k);
      BytesOfOne(w, keys - {k}, first);
      assert keys - {first} - {k} == keys - {k} - {first};
    }
  }

  lemma {:induction false} BytesOfMore(w: Winners, few: set<Key>, many: set<Key>)
    requires few <= many
    ensures BytesOf(w, few) <= BytesOf(w, many)
    decreases |many|
  {
    hide SizeOf;
    if k :| k in many {
      BytesOfOne(w, many, k);
      if k in few {
        BytesOfOne(w, few, k);
      }
      BytesOfMore(w, few - {k}, many - {k});
      assert k !in few ==> few - {k} == few;
    }
  }

  /** Requests for different files: as many keys, as many bytes. */
  lemma {:induction false} RequestsMeasure(hash: RecordHashing, w: Winners, rows: Rows, qs: seq<FileRequest>)
    requires SortedRequests(qs) && forall i :: 0 <= i < |qs| ==> ForMissing(hash, w, rows, qs[i])
    ensures |Keys(qs)| == |qs| && BytesOf(w, Keys(qs)) == TotalSize(rows, qs)
  {
    hide SizeOf, SizeAt, RequestLess, MissingFiles;
    if |qs| > 0 {
      var k, rest := RequestKey(qs[0]), qs[1..];
      TailSorted(qs);
      assert forall i :: 0 <= i < |rest| ==> ForMissing(hash, w, rows, rest[i]);
      RequestsMeasure(hash, w, rows, rest);
      forall i | 0 <= i < |rest|
        ensures RequestKey(rest[i]) != k
      {
        RequestOrder(qs[0], qs[0], qs[0]);
        assert RequestLess(qs[0], qs[i + 1]);
        assert ForMissing(hash, w, rows, qs[0]) && ForMissing(hash, w, rows, qs[i + 1]);
      }
      assert Keys(qs) == {k} + Keys(rest) by { KeysSplit(qs); }
      assert Keys(qs) - {k} == Keys(rest);
      BytesOfOne(w, Keys(qs), k);
      assert ForMissing(hash, w, rows, qs[0]);
    } else {
      assert Keys(qs) == {};
    }
  }

  lemma {:induction false} KeysSplit(qs: seq<FileRequest>)
    requires |qs| > 0
    ensures Keys(qs) == {RequestKey(qs[0])} + Keys(qs[1..])
  {
    forall k | k in Keys(qs)
      ensures k in {RequestKey(qs[0])} + Keys(qs[1..])
    {
      var i :| 0 <= i < |qs| && RequestKey(qs[i]) == k;
      assert i > 0 ==> RequestKey(qs[1..][i - 1]) == k;
    }
    forall k | k in Keys(qs[1..])
      ensures k in Keys(qs)
    {
      var i :| 0 <= i < |qs[1..]| && RequestKey(qs[1..][i]) == k;
      assert RequestKey(qs[i + 1]) == k;
    }
  }

  /** A file that is left out of the selection, though a cap was not reached. */
  lemma {:induction false} LeftOutIsOver(hash: RecordHashing, w: Winners, rows: Rows, all: seq<FileRequest>,
      k: Key)
    requires SortedRequests(all) && forall q :: q in all ==> ForMissing(hash, w, rows, q)
    requires k in w && KeyOf(w[k]) == k && k in MissingFiles(w, rows)
    requires RequestFor(hash, w[k]) in all && RequestFor(hash, w[k]) !in Select(rows, all, 0, 0)
    ensures !OneSessionTakes(w, rows)
  {
    hide SizeOf, SizeAt, Select, MissingFiles, TotalSize;
    var s, q := Select(rows, all, 0, 0), RequestFor(hash, w[k]);
    SelectionFits(rows, all, 0, 0);
    SelectionIsSorted(rows, all, 0, 0);
    SelectionIsMaximal(rows, all, 0, 0, q);
    forall i | 0 <= i < |s|
      ensures ForMissing(hash, w, rows, s[i])
    {
      assert s[i] in s;
    }
    RequestsMeasure(hash, w, rows, s);
    if |s| == MAX_TRANSFERS {
      MoreIsMissing(hash, w, rows, s, q);
    } else {
      var x :| x in all && x !in s && SizeAt(rows, x).Some?
               && TotalSize(rows, s) + SizeAt(rows, x).value > MAX_SESSION_FILE_BYTES;
      MoreIsMissing(hash, w, rows, s, x);
    }
  }

  /** A further missing file is one more, and its size on top. */
  lemma {:induction false} MoreIsMissing(hash: RecordHashing, w: Winners, rows: Rows, s: seq<FileRequest>,
      x: FileRequest)
    requires forall i :: 0 <= i < |s| ==> ForMissing(hash, w, rows, s[i])
    requires ForMissing(hash, w, rows, x) && x !in s
    ensures |MissingFiles(w, rows)| > |Keys(s)| && SizeAt(rows, x).Some?
    ensures BytesOf(w, MissingFiles(w, rows)) >= BytesOf(w, Keys(s)) + SizeAt(rows, x).value
  {
    hide SizeOf, SizeAt, MissingFiles;
    var k, keys := RequestKey(x), Keys(s);
    forall i | 0 <= i < |s|
      ensures RequestKey(s[i]) != k
    {
      assert ForMissing(hash, w, rows, s[i]) && s[i] in s;
    }
    forall j | j in keys
      ensures j in MissingFiles(w, rows)
    {
      var i :| 0 <= i < |s| && RequestKey(s[i]) == j;
      assert ForMissing(hash, w, rows, s[i]);
    }
    assert keys + {k} <= MissingFiles(w, rows);
    BytesOfMore(w, keys + {k}, MissingFiles(w, rows));
    BytesOfOne(w, keys + {k}, k);
    assert keys + {k} - {k} == keys;
    MoreMembers(keys + {k}, MissingFiles(w, rows));
  }

  lemma {:induction false} MoreMembers<T>(few: set<T>, many: set<T>)
    requires few <= many
    ensures |few| <= |many|
  {
    assert many == few + (many - few);
  }

  /** A session's request list takes everything that is missing exactly when the caps allow it. */
  lemma {:induction false} AsksForAll(hash: RecordHashing, t: Tables, other: Rows, cs: seq<Record>, w: Winners,
      names: set<Name>, horizon: i64, limit: i64, root: Name -> Directory)
    requires Merged(t, w, names, root) && GoodWinners(w, names, horizon) && horizon <= limit
    requires Lists(cs, WinnersOf(other), names) && forall c :: c in cs ==> Sendable(c)
    requires MissingFiles(w, t.rows) !! MissingFiles(w, other) && WantsWinners(t.rows, limit, cs, w)
    ensures Keys(Choose(hash, t.rows, limit, cs)) == MissingFiles(w, t.rows) <==> OneSessionTakes(w, t.rows)
  {
    hide Sendable, TotalSize, SortedRequests, Rooted, Select, SortDedup, SizeOf, Lists, GoodWinners, MissingFiles,
         SizeAt;
    var all := SortDedup(Requests(hash, t.rows, limit, cs));
    var qs := Choose(hash, t.rows, limit, cs);
    AsksForMissing(hash, t, other, cs, w, names, horizon, limit, root);
    SortDedupSorts(Requests(hash, t.rows, limit, cs));
    forall q | q in all
      ensures ForMissing(hash, w, t.rows, q)
    {
      CollectedIsMissing(hash, t.rows, cs, w, limit, q);
    }
    SelectionFits(t.rows, all, 0, 0);
    SelectionIsSorted(t.rows, all, 0, 0);
    forall i | 0 <= i < |qs|
      ensures ForMissing(hash, w, t.rows, qs[i])
    {
      assert qs[i] in qs;
    }
    RequestsMeasure(hash, w, t.rows, qs);
    if k :| k in MissingFiles(w, t.rows) && k !in Keys(qs) {
      MissingIsWanted(t, other, cs, w, names, horizon, limit, k);
      MissingIsCollected(hash, t.rows, cs, w, names, horizon, limit, k);
      forall i | 0 <= i < |qs|
        ensures qs[i] != RequestFor(hash, w[k])
      {
        assert RequestKey(qs[i]) in Keys(qs);
      }
      LeftOutIsOver(hash, w, t.rows, all, k);
    }
  }

  lemma {:induction false} CollectedIsMissing(hash: RecordHashing, rows: Rows, cs: seq<Record>, w: Winners,
      limit: i64, q: FileRequest)
    requires WantsWinners(rows, limit, cs, w) && q in Requests(hash, rows, limit, cs)
    ensures ForMissing(hash, w, rows, q)
  {
    RequestsHold(hash, rows, limit, cs, q);
    var i :| 0 <= i < |cs| && Wanted(rows, limit, cs[i]) && q == RequestFor(hash, cs[i]);
    assert cs[i] in cs;
  }

  lemma {:induction false} MissingIsCollected(hash: RecordHashing, rows: Rows, cs: seq<Record>, w: Winners,
      names: set<Name>, horizon: i64, limit: i64, k: Key)
    requires GoodWinners(w, names, horizon) && k in w && w[k] in cs && Wanted(rows, limit, w[k])
    ensures RequestFor(hash, w[k]) in Requests(hash, rows, limit, cs) && KeyOf(w[k]) == k
  {
    hide Sendable, Wanted;
    RequestsHold(hash, rows, limit, cs, RequestFor(hash, w[k]));
    var i :| 0 <= i < |cs| && cs[i] == w[k];
  }

  // ---------------------------------------------------------------- what one direction does

  /** With every file there and opening, and within the cap, every answer is the file and the
      sender's tables do not change. */
  lemma {:induction false} AllAreServed(hash: RecordHashing, t: Tables, requests: seq<FileRequest>,
      opens: nat -> bool, w: Winners, names: set<Name>, horizon: i64)
    requires GoodWinners(w, names, horizon) && names <= t.collections.Keys
    requires forall i :: 0 <= i < |requests| ==> Servable(hash, w, t.rows, requests[i])
    requires (forall i :: opens(i)) && TotalSize(t.rows, requests) <= MAX_SESSION_FILE_BYTES
    ensures var s := SendAll(hash, t, requests, opens);
            && s.tables == t && s.error == None && |s.replies| == |requests| && s.sent == TotalSize(t.rows, requests)
            && forall i :: 0 <= i < |requests| ==>
                 Servable(hash, w, t.rows, requests[i]) && s.replies[i] == FileReply(w[RequestKey(requests[i])])
  {
    hide TotalSize, Sendable;
    if |requests| > 0 {
      var n := |requests| - 1;
      TotalSizePrefix(t.rows, requests, n);
      TotalSizeAppend(t.rows, requests, n);
      assert requests[..n + 1] == requests;
      AllAreServed(hash, t, requests[..n], opens, w, names, horizon);
      assert Servable(hash, w, t.rows, requests[n]);
      SendableIsChecked(w[RequestKey(requests[n])]);
    } else {
      NothingToSend(t.rows);
    }
  }

  lemma {:induction false} NothingToSend(rows: Rows)
    ensures TotalSize(rows, []) == 0
  {
  }

  lemma {:induction false} SendableIsChecked(r: Record)
    requires Sendable(r)
    ensures CheckRecord(r, r.collection) == Ok(()) && (r.kind.File? ==> r.kind.size <= I64_MAX)
  {
  }

  /** The same rows, with some files now on disk. */
  ghost predicate Gained(before: Tables, after: Tables, keys: set<Key>)
  {
    && after.collections.Keys == before.collections.Keys && after.rows.Keys == before.rows.Keys
    && forall k :: k in before.rows ==>
         && after.rows[k].record == before.rows[k].record
         && after.rows[k].materialized == (before.rows[k].materialized || k in keys)
  }

  /** Installing one served file marks exactly its row. */
  lemma {:induction false} OneIsGained(hash: RecordHashing, s: Receiving, t: Tables, q: FileRequest, o: Outcome,
      keys: set<Key>, record: Record, names: set<Name>, root: Name -> Directory)
    requires Gained(t, s.tables, keys) && Rooted(s.tables, names, root) && s.error.None?
    requires CleanInstall(record, o, root(record.collection)) && Sendable(record) && Matches(hash, q, record)
    requires Wins(t.rows, record) && record.collection in names
    requires s.received + 4_465 + record.kind.size <= MAX_CONNECTION_BYTES
    ensures var next := ReceiveStep(hash, s, q, FileReply(record), o);
            && next.error == None && next.received <= s.received + 4_465 + record.kind.size
            && Gained(t, next.tables, keys + {RequestKey(q)}) && Rooted(next.tables, names, root)
  {
    hide Sendable, FrameSize, Rooted;
    FrameSizeBound(FileReply(record));
    SendableIsChecked(record);
    var k := RequestKey(q);
    var done := o.installed.value;
    assert RootedAt(s.tables, k.0, root(k.0)) by { RootOf(s.tables, names, root, k.0); }
    MarkingGains(s.tables, k, done.root, done.fingerprint);
    var next := MarkMaterialized(s.tables, k, done.root, done.fingerprint).value;
    MarkingKeepsRooted(s.tables, k, done.fingerprint, names, root);
  }

  lemma {:induction false} RootOf(t: Tables, names: set<Name>, root: Name -> Directory, name: Name)
    requires Rooted(t, names, root) && name in names
    ensures RootedAt(t, name, root(name))
  {
  }

  lemma {:induction false} MarkingGains(t: Tables, k: Key, root: Directory, fingerprint: Fingerprint)
    requires RootedAt(t, k.0, root) && k in t.rows && t.rows[k].record.kind.File? && fingerprint.size <= I64_MAX
    ensures var next := MarkMaterialized(t, k, root, fingerprint);
            next.Ok? && Gained(t, next.value, {k})
  {
  }

  lemma {:induction false} MarkingKeepsRooted(t: Tables, k: Key, fingerprint: Fingerprint, names: set<Name>,
      root: Name -> Directory)
    requires Rooted(t, names, root) && k.0 in names && MarkMaterialized(t, k, root(k.0), fingerprint).Ok?
    ensures Rooted(MarkMaterialized(t, k, root(k.0), fingerprint).value, names, root)
  {
    var next := MarkMaterialized(t, k, root(k.0), fingerprint).value;
    forall name | name in names
      ensures RootedAt(next, name, root(name))
    {
      assert RootedAt(t, name, root(name));
      assert name != k.0 ==> forall j :: j in next.rows && j.0 == name ==> next.rows[j] == t.rows[j];
    }
  }

  /** Everything asked for arrives and is marked. */
  lemma {:induction false} AllAreGained(hash: RecordHashing, t: Tables, requests: seq<FileRequest>,
      replies: seq<Reply>, outcomes: nat -> Outcome, received: nat, w: Winners, names: set<Name>, horizon: i64,
      root: Name -> Directory)
    requires Merged(t, w, names, root) && GoodWinners(w, names, horizon) && |replies| == |requests|
    requires forall i :: 0 <= i < |requests| ==> Answered(hash, w, requests[i], replies[i], outcomes(i), root)
    requires received + 4_465 * |requests| + TotalSize(t.rows, requests) <= MAX_CONNECTION_BYTES
    ensures var s := ReceiveAll(hash, t, requests, replies, outcomes, received);
            && s.error == None && s.received <= received + 4_465 * |requests| + TotalSize(t.rows, requests)
            && Gained(t, s.tables, Keys(requests)) && Rooted(s.tables, names, root)
  {
    hide TotalSize, Sendable, ReceiveStep, CleanInstall, Rooted, GoodWinners, Merged;
    if |requests| > 0 {
      var n := |requests| - 1;
      var init := requests[..n];
      TotalSizeAppend(t.rows, requests, n);
      assert requests[..n + 1] == requests;
      assert forall i :: 0 <= i < n ==> Answered(hash, w, init[i], replies[..n][i], outcomes(i), root);
      AllAreGained(hash, t, init, replies[..n], outcomes, received, w, names, horizon, root);
      assert Answered(hash, w, requests[n], replies[n], outcomes(n), root);
      var record := w[RequestKey(requests[n])];
      WinnerHere(t, w, names, horizon, root, RequestKey(requests[n]));
      OneIsGained(hash, ReceiveAll(hash, t, init, replies[..n], outcomes, received), t, requests[n], outcomes(n),
                  Keys(init), record, names, root);
      assert Keys(requests) == Keys(init) + {RequestKey(requests[n])};
    } else {
      assert Keys(requests) == {};
      RootedHere(t, w, names, root);
    }
  }

  lemma {:induction false} RootedHere(t: Tables, w: Winners, names: set<Name>, root: Name -> Directory)
    requires Merged(t, w, names, root)
    ensures Rooted(t, names, root)
  {
  }

  lemma {:induction false} WinnerHere(t: Tables, w: Winners, names: set<Name>, horizon: i64, root: Name -> Directory,
      k: Key)
    requires Merged(t, w, names, root) && GoodWinners(w, names, horizon) && k in w
    ensures Wins(t.rows, w[k]) && w[k].collection in names && Sendable(w[k]) && KeyOf(w[k]) == k
  {
    hide Sendable;
  }

  /** The file asked for was sent, arrived and was installed. */
  ghost predicate Answered(hash: RecordHashing, w: Winners, q: FileRequest, reply: Reply, o: Outcome,
      root: Name -> Directory)
  {
    var k := RequestKey(q);
    && k in w && Matches(hash, q, w[k]) && reply == FileReply(w[k])
    && CleanInstall(w[k], o, root(w[k].collection))
  }

  /** What is still missing after some files arrived. */
  lemma {:induction false} GainedLessMissing(before: Tables, after: Tables, keys: set<Key>, w: Winners,
      names: set<Name>, root: Name -> Directory)
    requires Gained(before, after, keys) && Merged(before, w, names, root) && Rooted(after, names, root)
    ensures MissingFiles(w, after.rows) == MissingFiles(w, before.rows) - keys
            && Undone(w, after.rows) <= Undone(w, before.rows)
    ensures Merged(after, w, names, root) && WinnersOf(after.rows) == WinnersOf(before.rows)
  {
    hide Rooted;
    forall k | k in w
      ensures Held(after.rows, k, w[k]) <==> Held(before.rows, k, w[k]) || k in keys
    {
      assert k in before.rows && before.rows[k].record == w[k];
    }
  }

  /** One direction of a fault-free session: all that was asked for is served and arrives. */
  lemma {:induction false} Direction(hash: RecordHashing, asker: Tables, server: Tables, qs: seq<FileRequest>,
      w: Winners, names: set<Name>, horizon: i64, ceiling: int, root: Name -> Directory, serverRoot: Name -> Directory,
      opens: nat -> bool, side: Side, received: nat)
    requires Merged(asker, w, names, root) && Merged(server, w, names, serverRoot) && GoodWinners(w, names, horizon)
    requires names <= server.collections.Keys
    requires forall i :: 0 <= i < |qs| ==> Servable(hash, w, server.rows, qs[i])
    requires |qs| <= MAX_TRANSFERS && TotalSize(asker.rows, qs) <= MAX_SESSION_FILE_BYTES
    requires (forall i :: opens(i)) && Sound(side, horizon, ceiling, root)
    requires received + 4_465 * MAX_TRANSFERS + MAX_SESSION_FILE_BYTES <= MAX_CONNECTION_BYTES
    ensures var s := SendAll(hash, server, qs, opens);
            var got := Receive(hash, asker, qs, s.replies, side.installs, received);
            && s.tables == server && s.error == None && got.error == None
            && got.tables.collections.Keys == asker.collections.Keys
            && MissingFiles(w, got.tables.rows) == MissingFiles(w, asker.rows) - Keys(qs)
            && Undone(w, got.tables.rows) <= Undone(w, asker.rows)
            && Merged(got.tables, w, names, root) && WinnersOf(got.tables.rows) == WinnersOf(asker.rows)
  {
    hide Sendable, TotalSize, SendAll, ReceiveAll, MissingFiles, Undone, Merged, GoodWinners, CleanInstall, WinnersOf;
    SameSizes(hash, asker, server, qs, w, names, root, serverRoot);
    AllAreServed(hash, server, qs, opens, w, names, horizon);
    var s := SendAll(hash, server, qs, opens);
    var outcomes := Outcomes(s.replies, side.installs);
    forall i | 0 <= i < |qs|
      ensures Answered(hash, w, qs[i], s.replies[i], outcomes(i), root)
    {
      assert Servable(hash, w, server.rows, qs[i]);
      assert s.replies[i] == FileReply(w[RequestKey(qs[i])]);
    }
    assert qs[..|qs|] == qs && s.replies[..|qs|] == s.replies;
    AllAreGained(hash, asker, qs, s.replies, outcomes, received, w, names, horizon, root);
    var got := ReceiveAll(hash, asker, qs, s.replies, outcomes, received);
    GainedLessMissing(asker, got.tables, Keys(qs), w, names, root);
  }

  lemma {:induction false} SameSizes(hash: RecordHashing, a: Tables, b: Tables, qs: seq<FileRequest>, w: Winners,
      names: set<Name>, rootA: Name -> Directory, rootB: Name -> Directory)
    requires Merged(a, w, names, rootA) && Merged(b, w, names, rootB)
    requires forall i :: 0 <= i < |qs| ==> Servable(hash, w, b.rows, qs[i])
    ensures TotalSize(a.rows, qs) == TotalSize(b.rows, qs)
  {
    hide Rooted;
    if |qs| > 0 {
      assert Servable(hash, w, b.rows, qs[0]);
      var k := RequestKey(qs[0]);
      assert k in a.rows && k in b.rows;
      SameSizes(hash, a, b, qs[1..], w, names, rootA, rootB);
    }
  }
}
