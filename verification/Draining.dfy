/** Draining: two peers that meet, whatever each knew before, end with the same winners, and
    fault-free sessions bring to both disks every winning file that either of them has, exactly
    when the winners fit a bundle or one session is enough. */
module Draining {
  import opened Prelude
  import opened Bytes
  import opened Records
  import opened Manifests
  import opened RecordStore
  import opened Gossip
  import opened Install
  import opened Wire
  import opened Bundles
  import opened Exchange
  import opened Transfers
  import opened Listings
  import opened FileSessions

  // ---------------------------------------------------------------- the whole session

  /** A chosen request list arrives as it was sent. */
  lemma {:induction false} RequestsTravel(hash: RecordHashing, rows: Rows, limit: i64, cs: seq<Record>)
    requires forall c :: c in cs ==> Sendable(c)
    ensures var qs := Choose(hash, rows, limit, cs);
            && RequestsArriving(qs) == Some(qs) && |EncodeRequests(qs).value| <= 4 + 1_024 * 4_391
  {
    hide Sendable, Choose, SortedRequests, EncodeRequests, DecodeRequests, RequestText;
    var qs := Choose(hash, rows, limit, cs);
    ChosenRequestsEncode(hash, rows, limit, cs);
    ChosenRequests(hash, rows, limit, cs);
    forall i | 0 <= i < |qs|
      ensures RequestText(qs[i])
    {
      assert qs[i] in qs;
      var c :| c in cs && Wanted(rows, limit, c) && qs[i] == RequestFor(hash, c);
      SendableIsText(hash, c);
    }
    RequestsRoundTrip(qs, EncodeRequests(qs).value);
  }

  lemma {:induction false} SendableIsText(hash: RecordHashing, c: Record)
    requires Sendable(c)
    ensures RequestText(RequestFor(hash, c))
  {
    hide IsUtf8;
  }

  /** The joint winners come from one peer or the other. */
  lemma {:induction false} TogetherIsGood(hash: RecordHashing, a: Winners, b: Winners, names: set<Name>, horizon: i64)
    requires Filed(a, names) && Filed(b, names)
    requires forall k :: k in a && k.0 in names ==> Sendable(a[k])
    requires forall k :: k in b && k.0 in names ==> Sendable(b[k])
    ensures GoodWinners(Together(hash, a, b, names, horizon), names, horizon)
  {
    hide Sendable, RecordOk;
  }

  lemma {:induction false} TogetherIsSymmetric(hash: RecordHashing, a: Winners, b: Winners, names: set<Name>,
      horizon: i64)
    requires Decides(hash, a, b, names)
    ensures Together(hash, a, b, names, horizon) == Together(hash, b, a, names, horizon)
  {
    hide MergeManifest;
    ExchangeConverges(hash, a, b, names, horizon, horizon);
    var m := MergeManifest(hash, b, Shared(a, names), horizon);
    assert Timely(m, a, b, names, horizon, horizon) == Timely(m, b, a, names, horizon, horizon);
  }

  /** The joint winners are among what each peer knows after the merge. */
  lemma {:induction false} JoinedKnows(hash: RecordHashing, rows: Rows, mine: Winners, theirs: Winners,
      names: set<Name>, horizon: i64)
    requires Shared(WinnersOf(rows), names) == Joined(hash, mine, theirs, names, horizon)
    ensures Knows(rows, Together(hash, mine, theirs, names, horizon))
  {
    hide MergeManifest;
    var w := Together(hash, mine, theirs, names, horizon);
    forall k | k in w
      ensures k in rows && rows[k].record == w[k]
    {
      assert k in Joined(hash, mine, theirs, names, horizon);
      assert k in Shared(WinnersOf(rows), names);
    }
  }

  /** A listed file that won here was not up against a record from the future. */
  lemma {:induction false} WantedIsJoint(hash: RecordHashing, rows: Rows, cs: seq<Record>, mine: Winners,
      theirs: Winners, names: set<Name>, horizon: i64, ceiling: int, limit: i64)
    requires Lists(cs, theirs, names) && Apart(theirs, names, horizon, ceiling) && horizon <= limit < ceiling
    requires Shared(WinnersOf(rows), names) == Joined(hash, mine, theirs, names, horizon)
    ensures WantsWinners(rows, limit, cs, Together(hash, mine, theirs, names, horizon))
  {
    var w := Together(hash, mine, theirs, names, horizon);
    forall c | c in cs && Wanted(rows, limit, c)
      ensures KeyOf(c) in w && w[KeyOf(c)] == c
    {
      assert Listed(c, theirs, names);
      assert KeyOf(c) in Shared(WinnersOf(rows), names);
      assert KeyOf(c) in Joined(hash, mine, theirs, names, horizon);
    }
  }

  /** What one end has done when it sends its request list. */
  ghost predicate EndMerged(hash: RecordHashing, shared: seq<Name>, t: Tables, other: Tables, w: Winners,
      horizon: i64, root: Name -> Directory, side: Side, next: Tables)
  {
    && next.collections == t.collections && Merged(next, w, SetOf(shared), root)
    && Shared(WinnersOf(next.rows), SetOf(shared))
       == Joined(hash, WinnersOf(t.rows), WinnersOf(other.rows), SetOf(shared), horizon)
    && MissingFiles(w, next.rows) == MissingFiles(w, t.rows)
    && Deletes(side, w, t.rows, other.rows, next.rows)
  }

  /** No deletion is taken back, and every winning one that the other end lists is carried out if it
      can be. */
  ghost predicate Deletes(side: Side, w: Winners, before: Rows, other: Rows, after: Rows)
  {
    && Undone(w, after) <= Undone(w, before)
    && (Removes(side) ==> forall k :: k in Undone(w, after) ==> !(k in other && other[k].record == w[k]))
  }

  /** A request list that travels, is within the caps, and asks the other end for missing files it
      holds: for one at least if any is missing, and for all if one session takes them. */
  ghost predicate AskedWell(hash: RecordHashing, w: Winners, t: Tables, other: Tables, merged: Tables,
      qs: seq<FileRequest>)
  {
    && RequestsArriving(qs) == Some(qs) && |EncodeRequests(qs).value| <= 4 + 1_024 * 4_391
    && Keys(qs) <= MissingFiles(w, t.rows) && (MissingFiles(w, t.rows) != {} ==> Keys(qs) != {})
    && (Keys(qs) == MissingFiles(w, t.rows) <==> OneSessionTakes(w, t.rows))
    && |qs| <= MAX_TRANSFERS && TotalSize(merged.rows, qs) <= MAX_SESSION_FILE_BYTES
    && forall i :: 0 <= i < |qs| ==> Servable(hash, w, other.rows, qs[i])
  }

  /** One end up to its request list: it merges the whole bundle, which takes no file away from it,
      and asks for files the other end holds. */
  lemma {:induction false} OneEndMerges(hash: RecordHashing, shared: seq<Name>, t: Tables, other: Tables,
      w: Winners, horizon: i64, ceiling: int, root: Name -> Directory, side: Side)
    requires Placed(t, SetOf(shared), horizon, ceiling, root) && Sound(side, horizon, ceiling, root)
    requires Filed(WinnersOf(other.rows), SetOf(shared))
    requires Apart(WinnersOf(other.rows), SetOf(shared), horizon, ceiling)
    requires Encodes(WinnersOf(other.rows), shared) && forall i :: 0 <= i < |shared| ==> IsUtf8(shared[i])
    requires w == Together(hash, WinnersOf(t.rows), WinnersOf(other.rows), SetOf(shared), horizon)
    requires GoodWinners(w, SetOf(shared), horizon) && MissingFiles(w, t.rows) !! MissingFiles(w, other.rows)
    ensures var m := BundleOf(WinnersOf(other.rows), shared);
            var next := MergeBundle(hash, t, shared, m, side.limit, side.removes);
            var asks := ChooseFrom(hash, t, shared, m, side.limit, side.removes);
            && Arriving(m) == Some(m) && |EncodeManifests(m).value| <= MAX_MANIFEST_BYTES
            && EndMerged(hash, shared, t, other, w, horizon, root, side, next)
            && asks.Ok? && AskedWell(hash, w, t, other, next, asks.value)
  {
    hide Sendable, RecordOk, MissingFiles, Undone, Choose, MergeAll, Rooted, Filed, Apart, Encodes, GoodWinners, IsUtf8;
    hide TotalSize, EncodeRequests, DecodeRequests, DecodeManifests, BundleOk, CleanInstall, Shared, Servable;
    hide Together, Joined, Knows, OneSessionTakes, WantsWinners, Deletes;
    var names, v := SetOf(shared), WinnersOf(other.rows);
    var m := BundleOf(v, shared);
    var cs := AllRecords(m);
    BundleArrives(v, shared);
    BundleRecords(m);
    BundleLists(v, shared);
    WholeBundleIsMerged(hash, t, v, shared, side.limit, side.removes);
    MergedWinners(hash, t, v, cs, names, horizon, ceiling, side.limit, side.removes);
    var next := MergeAll(hash, t, cs, side.limit, side.removes);
    JoinedKnows(hash, next.rows, WinnersOf(t.rows), v, names, horizon);
    WantedIsJoint(hash, next.rows, cs, WinnersOf(t.rows), v, names, horizon, ceiling, side.limit);
    MergingMarksNothing(hash, t, cs, side.limit, side.removes, w, names, root);
    SameSession(w, t.rows, next.rows);
    AsksForMissing(hash, next, other.rows, cs, w, names, horizon, side.limit, root);
    AsksForAll(hash, next, other.rows, cs, w, names, horizon, side.limit, root);
    RequestsTravel(hash, next.rows, side.limit, cs);
    EndDeletes(hash, t, cs, side, w, other.rows, names, horizon);
  }

  lemma {:induction false} SameSession(w: Winners, x: Rows, y: Rows)
    requires MissingFiles(w, x) == MissingFiles(w, y)
    ensures OneSessionTakes(w, x) <==> OneSessionTakes(w, y)
  {
  }

  lemma {:induction false} EndDeletes(hash: RecordHashing, t: Tables, cs: seq<Record>, side: Side, w: Winners,
      other: Rows, names: set<Name>, horizon: i64)
    requires DistinctRecords(cs) && Lists(cs, WinnersOf(other), names) && names <= t.collections.Keys
    requires horizon <= side.limit && GoodWinners(w, names, horizon)
    requires Knows(MergeAll(hash, t, cs, side.limit, side.removes).rows, w)
    requires Undone(w, MergeAll(hash, t, cs, side.limit, side.removes).rows) <= Undone(w, t.rows)
    ensures Deletes(side, w, t.rows, other, MergeAll(hash, t, cs, side.limit, side.removes).rows)
  {
    hide MergeAll, GoodWinners, Undone, Knows, Lists;
    if Removes(side) {
      ListedAreDone(hash, t, cs, side.limit, side.removes, w, WinnersOf(other), names, horizon);
    }
  }

  /** What could be served before can be served when no more is missing. */
  lemma {:induction false} StillServable(hash: RecordHashing, w: Winners, before: Rows, after: Rows,
      qs: seq<FileRequest>)
    requires MissingFiles(w, after) <= MissingFiles(w, before)
    requires forall i :: 0 <= i < |qs| ==> Servable(hash, w, before, qs[i])
    ensures forall i :: 0 <= i < |qs| ==> Servable(hash, w, after, qs[i])
  {
    forall i | 0 <= i < |qs|
      ensures Servable(hash, w, after, qs[i])
    {
      assert Servable(hash, w, before, qs[i]);
      assert RequestKey(qs[i]) !in MissingFiles(w, before);
      assert RequestKey(qs[i]) !in MissingFiles(w, after);
    }
  }

  /** The files of a fault-free session: both ends get everything they asked for. */
  lemma {:induction false} FilesArrive(hash: RecordHashing, g: Setting, s: Two, x: Plan, w: Winners,
      asksA: seq<FileRequest>, asksB: seq<FileRequest>, receivedA: nat, receivedB: nat)
    requires FaultFree(g, x) && GoodWinners(w, SetOf(g.shared), g.horizon)
    requires Merged(s.a, w, SetOf(g.shared), g.rootA) && SetOf(g.shared) <= s.a.collections.Keys
    requires Merged(s.b, w, SetOf(g.shared), g.rootB) && SetOf(g.shared) <= s.b.collections.Keys
    requires |asksA| <= MAX_TRANSFERS && TotalSize(s.a.rows, asksA) <= MAX_SESSION_FILE_BYTES
    requires |asksB| <= MAX_TRANSFERS && TotalSize(s.b.rows, asksB) <= MAX_SESSION_FILE_BYTES
    requires forall i :: 0 <= i < |asksA| ==> Servable(hash, w, s.b.rows, asksA[i])
    requires forall i :: 0 <= i < |asksB| ==> Servable(hash, w, s.a.rows, asksB[i])
    requires receivedA + 4_465 * MAX_TRANSFERS + MAX_SESSION_FILE_BYTES <= MAX_CONNECTION_BYTES
    requires receivedB + 4_465 * MAX_TRANSFERS + MAX_SESSION_FILE_BYTES <= MAX_CONNECTION_BYTES
    ensures var end := Files(hash, s, x, asksA, asksB, receivedA, receivedB);
            && end.a.collections.Keys == s.a.collections.Keys && end.b.collections.Keys == s.b.collections.Keys
            && Merged(end.a, w, SetOf(g.shared), g.rootA) && Merged(end.b, w, SetOf(g.shared), g.rootB)
            && MissingFiles(w, end.a.rows) == MissingFiles(w, s.a.rows) - Keys(asksA)
            && MissingFiles(w, end.b.rows) == MissingFiles(w, s.b.rows) - Keys(asksB)
            && Undone(w, end.a.rows) <= Undone(w, s.a.rows) && WinnersOf(end.a.rows) == WinnersOf(s.a.rows)
            && Undone(w, end.b.rows) <= Undone(w, s.b.rows) && WinnersOf(end.b.rows) == WinnersOf(s.b.rows)
  {
    hide GoodWinners, Merged, TotalSize, Servable, SendAll, Receive, MissingFiles, Undone, Keys, CleanInstall,
         WinnersOf;
    var names := SetOf(g.shared);
    Direction(hash, s.b, s.a, asksB, w, names, g.horizon, g.ceiling, g.rootB, g.rootA, x.a.opens, x.b, receivedB);
    var served := SendAll(hash, s.a, asksB, x.a.opens);
    var got := Receive(hash, s.b, asksB, served.replies, x.b.installs, receivedB);
    StillServable(hash, w, s.b.rows, got.tables.rows, asksA);
    Direction(hash, s.a, got.tables, asksA, w, names, g.horizon, g.ceiling, g.rootA, g.rootB, x.b.opens, x.a,
        receivedA);
  }

  /** Four control payloads at their limits leave room for a full session of files. */
  lemma {:induction false} ControlFits(side: Side, horizon: i64, ceiling: int, root: Name -> Directory,
      manifests: Bytes, requests: Bytes)
    requires Sound(side, horizon, ceiling, root) && |manifests| <= MAX_MANIFEST_BYTES && |requests| <= 4 + 1_024 * 4_391
    ensures ControlBytes(side, manifests, requests) + 4_465 * MAX_TRANSFERS + MAX_SESSION_FILE_BYTES
            <= MAX_CONNECTION_BYTES
  {
    hide CleanInstall;
  }

  /** None is new, and unless there were none there are fewer. */
  ghost predicate Fewer(before: set<Key>, after: set<Key>)
  {
    after <= before && (before != {} ==> after < before)
  }

  /** What a session does for one peer: it knows the joint winners and whatever else it learned, has
      lost no file, misses fewer than before if it missed any, and none at all exactly if one session
      takes them; and deletions are carried out. */
  ghost predicate Gains(hash: RecordHashing, g: Setting, side: Side, w: Winners, t: Tables, other: Tables,
      end: Tables)
  {
    && Knows(end.rows, w)
    && Shared(WinnersOf(end.rows), SetOf(g.shared))
       == Joined(hash, WinnersOf(t.rows), WinnersOf(other.rows), SetOf(g.shared), g.horizon)
    && Fewer(MissingFiles(w, t.rows), MissingFiles(w, end.rows))
    && (MissingFiles(w, end.rows) == {} <==> OneSessionTakes(w, t.rows))
    && Deletes(side, w, t.rows, other.rows, end.rows)
  }

  /** Convergence and draining in one session, from any two indexes.  Afterwards both peers have the
      greater of their winners at every shared path where neither record is from the future.  No file
      is lost on either disk, each disk that misses a winning file has at least one more, and all of
      them exactly if they are within the caps of one session. */
  lemma {:induction false} SessionDrains(hash: RecordHashing, g: Setting, s: Two, x: Plan)
    requires Ready(hash, g, s) && FaultFree(g, x)
    ensures var names, w, end := SetOf(g.shared), Goal(hash, g, s), Session(hash, g.shared, s, x);
            && GoodWinners(w, names, g.horizon)
            && Gains(hash, g, x.a, w, s.a, s.b, end.a) && Gains(hash, g, x.b, w, s.b, s.a, end.b)
            && Rooted(end.a, names, g.rootA) && Rooted(end.b, names, g.rootB)
            && names <= end.a.collections.Keys && names <= end.b.collections.Keys
  {
    hide MissingFiles, Undone, Together, Joined, GoodWinners, Filed, Apart, Decides, Rooted, Shared, IsUtf8, Arriving,
         Files;
    hide EncodeManifests, Keys, TotalSize, Servable, MergeBundle, ChooseFrom, Sound, ControlBytes, Sendable, Knows;
    hide WinnersOf, BundleOf, EncodeRequests, DecodeRequests, DecodeManifests, BundleOk, OneSessionTakes, Deletes,
         Gains;
    var names, w, v, u := SetOf(g.shared), Goal(hash, g, s), WinnersOf(s.a.rows), WinnersOf(s.b.rows);
    TogetherIsSymmetric(hash, v, u, names, g.horizon);
    BundleArrives(v, g.shared);
    BundleArrives(u, g.shared);
    TogetherIsGood(hash, v, u, names, g.horizon);
    OneEndMerges(hash, g.shared, s.a, s.b, w, g.horizon, g.ceiling, g.rootA, x.a);
    OneEndMerges(hash, g.shared, s.b, s.a, w, g.horizon, g.ceiling, g.rootB, x.b);
    var sentA, sentB := BundleOf(v, g.shared), BundleOf(u, g.shared);
    var merged := Two(MergeBundle(hash, s.a, g.shared, sentB, x.a.limit, x.a.removes),
                      MergeBundle(hash, s.b, g.shared, sentA, x.b.limit, x.b.removes));
    var asksA := ChooseFrom(hash, s.a, g.shared, sentB, x.a.limit, x.a.removes).value;
    var asksB := ChooseFrom(hash, s.b, g.shared, sentA, x.b.limit, x.b.removes).value;
    StillServable(hash, w, s.b.rows, merged.b.rows, asksA);
    StillServable(hash, w, s.a.rows, merged.a.rows, asksB);
    var bytesB, bytesA := EncodeManifests(sentB).value, EncodeManifests(sentA).value;
    ControlFits(x.a, g.horizon, g.ceiling, g.rootA, bytesA, EncodeRequests(asksA).value);
    ControlFits(x.b, g.horizon, g.ceiling, g.rootB, bytesB, EncodeRequests(asksB).value);
    FilesArrive(hash, g, merged, x, w, asksA, asksB, ControlBytes(x.b, bytesB, EncodeRequests(asksB).value),
                ControlBytes(x.a, bytesA, EncodeRequests(asksA).value));
    var end := Session(hash, g.shared, s, x);
    EndGains(hash, g, x.a, w, s.a, s.b, merged.a, end.a, asksA, g.rootA);
    EndGains(hash, g, x.b, w, s.b, s.a, merged.b, end.b, asksB, g.rootB);
  }

  lemma {:induction false} EndGains(hash: RecordHashing, g: Setting, side: Side, w: Winners, t: Tables,
      other: Tables, merged: Tables, end: Tables, asks: seq<FileRequest>, root: Name -> Directory)
    requires EndMerged(hash, g.shared, t, other, w, g.horizon, root, side, merged)
    requires AskedWell(hash, w, t, other, merged, asks) && Merged(end, w, SetOf(g.shared), root)
    requires MissingFiles(w, end.rows) == MissingFiles(w, merged.rows) - Keys(asks)
    requires Undone(w, end.rows) <= Undone(w, merged.rows) && WinnersOf(end.rows) == WinnersOf(merged.rows)
    ensures Gains(hash, g, side, w, t, other, end)
  {
    hide MissingFiles, Undone, Joined, Knows, Shared, WinnersOf, OneSessionTakes, Rooted, RequestsArriving,
         EncodeRequests;
    hide Removes, TotalSize, Servable, Keys;
    LessIsFewer(MissingFiles(w, t.rows), Keys(asks));
    forall k | k in Undone(w, end.rows)
      ensures k in Undone(w, merged.rows)
    {
    }
  }

  lemma {:induction false} LessIsFewer(all: set<Key>, gone: set<Key>)
    requires gone <= all && (all != {} ==> gone != {})
    ensures Fewer(all, all - gone) && (all - gone == {} <==> gone == all)
  {
    if all != {} {
      var k :| k in gone;
      assert k !in all - gone;
    }
    assert all == (all - gone) + gone;
  }

  // ---------------------------------------------------------------- meeting again

  function Look(w: Winners, k: Key): Option<Record>
  {
    if k in w then Some(w[k]) else None
  }

  /** What merging does at one path: a record from the future is passed over. */
  function Taken(hash: RecordHashing, mine: Option<Record>, theirs: Option<Record>, horizon: i64): Option<Record>
  {
    if theirs.None? || theirs.value.modifiedNs > horizon then mine
    else if mine.None? then theirs
    else Some(Best(hash, mine.value, theirs.value))
  }

  predicate Present(r: Option<Record>, horizon: i64)
  {
    r.Some? ==> r.value.modifiedNs <= horizon
  }

  predicate Past(r: Option<Record>, horizon: i64, ceiling: int)
  {
    r.Some? ==> r.value.modifiedNs <= horizon || r.value.modifiedNs >= ceiling
  }

  predicate Told(hash: RecordHashing, x: Option<Record>, y: Option<Record>)
  {
    x.Some? && y.Some? && CompareWinner(hash, x.value, y.value).Equal? ==> x == y
  }

  /** Merging once more changes nothing. */
  lemma {:induction false} TakenAgain(hash: RecordHashing, x: Option<Record>, y: Option<Record>, horizon: i64,
      ceiling: int)
    requires horizon < ceiling && Past(x, horizon, ceiling) && Past(y, horizon, ceiling) && Told(hash, x, y)
    ensures var (x2, y2) := (Taken(hash, x, y, horizon), Taken(hash, y, x, horizon));
            && Taken(hash, x2, y2, horizon) == x2
            && Past(x2, horizon, ceiling) && Told(hash, x2, y2)
            && (Present(x2, horizon) && Present(y2, horizon) <==> Present(x, horizon) && Present(y, horizon))
            && (Present(x, horizon) && Present(y, horizon) ==> x2 == y2)
  {
    if x.Some? && y.Some? {
      WinnerOrderIsTotal(hash, x.value, y.value, x.value);
    }
  }

  lemma {:induction false} JoinedLooks(hash: RecordHashing, a: Winners, b: Winners, names: set<Name>, horizon: i64,
      k: Key)
    ensures Look(Joined(hash, a, b, names, horizon), k)
            == if k.0 in names then Taken(hash, Look(a, k), Look(b, k), horizon) else None
    ensures Look(Together(hash, a, b, names, horizon), k)
            == if k.0 in names && Present(Look(a, k), horizon) && Present(Look(b, k), horizon)
               then Taken(hash, Look(a, k), Look(b, k), horizon) else None
  {
    hide Best;
    assert k.0 in names ==> (k in b <==> k in Shared(b, names));
  }

  lemma {:induction false} SameLooks(a: Winners, b: Winners)
    requires forall k: Key :: Look(a, k) == Look(b, k)
    ensures a == b
  {
    forall k: Key
      ensures (k in a <==> k in b) && (k in a ==> a[k] == b[k])
    {
      assert Look(a, k) == Look(b, k);
    }
  }

  lemma {:induction false} LookShared(w: Winners, v: Winners, names: set<Name>, k: Key)
    requires Shared(w, names) == v && k.0 in names
    ensures Look(w, k) == Look(v, k)
  {
    assert k in w <==> k in Shared(w, names);
  }

  /** At one path, for two peers that met: what either knows, the joint winner, and that nothing is
      left to learn. */
  lemma {:induction false} MeetAgainAt(hash: RecordHashing, a: Winners, b: Winners, a2: Winners, b2: Winners,
      names: set<Name>, horizon: i64, ceiling: int, k: Key)
    requires horizon < ceiling && Apart(a, names, horizon, ceiling) && Apart(b, names, horizon, ceiling)
    requires Decides(hash, a, b, names)
    requires Shared(a2, names) == Joined(hash, a, b, names, horizon)
    requires Shared(b2, names) == Joined(hash, b, a, names, horizon)
    ensures Look(Joined(hash, a2, b2, names, horizon), k) == Look(Joined(hash, a, b, names, horizon), k)
    ensures Look(Together(hash, a2, b2, names, horizon), k) == Look(Together(hash, a, b, names, horizon), k)
    ensures k.0 in names ==> Past(Look(a2, k), horizon, ceiling) && Told(hash, Look(a2, k), Look(b2, k))
  {
    hide Taken, Told, Joined, Together, Past, Shared;
    JoinedLooks(hash, a, b, names, horizon, k);
    JoinedLooks(hash, b, a, names, horizon, k);
    JoinedLooks(hash, a2, b2, names, horizon, k);
    if k.0 in names {
      ToldAt(hash, a, b, names, horizon, ceiling, k);
      TakenAgain(hash, Look(a, k), Look(b, k), horizon, ceiling);
      LookShared(a2, Joined(hash, a, b, names, horizon), names, k);
      LookShared(b2, Joined(hash, b, a, names, horizon), names, k);
    }
  }

  lemma {:induction false} ToldAt(hash: RecordHashing, a: Winners, b: Winners, names: set<Name>, horizon: i64,
      ceiling: int, k: Key)
    requires Apart(a, names, horizon, ceiling) && Apart(b, names, horizon, ceiling) && Decides(hash, a, b, names)
    requires k.0 in names
    ensures Past(Look(a, k), horizon, ceiling) && Past(Look(b, k), horizon, ceiling)
    ensures Told(hash, Look(a, k), Look(b, k))
  {
  }

  /** Two peers that met have nothing left to tell each other, and the same goal as before. */
  lemma {:induction false} MeetAgain(hash: RecordHashing, a: Winners, b: Winners, a2: Winners, b2: Winners,
      names: set<Name>, horizon: i64, ceiling: int)
    requires horizon < ceiling && Apart(a, names, horizon, ceiling) && Apart(b, names, horizon, ceiling)
    requires Decides(hash, a, b, names)
    requires Shared(a2, names) == Joined(hash, a, b, names, horizon)
    requires Shared(b2, names) == Joined(hash, b, a, names, horizon)
    ensures Joined(hash, a2, b2, names, horizon) == Joined(hash, a, b, names, horizon)
    ensures Together(hash, a2, b2, names, horizon) == Together(hash, a, b, names, horizon)
    ensures Apart(a2, names, horizon, ceiling) && Decides(hash, a2, b2, names)
  {
    hide Joined, Together, Taken, Shared;
    forall k: Key
      ensures Look(Joined(hash, a2, b2, names, horizon), k) == Look(Joined(hash, a, b, names, horizon), k)
      ensures Look(Together(hash, a2, b2, names, horizon), k) == Look(Together(hash, a, b, names, horizon), k)
      ensures k.0 in names ==> Past(Look(a2, k), horizon, ceiling) && Told(hash, Look(a2, k), Look(b2, k))
    {
      MeetAgainAt(hash, a, b, a2, b2, names, horizon, ceiling, k);
    }
    SameLooks(Joined(hash, a2, b2, names, horizon), Joined(hash, a, b, names, horizon));
    SameLooks(Together(hash, a2, b2, names, horizon), Together(hash, a, b, names, horizon));
  }

  lemma {:induction false} JoinedFiled(hash: RecordHashing, v: Winners, a: Winners, b: Winners, names: set<Name>,
      horizon: i64)
    requires Shared(v, names) == Joined(hash, a, b, names, horizon) && Filed(a, names) && Filed(b, names)
    ensures Filed(v, names)
  {
    hide RecordOk;
    forall k | k in v && k.0 in names
      ensures KeyOf(v[k]) == k && RecordOk(v[k])
    {
      assert k in Shared(v, names);
    }
  }

  lemma {:induction false} SameEncoding(v: Winners, w: Winners, shared: seq<Name>)
    requires Shared(v, SetOf(shared)) == Shared(w, SetOf(shared))
    ensures Encodes(v, shared) <==> Encodes(w, shared)
  {
    hide Shared, EncodeManifests, BundleOf;
    BundleDepends(v, w, shared);
  }

  lemma {:induction false} SharedAgain(v: Winners, w: Winners, names: set<Name>)
    requires Shared(v, names) == w
    ensures Shared(w, names) == Shared(v, names)
  {
  }

  lemma {:induction false} JoinedIsShared(hash: RecordHashing, a: Winners, b: Winners, names: set<Name>,
      horizon: i64)
    ensures Shared(Joined(hash, a, b, names, horizon), names) == Joined(hash, a, b, names, horizon)
  {
    hide MergeManifest;
    SharedAgain(MergeManifest(hash, a, Shared(b, names), horizon), Joined(hash, a, b, names, horizon), names);
  }

  // ---------------------------------------------------------------- runs of sessions

  /** One session after another; nothing else happens between them. */
  ghost function AfterSessions(hash: RecordHashing, shared: seq<Name>, start: Two, plans: seq<Plan>): Two
  {
    if |plans| == 0 then start
    else
      var init := AfterSessions(hash, shared, start, plans[..|plans| - 1]);
      Session(hash, shared, init, plans[|plans| - 1])
  }

  function MissingCount(w: Winners, s: Two): nat
  {
    |MissingFiles(w, s.a.rows)| + |MissingFiles(w, s.b.rows)|
  }

  /** Both disks hold every winning file. */
  ghost predicate Complete(w: Winners, s: Two)
  {
    MissingFiles(w, s.a.rows) == {} && MissingFiles(w, s.b.rows) == {}
  }

  /** These records win at both peers. */
  ghost predicate Agreed(w: Winners, s: Two)
  {
    Knows(s.a.rows, w) && Knows(s.b.rows, w)
  }

  lemma {:induction false} FewerMissing(before: set<Key>, after: set<Key>)
    requires Fewer(before, after)
    ensures |after| <= |before| && (before != {} ==> |after| < |before|)
  {
    var gone := before - after;
    assert before == after + gone;
    if before != {} {
      var k :| k in gone;
    }
  }

  /** After a session both peers have the goal they had before, and each knows what it will know. */
  lemma {:induction false} GoalStays(hash: RecordHashing, g: Setting, s: Two, x: Plan)
    requires Ready(hash, g, s) && FaultFree(g, x)
    ensures var w, end := Goal(hash, g, s), Session(hash, g.shared, s, x);
            && Goal(hash, g, end) == w && Agreed(w, end)
            && MissingCount(w, end) <= MissingCount(w, s)
            && (MissingCount(w, s) > 0 ==> MissingCount(w, end) < MissingCount(w, s))
            && (StillFits(hash, g, end) <==> StillFits(hash, g, s))
            && (Ready(hash, g, end) <==> StillFits(hash, g, s))
            && (Encodes(WinnersOf(end.a.rows), g.shared) && Encodes(WinnersOf(end.b.rows), g.shared)
                <==> StillFits(hash, g, s))
  {
    hide MissingFiles, Together, Joined, GoodWinners, Filed, Apart, Decides, Rooted, Shared, IsUtf8, Session;
    hide Encodes, Knows, OneSessionTakes, WinnersOf, CleanInstall, Deletes;
    SessionDrains(hash, g, s, x);
    var names, w, end := SetOf(g.shared), Goal(hash, g, s), Session(hash, g.shared, s, x);
    var a, b, a2, b2 := WinnersOf(s.a.rows), WinnersOf(s.b.rows), WinnersOf(end.a.rows), WinnersOf(end.b.rows);
    MeetAgain(hash, a, b, a2, b2, names, g.horizon, g.ceiling);
    DecidesBack(hash, a, b, names);
    MeetAgain(hash, b, a, b2, a2, names, g.horizon, g.ceiling);
    JoinedFiled(hash, a2, a, b, names, g.horizon);
    JoinedFiled(hash, b2, b, a, names, g.horizon);
    JoinedIsShared(hash, a, b, names, g.horizon);
    JoinedIsShared(hash, b, a, names, g.horizon);
    SameEncoding(a2, Joined(hash, a, b, names, g.horizon), g.shared);
    SameEncoding(b2, Joined(hash, b, a, names, g.horizon), g.shared);
    FewerMissing(MissingFiles(w, s.a.rows), MissingFiles(w, end.a.rows));
    FewerMissing(MissingFiles(w, s.b.rows), MissingFiles(w, end.b.rows));
  }

  lemma {:induction false} DecidesBack(hash: RecordHashing, a: Winners, b: Winners, names: set<Name>)
    requires Decides(hash, a, b, names)
    ensures Decides(hash, b, a, names)
  {
    forall k | k in a && k in b && k.0 in names && CompareWinner(hash, b[k], a[k]).Equal?
      ensures a[k] == b[k]
    {
      WinnerOrderIsTotal(hash, a[k], b[k], a[k]);
    }
  }

  /** Draining.  From any two ready indexes, if what each peer knows after they met still fits a
      bundle: after the first of a series of fault-free sessions both peers have the same winners, the
      greater of what either had, and after as many sessions as there were missing files both disks
      hold all of them. */
  lemma {:induction false} SessionsDrain(hash: RecordHashing, g: Setting, start: Two, plans: seq<Plan>)
    requires Ready(hash, g, start) && StillFits(hash, g, start)
    requires forall i :: 0 <= i < |plans| ==> FaultFree(g, plans[i])
    ensures var w, end := Goal(hash, g, start), AfterSessions(hash, g.shared, start, plans);
            && Ready(hash, g, end) && StillFits(hash, g, end) && Goal(hash, g, end) == w
            && (|plans| > 0 ==> Agreed(w, end))
            && (MissingCount(w, end) == 0 || MissingCount(w, end) + |plans| <= MissingCount(w, start))
            && (|plans| >= MissingCount(w, start) ==> Complete(w, end))
  {
    hide Ready, StillFits, Session, MissingFiles, Agreed, FaultFree, Goal;
    if |plans| > 0 {
      var init := plans[..|plans| - 1];
      SessionsDrain(hash, g, start, init);
      GoalStays(hash, g, AfterSessions(hash, g.shared, start, init), plans[|plans| - 1]);
    }
  }

  /** Deletions spread too.  If deleted files can be removed, two sessions carry out every winning
      deletion on both disks: the first at the peer that is told of it, the second at the peer that
      told it. */
  lemma {:induction false} SessionsDelete(hash: RecordHashing, g: Setting, start: Two, plans: seq<Plan>)
    requires Ready(hash, g, start) && StillFits(hash, g, start) && |plans| >= 2
    requires forall i :: 0 <= i < |plans| ==> FaultFree(g, plans[i]) && Removes(plans[i].a) && Removes(plans[i].b)
    ensures var w, end := Goal(hash, g, start), AfterSessions(hash, g.shared, start, plans);
            Undone(w, end.a.rows) == {} && Undone(w, end.b.rows) == {}
  {
    hide Ready, StillFits, Session, MissingFiles, FaultFree, Goal, Removes, Joined, OneSessionTakes, Fewer;
    hide Rooted, GoodWinners;
    var init, x := plans[..|plans| - 1], plans[|plans| - 1];
    SessionsDrain(hash, g, start, init);
    var s := AfterSessions(hash, g.shared, start, init);
    SessionDrains(hash, g, s, x);
  }

  // ---------------------------------------------------------------- exactly when everything arrives

  /** A peer that cannot encode its manifests ends every session before anything is merged. */
  lemma {:induction false} NothingTravels(hash: RecordHashing, shared: seq<Name>, s: Two, x: Plan)
    requires !Encodes(WinnersOf(s.a.rows), shared) || !Encodes(WinnersOf(s.b.rows), shared)
    ensures Session(hash, shared, s, x) == s
  {
    hide WinnersOf, EncodeManifests, BundleOf, MergeBundle, ChooseFrom, Files, RequestsArriving;
  }

  /** Where what the peers know after they met does not fit a bundle, the first session still makes
      them agree, and no later one changes anything. */
  lemma {:induction false} OversizeStalls(hash: RecordHashing, g: Setting, start: Two, plans: seq<Plan>)
    requires Ready(hash, g, start) && !StillFits(hash, g, start)
    requires |plans| > 0 && FaultFree(g, plans[0])
    ensures var first := Session(hash, g.shared, start, plans[0]);
            AfterSessions(hash, g.shared, start, plans) == first && Agreed(Goal(hash, g, start), first)
  {
    hide Ready, StillFits, Session, FaultFree, Goal, Agreed, MissingCount, Encodes, WinnersOf;
    GoalStays(hash, g, start, plans[0]);
    var init := plans[..|plans| - 1];
    if |init| == 0 {
      assert AfterSessions(hash, g.shared, start, init) == start;
    } else {
      OversizeStalls(hash, g, start, init);
      NothingTravels(hash, g.shared, Session(hash, g.shared, start, plans[0]), plans[|plans| - 1]);
    }
  }

  /** The exact condition.  After as many fault-free sessions as there were missing files, and one at
      least, both disks hold every winning file if and only if what the peers know after they met
      still fits a bundle, or what each disk missed was within the caps of a single session. */
  lemma {:induction false} DrainsExactly(hash: RecordHashing, g: Setting, start: Two, plans: seq<Plan>)
    requires Ready(hash, g, start) && forall i :: 0 <= i < |plans| ==> FaultFree(g, plans[i])
    requires |plans| > 0 && |plans| >= MissingCount(Goal(hash, g, start), start)
    ensures var w := Goal(hash, g, start);
            Complete(w, AfterSessions(hash, g.shared, start, plans)) <==>
            StillFits(hash, g, start) || (OneSessionTakes(w, start.a.rows) && OneSessionTakes(w, start.b.rows))
  {
    hide Ready, StillFits, Session, FaultFree, Goal, Agreed, MissingFiles, OneSessionTakes, Joined, Deletes, Fewer;
    hide Rooted, GoodWinners, Knows, AfterSessions;
    if StillFits(hash, g, start) {
      SessionsDrain(hash, g, start, plans);
    } else {
      OversizeStalls(hash, g, start, plans);
      SessionDrains(hash, g, start, plans[0]);
    }
  }
}
