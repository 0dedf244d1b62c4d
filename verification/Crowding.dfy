/** Two peers that can never finish: each holds five thousand files the other lacks, more than one
    session takes and together more than a bundle holds. */
module Crowding {
  import opened Prelude
  import opened Bytes
  import opened Paths
  import opened Records
  import opened Manifests
  import opened RecordStore
  import opened Gossip
  import opened Install
  import opened Wire
  import opened Bundles
  import opened Exchange
  import opened Transfers
  import opened Listings
  import opened FileSessions
  import opened Draining

  const NAME: Name := [97]
  const ROOT: Directory := [47]

  // ---------------------------------------------------------------- many short paths

  /** The number in base 32, with the letters from '@' on as digits. */
  function PathAt(i: nat): (path: Path)
    ensures |path| == 3
  {
    [64 + i / 1024 % 32, 64 + i / 32 % 32, 64 + i % 32]
  }

  function KeyAt(i: nat): Key
  {
    (NAME, PathAt(i))
  }

  lemma {:induction false} PathsDiffer(i: nat, j: nat)
    requires i < 32768 && j < 32768 && PathAt(i) == PathAt(j)
    ensures i == j
  {
    hide PathAt;
    Digits(i);
    Digits(j);
  }

  lemma {:induction false} Digits(i: nat)
    requires i < 32768
    ensures i + 67648 == 1024 * (PathAt(i)[0] as int) + 32 * (PathAt(i)[1] as int) + (PathAt(i)[2] as int)
  {
    var q := i / 32;
    assert i == 32 * q + i % 32 && q == 32 * (q / 32) + q % 32;
    assert i / 1024 == q / 32 < 32;
  }

  function KeysFrom(low: nat, high: nat): set<Key>
  {
    set i | low <= i < high :: KeyAt(i)
  }

  lemma {:induction false} KeyCount(low: nat, high: nat)
    requires low <= high <= 32768
    ensures |KeysFrom(low, high)| == high - low
  {
    hide KeyAt;
    if low < high {
      KeyCount(low, high - 1);
      assert KeysFrom(low, high) == KeysFrom(low, high - 1) + {KeyAt(high - 1)};
      forall i | low <= i < high - 1
        ensures KeyAt(i) != KeyAt(high - 1)
      {
        KeysDiffer(i, high - 1);
      }
    } else {
      assert KeysFrom(low, high) == {};
    }
  }

  lemma {:induction false} KeysDiffer(i: nat, j: nat)
    requires i < j < 32768
    ensures KeyAt(i) != KeyAt(j)
  {
    hide PathAt;
    if KeyAt(i) == KeyAt(j) {
      PathsDiffer(i, j);
    }
  }

  lemma {:induction false} KeysApart(low: nat, middle: nat, high: nat)
    requires low <= middle <= high <= 32768
    ensures KeysFrom(low, middle) !! KeysFrom(middle, high)
    ensures KeysFrom(low, middle) + KeysFrom(middle, high) == KeysFrom(low, high)
  {
    hide KeyAt;
    forall i, j | low <= i < middle <= j < high
      ensures KeyAt(i) != KeyAt(j)
    {
      KeysDiffer(i, j);
    }
  }

  // ---------------------------------------------------------------- the two indexes

  /** A file of one byte. */
  function RecordAt(k: Key): Record
  {
    Record(k.0, k.1, 0, 1, File(1, 7))
  }

  function RowAt(k: Key): Row
  {
    Row(RecordAt(k), true, Some(Fingerprint(0, 1, 7)))
  }

  /** An index whose files are all on disk. */
  function Crowd(keys: set<Key>): Tables
  {
    Tables(map[NAME := Collection(ROOT, Some(ROOT), Active)], map k | k in keys :: RowAt(k))
  }

  function CrowdRecords(keys: set<Key>): Winners
  {
    map k | k in keys :: RecordAt(k)
  }

  lemma {:induction false} CrowdWinners(keys: set<Key>)
    ensures WinnersOf(Crowd(keys).rows) == CrowdRecords(keys)
  {
  }

  const HALF: nat := 5_001

  function Setup(): Setting
  {
    Setting([NAME], 0, 1, (name: Name) => ROOT, (name: Name) => ROOT)
  }

  function Pair(): Two
  {
    Two(Crowd(KeysFrom(0, HALF)), Crowd(KeysFrom(HALF, 2 * HALF)))
  }

  lemma {:induction false} RecordIsOk(i: nat)
    ensures RecordOk(RecordAt(KeyAt(i))) && KeyOf(RecordAt(KeyAt(i))) == KeyAt(i)
    ensures Narrow(RecordAt(KeyAt(i)), NAME, 4)
  {
    hide RecordBytes;
    var s := PathAt(i);
    TextIsOk(s);
    assert IsUtf8(NAME) by { LetterIsUtf8(NAME); }
    RecordLength(RecordAt(KeyAt(i)));
  }

  lemma {:induction false} LetterIsUtf8(s: Bytes)
    requires |s| > 0 && s[0] < 0x80 && IsUtf8(s[1..])
    ensures IsUtf8(s)
  {
  }

  lemma {:induction false} TextIsOk(s: Bytes)
    requires |s| == 3 && forall i :: 0 <= i < 3 ==> 64 <= s[i] < 96
    ensures IsUtf8(s) && ParsePath(s).Ok?
  {
    LetterIsUtf8(s[1..][1..]);
    LetterIsUtf8(s[1..]);
    LetterIsUtf8(s);
    NoSlash(s[1..][1..][1..]);
    NoSlash(s[1..][1..]);
    NoSlash(s[1..]);
    NoSlash(s);
  }

  lemma {:induction false} NoSlash(s: Bytes)
    requires forall i :: 0 <= i < |s| ==> s[i] != SLASH
    ensures FirstComponent(s) == s
  {
    if |s| > 0 {
      NoSlash(s[1..]);
    }
  }

  // ---------------------------------------------------------------- they are ready

  /** An index of some of these files is in order. */
  lemma {:induction false} CrowdIsPlaced(low: nat, high: nat)
    ensures Placed(Crowd(KeysFrom(low, high)), {NAME}, 0, 1, (name: Name) => ROOT)
    ensures NarrowAt(CrowdRecords(KeysFrom(low, high)), NAME, 4)
  {
    hide RecordAt, RecordOk, PathAt, Narrow;
    var keys := KeysFrom(low, high);
    CrowdWinners(keys);
    forall k | k in keys
      ensures RecordOk(RecordAt(k)) && KeyOf(RecordAt(k)) == k && Narrow(RecordAt(k), NAME, 4)
      ensures RecordAt(k).modifiedNs <= 0
    {
      var i :| low <= i < high && KeyAt(i) == k;
      RecordIsOk(i);
      OldRecord(k);
    }
  }

  lemma {:induction false} OldRecord(k: Key)
    ensures RecordAt(k).modifiedNs == 0
  {
  }

  lemma {:induction false} AllShared(keys: set<Key>)
    requires forall k :: k in keys ==> k.0 == NAME
    ensures Shared(CrowdRecords(keys), {NAME}) == CrowdRecords(keys)
  {
    hide RecordAt;
  }

  lemma {:induction false} SetOfOne()
    ensures SetOf([NAME]) == {NAME} && DistinctNames([NAME]) && IsUtf8(NAME)
  {
    LetterIsUtf8(NAME);
  }

  /** Half of the files fit a bundle, all of them do not. */
  lemma {:induction false} HalfFits(low: nat, high: nat)
    requires low <= high <= 32768
    ensures high - low <= HALF ==> Encodes(CrowdRecords(KeysFrom(low, high)), [NAME])
    ensures high - low > MAX_MANIFEST_RECORDS ==> !Encodes(CrowdRecords(KeysFrom(low, high)), [NAME])
  {
    hide EncodeManifests, BundleOf, NarrowAt, Filed, KeysFrom, CrowdRecords, Shared, DistinctNames;
    var keys := KeysFrom(low, high);
    KeyCount(low, high);
    CrowdIsPlaced(low, high);
    CrowdWinners(keys);
    SetOfOne();
    KeysAreShared(low, high);
    AllShared(keys);
    CrowdKeys(keys);
    if high - low <= HALF {
      SmallBundlesFit(CrowdRecords(keys), [NAME], 4);
    }
    if high - low > MAX_MANIFEST_RECORDS {
      CrowdedBundlesDoNotFit(CrowdRecords(keys), [NAME]);
    }
  }

  lemma {:induction false} KeysAreShared(low: nat, high: nat)
    ensures forall k :: k in KeysFrom(low, high) ==> k.0 == NAME
  {
  }

  lemma {:induction false} CrowdKeys(keys: set<Key>)
    ensures CrowdRecords(keys).Keys == keys
  {
  }

  /** Nor is there anything unusual about such an index. */
  lemma {:induction false} CrowdIsWellFormed(low: nat, high: nat)
    ensures WellFormed(Crowd(KeysFrom(low, high)))
  {
    hide PathAt, RecordOk;
    forall k | k in KeysFrom(low, high)
      ensures RecordOk(RecordAt(k)) && k.0 == NAME
    {
      var i :| low <= i < high && KeyAt(i) == k;
      RecordIsOk(i);
    }
  }

  /** With nothing in common, each peer's records join the other's. */
  lemma {:induction false} CrowdsJoin(hash: RecordHashing, x: set<Key>, y: set<Key>)
    requires x !! y && forall k :: k in x + y ==> k.0 == NAME
    ensures Joined(hash, CrowdRecords(x), CrowdRecords(y), {NAME}, 0) == CrowdRecords(x + y)
    ensures Together(hash, CrowdRecords(x), CrowdRecords(y), {NAME}, 0) == CrowdRecords(x + y)
    ensures Decides(hash, CrowdRecords(x), CrowdRecords(y), {NAME})
  {
    hide RecordAt, Best;
    var a, b := CrowdRecords(x), CrowdRecords(y);
    forall k
      ensures RecordAt(k).modifiedNs == 0
    {
      OldRecord(k);
    }
    AllShared(y);
    assert Joined(hash, a, b, {NAME}, 0).Keys == x + y;
    assert Together(hash, a, b, {NAME}, 0).Keys == x + y;
  }

  /** What the one holds the other misses. */
  lemma {:induction false} OthersAreMissing(x: set<Key>, y: set<Key>)
    requires x !! y
    ensures MissingFiles(CrowdRecords(x + y), Crowd(x).rows) == y
  {
  }

  lemma {:induction false} CrowdIsReady(hash: RecordHashing)
    ensures var x, y := KeysFrom(0, HALF), KeysFrom(HALF, 2 * HALF);
            && Ready(hash, Setup(), Pair()) && !StillFits(hash, Setup(), Pair())
            && MissingFiles(Goal(hash, Setup(), Pair()), Pair().a.rows) == y
            && MissingFiles(Goal(hash, Setup(), Pair()), Pair().b.rows) == x
            && |x| == HALF && |y| == HALF
  {
    hide Encodes, Placed, KeysFrom, CrowdRecords, Crowd, MissingFiles, Joined, Together, Decides, WinnersOf;
    var x, y := KeysFrom(0, HALF), KeysFrom(HALF, 2 * HALF);
    SetOfOne();
    KeysApart(0, HALF, 2 * HALF);
    KeyCount(0, HALF);
    KeyCount(HALF, 2 * HALF);
    KeysAreShared(0, HALF);
    KeysAreShared(HALF, 2 * HALF);
    CrowdWinners(x);
    CrowdWinners(y);
    CrowdIsPlaced(0, HALF);
    CrowdIsPlaced(HALF, 2 * HALF);
    HalfFits(0, HALF);
    HalfFits(HALF, 2 * HALF);
    HalfFits(0, 2 * HALF);
    CrowdsJoin(hash, x, y);
    CrowdsJoin(hash, y, x);
    assert y + x == x + y;
    OthersAreMissing(x, y);
    OthersAreMissing(y, x);
  }

  function CleanOutcome(r: Record): Outcome
  {
    if r.kind.Tombstone? then Outcome(true, Err(IsTombstone))
    else Outcome(true, Ok(Installed(ROOT, Fingerprint(0, r.kind.size, r.kind.contentHash))))
  }

  /** A session without a fault. */
  function CleanSide(): Side
  {
    Side(0, (r: Record) => true, (i: nat) => true, (r: Record) => CleanOutcome(r), [], [])
  }

  lemma {:induction false} FaultFreeSessionsExist()
    ensures FaultFree(Setup(), Plan(CleanSide(), CleanSide()))
  {
  }

  /** The two never finish.  They are ready to meet, and each of their bundles fits; yet however many
      fault-free sessions follow, everything stays as the first one left it, and each disk lacks
      files that the other has. */
  lemma {:induction false} CrowdsNeverFinish(hash: RecordHashing, plans: seq<Plan>)
    requires |plans| > 0 && forall i :: 0 <= i < |plans| ==> FaultFree(Setup(), plans[i])
    ensures var g, start := Setup(), Pair();
            var w, end := Goal(hash, g, start), AfterSessions(hash, g.shared, start, plans);
            && WellFormed(start.a) && WellFormed(start.b)
            && Ready(hash, g, start) && !StillFits(hash, g, start)
            && end == Session(hash, g.shared, start, plans[0]) && Agreed(w, end)
            && MissingFiles(w, end.a.rows) != {} && MissingFiles(w, end.b.rows) != {}
  {
    hide Ready, StillFits, Session, FaultFree, Goal, Agreed, MissingFiles, Joined, Deletes, Fewer, Rooted, GoodWinners;
    hide Knows, AfterSessions, Setup, BytesOf, Crowd, KeysFrom, WellFormed;
    CrowdIsWellFormed(0, HALF);
    CrowdIsWellFormed(HALF, 2 * HALF);
    CrowdIsReady(hash);
    OversizeStalls(hash, Setup(), Pair(), plans);
    SessionDrains(hash, Setup(), Pair(), plans[0]);
  }
}
