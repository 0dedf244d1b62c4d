/** Whole sessions as far as the roster goes: when two devices meet at all, and whether they meet
    again. */
module RosterSessions {
  import opened Prelude
  import opened Bytes
  import opened Canonical
  import opened Roster
  import opened RosterLattice
  import opened RosterStore
  import opened RosterSync
  import opened RosterCodec
  import opened RosterMembership
  import opened Wire
  import opened Bundles

  // ---------------------------------------------------------------- the gate

  /** `authorize_local_roster`: both devices are members at the local tip. */
  ghost predicate Authorised(e: RosterEnv, rows: Rows, x: EndpointId, y: EndpointId)
    requires Consistent(e, rows)
  {
    rows != map[] && x in Tip(e, rows).members && y in Tip(e, rows).members
  }

  /** The selected chain fits a roster frame. */
  ghost predicate Sends(e: RosterEnv, rows: Rows)
    requires Consistent(e, rows)
  {
    EncodeRoster(SelectedChain(e, rows)).Ok?
  }

  /** Both ends let the session start and can send their chains; otherwise neither table is
      touched. */
  ghost predicate Meets(e: RosterEnv, a: Rows, b: Rows, x: EndpointId, y: EndpointId)
    requires Consistent(e, a) && Consistent(e, b)
  {
    Authorised(e, a, x, y) && Authorised(e, b, x, y) && Sends(e, a) && Sends(e, b)
  }

  /** The chain that arrives is the one that was sent. */
  lemma {:induction false} SentChainArrives(e: RosterEnv, rows: Rows)
    requires Consistent(e, rows) && Sends(e, rows) && rows != map[]
    requires forall r :: r in rows.Values ==> RevisionNames(r)
    ensures DecodeRoster(e, EncodeRoster(SelectedChain(e, rows)).value) == Ok(SelectedChain(e, rows))
  {
    hide EncodeRoster, DecodeRoster, RevisionNames, IsChain, Chain;
    var chain := SelectedChain(e, rows);
    SelectedChainIsChain(e, rows);
    ChainIsLine(e, Root(e, rows), rows.Values);
    forall i | 0 <= i < |chain|
      ensures RevisionNames(chain[i])
    {
      assert i > 0 ==> chain[i] in Elements(Chain(e, Root(e, rows), rows.Values));
      assert chain[i] in rows.Values;
    }
    RosterRoundTrip(e, chain, EncodeRoster(chain).value);
  }

  /** Both tables after a session between two devices. */
  ghost function Meeting(e: RosterEnv, a: Rows, b: Rows, ia: DeviceIdentity, ib: DeviceIdentity): (Rows, Rows)
    requires Consistent(e, a) && Consistent(e, b)
  {
    if Meets(e, a, b, ia.endpointId, ib.endpointId)
    then (AfterSession(e, a, b, ia), AfterSession(e, b, a, ib))
    else (a, b)
  }

  // ---------------------------------------------------------------- two sessions

  /** Two sessions suffice, exactly when there is a second one: after it both devices hold the
      identical chain if and only if they met again, or held it already. */
  lemma {:induction false} TwoSessionsSuffice(e: RosterEnv, a: Rows, b: Rows, ia: DeviceIdentity, ib: DeviceIdentity,
      u: set<RosterRevision>)
    requires Consistent(e, a) && Consistent(e, b) && a != map[] && b != map[] && Root(e, a) == Root(e, b)
    requires Meets(e, a, b, ia.endpointId, ib.endpointId)
    requires HashInjective(e, u) && a.Values <= u && b.Values <= u
    requires AfterSession(e, a, b, ia).Values <= u && AfterSession(e, b, a, ib).Values <= u
    ensures var (a1, b1) := Meeting(e, a, b, ia, ib);
            && Consistent(e, a1) && Consistent(e, b1)
            && var (a2, b2) := Meeting(e, a1, b1, ia, ib);
               && Consistent(e, a2) && Consistent(e, b2)
               && (SelectedChain(e, a2) == SelectedChain(e, b2) <==>
                     Meets(e, a1, b1, ia.endpointId, ib.endpointId) || SelectedChain(e, a1) == SelectedChain(e, b1))
               && UnionChain(e, a, b) <= SelectedChain(e, a2) && UnionChain(e, a, b) <= SelectedChain(e, b2)
  {
    hide EncodeRoster, SelectedChain, AfterSession, UnionChain, Merged;
    OneSideReplays(e, a, b, ia, ib, u);
    TwoRosterStepsAgree(e, a, b, ia, ib, u);
  }

  /** The winner of a session meets its peer again as it met it before. */
  lemma {:induction false} WinnerStands(e: RosterEnv, a: Rows, b: Rows, ib: DeviceIdentity, u: set<RosterRevision>)
    requires Consistent(e, a) && Consistent(e, b) && a != map[] && b != map[] && Root(e, a) == Root(e, b)
    requires HashInjective(e, u) && a.Values <= u && b.Values <= u
    requires Lost(e, a, Merged(e, a, SelectedChain(e, b)))
    ensures var b1 := AfterSession(e, b, a, ib);
            && Consistent(e, b1) && b1 != map[]
            && SelectedChain(e, b1) == SelectedChain(e, b) && Tip(e, b1) == Tip(e, b)
  {
    hide ValidateChild, ApplyChange, Child, Chain;
    LoserDrops(e, a, b, ib.endpointId, u);
    assert a.Values + b.Values == b.Values + a.Values;
    SessionExtendsWinner(e, b, a, ib, u);
  }

  /** A device that has just met its peer and lost its branch to it. */
  ghost predicate LosesTo(e: RosterEnv, a: Rows, b: Rows, ia: DeviceIdentity, y: EndpointId, u: set<RosterRevision>)
  {
    && Consistent(e, a) && Consistent(e, b) && a != map[] && b != map[] && Root(e, a) == Root(e, b)
    && HashInjective(e, u) && a.Values <= u && b.Values <= u && Honest(e, ia)
    && Meets(e, a, b, ia.endpointId, y)
    && var merged := Merged(e, a, SelectedChain(e, b));
       var dropped := DroppedBy(e, a, SelectedChain(e, b), ia.endpointId);
       && Lost(e, a, merged)
       && Tip(e, merged).number + |dropped| <= U64_MAX && NoCollisions(e, merged, ia, dropped)
  }

  /** The replayed changes leave both devices in the roster. */
  ghost predicate StaysOpen(e: RosterEnv, a: Rows, b: Rows, x: EndpointId, y: EndpointId)
    requires Consistent(e, a) && Consistent(e, b)
  {
    var dropped := DroppedBy(e, a, SelectedChain(e, b), x);
    !RemovesSelf(dropped, x) && LastIntent(dropped, y) != Some(false)
  }

  /** After losing its branch a device still accepts its peer if and only if the changes it replayed
      removed neither itself nor, as its last word about it, the peer. */
  lemma {:induction false} LoserAccepts(e: RosterEnv, a: Rows, b: Rows, ia: DeviceIdentity, y: EndpointId,
      u: set<RosterRevision>)
    requires LosesTo(e, a, b, ia, y, u)
    ensures var a1 := AfterSession(e, a, b, ia);
            Consistent(e, a1) && (Authorised(e, a1, ia.endpointId, y) <==> StaysOpen(e, a, b, ia.endpointId, y))
  {
    hide EncodeRoster, Chain, NoCollisions, Dropped, LastIntent, Remakeable, RemovesSelf;
    var merged := Merged(e, a, SelectedChain(e, b));
    var dropped := DroppedBy(e, a, SelectedChain(e, b), ia.endpointId);
    LoserDrops(e, a, b, ia.endpointId, u);
    ReplayExtends(e, merged, ia, ia.endpointId, dropped);
    assert Tip(e, merged) == Tip(e, b);
    if RemovesSelf(dropped, ia.endpointId) {
      SelfRemovalIsReplayed(e, merged, ia, dropped);
    } else {
      ReplayKeepsIntent(e, merged, ia, dropped);
      var next := Replay(e, merged, ia, ia.endpointId, dropped).0;
      assert y in Tip(e, next).members <==> MemberAfter(Tip(e, merged).members, dropped, y);
    }
  }

  /** Whether they meet again after one of them lost its branch: the loser must still accept its
      peer and its longer chain must fit a frame; the winner accepts and sends as it did before. */
  lemma {:induction false} SecondMeeting(e: RosterEnv, a: Rows, b: Rows, ia: DeviceIdentity, ib: DeviceIdentity,
      u: set<RosterRevision>)
    requires LosesTo(e, a, b, ia, ib.endpointId, u)
    ensures var (a1, b1) := Meeting(e, a, b, ia, ib);
            && Consistent(e, a1) && Consistent(e, b1)
            && (Meets(e, a1, b1, ia.endpointId, ib.endpointId) <==>
                  StaysOpen(e, a, b, ia.endpointId, ib.endpointId) && Sends(e, a1))
  {
    hide EncodeRoster, StaysOpen, Lost, NoCollisions, AfterSession, Honest, SelectedChain;
    LoserAccepts(e, a, b, ia, ib.endpointId, u);
    WinnerStands(e, a, b, ib, u);
  }

  /** When the replayed changes do close the door, the two never meet again: the loser refuses every
      further session, both tables stay as they are, and the chains stay different. */
  lemma {:induction false} LockedOut(e: RosterEnv, a: Rows, b: Rows, ia: DeviceIdentity, ib: DeviceIdentity,
      u: set<RosterRevision>)
    requires LosesTo(e, a, b, ia, ib.endpointId, u) && !StaysOpen(e, a, b, ia.endpointId, ib.endpointId)
    ensures var (a1, b1) := Meeting(e, a, b, ia, ib);
            && Consistent(e, a1) && Consistent(e, b1)
            && Meeting(e, a1, b1, ia, ib) == (a1, b1) && SelectedChain(e, a1) != SelectedChain(e, b1)
  {
    hide EncodeRoster, StaysOpen, Lost, NoCollisions, AfterSession, Honest, SelectedChain, Consistent, Sends;
    LoserAccepts(e, a, b, ia, ib.endpointId, u);
    WinnerStands(e, a, b, ib, u);
    if SelectedChain(e, AfterSession(e, a, b, ia)) == SelectedChain(e, AfterSession(e, b, a, ib)) {
      SameChainSameGate(e, AfterSession(e, a, b, ia), AfterSession(e, b, a, ib), ia.endpointId, ib.endpointId);
    }
  }

  lemma {:induction false} SameChainSameGate(e: RosterEnv, a: Rows, b: Rows, x: EndpointId, y: EndpointId)
    requires Consistent(e, a) && Consistent(e, b) && SelectedChain(e, a) == SelectedChain(e, b)
    ensures Authorised(e, a, x, y) <==> Authorised(e, b, x, y)
  {
    hide Chain, Root;
  }

  // ---------------------------------------------------------------- rosters that fit a frame

  /** Names of at most `width` bytes. */
  ghost predicate Narrow(r: RosterRevision, width: nat)
  {
    && RevisionNames(r)
    && (forall x :: x in r.members ==> |r.members[x]| <= width)
    && (!r.change.Remove? ==> |r.change.member.deviceName| <= width)
  }

  lemma {:induction false} EntriesLength(s: seq<Entry>, width: nat)
    requires MembersOk(s) && forall i :: 0 <= i < |s| ==> |s[i].1| <= width
    ensures |EntriesBytes(s)| <= (36 + width) * |s|
  {
    hide IsUtf8, IsBlank, U32Bytes;
    if |s| > 0 {
      EntriesLength(s[1..], width);
    }
  }

  lemma {:induction false} RevisionLength(r: RosterRevision, width: nat)
    requires Narrow(r, width) && |r.members| <= MAX_ROSTER_MEMBERS
    ensures RevisionOk(r) && |RevisionBytes(r)| <= 300 + width + (36 + width) * |r.members|
  {
    hide NameOk, EntriesBytes, MembersOk, ChangeOk, HeadBytes, ChangeBytes, Fixed32, Fixed64;
    HeadLength(r);
    TableLength(r, width);
    ChangeLength(r.change, width);
  }

  lemma {:induction false} HeadLength(r: RosterRevision)
    ensures |HeadBytes(ROSTER_DOMAIN, r.groupId, r.number, r.parentHash)| <= 100
  {
  }

  lemma {:induction false} EntryValue(s: seq<Entry>, i: nat)
    requires Ascending(s) && i < |s|
    ensures s[i].0 in ToMap(s) && ToMap(s)[s[i].0] == s[i].1
  {
    if i < |s| - 1 {
      EntryValue(s[..|s| - 1], i);
    }
  }

  lemma {:induction false} TableLength(r: RosterRevision, width: nat)
    requires Narrow(r, width) && |r.members| <= MAX_ROSTER_MEMBERS
    ensures |TableBytes(Entries(r.members))| <= 4 + (36 + width) * |r.members|
  {
    hide NameOk, EntriesBytes, U32Bytes;
    var s := Entries(r.members);
    forall i | 0 <= i < |s|
      ensures |s[i].1| <= width
    {
      EntryValue(s, i);
    }
    EntriesLength(s, width);
  }

  lemma {:induction false} ChangeLength(change: RosterChange, width: nat)
    requires ChangeOk(change) && (!change.Remove? ==> |change.member.deviceName| <= width)
    ensures |ChangeBytes(change)| <= 37 + width
  {
    hide IsUtf8, IsBlank, U32Bytes;
  }

  lemma {:induction false} RevisionsLength(revisions: seq<RosterRevision>, bound: nat)
    requires forall i :: 0 <= i < |revisions| ==> RevisionOk(revisions[i]) && |RevisionBytes(revisions[i])| <= bound
    ensures |ItemsBytes(RevisionCodec(), revisions)| <= (4 + bound) * |revisions|
  {
    hide RevisionOk, RevisionBytes, U32Bytes;
    if |revisions| > 0 {
      RevisionsLength(revisions[1..], bound);
      if |RevisionBytes(revisions[0])| <= U32_MAX {
        EncodedRevision(revisions[0]);
      }
    }
  }

  lemma {:induction false} EncodedRevision(r: RosterRevision)
    requires RevisionOk(r)
    ensures |RevisionCodec().encode(r)| <= 4 + |RevisionBytes(r)|
  {
    hide RevisionBytes, U32Bytes, RevisionOk;
  }

  /** A chain is sent whenever its names, members and revisions keep it within two megabytes. */
  lemma {:induction false} SmallRostersFit(revisions: seq<RosterRevision>, members: nat, width: nat)
    requires 0 < |revisions| <= MAX_ROSTER_REVISIONS && members <= MAX_ROSTER_MEMBERS
    requires forall i :: 0 <= i < |revisions| ==> Narrow(revisions[i], width) && |revisions[i].members| <= members
    requires 4 + (304 + width + (36 + width) * members) * |revisions| <= MAX_ROSTER_BYTES
    ensures EncodeRoster(revisions).Ok?
  {
    hide Narrow, RevisionOk, RevisionBytes, U32Bytes, ItemsBytes;
    var bound := 300 + width + (36 + width) * members;
    forall i | 0 <= i < |revisions|
      ensures RevisionOk(revisions[i]) && |RevisionBytes(revisions[i])| <= bound
    {
      RevisionLength(revisions[i], width);
      FewerMembers(width, |revisions[i].members|, members);
    }
    assert bound <= MAX_ROSTER_BYTES by { OneOfMany(bound, |revisions|); }
    CheckedRevisions(revisions);
    RevisionsLength(revisions, bound);
  }

  lemma {:induction false} FewerMembers(width: nat, few: nat, many: nat)
    requires few <= many
    ensures (36 + width) * few <= (36 + width) * many
  {
  }

  lemma {:induction false} OneOfMany(x: nat, n: nat)
    requires n > 0 && 4 + (4 + x) * n <= MAX_ROSTER_BYTES
    ensures x <= MAX_ROSTER_BYTES
  {
    assert (4 + x) * 1 <= (4 + x) * n;
  }

  // ---------------------------------------------------------------- a device that locks its peer out

  /** Three devices.  The first founds the group and admits the others; then its branch removes the
      second, whom the third admits again, while the second removes the third, with the greater
      hash.  `Lockout` is what the first makes of its removal on the second's branch. */
  const NAME: Bytes := [65]
  const FOUNDED := RosterRevision(7, 0, None, map[1 := NAME], Initialize(RosterMember(1, NAME)), 1, 0)
  const SECOND := RosterRevision(7, 1, Some(10), map[1 := NAME, 2 := NAME], Admit(RosterMember(2, NAME)), 1, 0)
  const THIRD := RosterRevision(7, 2, Some(11), map[1 := NAME, 2 := NAME, 3 := NAME],
    Admit(RosterMember(3, NAME)), 1, 0)
  const REMOVAL := RosterRevision(7, 3, Some(12), map[1 := NAME, 3 := NAME], Remove(2), 1, 0)
  const RETURN := RosterRevision(7, 4, Some(20), map[1 := NAME, 2 := NAME, 3 := NAME],
    Admit(RosterMember(2, NAME)), 3, 0)
  const RIVAL := RosterRevision(7, 3, Some(12), map[1 := NAME, 2 := NAME], Remove(3), 2, 0)

  const FIRST_BRANCH := [FOUNDED, SECOND, THIRD, REMOVAL, RETURN]
  const SECOND_BRANCH := [FOUNDED, SECOND, THIRD, RIVAL]

  function ExampleHash(r: RosterRevision): RosterHash
  {
    if r.number == 0 then 10 else if r.number == 1 then 11 else if r.number == 2 then 12
    else if r.number == 3 then (if r.author == 1 then 20 else 30)
    else if r.author == 3 then 21 else 31
  }

  function ExampleEnv(): RosterEnv
  {
    RosterEnv(r => ExampleHash(r), r => true)
  }

  /** The first device's key. */
  function ExampleDevice(): DeviceIdentity
  {
    DeviceIdentity(1, r => 0)
  }

  lemma {:induction false} ExampleName()
    ensures ValidateDeviceName(NAME).Ok? && IsUtf8(NAME) && |NAME| == 1
  {
  }

  lemma {:induction false} ExampleLinks()
    ensures var e := ExampleEnv();
            && ValidateGenesis(e, FOUNDED).Ok? && IsChild(e, FOUNDED, SECOND) && IsChild(e, SECOND, THIRD)
            && IsChild(e, THIRD, REMOVAL) && IsChild(e, REMOVAL, RETURN) && IsChild(e, THIRD, RIVAL)
  {
    hide IsBlank, IsUtf8;
    ExampleName();
    var e := ExampleEnv();
    assert RETURN.members == REMOVAL.members[2 := NAME];
    assert REMOVAL.members == THIRD.members - {2};
    assert RIVAL.members == THIRD.members - {3};
  }

  lemma {:induction false} ExampleLines()
    ensures IsLine(ExampleEnv(), FOUNDED, FIRST_BRANCH[1..]) && IsLine(ExampleEnv(), FOUNDED, SECOND_BRANCH[1..])
  {
    hide ValidateChild;
    ExampleLinks();
    var e := ExampleEnv();
    assert FIRST_BRANCH[1..][1..][1..][1..] == [RETURN] && [RETURN][1..] == [];
    assert FIRST_BRANCH[1..][1..][1..] == [REMOVAL, RETURN];
    assert IsLine(e, REMOVAL, [RETURN]);
    assert IsLine(e, THIRD, [REMOVAL, RETURN]);
    assert SECOND_BRANCH[1..][1..][1..] == [RIVAL] && [RIVAL][1..] == [];
    assert IsLine(e, THIRD, [RIVAL]);
  }

  /** A table that holds exactly one line below the founding revision selects that line. */
  lemma {:induction false} ExampleTable(rows: Rows, chain: seq<RosterRevision>)
    requires |chain| > 0 && chain[0] == FOUNDED && IsLine(ExampleEnv(), FOUNDED, chain[1..])
    requires Keyed(ExampleEnv(), rows) && rows != map[] && rows.Values == Elements(chain)
    ensures var e := ExampleEnv();
            && Consistent(e, rows) && Root(e, rows) == FOUNDED && SelectedChain(e, rows) == chain
  {
    hide ValidateChild, Chain;
    ExampleLinks();
    var e, line := ExampleEnv(), chain[1..];
    assert chain == [FOUNDED] + line;
    ElementsAppend([FOUNDED], line);
    assert Elements([FOUNDED]) == {FOUNDED};
    LineIsTree(e, FOUNDED, line);
    assert IsTree(e, FOUNDED, rows.Values);
    RootIsUnique(e, FOUNDED, Root(e, rows), rows.Values);
    ChainSetSelectsItself(e, FOUNDED, line);
  }

  /** The table that holds a branch. */
  function Table(chain: seq<RosterRevision>): Rows
  {
    if |chain| == 0 then map[] else Table(chain[..|chain| - 1])[ExampleHash(chain[|chain| - 1]) := chain[|chain| - 1]]
  }

  ghost predicate DistinctHashes(chain: seq<RosterRevision>)
  {
    forall i, j :: 0 <= i < j < |chain| ==> ExampleHash(chain[i]) != ExampleHash(chain[j])
  }

  lemma {:induction false} TableHolds(chain: seq<RosterRevision>)
    requires DistinctHashes(chain)
    ensures Keyed(ExampleEnv(), Table(chain)) && Table(chain).Values == Elements(chain)
    ensures forall h :: h in Table(chain) <==> exists i :: 0 <= i < |chain| && ExampleHash(chain[i]) == h
    ensures |chain| > 0 ==> Table(chain) != map[]
  {
    hide ExampleHash;
    if |chain| > 0 {
      var n := |chain| - 1;
      var init, rows := Table(chain[..n]), Table(chain);
      TableHolds(chain[..n]);
      assert chain == chain[..n] + [chain[n]];
      ElementsAppend(chain[..n], [chain[n]]);
      assert Elements([chain[n]]) == {chain[n]};
      var h := ExampleHash(chain[n]);
      assert h !in init;
      assert h in rows;
      assert rows.Values == init.Values + {chain[n]} by { NewValue(init, h, chain[n]); }
      forall k
        ensures k in rows <==> exists i :: 0 <= i < |chain| && ExampleHash(chain[i]) == k
      {
        if k in init {
          var i :| 0 <= i < n && ExampleHash(chain[..n][i]) == k;
          assert ExampleHash(chain[i]) == k;
        }
        if i :| 0 <= i < n && ExampleHash(chain[i]) == k {
          assert ExampleHash(chain[..n][i]) == k;
        }
      }
    }
  }

  lemma {:induction false} NewValue(rows: Rows, h: RosterHash, r: RosterRevision)
    requires h !in rows
    ensures rows[h := r].Values == rows.Values + {r}
  {
    var next := rows[h := r];
    forall x | x in rows.Values + {r}
      ensures x in next.Values
    {
      if x in rows.Values {
        var k :| k in rows && rows[k] == x;
        assert next[k] == x;
      } else {
        assert next[h] == r;
      }
    }
  }

  const FIRST_HASHES: seq<RosterHash> := [10, 11, 12, 20, 21]
  const SECOND_HASHES: seq<RosterHash> := [10, 11, 12, 30]

  ghost predicate HashedBy(chain: seq<RosterRevision>, hashes: seq<RosterHash>)
  {
    && |hashes| == |chain|
    && (forall i :: 0 <= i < |chain| ==> ExampleHash(chain[i]) == hashes[i])
    && (forall i, j :: 0 <= i < j < |hashes| ==> hashes[i] < hashes[j])
  }

  /** What a table made from a branch holds and selects. */
  ghost predicate HoldsBranch(rows: Rows, chain: seq<RosterRevision>, hashes: seq<RosterHash>)
  {
    && rows != map[] && Consistent(ExampleEnv(), rows) && Root(ExampleEnv(), rows) == FOUNDED
    && SelectedChain(ExampleEnv(), rows) == chain && rows.Values == Elements(chain)
    && forall h :: h in rows <==> h in hashes
  }

  lemma {:induction false} BranchTable(chain: seq<RosterRevision>, hashes: seq<RosterHash>)
    requires |chain| > 0 && chain[0] == FOUNDED && IsLine(ExampleEnv(), FOUNDED, chain[1..]) && HashedBy(chain, hashes)
    ensures HoldsBranch(Table(chain), chain, hashes)
  {
    hide IsLine, Chain, Root, Table, ExampleHash, Consistent, SelectedChain;
    TableHolds(chain);
    ExampleTable(Table(chain), chain);
    forall h
      ensures h in Table(chain) <==> h in hashes
    {
      if h in hashes {
        var i :| 0 <= i < |hashes| && hashes[i] == h;
        assert ExampleHash(chain[i]) == h;
      }
    }
  }

  lemma {:induction false} ExampleTables()
    ensures HashedBy(FIRST_BRANCH, FIRST_HASHES) && HashedBy(SECOND_BRANCH, SECOND_HASHES)
    ensures HoldsBranch(Table(FIRST_BRANCH), FIRST_BRANCH, FIRST_HASHES)
    ensures HoldsBranch(Table(SECOND_BRANCH), SECOND_BRANCH, SECOND_HASHES)
  {
    hide IsLine, Table, HoldsBranch;
    ExampleLines();
    BranchTable(FIRST_BRANCH, FIRST_HASHES);
    BranchTable(SECOND_BRANCH, SECOND_HASHES);
  }

  /** Revisions of the two branches with equal hashes are equal. */
  lemma {:induction false} ExampleInjective()
    ensures HashInjective(ExampleEnv(), Elements(FIRST_BRANCH) + Elements(SECOND_BRANCH))
  {
    var all := FIRST_BRANCH + [RIVAL];
    assert forall r :: r in SECOND_BRANCH ==> r in all;
    assert HashedBy(all, FIRST_HASHES + [30]);
    forall x, y | x in all && y in all && ExampleHash(x) == ExampleHash(y)
      ensures x == y
    {
      SameHash(all, FIRST_HASHES + [30], x, y);
    }
  }

  lemma {:induction false} SameHash(chain: seq<RosterRevision>, hashes: seq<RosterHash>, x: RosterRevision,
      y: RosterRevision)
    requires HashedBy(chain, hashes) && x in chain && y in chain && ExampleHash(x) == ExampleHash(y)
    ensures x == y
  {
    hide ExampleHash;
    var i :| 0 <= i < |chain| && chain[i] == x;
    var j :| 0 <= j < |chain| && chain[j] == y;
    assert hashes[i] == hashes[j];
  }

  lemma {:induction false} ExampleSends()
    ensures EncodeRoster(FIRST_BRANCH).Ok? && EncodeRoster(SECOND_BRANCH).Ok?
  {
    hide EncodeRoster, RevisionNames;
    forall r | r in FIRST_BRANCH || r in SECOND_BRANCH
      ensures Narrow(r, 1) && |r.members| <= 3
    {
      ExampleNarrow(r);
    }
    SmallRostersFit(FIRST_BRANCH, 3, 1);
    SmallRostersFit(SECOND_BRANCH, 3, 1);
  }

  lemma {:induction false} ExampleNarrow(r: RosterRevision)
    requires r in FIRST_BRANCH || r in SECOND_BRANCH
    ensures Narrow(r, 1) && |r.members| <= 3
  {
    ExampleName();
    ExampleNamed(r);
    NamedAlike(r, NAME);
  }

  /** Everybody has the same name. */
  predicate Named(r: RosterRevision, name: Bytes)
  {
    (forall x :: x in r.members ==> r.members[x] == name) && (!r.change.Remove? ==> r.change.member.deviceName == name)
  }

  lemma {:induction false} ExampleNamed(r: RosterRevision)
    requires r in FIRST_BRANCH || r in SECOND_BRANCH
    ensures Named(r, NAME) && |r.members| <= 3
  {
    assert r in [FOUNDED, SECOND, THIRD, REMOVAL, RETURN, RIVAL];
    assert r.members.Keys <= {1, 2, 3};
    FewKeys(r.members.Keys);
  }

  lemma {:induction false} FewKeys(keys: set<EndpointId>)
    requires keys <= {1, 2, 3}
    ensures |keys| <= 3
  {
    var rest := {1, 2, 3} - keys;
    assert keys + rest == {1, 2, 3};
    assert |keys + rest| == |keys| + |rest|;
  }

  lemma {:induction false} NamedAlike(r: RosterRevision, name: Bytes)
    requires Named(r, name) && ValidateDeviceName(name).Ok? && IsUtf8(name)
    ensures Narrow(r, |name|)
  {
    hide IsUtf8, IsBlank;
    var s := Entries(r.members);
    forall i | 0 <= i < |s|
      ensures NameOk(s[i].1)
    {
      EntryValue(s, i);
    }
  }

  /** The rival branch wins. */
  lemma {:induction false} ExampleWinner(e: RosterEnv, a: Rows, b: Rows)
    requires e == ExampleEnv() && HoldsBranch(a, FIRST_BRANCH, FIRST_HASHES)
    requires HoldsBranch(b, SECOND_BRANCH, SECOND_HASHES) && HashInjective(e, a.Values + b.Values)
    ensures SelectedChain(e, Merged(e, a, SelectedChain(e, b))) == SECOND_BRANCH
  {
    hide Merged, ValidateChild, HashInjective, SelectedChain, Root, Consistent;
    assert FIRST_BRANCH[..3] == SECOND_BRANCH[..3] && FIRST_BRANCH[3] == REMOVAL && SECOND_BRANCH[3] == RIVAL;
    assert KeyLess(e, REMOVAL, RIVAL);
    DivergenceDecides(e, a, b, 3);
  }

  /** A session selects the branch that wins at the first difference. */
  lemma {:induction false} DivergenceDecides(e: RosterEnv, a: Rows, b: Rows, i: nat)
    requires Consistent(e, a) && Consistent(e, b) && a != map[] && b != map[] && Root(e, a) == Root(e, b)
    requires HashInjective(e, a.Values + b.Values)
    requires var (x, y) := (SelectedChain(e, a), SelectedChain(e, b));
             && 0 < i < |x| && i < |y| && x[..i] == y[..i] && x[i] != y[i] && KeyLess(e, x[i], y[i])
    ensures SelectedChain(e, Merged(e, a, SelectedChain(e, b))) == SelectedChain(e, b)
  {
    hide ValidateChild, Chain, Merged, KeyLess;
    var g := Root(e, a);
    var x, y := Chain(e, g, a.Values), Chain(e, g, b.Values);
    MergingSelectedChain(e, a, b, a.Values + b.Values);
    SelectionIsJoin(e, g, a.Values, b.Values);
    assert SelectedChain(e, a) == [g] + x && SelectedChain(e, b) == [g] + y;
    assert x[..i - 1] == SelectedChain(e, a)[..i][1..] && y[..i - 1] == SelectedChain(e, b)[..i][1..];
    GreaterAtDivergence(e, x, y, i - 1);
  }

  /** What the first device's branch loses: its removal of the second, and nothing else of its own. */
  lemma {:induction false} ExampleDropped(kept: set<RosterHash>)
    requires kept == {10, 11, 12, 30}
    ensures Dropped(ExampleEnv(), FIRST_BRANCH, kept, 1) == [REMOVAL]
  {
    var e := ExampleEnv();
    assert Dropped(e, [RETURN], kept, 1) == [];
    assert FIRST_BRANCH[3..] == [REMOVAL, RETURN] && [REMOVAL, RETURN][1..] == [RETURN];
    assert Dropped(e, FIRST_BRANCH[3..], kept, 1) == [REMOVAL];
    assert FIRST_BRANCH[2..][1..] == FIRST_BRANCH[3..];
    assert Dropped(e, FIRST_BRANCH[2..], kept, 1) == [REMOVAL];
    assert FIRST_BRANCH[1..][1..] == FIRST_BRANCH[2..];
    assert Dropped(e, FIRST_BRANCH[1..], kept, 1) == [REMOVAL];
  }

  lemma {:induction false} ExampleKept()
    ensures Hashes(ExampleEnv(), SECOND_BRANCH) == {10, 11, 12, 30}
  {
    var e := ExampleEnv();
    var kept := Hashes(e, SECOND_BRANCH);
    assert e.hash(FOUNDED) in kept && e.hash(SECOND) in kept && e.hash(THIRD) in kept && e.hash(RIVAL) in kept;
  }

  /** The revision the replay makes has a hash of its own. */
  lemma {:induction false} ExampleReplay(rows: Rows)
    requires Consistent(ExampleEnv(), rows) && rows != map[] && Tip(ExampleEnv(), rows) == RIVAL
    requires 31 !in rows
    ensures NoCollisions(ExampleEnv(), rows, ExampleDevice(), [REMOVAL])
  {
    hide SelectedChain, Consistent;
    var e := ExampleEnv();
    ApplyExtendsByOne(e, rows, ExampleDevice(), REMOVAL.change);
    assert [REMOVAL][1..] == [];
    assert NoCollision(e, rows, ExampleDevice(), REMOVAL.change);
  }

  lemma {:induction false} ChainIsStored(e: RosterEnv, rows: Rows)
    requires Consistent(e, rows) && rows != map[]
    ensures var chain := SelectedChain(e, rows);
            |chain| > 0 && IsChain(e, chain) && chain[0] == Root(e, rows)
    ensures Elements(SelectedChain(e, rows)) <= rows.Values
  {
    hide ValidateChild, Root, Chain;
    var g := Root(e, rows);
    SelectedChainIsChain(e, rows);
    ChainIsLine(e, g, rows.Values);
    ElementsAppend([g], Chain(e, g, rows.Values));
    assert Elements([g]) == {g};
  }

  /** Merging a peer's chain brings in no hash that neither table had. */
  lemma {:induction false} MergeAddsNoHash(e: RosterEnv, a: Rows, b: Rows, h: RosterHash)
    requires Consistent(e, a) && Consistent(e, b) && a != map[] && b != map[] && Root(e, a) == Root(e, b)
    requires HashInjective(e, a.Values + b.Values) && h !in a && h !in b
    ensures h !in Merged(e, a, SelectedChain(e, b))
  {
    hide Root, SelectedChain, IsChain, MergeChain, Elements, HashInjective, Chain, IsTree;
    ChainIsStored(e, b);
    MergeIsJoin(e, a, SelectedChain(e, b), a.Values + b.Values);
    var merged := Merged(e, a, SelectedChain(e, b));
    assert merged.Values == a.Values + Elements(SelectedChain(e, b));
    if h in merged {
      assert merged[h] in merged.Values;
      FoundIn(e, a, b, merged[h]);
    }
  }

  lemma {:induction false} FoundIn(e: RosterEnv, a: Rows, b: Rows, r: RosterRevision)
    requires Keyed(e, a) && Keyed(e, b) && r in a.Values + b.Values
    ensures e.hash(r) in a || e.hash(r) in b
  {
    var rows := if r in a.Values then a else b;
    var h :| h in rows && rows[h] == r;
  }

  lemma {:induction false} TipOfBranch(rows: Rows, chain: seq<RosterRevision>, hashes: seq<RosterHash>)
    requires HoldsBranch(rows, chain, hashes) && |chain| > 0
    ensures Tip(ExampleEnv(), rows) == chain[|chain| - 1]
    ensures 1 in chain[|chain| - 1].members && 2 in chain[|chain| - 1].members ==> Authorised(ExampleEnv(), rows, 1, 2)
    ensures EncodeRoster(chain).Ok? ==> Sends(ExampleEnv(), rows)
  {
    hide ExampleEnv, Consistent, Root, EncodeRoster, SelectedChain;
  }

  lemma {:induction false} ExampleTips(e: RosterEnv, a: Rows, b: Rows)
    requires e == ExampleEnv() && HoldsBranch(a, FIRST_BRANCH, FIRST_HASHES)
    requires HoldsBranch(b, SECOND_BRANCH, SECOND_HASHES)
    ensures Tip(e, a) == RETURN && Tip(e, b) == RIVAL && Meets(e, a, b, 1, 2)
    ensures 31 !in a && 31 !in b
  {
    hide ExampleEnv, Consistent, Root, EncodeRoster, SelectedChain, Tip, Authorised, Sends;
    ExampleSends();
    TipOfBranch(a, FIRST_BRANCH, FIRST_HASHES);
    TipOfBranch(b, SECOND_BRANCH, SECOND_HASHES);
  }

  lemma {:induction false} ExampleHashes()
    ensures ExampleEnv().hash(RETURN) == 21 && Honest(ExampleEnv(), ExampleDevice())
    ensures ExampleDevice().endpointId == 1
  {
  }

  /** A device that loses its branch and whose last word about the peer was a removal. */
  lemma {:induction false} LosesAndRemoves(e: RosterEnv, a: Rows, b: Rows, ia: DeviceIdentity, y: EndpointId,
      u: set<RosterRevision>, kept: set<RosterHash>, dropped: seq<RosterRevision>)
    requires Consistent(e, a) && Consistent(e, b) && a != map[] && b != map[] && Root(e, a) == Root(e, b)
    requires HashInjective(e, u) && a.Values <= u && b.Values <= u && Honest(e, ia)
    requires Meets(e, a, b, ia.endpointId, y)
    requires var merged := Merged(e, a, SelectedChain(e, b));
             && SelectedChain(e, merged) == SelectedChain(e, b) && kept == Hashes(e, SelectedChain(e, b))
             && dropped == Dropped(e, SelectedChain(e, a), kept, ia.endpointId) && e.hash(Tip(e, a)) !in kept
             && Tip(e, b).number + |dropped| <= U64_MAX && NoCollisions(e, merged, ia, dropped)
    requires LastIntent(dropped, y) == Some(false)
    ensures LosesTo(e, a, b, ia, y, u) && !StaysOpen(e, a, b, ia.endpointId, y)
  {
    hide HashInjective, Dropped, Hashes, Merged, Meets, NoCollisions, Consistent, SelectedChain, LastIntent, Honest;
    SameChainSameTip(e, Merged(e, a, SelectedChain(e, b)), b);
  }

  lemma {:induction false} ExampleSetting(e: RosterEnv, a: Rows, b: Rows)
    requires e == ExampleEnv() && HoldsBranch(a, FIRST_BRANCH, FIRST_HASHES)
    requires HoldsBranch(b, SECOND_BRANCH, SECOND_HASHES)
    ensures Consistent(e, a) && Consistent(e, b) && a != map[] && b != map[] && Root(e, a) == Root(e, b)
    ensures Meets(e, a, b, 1, 2) && Honest(e, ExampleDevice()) && ExampleDevice().endpointId == 1
    ensures 31 !in a && 31 !in b && e.hash(Tip(e, a)) == 21 && Tip(e, b) == RIVAL && Tip(e, b).number + 1 <= U64_MAX
    ensures Hashes(e, SelectedChain(e, b)) == {10, 11, 12, 30}
    ensures Dropped(e, SelectedChain(e, a), {10, 11, 12, 30}, 1) == [REMOVAL]
  {
    hide ExampleEnv, Consistent, Root, Meets, Tip, Hashes, Dropped, ExampleDevice, SelectedChain;
    ExampleTips(e, a, b);
    ExampleKept();
    ExampleDropped({10, 11, 12, 30});
    ExampleHashes();
  }

  /** Two devices that have just met, and of which the first loses its branch. */
  lemma {:induction false} ExampleLoses(e: RosterEnv, a: Rows, b: Rows)
    requires e == ExampleEnv() && HoldsBranch(a, FIRST_BRANCH, FIRST_HASHES)
    requires HoldsBranch(b, SECOND_BRANCH, SECOND_HASHES) && HashInjective(e, a.Values + b.Values)
    ensures LosesTo(e, a, b, ExampleDevice(), 2, a.Values + b.Values) && !StaysOpen(e, a, b, 1, 2)
  {
    hide *;
    ExampleSetting(e, a, b);
    ExampleWinner(e, a, b);
    MergeAddsNoHash(e, a, b, 31);
    SameSelection(b);
    SameChainSameTip(e, Merged(e, a, SelectedChain(e, b)), b);
    ExampleReplay(Merged(e, a, SelectedChain(e, b)));
    RemovalIsLastWord();
    LosesAndRemoves(e, a, b, ExampleDevice(), 2, a.Values + b.Values, {10, 11, 12, 30}, [REMOVAL]);
  }

  lemma {:induction false} SameSelection(b: Rows)
    requires HoldsBranch(b, SECOND_BRANCH, SECOND_HASHES)
    ensures Consistent(ExampleEnv(), b) && SelectedChain(ExampleEnv(), b) == SECOND_BRANCH
  {
    hide Consistent, SelectedChain, Root, ExampleEnv;
  }

  lemma {:induction false} RemovalIsLastWord()
    ensures LastIntent([REMOVAL], 2) == Some(false)
  {
  }

  lemma {:induction false} SameChainSameTip(e: RosterEnv, a: Rows, b: Rows)
    requires Consistent(e, a) && Consistent(e, b) && SelectedChain(e, a) == SelectedChain(e, b)
    requires a != map[] && b != map[]
    ensures Tip(e, a) == Tip(e, b)
  {
    hide Chain, Root;
  }

  /** Two devices that met once and never again, and hold different chains for good. */
  ghost predicate Parted(e: RosterEnv, a: Rows, b: Rows, ia: DeviceIdentity, ib: DeviceIdentity)
  {
    && Consistent(e, a) && Consistent(e, b) && Meets(e, a, b, ia.endpointId, ib.endpointId)
    && var (a1, b1) := Meeting(e, a, b, ia, ib);
       && Consistent(e, a1) && Consistent(e, b1)
       && Meeting(e, a1, b1, ia, ib) == (a1, b1) && SelectedChain(e, a1) != SelectedChain(e, b1)
  }

  lemma {:induction false} LosersPart(e: RosterEnv, a: Rows, b: Rows, ia: DeviceIdentity, ib: DeviceIdentity,
      u: set<RosterRevision>)
    requires LosesTo(e, a, b, ia, ib.endpointId, u) && !StaysOpen(e, a, b, ia.endpointId, ib.endpointId)
    ensures Parted(e, a, b, ia, ib)
  {
    hide Meets, Meeting, SelectedChain, StaysOpen, Root, HashInjective;
    LockedOut(e, a, b, ia, ib, u);
  }

  /** It happens: both devices are members at both tips, they meet, and afterwards the first has
      replayed its removal of the second and refuses every further session with it. */
  lemma {:induction false} ReplayCanLockThePeerOut(ib: DeviceIdentity)
    requires ib.endpointId == 2
    ensures exists a, b :: Parted(ExampleEnv(), a, b, ExampleDevice(), ib)
  {
    hide Table, HoldsBranch, HashInjective, StaysOpen, LosesTo, Parted, Elements;
    var e, a, b := ExampleEnv(), Table(FIRST_BRANCH), Table(SECOND_BRANCH);
    ExampleTables();
    ExampleInjective();
    ValuesOfBranch(a, FIRST_BRANCH, FIRST_HASHES);
    ValuesOfBranch(b, SECOND_BRANCH, SECOND_HASHES);
    ExampleLoses(e, a, b);
    LosersPart(e, a, b, ExampleDevice(), ib, a.Values + b.Values);
  }

  lemma {:induction false} ValuesOfBranch(rows: Rows, chain: seq<RosterRevision>, hashes: seq<RosterHash>)
    requires HoldsBranch(rows, chain, hashes)
    ensures rows.Values == Elements(chain)
  {
  }
}
