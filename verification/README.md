# Verification model of skillsync

skillsync replicates directories of files between the devices of one person. There is no server:
each device keeps a roster of devices, the winning record of every path, and what it believes is
on its own disk; two devices that meet exchange all of it and end up agreeing. This project
models the logic that makes them agree and proves that it does, in Dafny 4.11. Run
`dafny verify dfyconfig.toml` to check everything.

## What is modelled

**The roster** (`Roster`, `RosterMembership`, `RosterLattice`, `RosterStore`, `RosterSync`,
`RosterSessions`, `RosterCodec`). Membership changes are signed, hash-linked revisions; concurrent
changes make a tree, and one branch of it is selected: at each step the valid child that removes
somebody, and among those the one with the greater hash. Peers send each other only their selected
branch. The proofs show that a member is exactly somebody whom a member let in and nobody has let
out since, that over parent-closed trees selection is a join-semilattice, that sending selected
branches is as good as sending trees, that every store operation keeps the tree parent-closed over
whole runs, that the peer whose branch loses re-applies its own changes without losing their intent,
and that a second session leaves both peers with one branch; whether there is a second session is
decided exactly.

**The records** (`Records`, `Manifests`, `RecordStore`, `Gossip`). One winner for each path: latest
write time, then author, then record hash. The proofs show that the encodings are injective, hence
that the order is total on distinct records, and that any exchange pattern leaves each peer with the
maximum of what it merged.

**The disk** (`Scan`, `ScanPass`, `Install`, `CollectionRuns`). A scan compares a directory with the
index and authors records and deletions; an installation puts a received file in place. The proofs
show that a pass makes the index agree with the disk, that a second one changes nothing, that an
installation is all or nothing under a fault at any stage, that no pass after it authors anything
for the installed file, and, over whole histories of attaching, retargeting, scanning, receiving and
installing, that no deletion is ever authored for a path that was not once present in that very
root, held ever since.

**The session** (`Canonical`, `Wire`, `Bundles`, `BundleCodecs`, `Listings`, `Exchange`,
`Transfers`, `FileSessions`, `Draining`, `Crowding`, `Session`). The bytes on the wire, the
manifests a peer sends, the choice of what to request, the answers, the byte budgets, and the two
ends as communicating state machines. The proofs show that every codec is an exact inverse both
ways, that budgets never refuse an honest peer, that two honest ends never deadlock whatever the
buffering and raise a protocol error only where a shared collection was detached before the merge,
that one session between peers with any two indexes makes their winners equal, and exactly when
further fault-free sessions bring every winning file to both disks and carry out every winning
deletion.

**Coordination** (`Join`, `NetworkLoop`). The one-slot invitation machine and the loop that counts
sessions for those who asked for a synchronisation, and answers them.

## How to read it

- Code that works in place is a class or a method with its loops, proved against a function of the
  old state; the properties are lemmas about those functions. `Prelude` and `Bytes` hold vocabulary
  only.
- 32-byte and 64-byte arrays are numbers, in big-endian order; `Bytes.BigEndianOrder` says that
  this keeps the order. `i64` and `u64` keep their ranges, and saturating or checked arithmetic is
  written out. `usize` has 64 bits, so a position in a buffer cannot overflow.
- BLAKE3 and Ed25519 verification (section 5.1.7 of RFC 8032) are arbitrary functions. Where a
  proof needs that no two values in play collide, that is a hypothesis about the finite set in
  play; where it needs that a device's own signatures verify, that is a hypothesis about that
  device (`Roster.Honest`). `RosterCodec.NoDigestCollisionMeansInjective` and
  `Records.EqualOnlyOnEqualRecords` reduce the hypotheses about revisions and records to the digest
  of their canonical bytes.
- Database tables are maps, and a transaction is one step. `apply_roster_change` is modelled with
  other writers around each of its reads and its commit; a scan pass, a manifest merge and the
  handling of one received file run without interference.
- Clock readings, filesystem faults, the chunks a reader returns, whether a file still opens, and
  what other writers commit are parameters, over which every statement quantifies.

## Where the code departs from its documentation

- `ARCHITECTURE.md:237-238` and `ARCHITECTURE.md:399` say that a file dated too far in the future
  is rejected and reported. If the path's winner is a deletion already carried out here, the scan
  instead aborts with a missing-record error and files after it are not looked at:
  `crates/skillsync/src/filesystem.rs:198-210` marks the row for repair, which
  `crates/skillsync/src/state.rs:691-717` refuses for tombstones.
  `Scan.FutureFileOverTombstoneAborts` is a concrete input; `Scan.StepFails` and
  `ScanPass.PassFails` say exactly when it happens.
- `ARCHITECTURE.md:223-228` says that a missing path produces a tombstone. Its time is at least the
  old time plus one, saturating, so a file at the last representable time may win over its own
  deletion; `Scan.MissingFileIsDeleted` says exactly when, and `Scan.LastInstantOutlivesDeletion`
  is a concrete input.
- `ARCHITECTURE.md:359-360` says that a device that was offline adopts the selected revisions when
  it next reaches a member. A device whose branch lost re-applies its own changes
  (`crates/skillsync/src/sync.rs:299-313`) even where the winning branch took them back since; if
  the last of them about a peer removes that peer, the device refuses every later session with it
  (`crates/skillsync/src/sync.rs:249-262`) and the peer never learns of the new revision from it.
  `RosterSessions.SecondMeeting` says exactly when, `RosterSessions.LockedOut` what follows, and
  `RosterSessions.ReplayCanLockThePeerOut` is a concrete input.
- `ARCHITECTURE.md:402` says that the next manifest exchange repairs whatever was missed. Two peers
  whose bundles fit the limits one by one may know more after they met than a bundle holds (10,000
  records, 8 MiB). From then on one of them cannot encode its manifests
  (`crates/skillsync/src/protocol.rs:184-214`), and a file that the first session left behind,
  because more was missing than its caps allow (`crates/skillsync/src/sync.rs:464-485`), never
  arrives from that peer. `Draining.DrainsExactly` says exactly when all files arrive,
  `Listings.SmallBundlesFit` gives a bound to check beforehand, and `Crowding.CrowdsNeverFinish` is
  a concrete pair of indexes.
- `ARCHITECTURE.md:274-275` says that a device contacts all known peers after a local change.
  `crates/skillsync/src/network.rs:418-420` clears the pending trigger before it reads the roster;
  if that fails, nothing is started for it. `NetworkLoop.TriggerIsServedOrHeld` has the condition
  and `NetworkLoop.UnreadableRosterDropsTrigger` a concrete turn.
- `crates/skillsync/src/installer.rs:419-434` restores a write time exactly only from
  -9223372036000000000 ns on; `Install.TimeSurvivesSplit` says what becomes of earlier times.
- `crates/skillsync/src/network.rs:472-487` ignores a task that panicked, which leaves its peer
  marked as in flight for good: `NetworkLoop.OneToOneUnlessPanic` says that this is the only way
  the books go wrong, `NetworkLoop.LeakStays` what follows, and `NetworkLoop.PanicIsReachable` and
  `NetworkLoop.PanicStrandsTheWaiter` are a concrete turn and its consequence.

## Model

| member | source | states |
|---|---|---|
| `Roster.SelectChain` | crates/skillsync/src/roster.rs:326-336 | The selection loop terminates (a child's number is its parent's plus one) and returns exactly the branch that repeated greatest-child selection gives, or the genesis error |
| `Roster.SelectChildIsCandidate` | crates/skillsync/src/roster.rs:311-324 | Whatever is selected is one of the candidates and a valid child of the parent |
| `RosterLattice.SelectChildIsGreatest` | crates/skillsync/src/roster.rs:311-324 | The selected child is the one valid child that no other beats by (removal first, then greater hash); nothing is selected only when no candidate is a valid child |
| `RosterLattice.BranchIsChain` | crates/skillsync/src/roster.rs:326-336 | The loop over a candidate list computes the same chain as selection over the candidate set |
| `RosterLattice.CandidateOrderIsIrrelevant` | crates/skillsync/src/roster.rs:311-336 | Two candidate lists with the same elements, in any order and with any duplicates, select the same branch |
| `RosterLattice.ForeignSetIsSilent` | crates/skillsync/src/roster.rs:152-175 | A parent-closed set that lacks a revision adds nothing below that revision: the chain selected from it is the same with and without the set |
| `RosterLattice.SelectionIsJoin` | crates/skillsync/src/roster.rs:311-336 | For parent-closed sets over one genesis, selection over the union is the greater of the two selected chains |
| `RosterLattice.GreaterAtDivergence` | crates/skillsync/src/roster.rs:311-324 | Of two chains the greater one is decided at the first position where they differ, by removal priority and then hash |
| `RosterLattice.GreaterChooses` | crates/skillsync/src/roster.rs:311-336 | The greater of two chains is always one of the two, and an extension beats its own prefix |
| `RosterLattice.SelectedChainSuffices` | crates/skillsync/src/state.rs:347-373 | Merging only the other side's selected chain selects the same branch as merging its whole tree |
| `RosterLattice.ChainSetSelectsItself` | crates/skillsync/src/roster.rs:326-336 | A valid chain, taken as a set, selects itself |
| `RosterLattice.SelectionIsSemilattice` | crates/skillsync/src/roster.rs:326-336 | Over parent-closed sets, joining selected chains is commutative, associative and idempotent |
| `Roster.ValidateChain` | crates/skillsync/src/state.rs:350-357 | The genesis and the pairwise validation loop accept exactly the chains whose genesis is valid and whose every link is a valid child, and report the first fault otherwise |
| `RosterMembership.ValidChildMeans` | crates/skillsync/src/roster.rs:152-175 | Exactly what makes a revision a valid child: same group, the parent's hash and next number, an author who is a member of the parent, a verified signature, and a member table that differs from the parent's by precisely the named admission or removal |
| `RosterMembership.EditMembers` | crates/skillsync/src/roster.rs:340-361 | An accepted change alters the table at its own endpoint only; a refused one leaves it alone and names the reason |
| `RosterMembership.MembersWereIntroduced` | crates/skillsync/src/roster.rs:136-175 | On a valid chain a device is a member at some revision if and only if an earlier one introduced it (the founding, or an admission by a then member) and none since removed it |
| `RosterMembership.FoundingSucceeds` | crates/skillsync/src/roster.rs:61-80 | Founding a group succeeds exactly with a usable device name and gives a valid chain whose only member is the founder |
| `RosterSync.ChildSucceeds` | crates/skillsync/src/roster.rs:82-110 | A member's change that is not yet satisfied always yields a valid child, until revision numbers run out |
| `RosterStore.StateStore.SelectedRosterChain` | crates/skillsync/src/state.rs:279-345 | It returns Ok exactly when the rows are consistent (empty, or a parent-closed valid tree over one genesis, each under its hash), and then the selected chain |
| `RosterStore.RuntimeChecksAreTheInvariant` | crates/skillsync/src/state.rs:279-345 | Given a stored genesis, the per-revision checks made while reading (same group, parent stored, valid child) hold if and only if the rows are a parent-closed valid tree over it |
| `RosterStore.StateStore.InsertRosterRevision` | crates/skillsync/src/state.rs:242-273 | Commits one validated genesis or child, or leaves the rows alone with the first applicable error; the invariant survives |
| `RosterStore.StateStore.MergeSelectedRosterChain` | crates/skillsync/src/state.rs:347-373 | A foreign or invalid chain changes nothing; a valid one of this group adds exactly its missing revisions |
| `RosterStore.StateStore.InsertLine` | crates/skillsync/src/state.rs:367-371 | The insertion loop skips stored revisions and stops at the first failure |
| `RosterStore.InsertMissingIsUnion` | crates/skillsync/src/state.rs:367-371 | Inserting a valid line one revision at a time gives the union of the stored set and the line |
| `RosterStore.StateStore.ApplyRosterChange` | crates/skillsync/src/state.rs:394-435 | With other writers committing before, within and between attempts, nothing stored is lost and any Ok is a tip that was selected at a moment of the call and satisfies the change; without interference the result is that of the single-writer specification |
| `RosterStore.StateStore.Attempt` | crates/skillsync/src/state.rs:400-433 | One attempt with writers around each of its reads and its commit: an Ok was the selected tip when it was read and satisfies the change, an Err left the hints alone, and None asks for a retry |
| `RosterStore.StateStore.Commit` | crates/skillsync/src/state.rs:416-431 | The transaction adds the child unless its hash is stored, replaces the hint, and the tip is read again afterwards |
| `RosterStore.ApplyExtendsByOne` | crates/skillsync/src/state.rs:394-435 | Without interference a change not yet satisfied extends the selected chain by exactly one revision, authored by this device and carrying that change |
| `RosterStore.ExtendTip` | crates/skillsync/src/roster.rs:326-336 | Adding a valid child of the selected tip to a tree makes the selected chain one longer and changes nothing else of it |
| `RosterStore.NewTip` | crates/skillsync/src/state.rs:414-430 | After committing a fresh child of the tip, the child is the selected tip |
| `RosterStore.StateStore.InstallJoinedState` | crates/skillsync/src/state.rs:470-551 | Either nothing is stored, or the join was admissible and the rows are those of the union with the chain; Ok means it was stored, and on resuming that the selected tip carries the local name |
| `RosterStore.StateStore.AddRows` | crates/skillsync/src/state.rs:530-534 | The transaction's loop adds exactly the revisions that are not stored yet |
| `RosterStore.AddMissingIsUnion` | crates/skillsync/src/state.rs:470-551 | Installing a valid chain over the same genesis keeps the store a parent-closed tree: the union of both |
| `RosterStore.OpKeepsInvariant` | crates/skillsync/src/state.rs:242-551 | Insert, merge, apply and join-install each keep one genesis, one group, parent closure and valid children |
| `RosterStore.SelectionOnlyAdvances` | crates/skillsync/src/roster.rs:311-336 | When a store grows, the new selected chain wins over the old one or extends it |
| `RosterStore.RunsStayConsistent` | crates/skillsync/src/state.rs:242-551 | Over every run of store operations the invariant holds, rows are never lost, and the selection never goes back |
| `RosterSync.MergeAndAuthorize` | crates/skillsync/src/sync.rs:277-326 | Merge, replay and authorisation together: the rows afterwards are those of the specification and the verdict (changed, unchanged, unauthorised, or changed and unauthorised) is decided by the new tip |
| `RosterSync.MergeAndReplay` | crates/skillsync/src/sync.rs:284-313 | Replay happens exactly when the previous tip left the selected chain |
| `RosterSync.ReplayDropped` | crates/skillsync/src/sync.rs:299-313 | The replay loop re-applies the dropped local changes in order and stops when this device is no longer a member |
| `RosterSync.ReplayExtends` | crates/skillsync/src/sync.rs:299-313 | Whatever is replayed, the chain selected before stays a prefix of the chain selected after |
| `RosterSync.ReplayKeepsIntent` | crates/skillsync/src/sync.rs:299-313 | While the device stays active, replay succeeds, the last dropped change about each endpoint is satisfied afterwards and every other membership is as in the winning branch |
| `RosterSync.ReplayStopsAtSelfRemoval` | crates/skillsync/src/sync.rs:304-310 | Replay ends at the first dropped change that removes the local device; what follows it is not replayed |
| `RosterSync.SelfRemovalIsReplayed` | crates/skillsync/src/sync.rs:299-313 | If the dropped changes remove the local device, replay succeeds and leaves it outside the roster |
| `RosterSync.LoserKeepsIntent` | crates/skillsync/src/sync.rs:292-313 | For a peer that loses a session, is still a member of the winning branch and did not drop its own removal: its own changes hold at its new tip, every other membership is as in the winning branch, and the winning chain is a prefix of the result |
| `RosterSync.MergeIsJoin` | crates/skillsync/src/state.rs:347-373 | Merging a valid chain of the same group selects the greater of the two chains |
| `RosterSync.MergingSelectedChain` | crates/skillsync/src/sync.rs:284-286 | After receiving the peer's selected chain, the selection is the one over both whole trees |
| `RosterSync.UnionChooses` | crates/skillsync/src/sync.rs:277-326 | The chain over both trees is one of the two selected chains |
| `RosterSync.OneSideReplays` | crates/skillsync/src/sync.rs:288-313 | In one session at most one of the two peers loses and replays |
| `RosterSync.LoserDrops` | crates/skillsync/src/sync.rs:292-302 | What the losing side drops are its own admissions and removals, never the genesis, and the merged selection is the winner's chain |
| `RosterSync.TwoRosterStepsAgree` | crates/skillsync/src/sync.rs:277-326 | Once the roster steps of two sessions have been carried out, with nothing new in between, both hold the identical selected chain, which extends the one both trees select |
| `RosterSessions.SentChainArrives` | crates/skillsync/src/protocol.rs:122-165 | A selected chain that fits its frame decodes at the peer to that very chain |
| `RosterSessions.TwoSessionsSuffice` | crates/skillsync/src/sync.rs:75-247 | After an authorised session both peers hold the identical selected chain at the end of the next one if and only if that one took place too (both accept, both chains fit a frame) or the chains were equal already; and both extend the chain that the two trees select together |
| `RosterSessions.WinnerStands` | crates/skillsync/src/sync.rs:277-326 | The side whose branch won keeps its chain and its tip |
| `RosterSessions.LoserAccepts` | crates/skillsync/src/sync.rs:249-262 | The side that lost still accepts its peer if and only if the changes it replayed removed neither itself nor, as the last word about it, the peer |
| `RosterSessions.SecondMeeting` | crates/skillsync/src/sync.rs:75-247 | After a session in which one side lost, the two meet again if and only if the loser's replayed changes leave both in the roster and its longer chain fits a frame |
| `RosterSessions.LockedOut` | crates/skillsync/src/sync.rs:249-262 | If they do not leave both in it, no further session between the two changes anything and their chains stay different |
| `RosterSessions.ReplayCanLockThePeerOut` | crates/skillsync/src/sync.rs:299-313 | A concrete pair of rosters for that: a replayed removal of the peer that the winning branch had taken back |
| `RosterSessions.SmallRostersFit` | crates/skillsync/src/protocol.rs:122-140 | A bound on names, members and revisions under which a chain always fits its frame |
| `RosterCodec.RevisionDecodes` | crates/skillsync/src/roster.rs:181-262 | Decoding the encoding of a constructible revision within the member limit returns that revision |
| `RosterCodec.RevisionEncodes` | crates/skillsync/src/roster.rs:187-237 | Any accepted byte string is the encoding of the revision it decodes to, so the final re-encode check never fires |
| `RosterCodec.RevisionBytesInjective` | crates/skillsync/src/roster.rs:181-185 | Two revisions with equal canonical bytes are equal |
| `RosterCodec.NoDigestCollisionMeansInjective` | crates/skillsync/src/roster.rs:177-179 | If the digest has no collision on the finite set of encodings in use, revision hashes identify revisions |
| `RosterCodec.SignatureCoversRevision` | crates/skillsync/src/roster.rs:239-271 | Revisions that differ anywhere but in the signature have different signed bytes |
| `RosterCodec.EncodeRevision` | crates/skillsync/src/roster.rs:181-262 | The encoder's sequence of appends produces the specified bytes |
| `RosterCodec.DecodeRevision` | crates/skillsync/src/roster.rs:191-237 | The cursor-driven decoder returns exactly what the specification of the format accepts, with the same error otherwise |
| `RosterCodec.DecodeTable` | crates/skillsync/src/roster.rs:203-219 | The member loop accepts strictly increasing identifiers and valid names, up to the limit, and builds the map they spell |
| `RosterCodec.DecodeChange` | crates/skillsync/src/roster.rs:387-400 | The change decoder agrees with the format's specification, unknown tags included |
| `RosterCodec.InKeyOrder` | crates/skillsync/src/roster.rs:250-258 | Members are written in strictly increasing key order, each exactly once |
| `RosterCodec.EntriesAreUnique` | crates/skillsync/src/roster.rs:250-258 | Two strictly increasing entry lists for the same members are the same list |
| `Bytes.BigEndianOrder` | crates/skillsync/src/canonical.rs:37-51 | Comparing fixed-width big-endian byte strings is comparing the numbers they spell |
| `Bytes.BigEndianDecodes` | crates/skillsync/src/canonical.rs:37-51 | Reading back a written integer gives the integer |
| `Bytes.BigEndianEncodes` | crates/skillsync/src/canonical.rs:92-106 | Every fixed-width byte string is the encoding of the integer it is read as |
| `Canonical.AtConcat` | crates/skillsync/src/canonical.rs:127-145 | A concatenation stands at a position exactly when its parts stand one behind the other |
| `Canonical.Encoder.SizedBytes` | crates/skillsync/src/canonical.rs:60-65 | Appends the length and the bytes, or refuses a length over 32 bits and appends nothing |
| `Canonical.Decoder.TakeBytes` | crates/skillsync/src/canonical.rs:133-145 | Returns the next bytes and advances past them, or fails and stays |
| `Canonical.Decoder.String` | crates/skillsync/src/canonical.rs:108-117 | Reads one length-prefixed UTF-8 string, failing on truncation or invalid text |
| `Records.RecordDecodes` | crates/skillsync/src/record.rs:106-143 | Decoding the encoding of a constructible record returns that record |
| `Records.RecordEncodes` | crates/skillsync/src/record.rs:127-143 | Any accepted byte string is the encoding of the record it decodes to |
| `Records.RecordBytesInjective` | crates/skillsync/src/record.rs:106-125 | Two records with equal canonical bytes are equal |
| `Records.EncodeRecord` | crates/skillsync/src/record.rs:106-125 | The sequence of appends produces the specified bytes |
| `Records.DecodeRecord` | crates/skillsync/src/record.rs:127-143 | The decoder returns exactly what the format's specification accepts, with the same error otherwise |
| `Records.WinnerOrderIsTotal` | crates/skillsync/src/record.rs:149-154 | The winner order decides every pair consistently both ways round and is transitive |
| `Records.EqualOnlyOnEqualRecords` | crates/skillsync/src/record.rs:145-154 | Absent a digest collision on the records in use, two records compare equal only when they are the same record |
| `Manifests.BuildManifest` | crates/skillsync/src/record.rs:198-209 | The duplicate check through a set of keys refuses exactly the lists with a repeated (collection, path) |
| `Manifests.SortIsSort` | crates/skillsync/src/record.rs:199-203 | Sorting by (collection, path) yields an ordered permutation |
| `Manifests.NewManifestIsStrict` | crates/skillsync/src/record.rs:198-209 | A manifest holds its records in strict key order and loses none; a strictly ordered list is kept as it is |
| `Manifests.ManifestRoundTrip` | crates/skillsync/src/record.rs:215-252 | Decoding accepts exactly the encodings of strictly key-sorted records within the limit, and returns them |
| `Manifests.UnsortedIsRefused` | crates/skillsync/src/record.rs:232-252 | The encoding of distinct-keyed records in any other order is refused |
| `Manifests.EncodeManifest` | crates/skillsync/src/record.rs:215-226 | The appending loop produces the specified bytes |
| `Manifests.DecodeManifest` | crates/skillsync/src/record.rs:232-252 | The reading loop returns exactly what the specification accepts, with the same error otherwise |
| `RecordStore.RecordTables.Attach` | crates/skillsync/src/state.rs:83-98 | Adds a pending collection, or refuses an empty name, an empty path or a name in use |
| `RecordStore.RecordTables.ReplaceCollectionPath` | crates/skillsync/src/state.rs:100-128 | Forgets the resolved root and unmaterialises every file of that collection and of no other |
| `RecordStore.RecordTables.CompleteCollectionScan` | crates/skillsync/src/state.rs:130-170 | Records the resolved root; only when it changed are the collection's files unmaterialised |
| `RecordStore.RecordTables.Detach` | crates/skillsync/src/state.rs:196-201 | Removes the collection and exactly its rows |
| `RecordStore.RecordTables.MergeRecord` | crates/skillsync/src/state.rs:553-591 | The greater record wins, a tie keeps the current one, and a local winner counts as on disk; rows stay sound |
| `RecordStore.RecordTables.MarkRepairRequired` | crates/skillsync/src/state.rs:691-717 | Unmaterialises exactly one file row, or fails without a change when there is none |
| `RecordStore.RecordTables.SetMaterializedFingerprint` | crates/skillsync/src/state.rs:1447-1473 | Marks exactly one file row with a fingerprint, or fails without a change |
| `RecordStore.RecordTables.MarkMaterializedIn` | crates/skillsync/src/state.rs:733-773 | Binds the row to the root it was installed in, unmaterialising the collection's other files first when that root is new; a failure rolls everything back |
| `RecordStore.RecordTables.MarkTombstoneMaterialized` | crates/skillsync/src/state.rs:775-797 | Marks exactly one tombstone as carried out, or fails without a change |
| `Gossip.RunsHoldMaxima` | crates/skillsync/src/state.rs:553-591 | After any authoring and exchanging, in any order, with any repetition and topology, each peer's winner for a path is the maximum of exactly the records it merged there |
| `Gossip.RunsInventNothing` | crates/skillsync/src/sync.rs:373-433 | Every record a peer ever merged was authored by some event of the run |
| `Gossip.SameRecordsSameWinners` | crates/skillsync/src/record.rs:149-154 | Two peers that merged the same records agree on every winner |
| `Gossip.ExchangeConverges` | crates/skillsync/src/sync.rs:373-433 | Peers that exchange the manifests of their shared collections agree afterwards at every path there where neither record exceeds the other's clock limit, when the order tells their records apart |
| `Gossip.OverLimitIsNotStored` | crates/skillsync/src/sync.rs:395-407 | A record beyond the receiver's clock limit is never stored |
| `ScanPass.ScanFile` | crates/skillsync/src/filesystem.rs:191-261 | One file on disk: the row afterwards is the one the step specification gives, other rows are untouched, and errors are the store's |
| `ScanPass.ScanAll` | crates/skillsync/src/filesystem.rs:191-261 | The file loop applies the step to each file and stops at the first failure |
| `ScanPass.DeleteOne` | crates/skillsync/src/filesystem.rs:263-283 | A materialised file that is missing gets a tombstone; every other row is untouched |
| `ScanPass.DeleteMissing` | crates/skillsync/src/filesystem.rs:263-283 | The second loop authors tombstones for exactly the missing, visible, materialised files |
| `ScanPass.ScanCollection` | crates/skillsync/src/filesystem.rs:170-293 | A whole pass has exactly the specified effect and result; the rows stay well formed |
| `ScanPass.ScanKeepsWellFormed` | crates/skillsync/src/filesystem.rs:170-293 | A pass, finished or aborted, keeps every row sound: a materialised file's fingerprint has its winner's size and hash |
| `ScanPass.IndexAgreesWithDisk` | crates/skillsync/src/filesystem.rs:170-293 | After a successful pass, each visible path not dated in the future agrees with the disk: a materialised file has exactly the disk's fingerprint, otherwise the winner is not a materialised file and the disk file does not beat it; a missing file is not left materialised, save at the last representable time; other collections are untouched |
| `ScanPass.SecondPassIsIdle` | crates/skillsync/src/filesystem.rs:170-293 | A second pass over the same disk, no file having crossed the time limit in between, succeeds and changes no row at all |
| `ScanPass.UnchangedFileIsLeftAlone` | crates/skillsync/src/filesystem.rs:226-238 | A pass over the root on record, finished or aborted, leaves the row of a materialised file whose fingerprint is the disk's as it was |
| `ScanPass.FaithfulDiskIsIdle` | crates/skillsync/src/filesystem.rs:170-293 | A pass over a disk that holds exactly the recorded files authors nothing in any collection |
| `ScanPass.PassFails` | crates/skillsync/src/filesystem.rs:192-216 | Once started on constructible records, a pass fails if and only if some file is dated beyond the limit at a path whose row is a carried-out deletion |
| `Scan.StepFails` | crates/skillsync/src/filesystem.rs:192-216 | For a constructible record, the step fails if and only if the file is dated beyond the limit over a row that is a carried-out deletion |
| `Scan.FutureFileOverTombstoneAborts` | crates/skillsync/src/filesystem.rs:198-210 | A concrete input for that failure: a file dated beyond the limit at the path of a carried-out deletion aborts the pass |
| `Scan.LoserLeavesGreaterWinner` | crates/skillsync/src/filesystem.rs:238-254 | When the order distinguishes the two records, a file on disk that loses leaves a strictly greater winner |
| `Scan.MissingFileIsDeleted` | crates/skillsync/src/filesystem.rs:273-282 | A missing file gets a tombstone that strictly wins, except exactly when its time is the last representable one and the tombstone does not win on author or hash |
| `Scan.LastInstantOutlivesDeletion` | crates/skillsync/src/filesystem.rs:273-282 | A concrete row and pass for that exception |
| `Scan.StepAgreesWithDisk` | crates/skillsync/src/filesystem.rs:191-261 | One successful step makes the row agree with the disk |
| `Scan.SecondStepIsIdle` | crates/skillsync/src/filesystem.rs:226-238 | Applying the step to the same file again, under the same limit, changes nothing |
| `Scan.ScanFilesPointwise` | crates/skillsync/src/filesystem.rs:191-261 | The file loop acts on each path alone: a row afterwards depends only on its own row and file before |
| `Scan.ScanFilesFails` | crates/skillsync/src/filesystem.rs:191-261 | The file loop fails exactly when the step of some listed file does |
| `CollectionRuns.RunsKeepInv` | crates/skillsync/src/state.rs:83-201 | Over every history, a materialised file row means the path was seen in, or installed into, the root its collection resolves to now |
| `CollectionRuns.StepKeepsInv` | crates/skillsync/src/state.rs:83-201 | Each single step (attach, retarget, detach, scan, remote record, install, repair, tombstone) keeps it |
| `CollectionRuns.DeletionsAreWarranted` | crates/skillsync/src/filesystem.rs:263-283 | A scan that authors a tombstone finished its file loop, and did so for a path seen in that same root, visible and missing now |
| `CollectionRuns.SightingsHaveSources` | crates/skillsync/src/filesystem.rs:170-283 | Every sighting on record comes from an earlier scan that listed the path in that root or an earlier installation into it |
| `CollectionRuns.RowsHaveHistory` | crates/skillsync/src/state.rs:83-201 | Behind every materialised file row stands an earlier step that saw the path in the root the row vouches for, and since then the collection never left that root |
| `CollectionRuns.DeletionsHaveHistory` | crates/skillsync/src/filesystem.rs:263-283 | No invented deletions: behind each authored tombstone stands an earlier step that saw the path in, or installed it into, that very root, and from that step on the collection stayed attached and resolved to that root; the deleting scan completed without finding the path |
| `CollectionRuns.StepAuthorsNoTombstone` | crates/skillsync/src/filesystem.rs:191-261 | The file loop itself never authors a deletion |
| `Install.CollectionRoot.InstallFile` | crates/skillsync/src/installer.rs:42-136 | Under a fault at any stage and any chunking of the reader: the destination holds its old bytes or the complete declared bytes, the new ones exactly on Ok or a post-rename durability failure; no temporary is left unless its removal failed |
| `Install.CollectionRoot.WriteTemporary` | crates/skillsync/src/installer.rs:71-98 | Only the temporary is written; success means it holds the whole content and that has the declared size and hash, and without faults the result is exactly size mismatch, hash mismatch or success |
| `Install.CollectionRoot.Publish` | crates/skillsync/src/installer.rs:99-129 | The rename replaces the destination with the temporary, or nothing happened |
| `Install.RecordOutcome` | crates/skillsync/src/installer.rs:231-305 | The row is marked materialised exactly when the bytes are in place, marked for repair after other failures and left alone on an unstable root |
| `Install.ApplyFile` | crates/skillsync/src/installer.rs:231-305 | Installation and bookkeeping together, with both guarantees |
| `Install.MarkingKeepsWellFormed` | crates/skillsync/src/state.rs:733-773 | Recording an installed winner always succeeds, keeps every row sound and binds the collection to the root used |
| `Install.InstallDoesNotEcho` | crates/skillsync/src/filesystem.rs:191-261 | After a good installation the winner's row can be marked, and a whole pass over the root installed into, with the installed file at its path, leaves that row exactly as marked, however the filesystem rounded the time, whatever else is on the disk, and even if the pass is aborted |
| `Install.InstallDisturbsNoOther` | crates/skillsync/src/filesystem.rs:191-261 | Installing one file into the root on record, then scanning, leaves the row of every other unchanged materialised file as it was |
| `Install.RoundingWouldEcho` | crates/skillsync/src/filesystem.rs:226-238 | Without the stored fingerprint, rounding the time forward would make the same scan author a record |
| `Install.TimeSurvivesSplit` | crates/skillsync/src/installer.rs:419-434 | Splitting a time into seconds and nanoseconds and recombining it is exact if and only if it is at least -9223372036000000000; below that the saturated value is given |
| `Install.MaterializeTombstone` | crates/skillsync/src/installer.rs:187-229 | On success the file is gone and the deletion is recorded; on any error the store is unchanged and at most that one file was removed |
| `Wire.ReadCountExact` | crates/skillsync/src/protocol.rs:501-508 | Reading a count accepts exactly an encoded number within the limit |
| `Wire.ReadBytesExact` | crates/skillsync/src/protocol.rs:510-513 | Reading a field accepts exactly a length-prefixed field within the limit |
| `Wire.ReadStringExact` | crates/skillsync/src/protocol.rs:515-518 | Reading a string accepts exactly a length-prefixed UTF-8 field within the limit |
| `Wire.WireWriter.Field` | crates/skillsync/src/protocol.rs:476-484 | Appends the length-prefixed field, or refuses it and appends nothing |
| `Wire.WireReader.Field` | crates/skillsync/src/protocol.rs:510-537 | Returns what the field's specification reads there, and advances past it |
| `Wire.WireReader.Text` | crates/skillsync/src/protocol.rs:515-518 | The same for a UTF-8 field |
| `Wire.ItemsExact` | crates/skillsync/src/protocol.rs:283-301 | If reading one item accepts exactly what writing it produces, then so does reading a list of them, each judged by those before it |
| `Wire.FrameExact` | crates/skillsync/src/protocol.rs:375-450 | Encoding a frame succeeds exactly within its tag's limit, and decoding at a position accepts exactly what encoding produces and stands there |
| `Wire.FrameStreamDecodes` | crates/skillsync/src/protocol.rs:375-394 | Any concatenation of encoded frames decodes to exactly the original frames |
| `Wire.AddReceived` | crates/skillsync/src/protocol.rs:432-440 | The running total grows by the amount unless that would exceed the connection's limit |
| `Bundles.HelloRoundTrip` | crates/skillsync/src/protocol.rs:85-115 | Decoding a hello accepts exactly what encoding one produces |
| `Bundles.RequestsRoundTrip` | crates/skillsync/src/protocol.rs:262-302 | Decoding a request list accepts exactly what encoding one produces: valid requests in strictly increasing order |
| `Bundles.ManifestsRoundTrip` | crates/skillsync/src/protocol.rs:183-248 | Decoding manifests under the receiver's shrinking record limit accepts exactly what encoding values of the manifest type produces |
| `Bundles.RosterRoundTrip` | crates/skillsync/src/protocol.rs:122-165 | Decoding a roster accepts exactly what encoding a valid chain of usable names produces |
| `Bundles.ReadManifestExact` | crates/skillsync/src/protocol.rs:220-244 | One manifest is accepted exactly when it passes the checks given those before it and stands there encoded |
| `Bundles.CheckedManifestIsShort` | crates/skillsync/src/protocol.rs:184-214 | A manifest that passes the checks has an encoding whose length fits 32 bits, so writing it never overflows a length prefix |
| `Bundles.ValidateCollections` | crates/skillsync/src/protocol.rs:349-362 | The loop accepts exactly short names in strictly increasing order and reports the first fault |
| `Bundles.CheckedNamesAreShort` | crates/skillsync/src/protocol.rs:349-373 | Accepted names are non-empty, within the limit and strictly increasing |
| `BundleCodecs.WriteHello` | crates/skillsync/src/protocol.rs:86-98 | The hello writer produces the specified bytes or error |
| `BundleCodecs.ParseHello` | crates/skillsync/src/protocol.rs:100-115 | The hello reader returns exactly what the specification accepts |
| `BundleCodecs.WriteRequests` | crates/skillsync/src/protocol.rs:263-281 | The request writer, with its running previous request, produces the specified bytes or error |
| `BundleCodecs.ParseRequests` | crates/skillsync/src/protocol.rs:283-301 | The request reader returns exactly what the specification accepts |
| `BundleCodecs.WriteManifests` | crates/skillsync/src/protocol.rs:184-214 | The manifest writer, with its set of names and running record count, produces the specified bytes or error for any constructible records |
| `BundleCodecs.ParseManifests` | crates/skillsync/src/protocol.rs:216-248 | The manifest reader returns exactly what the specification accepts |
| `BundleCodecs.ValidateRecords` | crates/skillsync/src/protocol.rs:324-338 | The loop over a manifest's records reports the first record that does not belong |
| `BundleCodecs.WriteRoster` | crates/skillsync/src/protocol.rs:123-140 | The roster writer produces the specified bytes or error, a length that overflows its prefix included |
| `BundleCodecs.ParseRoster` | crates/skillsync/src/protocol.rs:142-165 | The roster reader returns exactly what the specification accepts |
| `BundleCodecs.ValidateRosterChain` | crates/skillsync/src/protocol.rs:167-176 | The empty list is an invalid roster; otherwise exactly the valid chains pass and the first fault is reported |
| `Exchange.MergeRemote` | crates/skillsync/src/sync.rs:373-433 | The bundle must name exactly the shared collections; then its records are merged one by one, up to the first collection that is no longer attached |
| `Exchange.MergeOneRemote` | crates/skillsync/src/sync.rs:394-432 | One received record: skipped beyond the clock limit, merged otherwise, and a winning deletion carried out once |
| `Exchange.MergingIsGossip` | crates/skillsync/src/sync.rs:373-433 | The merge loop computes exactly the merge of winner maps that convergence is proved for |
| `Exchange.BundleRecords` | crates/skillsync/src/protocol.rs:216-248 | In a decoded bundle no (collection, path) occurs twice and every record is valid and filed under its own collection |
| `Exchange.CollectRequests` | crates/skillsync/src/sync.rs:436-461 | The loops collect a request for exactly the received files that won here and whose bytes are missing |
| `Exchange.RequestsHold` | crates/skillsync/src/sync.rs:443-460 | A request is collected if and only if some received record is wanted and the request is for it |
| `Exchange.SortDedupSorts` | crates/skillsync/src/sync.rs:462-463 | Sorting and removing duplicates yields a strictly increasing list of the same requests |
| `Exchange.SelectTransfers` | crates/skillsync/src/sync.rs:464-485 | The selection loop returns the specified sub-list, overflow of the byte counter included |
| `Exchange.SelectionFits` | crates/skillsync/src/sync.rs:464-485 | The selection is made of requests for present files, within the count and the byte cap |
| `Exchange.SelectionIsSorted` | crates/skillsync/src/sync.rs:464-485 | Selecting keeps the strict order |
| `Exchange.SelectionIsMaximal` | crates/skillsync/src/sync.rs:464-485 | If some request for a file was left out, the count cap is reached or some file left out does not fit beside the selected ones |
| `Exchange.ChosenRequests` | crates/skillsync/src/sync.rs:436-485 | Every request list is strictly sorted, within both caps and only asks for won, listed, missing files; it is empty only if nothing is wanted |
| `Exchange.MergeAndChoose` | crates/skillsync/src/sync.rs:373-486 | Merging, collecting and selecting together: the tables and the request list or error are those of the specification, a collection detached meanwhile included |
| `Transfers.SendFiles` | crates/skillsync/src/sync.rs:488-525 | A request outside the shared collections refuses the whole list; otherwise each request gets its answer, and a file that no longer opens is marked for repair |
| `Transfers.PrepareFile` | crates/skillsync/src/sync.rs:540-577 | A file is offered exactly when the stored record has the requested hash, is a file and is on disk |
| `Transfers.ReceiveFiles` | crates/skillsync/src/sync.rs:634-723 | Each answer is counted, checked against its request and, if it still wins, recorded as installed or in need of repair; the first violation ends the session |
| `Transfers.HonestRequestsAreServed` | crates/skillsync/src/sync.rs:488-511 | The sender's own byte cap never refuses an honest peer: every request is answered once, in order, by its file whenever the sender has it, and the file is the record asked for |
| `Transfers.SendingKeepsRecords` | crates/skillsync/src/sync.rs:488-525 | Serving only ever takes materialisation away from file rows |
| `Transfers.ChosenIsHonest` | crates/skillsync/src/sync.rs:436-485 | The requests of a session are for the requester's own winning files, within both caps |
| `Transfers.ChosenRequestsEncode` | crates/skillsync/src/protocol.rs:262-281 | The request list of a session always encodes, to at most 4,496,388 bytes, within its frame's limit |
| `Bundles.RecordLength` | crates/skillsync/src/record.rs:106-125 | The exact length of a record's bytes, and the bound of 4,460 that the field limits give |
| `Transfers.HonestReceiptFits` | crates/skillsync/src/protocol.rs:411-440 | Receiving the answers to honest requests raises no error and costs at most 4,465 bytes a request beyond the files |
| `Transfers.HonestSessionFits` | crates/skillsync/src/protocol.rs:13-29 | The bytes an honest session receives never exceed the connection's limit |
| `Listings.RecordsOf` | crates/skillsync/src/state.rs:623-640 | The records of a collection are exactly its winners, each once, in path order |
| `Listings.BuildManifests` | crates/skillsync/src/sync.rs:359-371 | The bundle is the one listing of the shared winners; the duplicate-path error cannot arise |
| `Listings.StrictIsUnique` | crates/skillsync/src/state.rs:623-640 | A set of records has exactly one strictly ordered listing |
| `Listings.BundleLists` | crates/skillsync/src/sync.rs:359-371 | The bundle names exactly the shared collections and lists exactly their winners |
| `Listings.BundleDepends` | crates/skillsync/src/sync.rs:359-371 | Peers with the same winners in the shared collections send identical bundles |
| `Listings.BundleArrives` | crates/skillsync/src/protocol.rs:183-248 | A bundle that encodes is decoded by the peer as it was sent, and each of its records may be requested |
| `Listings.BundleTotal` | crates/skillsync/src/protocol.rs:184-214 | The bundle holds exactly one record for each shared path |
| `Listings.SmallBundlesFit` | crates/skillsync/src/protocol.rs:184-214 | A checkable bound on collections, paths and the lengths of names under which a bundle always encodes |
| `Listings.CrowdedBundlesDoNotFit` | crates/skillsync/src/protocol.rs:184-214 | With more shared paths than the record limit it never does |
| `FileSessions.WholeBundleIsMerged` | crates/skillsync/src/sync.rs:373-486 | A bundle of shared, attached collections raises no error and is merged whole |
| `FileSessions.MergedWinners` | crates/skillsync/src/sync.rs:394-433 | From any index, merging a peer's bundle leaves at each shared path the greater of both winners, save that records from the future are passed over |
| `FileSessions.MergedRow` | crates/skillsync/src/sync.rs:394-433 | After any merge each row holds its old record, still marked if it was and unchanged if a file, or a strictly greater record with nothing on disk if that is a file |
| `FileSessions.MergingMarksNothing` | crates/skillsync/src/sync.rs:394-433 | Merging brings no file and loses none, and takes back no deletion that was carried out |
| `FileSessions.AsksForMissing` | crates/skillsync/src/sync.rs:436-485 | From the manifests sent before the merge, a peer asks only for winning files that it misses and the other holds, and for at least one if it misses any |
| `FileSessions.AsksForAll` | crates/skillsync/src/sync.rs:462-485 | A session asks for everything that is missing if and only if that is within both caps |
| `FileSessions.ListedAreDone` | crates/skillsync/src/sync.rs:408-432 | Where deleted files can be removed, every winning deletion that the peer lists is carried out by the merge |
| `Draining.RequestsTravel` | crates/skillsync/src/protocol.rs:262-301 | A chosen request list always encodes and is decoded as it was sent |
| `FileSessions.AllAreServed` | crates/skillsync/src/sync.rs:488-525 | Requests the sender can serve are all answered by their files, and its tables do not change |
| `FileSessions.AllAreGained` | crates/skillsync/src/sync.rs:634-723 | Everything served arrives and marks exactly the rows asked for, the first installation into a fresh collection included |
| `Draining.FilesArrive` | crates/skillsync/src/sync.rs:175-215 | In both directions of a fault-free session both ends get exactly what they asked for |
| `Draining.SessionDrains` | crates/skillsync/src/sync.rs:75-247 | From any two indexes: after one fault-free session both peers hold the greater of their winners at every shared path where neither record is from the future; neither has lost a file, each that missed a winning file misses fewer, and none at all if and only if what it missed is within the caps; winning deletions that were listed are carried out |
| `Draining.MeetAgain` | crates/skillsync/src/sync.rs:394-433 | Two peers that met have nothing left to tell each other and the same joint winners as before, records from the future included |
| `Draining.GoalStays` | crates/skillsync/src/sync.rs:75-247 | After a session the goal is the same, and all that a session needs holds again if and only if what the peers know by then still fits a bundle |
| `Draining.SessionsDrain` | crates/skillsync/src/sync.rs:75-247 | From any two indexes, if what the peers know after they met fits a bundle: the first of a series of fault-free sessions makes the winners equal, and after as many sessions as winning files were missing both disks hold all of them |
| `Draining.SessionsDelete` | crates/skillsync/src/sync.rs:408-432 | Under the same condition, if deleted files can be removed, two sessions carry out every winning deletion on both disks |
| `Draining.OversizeStalls` | crates/skillsync/src/protocol.rs:184-214 | If what the peers know after they met does not fit a bundle, the first session still makes the winners equal, and no later one changes anything |
| `Draining.DrainsExactly` | crates/skillsync/src/sync.rs:75-247 | Exactly when everything arrives: after as many fault-free sessions as files were missing, and one at least, both disks hold every winning file if and only if what the peers know after they met fits a bundle or what each disk missed was within the caps of one session |
| `Crowding.CrowdsNeverFinish` | crates/skillsync/src/protocol.rs:184-214 | Two concrete, well-formed indexes of 5,001 files each, ready to meet, whose disks lack files for good however many fault-free sessions follow |
| `Crowding.FaultFreeSessionsExist` | crates/skillsync/src/sync.rs:75-247 | Fault-free sessions between those two exist |
| `Session.SharedCollections` | crates/skillsync/src/sync.rs:141-149 | The filter loop keeps the local collections that the peer also has, in order |
| `Session.SharedIsIntersection` | crates/skillsync/src/sync.rs:141-149 | As a set that is the intersection, so both ends compute the same one |
| `Session.StepKeepsInv` | crates/skillsync/src/sync.rs:75-247 | Every step of either end keeps the session invariant: counts in program order, legal messages, FIFO delivery |
| `Session.RunsKeepInv` | crates/skillsync/src/sync.rs:75-247 | In every run of two honest ends, with collections attached and detached meanwhile, the invariant holds: neither ever raises UnexpectedFrame, UnsolicitedFile or UnexpectedState |
| `Session.ErrorsComeFromDetaching` | crates/skillsync/src/sync.rs:373-393 | An end raises an error if and only if a shared collection had been detached on its device, and not attached again, when it came to merge; the error is then WrongCollections |
| `Session.DetachedMidSession` | crates/skillsync/src/sync.rs:389-393 | A reachable state of a concrete run in which that error was raised |
| `Session.AttachedUnlessDetached` | crates/skillsync/src/sync.rs:389-393 | An announced collection is attached at any point of a run if and only if its last detachment was followed by an attachment |
| `Session.ReadsPass` | crates/skillsync/src/sync.rs:634-658 | Whatever an honest end reads next passes every check made on it, except that the merge fails exactly when a shared collection is not attached |
| `Session.SharedAgree` | crates/skillsync/src/sync.rs:141-149 | Both ends compute the same shared collections |
| `Session.SomeStepIsEnabled` | crates/skillsync/src/sync.rs:763-778 | No deadlock under any buffering: until both ends finish, and while none has raised an error, some step can be taken even if no write completes before it is read |
| `Session.RunsAreBounded` | crates/skillsync/src/sync.rs:175-215 | No run has more than six session steps for each of 1,030 possible messages and one error at each end |
| `Session.FinishedSession` | crates/skillsync/src/sync.rs:488-525 | When both ends have finished, each request was answered exactly once, in order, by a fitting file or a refusal |
| `Join.NonceMatches` | crates/skillsync/src/join.rs:44-52 | The accumulate-all-differences loop decides equality of the nonces |
| `Join.JoinCoordinator.Activate` | crates/skillsync/src/join.rs:116-130 | Takes the free slot with the deadline, or refuses a wrong lifetime or a busy slot |
| `Join.JoinCoordinator.Claim` | crates/skillsync/src/join.rs:182-219 | Turns a live invitation with the equal nonce into a pending request; everything else leaves the slot to time alone |
| `Join.JoinCoordinator.Decide` | crates/skillsync/src/join.rs:153-169 | Decides the pending request once and frees the slot |
| `Join.JoinCoordinator.Cancel` | crates/skillsync/src/join.rs:171-180 | Frees the slot only for its own request |
| `Join.JoinCoordinator.PendingInfo` | crates/skillsync/src/join.rs:132-139 | Shows the pending request, unless it has expired |
| `Join.JoinCoordinator.PendingAddress` | crates/skillsync/src/join.rs:141-151 | Shows the address of the request asked for, unless it is another's or has expired |
| `Join.JoinCoordinator.ExpireLocked` | crates/skillsync/src/join.rs:222-231 | Empties the slot exactly from the deadline on |
| `Join.RunsKeepLedger` | crates/skillsync/src/join.rs:115-231 | Over all runs and clock advances: at most one claim for each activation, only with its nonce and before its deadline; at most one decision for each claim, for its request and before that same deadline |
| `Join.ActivationSucceeds` | crates/skillsync/src/join.rs:116-130 | Exactly when an activation succeeds |
| `Join.SlotIsReusable` | crates/skillsync/src/join.rs:153-180 | After a decision, a cancellation or the deadline the slot can be activated again |
| `Join.SlotFreesItself` | crates/skillsync/src/join.rs:222-231 | Fifteen minutes after the last event of any run the slot can be activated |
| `Join.WrongNonceLeavesSlot` | crates/skillsync/src/join.rs:190-200 | A claim with another nonce changes nothing that time does not change |
| `NetworkLoop.Loop.Turn` | crates/skillsync/src/network.rs:379-490 | One turn of the loop has exactly the specified effect |
| `NetworkLoop.Loop.ReceiveCommands` | crates/skillsync/src/network.rs:380-403 | The command loop: triggers are deferred while somebody waits, the first waiter restarts the count |
| `NetworkLoop.Loop.SpawnPeers` | crates/skillsync/src/network.rs:421-437 | Peers with a session in flight are skipped, the others are counted and started |
| `NetworkLoop.Loop.AnswerWaiters` | crates/skillsync/src/network.rs:440-449 | Everybody waiting is answered when nothing is in flight |
| `NetworkLoop.Loop.HandleHappening` | crates/skillsync/src/network.rs:452-489 | A completed outgoing session leaves the set of peers in flight and is counted for those who wait |
| `NetworkLoop.RunsKeepInv` | crates/skillsync/src/network.rs:379-488 | Without a session panic, live outgoing tasks and peers in flight correspond one to one, and while somebody waits successes plus sessions in flight do not exceed attempts (below counter saturation) |
| `NetworkLoop.OneToOneUnlessPanic` | crates/skillsync/src/network.rs:472-487 | That correspondence holds in a reachable state if and only if no outgoing session has panicked |
| `NetworkLoop.RunsAnswerInOrder` | crates/skillsync/src/network.rs:389-449 | Everybody who asked was answered exactly once, in order, or still waits |
| `NetworkLoop.AnswersComeWhenIdle` | crates/skillsync/src/network.rs:440-449 | An answer is sent only when no session is in flight, and reports no more successes than attempts |
| `NetworkLoop.BeforeWaitKeepsInv` | crates/skillsync/src/network.rs:379-451 | Whoever still waits when the loop goes to sleep has a session in flight to wait for |
| `NetworkLoop.WaitersAreAnswered` | crates/skillsync/src/network.rs:440-449 | Progress: while no outcome asks to reconcile again, those who wait are answered in the turn after as many sessions have completed as were in flight |
| `NetworkLoop.TurnClearsTrigger` | crates/skillsync/src/network.rs:418-439 | A quiet turn leaves no trigger pending for those who wait after it, so that progress begins within one turn |
| `NetworkLoop.TriggerReachesEveryPeer` | crates/skillsync/src/network.rs:418-439 | A trigger leaves exactly the active peers, and those already busy, with a session in flight |
| `NetworkLoop.TriggerIsServedOrHeld` | crates/skillsync/src/network.rs:380-449 | Within its turn a trigger leaves every active peer with a session in flight, a new one or the one it had; or, if the roster cannot be read, it is used up and nothing starts; or it is held back while somebody waits and becomes pending when they are answered |
| `NetworkLoop.UnreadableRosterDropsTrigger` | crates/skillsync/src/network.rs:418-439 | A concrete first turn in which a trigger is lost because the roster cannot be read |
| `NetworkLoop.PanicLeaks` | crates/skillsync/src/network.rs:472-487 | A panic in a peer's session leaves the peer marked as in flight |
| `NetworkLoop.LeakIsPermanent` | crates/skillsync/src/network.rs:440-449 | Such a peer is never contacted again and from then on nobody who waits is answered |
| `NetworkLoop.LeakStays` | crates/skillsync/src/network.rs:440-449 | Over whole runs: from a leak on the peer stays leaked and nobody is answered |
| `NetworkLoop.PanicIsReachable` | crates/skillsync/src/network.rs:472-487 | A concrete first turn after which a peer is leaked and somebody waits |
| `NetworkLoop.PanicStrandsTheWaiter` | crates/skillsync/src/network.rs:440-449 | In every run that starts with that turn, whoever asked in it waits for good |

## Left out

- iroh, QUIC, TLS, timeouts, idle limits and the HTTP joining service: plumbing over libraries. A
  session is two reliable byte streams; a connection that breaks ends it wherever it stands.
- The command line, the daemon socket, configuration, the keyring, TOML and JSON.
- Inside BLAKE3, Ed25519 and glob matching; Unicode normalisation and case folding of paths
  (`crates/skillsync/src/path.rs:85-128`), so two names that collide on a disk are not modelled.
- Directory walking, symbolic links, stable-root acquisition and the filename probe: a scan is
  given a finite list of files, the prefixes excluded by the walk and the resolved root.
- Creating parent directories and syncing them during an installation: one fault point stands for
  each of them, and directories are not part of the state.
- SQL text, schema migration and the checks against corrupted rows, apart from the roster's own
  checks on reading. A log that cannot be written fails its transaction; logs are not modelled.
- The log, peer health, watch status and the counters of a scan summary: they decide nothing.
- The content of address hints: only their replacement is modelled. Refusing a malformed hint
  ends a session before anything is stored.
- The joining exchange after the claim, and its JSON frames; `Join` models the slot and
  `RosterStore.StateStore.InstallJoinedState` what the joiner stores.
- Session: does not model the bytes inside a frame (they are in `Wire` and `Bundles`) nor the
  refusal of unauthorised peers, which is `RosterSync.MergeAndAuthorize` and `RosterSessions`; the
  two ends are members of one group, and the check that requests stay within the shared collections
  is made when the request list is read rather than when the first answer is due.
- Draining.SessionDrains: states the tables after the session, not the disks; that an index
  agrees with its disk is `ScanPass.IndexAgreesWithDisk` and `Install.ApplyFile`. It starts behind
  the hello and the rosters, with both peers authorised, and assumes that the order tells the two
  peers' records apart, that each winning file is on one of the disks, that the collections stay
  attached to the roots they are in, and that each shared record is accepted by both clocks or
  refused by both; at a path where one is refused the peers keep what they have.
- Draining.SessionsDrain: nothing is edited, scanned or received from others between the sessions.
- Exchange.MergeRemote: takes whether the deleted file could be removed as a parameter; removing
  it is `Install.MaterializeTombstone`.
- Transfers.ReceiveFiles: takes how each installation ended as a parameter; installing is
  `Install.CollectionRoot.InstallFile`.
- RosterSync.LoserKeepsIntent: assumes that the dropped changes do not remove the device itself;
  what replay does then is `RosterSync.ReplayStopsAtSelfRemoval` and
  `RosterSync.SelfRemovalIsReplayed`. It also assumes that revision numbers do not run out at 2^64.
- RosterSessions.TwoSessionsSuffice: nothing but the two sessions writes either roster meanwhile.
- NetworkLoop.RunsKeepInv: says nothing once the attempt counter has saturated at 2^64 - 1, nor
  after a shutdown, when those who wait are dropped without an answer.
- NetworkLoop.WaitersAreAnswered: says nothing while outcomes keep asking to reconcile again: a
  session that changed the roster starts another round, so peers that keep changing it can keep
  others waiting.
