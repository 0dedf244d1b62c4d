/** The roster step of a synchronization session: merge the peer's selected chain, replay the
    locally authored changes that lost, and check that both ends are still members. */
module RosterSync {
  import opened Prelude
  import opened Bytes
  import opened Roster
  import opened RosterLattice
  import opened RosterStore

  datatype SyncError =
    | MissingRoster
    | StateFailed(error: StateError)
    | UnauthorizedPeer
    | RosterChangedAndUnauthorizedPeer

  ghost function Hashes(e: RosterEnv, chain: seq<RosterRevision>): set<RosterHash>
  {
    set r | r in chain :: e.hash(r)
  }

  /** The previously selected revisions that are no longer selected and that this device made. */
  function Dropped(e: RosterEnv, previous: seq<RosterRevision>, kept: set<RosterHash>,
      local: EndpointId): seq<RosterRevision>
  {
    if |previous| == 0 then []
    else if e.hash(previous[0]) !in kept && previous[0].author == local then
      [previous[0]] + Dropped(e, previous[1..], kept, local)
    else Dropped(e, previous[1..], kept, local)
  }

  ghost predicate LocalActive(e: RosterEnv, rows: Rows, local: EndpointId)
    requires Consistent(e, rows)
  {
    rows != map[] && local in Tip(e, rows).members
  }

  /** The replay loop: stops quietly once the local device is not a member, and with the error
      when a change cannot be applied. */
  ghost function Replay(e: RosterEnv, rows: Rows, identity: DeviceIdentity, local: EndpointId,
      dropped: seq<RosterRevision>)
    : (Rows, Result<(), StateError>)
    requires Consistent(e, rows)
    decreases |dropped|
  {
    if |dropped| == 0 || !LocalActive(e, rows, local) then (rows, Ok(()))
    else
      ApplyExtendsByOne(e, rows, identity, dropped[0].change);
      var (next, result) := Apply(e, rows, identity, dropped[0].change);
      if result.Err? then (next, Err(result.error))
      else Replay(e, next, identity, local, dropped[1..])
  }

  /** The tip that was selected before a merge is no longer on the selected chain. */
  ghost predicate Lost(e: RosterEnv, rows: Rows, merged: Rows)
    requires Consistent(e, rows) && Consistent(e, merged)
  {
    rows != map[] && e.hash(Tip(e, rows)) !in Hashes(e, SelectedChain(e, merged))
  }

  /** The table right after a merge, before any replay. */
  ghost function Merged(e: RosterEnv, rows: Rows, received: seq<RosterRevision>): (next: Rows)
    requires Consistent(e, rows)
    ensures Consistent(e, next) && rows.Values <= next.Values
    ensures rows != map[] ==> next != map[] && Root(e, next) == Root(e, rows)
  {
    MergeKeepsConsistent(e, rows, received);
    MergeChain(e, rows, received).0
  }

  /** The local changes that a merge drops from the selected chain. */
  ghost function DroppedBy(e: RosterEnv, rows: Rows, received: seq<RosterRevision>,
      local: EndpointId): seq<RosterRevision>
    requires Consistent(e, rows)
  {
    Dropped(e, SelectedChain(e, rows), Hashes(e, SelectedChain(e, Merged(e, rows, received))), local)
  }

  /** What one side of a session does to its table on receiving a chain. */
  ghost function Reconcile(e: RosterEnv, rows: Rows, received: seq<RosterRevision>, identity: DeviceIdentity,
      local: EndpointId)
    : (Rows, Result<(), StateError>)
    requires Consistent(e, rows)
  {
    var (merged, result) := (Merged(e, rows, received), MergeChain(e, rows, received).1);
    if result.Err? then (merged, result)
    else if !Lost(e, rows, merged) then (merged, Ok(()))
    else Replay(e, merged, identity, local, DroppedBy(e, rows, received, local))
  }

  // ---------------------------------------------------------------- replay

  /** Replaying only appends: the branch that won stays a prefix of the selected chain. */
  lemma {:induction false} ReplayExtends(e: RosterEnv, rows: Rows, identity: DeviceIdentity, local: EndpointId,
      dropped: seq<RosterRevision>)
    requires Consistent(e, rows)
    ensures var next := Replay(e, rows, identity, local, dropped).0;
            && Consistent(e, next) && rows.Values <= next.Values
            && (rows == map[] ==> next == map[])
            && (rows != map[] ==> next != map[] && Root(e, next) == Root(e, rows))
            && SelectedChain(e, rows) <= SelectedChain(e, next)
    decreases |dropped|
  {
    hide ValidateChild, ApplyChange, Child;
    if |dropped| > 0 && LocalActive(e, rows, local) {
      ApplyExtendsByOne(e, rows, identity, dropped[0].change);
      var (next, result) := Apply(e, rows, identity, dropped[0].change);
      if result.Ok? {
        ReplayExtends(e, next, identity, local, dropped[1..]);
      }
    }
  }

  function Subject(change: RosterChange): EndpointId
  {
    match change
    case Initialize(member) => member.endpointId
    case Admit(member) => member.endpointId
    case Remove(endpointId) => endpointId
  }

  /** What the last change about `x` in a list asks for: membership or its absence. */
  function LastIntent(changes: seq<RosterRevision>, x: EndpointId): Option<bool>
  {
    if |changes| == 0 then None
    else
      var last := changes[|changes| - 1].change;
      if Subject(last) == x then Some(!last.Remove?) else LastIntent(changes[..|changes| - 1], x)
  }

  /** Admissions and removals a device could make again. */
  predicate Remakeable(dropped: seq<RosterRevision>)
  {
    forall r :: r in dropped ==>
      && !r.change.Initialize?
      && (r.change.Admit? ==> ValidateDeviceName(r.change.member.deviceName).Ok?)
  }

  predicate RemovesSelf(dropped: seq<RosterRevision>, local: EndpointId)
  {
    exists r :: r in dropped && r.change == Remove(local)
  }

  /** Changes that a device may replay to the end: none of them removes the device itself. */
  predicate Replayable(dropped: seq<RosterRevision>, local: EndpointId)
  {
    Remakeable(dropped) && !RemovesSelf(dropped, local)
  }

  /** A member can always author a change that is not satisfied yet. */
  lemma {:induction false} ChildSucceeds(e: RosterEnv, parent: RosterRevision, change: RosterChange,
      identity: DeviceIdentity)
    requires Honest(e, identity) && identity.endpointId in parent.members && parent.number < U64_MAX
    requires !change.Initialize? && !Satisfied(parent, change)
    requires change.Admit? ==> ValidateDeviceName(change.member.deviceName).Ok?
    ensures Child(e, parent, change, identity).Ok?
    ensures var r := Child(e, parent, change, identity).value;
            && r.number == parent.number + 1 && r.author == identity.endpointId
            && r.members == ApplyChange(parent.members, change).value
  {
    var members := ApplyChange(parent.members, change).value;
    var unsigned := RosterRevision(parent.groupId, parent.number + 1, Some(e.hash(parent)), members,
                                   change, identity.endpointId, 0);
    assert e.verified(unsigned.(signature := identity.sign(unsigned)));
  }

  /** The revision a change would create does not collide with a stored hash. */
  ghost predicate NoCollision(e: RosterEnv, rows: Rows, identity: DeviceIdentity, change: RosterChange)
    requires Consistent(e, rows) && rows != map[]
  {
    var child := Child(e, Tip(e, rows), change, identity);
    child.Ok? ==> e.hash(child.value) !in rows
  }

  /** None of the revisions a replay creates collides with a stored hash. */
  ghost predicate NoCollisions(e: RosterEnv, rows: Rows, identity: DeviceIdentity, dropped: seq<RosterRevision>)
    requires Consistent(e, rows)
    decreases |dropped|
  {
    |dropped| > 0 && rows != map[] ==>
      && NoCollision(e, rows, identity, dropped[0].change)
      && (ApplyExtendsByOne(e, rows, identity, dropped[0].change);
          NoCollisions(e, Apply(e, rows, identity, dropped[0].change).0, identity, dropped[1..]))
  }

  lemma {:induction false} ReplayOne(e: RosterEnv, rows: Rows, identity: DeviceIdentity, change: RosterChange)
    requires Consistent(e, rows) && LocalActive(e, rows, identity.endpointId) && Honest(e, identity)
    requires Tip(e, rows).number < U64_MAX
    requires !change.Initialize? && change != Remove(identity.endpointId)
    requires change.Admit? ==> ValidateDeviceName(change.member.deviceName).Ok?
    requires NoCollision(e, rows, identity, change)
    ensures var (next, result) := Apply(e, rows, identity, change);
            && result.Ok? && Consistent(e, next) && LocalActive(e, next, identity.endpointId)
            && Tip(e, next).number <= Tip(e, rows).number + 1
            && (forall x :: x in Tip(e, next).members <==>
                  if x == Subject(change) then !change.Remove? else x in Tip(e, rows).members)
            && (forall x :: x in Tip(e, rows).members && x != Subject(change) ==>
                  x in Tip(e, next).members && Tip(e, next).members[x] == Tip(e, rows).members[x])
  {
    ApplyExtendsByOne(e, rows, identity, change);
    if !Satisfied(Tip(e, rows), change) {
      ChildSucceeds(e, Tip(e, rows), change, identity);
    }
  }

  /** Membership after a list of changes: the last intent about an endpoint, or what was before. */
  predicate MemberAfter(before: map<EndpointId, Bytes>, changes: seq<RosterRevision>, x: EndpointId)
  {
    match LastIntent(changes, x)
    case Some(wanted) => wanted
    case None => x in before
  }

  /** The new members agree with the last intents, and unmentioned members keep their names. */
  ghost predicate KeepsIntent(before: map<EndpointId, Bytes>, after: map<EndpointId, Bytes>,
      changes: seq<RosterRevision>)
  {
    && (forall x :: x in after <==> MemberAfter(before, changes, x))
    && (forall x :: x in before && LastIntent(changes, x).None? ==> x in after && after[x] == before[x])
  }

  lemma {:induction false} IntentComposes(before: map<EndpointId, Bytes>, middle: map<EndpointId, Bytes>,
      after: map<EndpointId, Bytes>,
                       changes: seq<RosterRevision>)
    requires |changes| > 0
    requires var change := changes[0].change;
             && (forall x :: x in middle <==> if x == Subject(change) then !change.Remove? else x in before)
             && (forall x :: x in before && x != Subject(change) ==> x in middle && middle[x] == before[x])
    requires KeepsIntent(middle, after, changes[1..])
    ensures KeepsIntent(before, after, changes)
  {
    forall x
      ensures x in after <==> MemberAfter(before, changes, x)
      ensures x in before && LastIntent(changes, x).None? ==> x in after && after[x] == before[x]
    {
      IntentFromFront(changes, x);
      assert x in after <==> MemberAfter(middle, changes[1..], x);
    }
  }

  /** Replay keeps local intent.  While the device stays a member, the last dropped change about
      each endpoint holds at the new tip, and every endpoint the changes do not mention keeps the
      membership and the name that the winning branch gave it. */
  lemma {:induction false} ReplayKeepsIntent(e: RosterEnv, rows: Rows, identity: DeviceIdentity,
      dropped: seq<RosterRevision>)
    requires Consistent(e, rows) && LocalActive(e, rows, identity.endpointId) && Honest(e, identity)
    requires Replayable(dropped, identity.endpointId)
    requires Tip(e, rows).number + |dropped| <= U64_MAX
    requires NoCollisions(e, rows, identity, dropped)
    ensures var (next, result) := Replay(e, rows, identity, identity.endpointId, dropped);
            && result.Ok? && Consistent(e, next) && LocalActive(e, next, identity.endpointId)
            && KeepsIntent(Tip(e, rows).members, Tip(e, next).members, dropped)
    decreases |dropped|
  {
    if |dropped| > 0 {
      assert dropped[0] in dropped;
      ReplayOne(e, rows, identity, dropped[0].change);
      var next := Apply(e, rows, identity, dropped[0].change).0;
      assert forall r :: r in dropped[1..] ==> r in dropped;
      ReplayKeepsIntent(e, next, identity, dropped[1..]);
      var last := Replay(e, next, identity, identity.endpointId, dropped[1..]).0;
      IntentComposes(Tip(e, rows).members, Tip(e, next).members, Tip(e, last).members, dropped);
    }
  }

  lemma {:induction false} IntentFromFront(changes: seq<RosterRevision>, x: EndpointId)
    requires |changes| > 0
    ensures LastIntent(changes, x) ==
            if LastIntent(changes[1..], x).Some? then LastIntent(changes[1..], x)
            else if Subject(changes[0].change) == x then Some(!changes[0].change.Remove?) else None
  {
    if |changes| > 1 {
      var init := changes[..|changes| - 1];
      IntentFromFront(init, x);
      assert init[1..] == changes[1..][..|changes| - 2];
    }
  }

  /** A dropped self-removal ends the replay: what follows it is never applied. */
  lemma {:induction false} ReplayStopsAtSelfRemoval(e: RosterEnv, rows: Rows, identity: DeviceIdentity,
      dropped: seq<RosterRevision>, k: nat)
    requires Consistent(e, rows) && k < |dropped| && dropped[k].change == Remove(identity.endpointId)
    ensures Replay(e, rows, identity, identity.endpointId, dropped) ==
            Replay(e, rows, identity, identity.endpointId, dropped[..k + 1])
    decreases k
  {
    hide ValidateChild, ApplyChange, Child;
    if LocalActive(e, rows, identity.endpointId) {
      ApplyExtendsByOne(e, rows, identity, dropped[0].change);
      assert dropped[..k + 1][0] == dropped[0] && dropped[..k + 1][1..] == dropped[1..][..k];
      var (next, result) := Apply(e, rows, identity, dropped[0].change);
      if result.Ok? && k > 0 {
        ReplayStopsAtSelfRemoval(e, next, identity, dropped[1..], k - 1);
      }
    }
  }

  /** And it ends with the device outside the roster. */
  lemma {:induction false} SelfRemovalIsReplayed(e: RosterEnv, rows: Rows, identity: DeviceIdentity,
      dropped: seq<RosterRevision>)
    requires Consistent(e, rows) && LocalActive(e, rows, identity.endpointId) && Honest(e, identity)
    requires Remakeable(dropped) && RemovesSelf(dropped, identity.endpointId)
    requires Tip(e, rows).number + |dropped| <= U64_MAX
    requires NoCollisions(e, rows, identity, dropped)
    ensures var (next, result) := Replay(e, rows, identity, identity.endpointId, dropped);
            result.Ok? && Consistent(e, next) && next != map[] && identity.endpointId !in Tip(e, next).members
    decreases |dropped|
  {
    var r :| r in dropped && r.change == Remove(identity.endpointId);
    var change, rest := dropped[0].change, dropped[1..];
    assert dropped[0] in dropped && dropped == [dropped[0]] + rest;
    ApplyExtendsByOne(e, rows, identity, change);
    var next := Apply(e, rows, identity, change).0;
    if change == Remove(identity.endpointId) {
      ChildSucceeds(e, Tip(e, rows), change, identity);
      assert !LocalActive(e, next, identity.endpointId);
    } else {
      ReplayOne(e, rows, identity, change);
      assert r in rest && forall x :: x in rest ==> x in dropped;
      SelfRemovalIsReplayed(e, next, identity, rest);
    }
  }

  // ---------------------------------------------------------------- merging

  /** Merging a valid chain over the same genesis makes the table the union, and selects the
      greater of the two chains. */
  lemma {:induction false} MergeIsJoin(e: RosterEnv, rows: Rows, received: seq<RosterRevision>, u: set<RosterRevision>)
    requires Consistent(e, rows) && rows != map[] && |received| > 0 && IsChain(e, received)
    requires received[0] == Root(e, rows)
    requires HashInjective(e, u) && rows.Values <= u && Elements(received) <= u
    ensures var (next, result) := MergeChain(e, rows, received);
            && result.Ok? && Consistent(e, next) && next != map[] && Root(e, next) == Root(e, rows)
            && next.Values == rows.Values + Elements(received)
            && SelectedChain(e, next) ==
                 [Root(e, rows)] + Greater(e, Chain(e, Root(e, rows), rows.Values), received[1..])
  {
    hide ValidateChild, ApplyChange, Child;
    var g, line := Root(e, rows), received[1..];
    ElementsOfLine(received);
    MergeKeepsConsistent(e, rows, received);
    InsertMissingIsUnion(e, rows, u, g, line);
    LineIsTree(e, g, line);
    ChainSetSelectsItself(e, g, line);
    SelectionIsJoin(e, g, rows.Values, {g} + Elements(line));
  }

  lemma {:induction false} RevisionInPrefixIsKept(e: RosterEnv, rows: Rows, merged: Rows)
    requires Consistent(e, rows) && Consistent(e, merged)
    requires SelectedChain(e, rows) <= SelectedChain(e, merged)
    ensures !Lost(e, rows, merged)
  {
    if rows != map[] {
      var chain := SelectedChain(e, rows);
      assert SelectedChain(e, merged)[|chain| - 1] == Tip(e, rows);
    }
  }

  lemma {:induction false} SharedHead(g: RosterRevision, x: seq<RosterRevision>, y: seq<RosterRevision>)
    requires [g] + x <= [g] + y
    ensures x <= y
  {
    assert forall i :: 0 <= i < |x| ==> ([g] + x)[i + 1] == x[i] && ([g] + y)[i + 1] == y[i];
  }

  /** The chain that the union of two whole tables selects. */
  ghost function UnionChain(e: RosterEnv, a: Rows, b: Rows): seq<RosterRevision>
    requires Consistent(e, a) && a != map[]
  {
    [Root(e, a)] + Chain(e, Root(e, a), a.Values + b.Values)
  }

  /** The union selects one of the two selected chains, and the longer one when one is a prefix. */
  lemma {:induction false} UnionChooses(e: RosterEnv, a: Rows, b: Rows, u: set<RosterRevision>)
    requires Consistent(e, a) && Consistent(e, b) && a != map[] && b != map[] && Root(e, a) == Root(e, b)
    requires HashInjective(e, u) && a.Values <= u && b.Values <= u
    ensures UnionChain(e, a, b) == SelectedChain(e, a) || UnionChain(e, a, b) == SelectedChain(e, b)
    ensures SelectedChain(e, a) <= SelectedChain(e, b) ==> UnionChain(e, a, b) == SelectedChain(e, b)
    ensures SelectedChain(e, b) <= SelectedChain(e, a) ==> UnionChain(e, a, b) == SelectedChain(e, a)
  {
    hide ValidateChild, ApplyChange, Child;
    var g := Root(e, a);
    var ca, cb := Chain(e, g, a.Values), Chain(e, g, b.Values);
    SelectionIsJoin(e, g, a.Values, b.Values);
    GreaterChooses(e, ca, cb);
    if SelectedChain(e, a) <= SelectedChain(e, b) {
      SharedHead(g, ca, cb);
    }
    if SelectedChain(e, b) <= SelectedChain(e, a) {
      SharedHead(g, cb, ca);
    }
  }

  /** Merging the peer's selected chain selects what merging its whole tree would select. */
  lemma {:induction false} MergingSelectedChain(e: RosterEnv, a: Rows, b: Rows, u: set<RosterRevision>)
    requires Consistent(e, a) && Consistent(e, b) && a != map[] && b != map[] && Root(e, a) == Root(e, b)
    requires HashInjective(e, u) && a.Values <= u && b.Values <= u
    ensures MergeChain(e, a, SelectedChain(e, b)).1.Ok?
    ensures SelectedChain(e, Merged(e, a, SelectedChain(e, b))) == UnionChain(e, a, b)
  {
    hide ValidateChild, ApplyChange, Child;
    var g, received := Root(e, a), SelectedChain(e, b);
    SelectedChainIsChain(e, b);
    assert received[0] == g && received[1..] == Chain(e, g, b.Values);
    MergeIsJoin(e, a, received, u);
    SelectionIsJoin(e, g, a.Values, b.Values);
  }

  // ---------------------------------------------------------------- two sessions

  /** One side's table after a session in which the peer sends its selected chain. */
  ghost function AfterSession(e: RosterEnv, rows: Rows, peer: Rows, identity: DeviceIdentity): Rows
    requires Consistent(e, rows) && Consistent(e, peer)
  {
    Reconcile(e, rows, SelectedChain(e, peer), identity, identity.endpointId).0
  }

  lemma {:induction false} SessionExtendsWinner(e: RosterEnv, a: Rows, b: Rows, identity: DeviceIdentity,
      u: set<RosterRevision>)
    requires Consistent(e, a) && Consistent(e, b) && a != map[] && b != map[] && Root(e, a) == Root(e, b)
    requires HashInjective(e, u) && a.Values <= u && b.Values <= u
    ensures var merged := Merged(e, a, SelectedChain(e, b));
            var next := AfterSession(e, a, b, identity);
            && Consistent(e, merged) && Consistent(e, next) && next != map[] && Root(e, next) == Root(e, a)
            && a.Values <= next.Values
            && SelectedChain(e, merged) <= SelectedChain(e, next)
            && (!Lost(e, a, merged) ==> next == merged)
            && SelectedChain(e, merged) == UnionChain(e, a, b)
            && (SelectedChain(e, merged) == SelectedChain(e, a) ==> !Lost(e, a, merged))
            && (SelectedChain(e, a) <= SelectedChain(e, b) ==> !Lost(e, a, merged))
  {
    hide ValidateChild, ApplyChange, Child;
    MergingSelectedChain(e, a, b, u);
    UnionChooses(e, a, b, u);
    var merged := Merged(e, a, SelectedChain(e, b));
    if SelectedChain(e, a) <= SelectedChain(e, merged) {
      RevisionInPrefixIsKept(e, a, merged);
    }
    ReplayExtends(e, merged, identity, identity.endpointId, DroppedBy(e, a, SelectedChain(e, b), identity.endpointId));
  }

  /** When one selected chain is a prefix of the other, a session ends with the longer one on
      both sides and nobody replays. */
  lemma {:induction false} PrefixSessionAgrees(e: RosterEnv, a: Rows, b: Rows, ia: DeviceIdentity, ib: DeviceIdentity,
      u: set<RosterRevision>)
    requires Consistent(e, a) && Consistent(e, b) && a != map[] && b != map[] && Root(e, a) == Root(e, b)
    requires HashInjective(e, u) && a.Values <= u && b.Values <= u
    requires SelectedChain(e, a) <= SelectedChain(e, b)
    ensures Consistent(e, AfterSession(e, a, b, ia)) && Consistent(e, AfterSession(e, b, a, ib))
    ensures SelectedChain(e, AfterSession(e, a, b, ia)) == SelectedChain(e, b)
    ensures SelectedChain(e, AfterSession(e, b, a, ib)) == SelectedChain(e, b)
  {
    hide ValidateChild, ApplyChange, Child;
    UnionChooses(e, a, b, u);
    UnionChooses(e, b, a, u);
    SessionExtendsWinner(e, a, b, ia, u);
    SessionExtendsWinner(e, b, a, ib, u);
  }

  /** At most one side of a session loses its branch, and the loser's new chain extends the
      winner's. */
  lemma {:induction false} OneSideReplays(e: RosterEnv, a: Rows, b: Rows, ia: DeviceIdentity, ib: DeviceIdentity,
      u: set<RosterRevision>)
    requires Consistent(e, a) && Consistent(e, b) && a != map[] && b != map[] && Root(e, a) == Root(e, b)
    requires HashInjective(e, u) && a.Values <= u && b.Values <= u
    ensures var (a0, b0) := (Merged(e, a, SelectedChain(e, b)), Merged(e, b, SelectedChain(e, a)));
            var (a1, b1) := (AfterSession(e, a, b, ia), AfterSession(e, b, a, ib));
            && Consistent(e, a0) && Consistent(e, b0) && Consistent(e, a1) && Consistent(e, b1)
            && a1 != map[] && b1 != map[] && Root(e, a1) == Root(e, b1)
            && !(Lost(e, a, a0) && Lost(e, b, b0))
            && (!Lost(e, a, a0) ==> SelectedChain(e, a1) <= SelectedChain(e, b1))
            && (!Lost(e, b, b0) ==> SelectedChain(e, b1) <= SelectedChain(e, a1))
            && UnionChain(e, a, b) <= SelectedChain(e, a1)
            && UnionChain(e, a, b) <= SelectedChain(e, b1)
  {
    hide ValidateChild, ApplyChange, Child;
    assert a.Values + b.Values == b.Values + a.Values;
    UnionChooses(e, a, b, u);
    UnionChooses(e, b, a, u);
    SessionExtendsWinner(e, a, b, ia, u);
    SessionExtendsWinner(e, b, a, ib, u);
  }

  /** Once both roster steps of two sessions have been carried out, with nothing new in between,
      both hold the identical selected chain, which extends the one the union of their whole trees
      selects.  (Whether a session gets that far is the subject of `RosterSessions`.) */
  lemma {:induction false} TwoRosterStepsAgree(e: RosterEnv, a: Rows, b: Rows, ia: DeviceIdentity, ib: DeviceIdentity,
      u: set<RosterRevision>)
    requires Consistent(e, a) && Consistent(e, b) && a != map[] && b != map[] && Root(e, a) == Root(e, b)
    requires HashInjective(e, u) && a.Values <= u && b.Values <= u
    requires AfterSession(e, a, b, ia).Values <= u && AfterSession(e, b, a, ib).Values <= u
    ensures var (a1, b1) := (AfterSession(e, a, b, ia), AfterSession(e, b, a, ib));
            && Consistent(e, a1) && Consistent(e, b1)
            && var (a2, b2) := (AfterSession(e, a1, b1, ia), AfterSession(e, b1, a1, ib));
               && Consistent(e, a2) && Consistent(e, b2)
               && SelectedChain(e, a2) == SelectedChain(e, b2)
               && UnionChain(e, a, b) <= SelectedChain(e, a2)
  {
    hide ValidateChild, ApplyChange, Child;
    OneSideReplays(e, a, b, ia, ib, u);
    var (a1, b1) := (AfterSession(e, a, b, ia), AfterSession(e, b, a, ib));
    if SelectedChain(e, a1) <= SelectedChain(e, b1) {
      PrefixSessionAgrees(e, a1, b1, ia, ib, u);
    } else {
      PrefixSessionAgrees(e, b1, a1, ib, ia, u);
    }
  }

  // ---------------------------------------------------------------- the losing side

  /** What a session drops from a valid line could be made again: every revision behind the
      genesis already passed the checks a replay makes. */
  lemma {:induction false} DroppedAreRemakeable(e: RosterEnv, parent: RosterRevision, line: seq<RosterRevision>,
      kept: set<RosterHash>, local: EndpointId)
    requires IsLine(e, parent, line)
    ensures Remakeable(Dropped(e, line, kept, local))
    decreases |line|
  {
    if |line| > 0 {
      DroppedAreRemakeable(e, line[0], line[1..], kept, local);
    }
  }

  /** The losing side's own dropped changes: the genesis is never among them. */
  lemma {:induction false} LoserDrops(e: RosterEnv, a: Rows, b: Rows, local: EndpointId, u: set<RosterRevision>)
    requires Consistent(e, a) && Consistent(e, b) && a != map[] && b != map[] && Root(e, a) == Root(e, b)
    requires HashInjective(e, u) && a.Values <= u && b.Values <= u
    requires Lost(e, a, Merged(e, a, SelectedChain(e, b)))
    ensures Remakeable(DroppedBy(e, a, SelectedChain(e, b), local))
    ensures SelectedChain(e, Merged(e, a, SelectedChain(e, b))) == SelectedChain(e, b) == UnionChain(e, a, b)
    ensures MergeChain(e, a, SelectedChain(e, b)).1.Ok?
  {
    hide ValidateChild, ApplyChange, Child;
    MergingSelectedChain(e, a, b, u);
    UnionChooses(e, a, b, u);
    var merged := Merged(e, a, SelectedChain(e, b));
    var kept := Hashes(e, SelectedChain(e, merged));
    var chain := SelectedChain(e, a);
    assert e.hash(SelectedChain(e, merged)[0]) in kept;
    assert chain[0] == SelectedChain(e, merged)[0];
    assert Dropped(e, chain, kept, local) == Dropped(e, chain[1..], kept, local);
    SelectedChainIsChain(e, a);
    DroppedAreRemakeable(e, chain[0], chain[1..], kept, local);
    if SelectedChain(e, merged) == chain {
      RevisionInPrefixIsKept(e, a, merged);
    }
  }

  /** The losing side of a session keeps its intent: provided it is still a member of the winning
      branch and its dropped changes do not remove it, everything it last asked for holds at its
      new tip, and nothing else in the winning branch has moved. */
  lemma {:induction false} LoserKeepsIntent(e: RosterEnv, a: Rows, b: Rows, identity: DeviceIdentity,
      u: set<RosterRevision>)
    requires Consistent(e, a) && Consistent(e, b) && a != map[] && b != map[] && Root(e, a) == Root(e, b)
    requires HashInjective(e, u) && a.Values <= u && b.Values <= u && Honest(e, identity)
    requires var merged := Merged(e, a, SelectedChain(e, b));
             var dropped := DroppedBy(e, a, SelectedChain(e, b), identity.endpointId);
             && Lost(e, a, merged) && LocalActive(e, merged, identity.endpointId)
             && !RemovesSelf(dropped, identity.endpointId)
             && Tip(e, merged).number + |dropped| <= U64_MAX
             && NoCollisions(e, merged, identity, dropped)
    ensures var merged := Merged(e, a, SelectedChain(e, b));
            var dropped := DroppedBy(e, a, SelectedChain(e, b), identity.endpointId);
            var (next, result) := Reconcile(e, a, SelectedChain(e, b), identity, identity.endpointId);
            && result.Ok? && Consistent(e, next) && LocalActive(e, next, identity.endpointId)
            && KeepsIntent(Tip(e, merged).members, Tip(e, next).members, dropped)
            && SelectedChain(e, b) <= SelectedChain(e, next)
  {
    hide ValidateChild, ApplyChange, Child;
    LoserDrops(e, a, b, identity.endpointId, u);
    var merged := Merged(e, a, SelectedChain(e, b));
    var dropped := DroppedBy(e, a, SelectedChain(e, b), identity.endpointId);
    ReplayKeepsIntent(e, merged, identity, dropped);
    ReplayExtends(e, merged, identity, identity.endpointId, dropped);
  }

  // ---------------------------------------------------------------- the method

  /** The verdict on the peer once the roster step is done. */
  ghost function Verdict(e: RosterEnv, before: Rows, after: Rows, local: EndpointId,
      remote: EndpointId): Result<bool, SyncError>
    requires Consistent(e, before) && Consistent(e, after)
  {
    if after == map[] then Err(MissingRoster)
    else
      var tip := Tip(e, after);
      var changed := before == map[] || e.hash(Tip(e, before)) != e.hash(tip);
      if local in tip.members && remote in tip.members then Ok(changed)
      else if changed then Err(RosterChangedAndUnauthorizedPeer)
      else Err(UnauthorizedPeer)
  }

  /** `merge_and_authorize_remote_roster`. */
  method MergeAndAuthorize(state: StateStore, received: seq<RosterRevision>, identity: DeviceIdentity,
      remote: EndpointId)
    returns (r: Result<bool, SyncError>)
    requires state.Valid()
    modifies state
    ensures state.Valid() && state.hints == old(state.hints)
    ensures var (after, result) := Reconcile(state.env, old(state.revisions), received, identity, identity.endpointId);
            && state.revisions == after
            && r == if result.Err? then Err(StateFailed(result.error))
                    else Verdict(state.env, old(state.revisions), after, identity.endpointId, remote)
  {
    var read := state.SelectedRosterChain();
    var previous := read.value;
    var reconciled := MergeAndReplay(state, previous, received, identity);
    if reconciled.Err? {
      return Err(StateFailed(reconciled.error));
    }
    var selected := state.SelectedRosterChain();
    if |selected.value| == 0 {
      return Err(MissingRoster);
    }
    var tip := selected.value[|selected.value| - 1];
    var changed := |previous| == 0 || state.env.hash(previous[|previous| - 1]) != state.env.hash(tip);
    if identity.endpointId !in tip.members || remote !in tip.members {
      return Err(if changed then RosterChangedAndUnauthorizedPeer else UnauthorizedPeer);
    }
    return Ok(changed);
  }

  method MergeAndReplay(state: StateStore, previous: seq<RosterRevision>, received: seq<RosterRevision>,
      identity: DeviceIdentity)
    returns (r: Result<(), StateError>)
    requires state.Valid() && previous == SelectedChain(state.env, state.revisions)
    modifies state
    ensures state.Valid() && state.hints == old(state.hints)
    ensures (state.revisions, r) == Reconcile(state.env, old(state.revisions), received, identity, identity.endpointId)
  {
    hide Replay, Dropped, MergeChain;
    var merged := state.MergeSelectedRosterChain(received);
    if merged.Err? {
      return Err(merged.error);
    }
    var read := state.SelectedRosterChain();
    var kept := set x | x in read.value :: state.env.hash(x);
    if |previous| == 0 || state.env.hash(previous[|previous| - 1]) in kept {
      return Ok(());
    }
    r := ReplayDropped(state, Dropped(state.env, previous, kept, identity.endpointId), identity);
  }

  /** The loop that re-applies dropped local changes at the new tip. */
  method ReplayDropped(state: StateStore, dropped: seq<RosterRevision>, identity: DeviceIdentity)
    returns (r: Result<(), StateError>)
    requires state.Valid()
    modifies state
    ensures state.Valid()
    ensures (state.revisions, r) == Replay(state.env, old(state.revisions), identity, identity.endpointId, dropped)
    ensures state.hints == old(state.hints)
  {
    var i := 0;
    assert dropped[0..] == dropped;
    while i < |dropped|
      invariant 0 <= i <= |dropped|
      invariant state.Valid() && state.hints == old(state.hints)
      invariant Replay(state.env, old(state.revisions), identity, identity.endpointId, dropped) ==
                Replay(state.env, state.revisions, identity, identity.endpointId, dropped[i..])
    {
      ghost var rows := state.revisions;
      assert dropped[i..][0] == dropped[i] && dropped[i..][1..] == dropped[i + 1..];
      var selected := state.SelectedRosterChain();
      if |selected.value| == 0 || identity.endpointId !in selected.value[|selected.value| - 1].members {
        assert !LocalActive(state.env, rows, identity.endpointId);
        return Ok(());
      }
      assert LocalActive(state.env, rows, identity.endpointId);
      ReplayUnfolds(state.env, rows, identity, dropped[i..]);
      var applied, _ := state.ApplyRosterChange(identity, dropped[i].change, None, []);
      if applied.Err? {
        return Err(applied.error);
      }
      i := i + 1;
    }
    return Ok(());
  }

  lemma {:induction false} ReplayUnfolds(e: RosterEnv, rows: Rows, identity: DeviceIdentity,
      dropped: seq<RosterRevision>)
    requires Consistent(e, rows) && |dropped| > 0 && LocalActive(e, rows, identity.endpointId)
    ensures var (next, result) := Apply(e, rows, identity, dropped[0].change);
            && Consistent(e, next)
            && Replay(e, rows, identity, identity.endpointId, dropped) ==
                 if result.Err? then (next, Err(result.error))
                 else Replay(e, next, identity, identity.endpointId, dropped[1..])
  {
    ApplyExtendsByOne(e, rows, identity, dropped[0].change);
  }
}
