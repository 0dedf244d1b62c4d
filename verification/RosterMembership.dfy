/** What a valid chain says about membership: nobody is a member who was not let in by a member,
    and nobody who was let out stays one. */
module RosterMembership {
  import opened Prelude
  import opened Bytes
  import opened Roster

  type Members = map<EndpointId, Bytes>

  /** The same memberships and names, except perhaps at one endpoint. */
  ghost predicate SameElsewhere(before: Members, after: Members, x: EndpointId)
  {
    forall y: EndpointId :: y != x ==>
        (y in before <==> y in after) && (y in before && y in after ==> before[y] == after[y])
  }

  /** The member table changed by exactly this admission or removal. */
  ghost predicate ChangedBy(before: Members, after: Members, change: RosterChange)
  {
    match change
    case Initialize(_) => false
    case Admit(m) =>
      && ValidateDeviceName(m.deviceName).Ok?
      && m.endpointId !in before && m.endpointId in after && after[m.endpointId] == m.deviceName
      && SameElsewhere(before, after, m.endpointId)
    case Remove(x) => x in before && x !in after && SameElsewhere(before, after, x)
  }

  /** `apply_change`, which edits the table it is given; a refused change leaves it alone. */
  method EditMembers(members: Members, change: RosterChange) returns (after: Members, r: Result<(), RosterError>)
    ensures r.Ok? <==> ApplyChange(members, change).Ok?
    ensures r.Ok? ==> ChangedBy(members, after, change) && ApplyChange(members, change) == Ok(after)
    ensures r.Err? ==> after == members && r.error == ApplyChange(members, change).error
  {
    after := members;
    match change {
      case Initialize(_) =>
        return after, Err(InvalidChange);
      case Admit(m) =>
        var valid := ValidateDeviceName(m.deviceName);
        if valid.Err? {
          return after, Err(valid.error);
        }
        if m.endpointId in after {
          return after, Err(AlreadyActive);
        }
        after := after[m.endpointId := m.deviceName];
      case Remove(x) =>
        if x !in after {
          return after, Err(NotActive);
        }
        after := after - {x};
    }
    return after, Ok(());
  }

  /** Exactly what makes a revision a valid child. */
  lemma {:induction false} ValidChildMeans(e: RosterEnv, parent: RosterRevision, r: RosterRevision)
    ensures IsChild(e, parent, r) <==>
            && r.groupId == parent.groupId && r.parentHash == Some(e.hash(parent))
            && r.number == parent.number + 1
            && r.author in parent.members && e.verified(r)
            && ChangedBy(parent.members, r.members, r.change)
  {
    hide ValidateDeviceName;
    if ChangedBy(parent.members, r.members, r.change) {
      TableIsDetermined(parent.members, r.members, r.change);
    }
  }

  lemma {:induction false} TableIsDetermined(before: Members, after: Members, change: RosterChange)
    requires ChangedBy(before, after, change)
    ensures ApplyChange(before, change) == Ok(after)
  {
    hide ValidateDeviceName;
    match change
    case Admit(m) =>
      assert after == before[m.endpointId := m.deviceName];
    case Remove(x) =>
      assert after == before - {x};
  }

  /** Founding a group succeeds exactly with a usable device name, and gives a one-revision chain
      whose only member is the founder. */
  lemma {:induction false} FoundingSucceeds(e: RosterEnv, groupId: GroupId, name: Bytes, creator: DeviceIdentity)
    requires Honest(e, creator)
    ensures var r := Genesis(e, groupId, name, creator);
            && (r.Ok? <==> ValidateDeviceName(name).Ok?)
            && (r.Ok? ==> IsChain(e, [r.value]))
            && (r.Ok? ==> r.value.members == map[creator.endpointId := name] && r.value.groupId == groupId)
  {
    hide ValidateDeviceName;
    var unsigned := RosterRevision(groupId, 0, None, map[creator.endpointId := name],
                                   Initialize(RosterMember(creator.endpointId, name)), creator.endpointId, 0);
    assert e.verified(unsigned.(signature := creator.sign(unsigned)));
  }

  /** Revision `i` made `x` a member: the genesis by founding the group, a later one by the act of
      a device that was a member just before. */
  predicate Introduces(chain: seq<RosterRevision>, i: nat, x: EndpointId)
    requires i < |chain|
  {
    if i == 0 then chain[0].change.Initialize? && chain[0].change.member.endpointId == x && chain[0].author == x
    else
      && chain[i].change.Admit? && chain[i].change.member.endpointId == x
      && chain[i].author in chain[i - 1].members
  }

  /** No revision from `from` on removes `x`. */
  predicate NotRemoved(chain: seq<RosterRevision>, from: nat, x: EndpointId)
  {
    forall j :: from <= j < |chain| ==> chain[j].change != Remove(x)
  }

  /** Each link of a chain is a valid child of the one before it. */
  lemma {:induction false} LinkOfChain(e: RosterEnv, parent: RosterRevision, line: seq<RosterRevision>, i: nat)
    requires IsLine(e, parent, line) && i < |line|
    ensures IsChild(e, if i == 0 then parent else line[i - 1], line[i])
    decreases i
  {
    if i > 0 {
      LinkOfChain(e, line[0], line[1..], i - 1);
    }
  }

  /** A device is a member at revision `n` of a valid chain if and only if some revision up to it
      introduced the device and none after that removed it. */
  lemma {:induction false} MembersWereIntroduced(e: RosterEnv, chain: seq<RosterRevision>, n: nat, x: EndpointId)
    requires IsChain(e, chain) && n < |chain|
    ensures x in chain[n].members <==>
            exists i :: 0 <= i <= n && Introduces(chain, i, x) && NotRemoved(chain[..n + 1], i + 1, x)
  {
    if n == 0 {
      assert x in chain[0].members <==> Introduces(chain, 0, x);
      assert NotRemoved(chain[..1], 1, x);
    } else {
      MembersWereIntroduced(e, chain, n - 1, x);
      LinkOfChain(e, chain[0], chain[1..], n - 1);
      ValidChildMeans(e, chain[n - 1], chain[n]);
      OneLinkLater(chain, n, x);
    }
  }

  lemma {:induction false} OneLinkLater(chain: seq<RosterRevision>, n: nat, x: EndpointId)
    requires 0 < n < |chain| && chain[n].author in chain[n - 1].members
    requires ChangedBy(chain[n - 1].members, chain[n].members, chain[n].change)
    requires x in chain[n - 1].members <==>
             exists i :: 0 <= i <= n - 1 && Introduces(chain, i, x) && NotRemoved(chain[..n], i + 1, x)
    ensures x in chain[n].members <==>
            exists i :: 0 <= i <= n && Introduces(chain, i, x) && NotRemoved(chain[..n + 1], i + 1, x)
  {
    hide Introduces;
    if x in chain[n].members {
      if x in chain[n - 1].members {
        var i :| 0 <= i <= n - 1 && Introduces(chain, i, x) && NotRemoved(chain[..n], i + 1, x);
        assert NotRemoved(chain[..n + 1], i + 1, x);
      } else {
        Admission(chain, n, x);
        assert NotRemoved(chain[..n + 1], n + 1, x);
      }
    }
    if i :| 0 <= i <= n && Introduces(chain, i, x) && NotRemoved(chain[..n + 1], i + 1, x) {
      StaysMember(chain, n, x, i);
    }
  }

  lemma {:induction false} StaysMember(chain: seq<RosterRevision>, n: nat, x: EndpointId, i: nat)
    requires 0 < n < |chain| && i <= n && ChangedBy(chain[n - 1].members, chain[n].members, chain[n].change)
    requires Introduces(chain, i, x) && NotRemoved(chain[..n + 1], i + 1, x)
    requires i < n && NotRemoved(chain[..n], i + 1, x) ==> x in chain[n - 1].members
    ensures x in chain[n].members
  {
    if i < n {
      assert chain[..n + 1][n] == chain[n];
      assert forall j :: i + 1 <= j < n ==> chain[..n][j] == chain[..n + 1][j];
    }
  }

  lemma {:induction false} Admission(chain: seq<RosterRevision>, n: nat, x: EndpointId)
    requires 0 < n < |chain| && chain[n].author in chain[n - 1].members
    requires ChangedBy(chain[n - 1].members, chain[n].members, chain[n].change)
    requires x in chain[n].members && x !in chain[n - 1].members
    ensures Introduces(chain, n, x)
  {
  }
}
