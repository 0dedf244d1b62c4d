/** Roster revisions: the signed, hash-linked tree of membership changes and the rule that
    selects one branch of it. */
module Roster {
  import opened Prelude
  import opened Bytes
  import opened Canonical

  type EndpointId = Bytes32
  type GroupId = Bytes32
  type RosterHash = Bytes32

  datatype RosterMember = RosterMember(endpointId: EndpointId, deviceName: Bytes)

  datatype RosterChange =
    | Initialize(member: RosterMember)
    | Admit(member: RosterMember)
    | Remove(endpointId: EndpointId)

  datatype RosterRevision = RosterRevision(
    groupId: GroupId,
    number: u64,
    parentHash: Option<RosterHash>,
    members: map<EndpointId, Bytes>,
    change: RosterChange,
    author: EndpointId,
    signature: Bytes64)

  datatype RosterError =
    | InvalidGenesis
    | WrongParent
    | AuthorNotActive
    | WrongMembers
    | InvalidChange
    | InvalidDeviceName
    | AlreadyActive
    | NotActive
    | RevisionOverflow
    | InvalidSignature
    | MemberLimit
    | BadEncoding(encoding: CanonicalError)

  /** The two cryptographic primitives, as arbitrary functions: `hash` is the digest of a
      revision's canonical bytes and `verified` says whether the revision's signature is its
      author's over the unsigned bytes.  `RosterCodec` builds an instance from a hash and a
      verifier on bytes. */
  datatype RosterEnv = RosterEnv(hash: RosterRevision -> RosterHash, verified: RosterRevision -> bool)

  /** A device's signing key. */
  datatype DeviceIdentity = DeviceIdentity(endpointId: EndpointId, sign: RosterRevision -> Bytes64)

  /** What a signature scheme promises: whatever the key signs verifies under its endpoint. */
  ghost predicate Honest(e: RosterEnv, identity: DeviceIdentity)
  {
    forall r: RosterRevision {:trigger identity.sign(r)} :: r.author == identity.endpointId ==>
      e.verified(r.(signature := identity.sign(r)))
  }

  function ValidateDeviceName(name: Bytes): Result<(), RosterError>
  {
    if IsBlank(name) || |name| > U32_MAX then Err(InvalidDeviceName) else Ok(())
  }

  function NewMember(endpointId: EndpointId, name: Bytes): Result<RosterMember, RosterError>
  {
    var _ :- ValidateDeviceName(name);
    Ok(RosterMember(endpointId, name))
  }

  function SelectionPriority(change: RosterChange): nat
  {
    if change.Remove? then 1 else 0
  }

  function ApplyChange(members: map<EndpointId, Bytes>,
      change: RosterChange): Result<map<EndpointId, Bytes>, RosterError>
  {
    match change
    case Initialize(_) => Err(InvalidChange)
    case Admit(member) =>
      var _ :- ValidateDeviceName(member.deviceName);
      if member.endpointId in members then Err(AlreadyActive)
      else Ok(members[member.endpointId := member.deviceName])
    case Remove(endpointId) =>
      if endpointId !in members then Err(NotActive) else Ok(members - {endpointId})
  }

  function ValidateGenesis(e: RosterEnv, r: RosterRevision): Result<(), RosterError>
  {
    if r.number != 0 || r.parentHash.Some? then Err(InvalidGenesis)
    else if !r.change.Initialize? then Err(InvalidGenesis)
    else if r.author != r.change.member.endpointId
            || r.members != map[r.change.member.endpointId := r.change.member.deviceName] then Err(InvalidGenesis)
    else if !e.verified(r) then Err(InvalidSignature)
    else Ok(())
  }

  function ValidateChild(e: RosterEnv, r: RosterRevision, parent: RosterRevision): Result<(), RosterError>
  {
    if r.groupId != parent.groupId then Err(WrongParent)
    else if parent.number == U64_MAX then Err(RevisionOverflow)
    else if r.number != parent.number + 1 || r.parentHash != Some(e.hash(parent)) then Err(WrongParent)
    else if r.author !in parent.members then Err(AuthorNotActive)
    else if r.change.Initialize? then Err(InvalidChange)
    else
      var expected :- ApplyChange(parent.members, r.change);
      if expected != r.members then Err(WrongMembers)
      else if !e.verified(r) then Err(InvalidSignature)
      else Ok(())
  }

  function Genesis(e: RosterEnv, groupId: GroupId, name: Bytes,
      creator: DeviceIdentity): Result<RosterRevision, RosterError>
  {
    var member :- NewMember(creator.endpointId, name);
    var unsigned := RosterRevision(groupId, 0, None, map[member.endpointId := member.deviceName],
                                   Initialize(member), creator.endpointId, 0);
    var revision := unsigned.(signature := creator.sign(unsigned));
    var _ :- ValidateGenesis(e, revision);
    Ok(revision)
  }

  function Child(e: RosterEnv, parent: RosterRevision, change: RosterChange,
      author: DeviceIdentity): Result<RosterRevision, RosterError>
  {
    if author.endpointId !in parent.members then Err(AuthorNotActive)
    else if change.Initialize? then Err(InvalidChange)
    else
      var members :- ApplyChange(parent.members, change);
      if parent.number == U64_MAX then Err(RevisionOverflow)
      else
        var unsigned := RosterRevision(parent.groupId, parent.number + 1, Some(e.hash(parent)), members,
                                       change, author.endpointId, 0);
        var revision := unsigned.(signature := author.sign(unsigned));
        var _ :- ValidateChild(e, revision, parent);
        Ok(revision)
  }

  predicate IsChild(e: RosterEnv, parent: RosterRevision, r: RosterRevision)
  {
    ValidateChild(e, r, parent).Ok?
  }

  /** The selection key: removals before admissions, then the greater hash. */
  predicate KeyLess(e: RosterEnv, a: RosterRevision, b: RosterRevision)
  {
    var pa, pb := SelectionPriority(a.change), SelectionPriority(b.change);
    pa < pb || (pa == pb && e.hash(a) < e.hash(b))
  }

  /** `filter(validate_child).max_by_key(...)`: among several greatest keys the last one. */
  function SelectChild(e: RosterEnv, parent: RosterRevision, candidates: seq<RosterRevision>): Option<RosterRevision>
  {
    if |candidates| == 0 then None
    else
      var last := candidates[|candidates| - 1];
      var best := SelectChild(e, parent, candidates[..|candidates| - 1]);
      if !IsChild(e, parent, last) then best
      else if best.None? || !KeyLess(e, last, best.value) then Some(last)
      else best
  }

  lemma {:induction false} SelectChildIsCandidate(e: RosterEnv, parent: RosterRevision, candidates: seq<RosterRevision>)
    ensures var c := SelectChild(e, parent, candidates);
            c.Some? ==> c.value in candidates && IsChild(e, parent, c.value)
  {
    if |candidates| > 0 {
      SelectChildIsCandidate(e, parent, candidates[..|candidates| - 1]);
    }
  }

  /** The branch that starts below `parent`.  A child's number is its parent's plus one, which
      bounds the walk however the candidates are linked. */
  function Branch(e: RosterEnv, parent: RosterRevision, candidates: seq<RosterRevision>): seq<RosterRevision>
    decreases U64_MAX - parent.number
  {
    match SelectChild(e, parent, candidates)
    case None => []
    case Some(child) =>
      SelectChildIsCandidate(e, parent, candidates);
      [child] + Branch(e, child, candidates)
  }

  method SelectChain(e: RosterEnv, genesis: RosterRevision, candidates: seq<RosterRevision>)
    returns (r: Result<seq<RosterRevision>, RosterError>)
    ensures r == if ValidateGenesis(e, genesis).Err? then Err(ValidateGenesis(e, genesis).error)
                 else Ok(Branch(e, genesis, candidates))
  {
    var _ :- ValidateGenesis(e, genesis);
    var selected := [];
    var parent := genesis;
    var next := SelectChild(e, parent, candidates);
    while next.Some?
      invariant next == SelectChild(e, parent, candidates)
      invariant Branch(e, genesis, candidates) == selected + Branch(e, parent, candidates)
      decreases U64_MAX - parent.number, next.Some?
    {
      SelectChildIsCandidate(e, parent, candidates);
      selected := selected + [next.value];
      parent := next.value;
      next := SelectChild(e, parent, candidates);
    }
    assert Branch(e, genesis, candidates) == selected;
    return Ok(selected);
  }

  /** Consecutive revisions are parent and valid child, starting below `parent`. */
  predicate IsLine(e: RosterEnv, parent: RosterRevision, line: seq<RosterRevision>)
    decreases |line|
  {
    |line| == 0 || (IsChild(e, parent, line[0]) && IsLine(e, line[0], line[1..]))
  }

  /** A whole chain as it is stored and sent: a valid genesis followed by a line. */
  predicate IsChain(e: RosterEnv, chain: seq<RosterRevision>)
  {
    |chain| > 0 && ValidateGenesis(e, chain[0]).Ok? && IsLine(e, chain[0], chain[1..])
  }

  /** The first reason a line below `parent` is not valid, if there is one. */
  function CheckLine(e: RosterEnv, parent: RosterRevision, line: seq<RosterRevision>): (r: Result<(), RosterError>)
    ensures r.Ok? <==> IsLine(e, parent, line)
    decreases |line|
  {
    if |line| == 0 then Ok(())
    else
      var _ :- ValidateChild(e, line[0], parent);
      CheckLine(e, line[0], line[1..])
  }

  function CheckChain(e: RosterEnv, chain: seq<RosterRevision>): (r: Result<(), RosterError>)
    requires |chain| > 0
    ensures r.Ok? <==> IsChain(e, chain)
  {
    var _ :- ValidateGenesis(e, chain[0]);
    CheckLine(e, chain[0], chain[1..])
  }

  /** Validates a received chain: its genesis, then every adjacent pair. */
  method ValidateChain(e: RosterEnv, chain: seq<RosterRevision>) returns (r: Result<(), RosterError>)
    requires |chain| > 0
    ensures r == CheckChain(e, chain)
  {
    var _ :- ValidateGenesis(e, chain[0]);
    var i := 1;
    while i < |chain|
      invariant 1 <= i <= |chain|
      invariant CheckLine(e, chain[0], chain[1..]) == CheckLine(e, chain[i - 1], chain[i..])
    {
      assert chain[i..][1..] == chain[i + 1..];
      var _ :- ValidateChild(e, chain[i], chain[i - 1]);
      i := i + 1;
    }
    return Ok(());
  }
}
