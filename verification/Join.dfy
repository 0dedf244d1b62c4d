/** The one-slot invitation machine of the inviting device. */
module Join {
  import opened Prelude
  import opened Bytes

  /** Nanoseconds on a clock that never goes back. */
  type Instant = nat
  type RequestId = nat

  const SECOND: nat := 1_000_000_000
  const MIN_INVITATION_LIFETIME: nat := 60 * SECOND
  const MAX_INVITATION_LIFETIME: nat := 900 * SECOND

  type Nonce = s: seq<bv8> | |s| == 32 witness seq(32, _ => 0)

  /** `SecretNonce::matches`: no early exit, every difference is accumulated. */
  method NonceMatches(mine: Nonce, other: Nonce) returns (equal: bool)
    ensures equal <==> mine == other
  {
    var difference: bv8 := 0;
    var index := 0;
    while index < 32
      invariant 0 <= index <= 32
      invariant difference == 0 <==> forall i :: 0 <= i < index ==> mine[i] == other[i]
    {
      DifferenceIsKept(difference, mine[index], other[index]);
      difference := difference | (mine[index] ^ other[index]);
      index := index + 1;
    }
    return difference == 0;
  }

  lemma {:induction false} DifferenceIsKept(difference: bv8, x: bv8, y: bv8)
    ensures difference | (x ^ y) == 0 <==> difference == 0 && x == y
  {
  }

  datatype JoinInfo = JoinInfo(requestId: RequestId, endpoint: Bytes32, deviceName: Bytes)

  datatype JoinState =
    | Idle
    | Active(nonce: Nonce, deadline: Instant)
    | Pending(info: JoinInfo, address: Bytes, pendingDeadline: Instant)

  datatype JoinError =
    | InvalidInvitationLifetime
    | InvitationBusy
    | InvitationUnavailable
    | UnknownJoinRequest
    | JoinerGone
    | InvalidDeviceName
    | InvalidAddress

  // ---------------------------------------------------------------- transitions

  function Expire(s: JoinState, now: Instant): JoinState
  {
    match s
    case Idle => Idle
    case Active(_, deadline) => if now >= deadline then Idle else s
    case Pending(_, _, deadline) => if now >= deadline then Idle else s
  }

  /** `activate`; the clock is read once for expiry and again for the deadline. */
  function Activated(s: JoinState, nonce: Nonce, lifetime: nat, now: Instant, later: Instant): (JoinState,
      Result<(), JoinError>)
  {
    if !(MIN_INVITATION_LIFETIME <= lifetime <= MAX_INVITATION_LIFETIME) then (s, Err(InvalidInvitationLifetime))
    else
      var current := Expire(s, now);
      if !current.Idle? then (current, Err(InvitationBusy)) else (Active(nonce, later + lifetime), Ok(()))
  }

  /** What a claim hands to the caller: the time left and the request's identifier. */
  datatype Claimed = Claimed(remaining: nat, requestId: RequestId)

  /** `claim`.  `invalid` is the error of the name or address check, if one fails. */
  function Claims(s: JoinState, nonce: Nonce, invalid: Option<JoinError>, info: JoinInfo, address: Bytes,
      now: Instant, later: Instant)
    : (JoinState, Result<Claimed, JoinError>)
  {
    if invalid.Some? then (s, Err(invalid.value))
    else
      var current := Expire(s, now);
      if !current.Active? || current.nonce != nonce || later >= current.deadline
      then (current, Err(InvitationUnavailable))
      else (Pending(info, address, current.deadline), Ok(Claimed(current.deadline - later, info.requestId)))
  }

  predicate IsPending(s: JoinState, id: RequestId)
  {
    s.Pending? && s.info.requestId == id
  }

  /** `decide`: `listening` says whether the claimant still waits for the decision. */
  function Decided(s: JoinState, id: RequestId, now: Instant, listening: bool): (JoinState, Result<(), JoinError>)
  {
    var current := Expire(s, now);
    if !IsPending(current, id) then (current, Err(UnknownJoinRequest))
    else (Idle, if listening then Ok(()) else Err(JoinerGone))
  }

  function Cancelled(s: JoinState, id: RequestId): JoinState
  {
    if IsPending(s, id) then Idle else s
  }

  class JoinCoordinator {
    var state: JoinState

    constructor ()
      ensures state == Idle
    {
      state := Idle;
    }

    method ExpireLocked(now: Instant)
      modifies this
      ensures state == Expire(old(state), now)
    {
      var expired :=
        match state
        case Idle => false
        case Active(_, deadline) => now >= deadline
        case Pending(_, _, deadline) => now >= deadline;
      if expired {
        state := Idle;
      }
    }

    method Activate(nonce: Nonce, lifetime: nat, now: Instant, later: Instant) returns (r: Result<(), JoinError>)
      modifies this
      ensures (state, r) == Activated(old(state), nonce, lifetime, now, later)
    {
      if !(MIN_INVITATION_LIFETIME <= lifetime <= MAX_INVITATION_LIFETIME) {
        return Err(InvalidInvitationLifetime);
      }
      ExpireLocked(now);
      if !state.Idle? {
        return Err(InvitationBusy);
      }
      state := Active(nonce, later + lifetime);
      return Ok(());
    }

    method PendingInfo(now: Instant) returns (r: Option<JoinInfo>)
      modifies this
      ensures state == Expire(old(state), now)
      ensures r == if state.Pending? then Some(state.info) else None
    {
      ExpireLocked(now);
      return if state.Pending? then Some(state.info) else None;
    }

    method PendingAddress(id: RequestId, now: Instant) returns (r: Result<(JoinInfo, Bytes), JoinError>)
      modifies this
      ensures state == Expire(old(state), now)
      ensures r == if IsPending(state, id) then Ok((state.info, state.address)) else Err(UnknownJoinRequest)
    {
      ExpireLocked(now);
      if !state.Pending? || state.info.requestId != id {
        return Err(UnknownJoinRequest);
      }
      return Ok((state.info, state.address));
    }

    method Decide(id: RequestId, now: Instant, listening: bool) returns (r: Result<(), JoinError>)
      modifies this
      ensures (state, r) == Decided(old(state), id, now, listening)
    {
      ExpireLocked(now);
      if !state.Pending? || state.info.requestId != id {
        return Err(UnknownJoinRequest);
      }
      state := Idle;
      return if listening then Ok(()) else Err(JoinerGone);
    }

    method Cancel(id: RequestId)
      modifies this
      ensures state == Cancelled(old(state), id)
    {
      if state.Pending? && state.info.requestId == id {
        state := Idle;
      }
    }

    method Claim(nonce: Nonce, invalid: Option<JoinError>, info: JoinInfo, address: Bytes, now: Instant, later: Instant)
      returns (r: Result<Claimed, JoinError>)
      modifies this
      ensures (state, r) == Claims(old(state), nonce, invalid, info, address, now, later)
    {
      if invalid.Some? {
        return Err(invalid.value);
      }
      ExpireLocked(now);
      if !state.Active? {
        return Err(InvitationUnavailable);
      }
      var matches := NonceMatches(state.nonce, nonce);
      if !matches {
        return Err(InvitationUnavailable);
      }
      var remaining := if state.deadline > later then state.deadline - later else 0;
      if remaining == 0 {
        return Err(InvitationUnavailable);
      }
      state := Pending(info, address, state.deadline);
      return Ok(Claimed(remaining, info.requestId));
    }
  }

  // ---------------------------------------------------------------- runs

  datatype Event =
    | ActivateEvent(nonce: Nonce, lifetime: nat)
    | ClaimEvent(nonce: Nonce, invalid: Option<JoinError>, info: JoinInfo, address: Bytes)
    | DecideEvent(id: RequestId, listening: bool)
    | CancelEvent(id: RequestId)
    | LookEvent

  /** An event and its two clock readings. */
  datatype Timed = Timed(event: Event, now: Instant, later: Instant)

  datatype Activation = Activation(nonce: Nonce, deadline: Instant)
  datatype ClaimEntry = ClaimEntry(activation: nat, nonce: Nonce, id: RequestId, at: Instant)
  datatype DecisionEntry = DecisionEntry(claim: nat, id: RequestId, at: Instant)

  /** The slot together with what has been granted: a successful claim is entered against the
      latest activation, a decision that found its request against the latest claim. */
  datatype Ledger = Ledger(state: JoinState, activations: seq<Activation>, claims: seq<ClaimEntry>,
      decisions: seq<DecisionEntry>)

  function After(l: Ledger, t: Timed): Ledger
  {
    match t.event
    case ActivateEvent(nonce, lifetime) =>
      var (state, r) := Activated(l.state, nonce, lifetime, t.now, t.later);
      Ledger(state,
             if r.Ok? then l.activations + [Activation(nonce, t.later + lifetime)] else l.activations,
             l.claims, l.decisions)
    case ClaimEvent(nonce, invalid, info, address) =>
      var (state, r) := Claims(l.state, nonce, invalid, info, address, t.now, t.later);
      l.(state := state,
         claims := if r.Ok? && |l.activations| > 0
                   then l.claims + [ClaimEntry(|l.activations| - 1, nonce, info.requestId, t.later)]
                   else l.claims)
    case DecideEvent(id, listening) =>
      var (state, r) := Decided(l.state, id, t.now, listening);
      l.(state := state,
         decisions := if r != Err(UnknownJoinRequest) && |l.claims| > 0
                      then l.decisions + [DecisionEntry(|l.claims| - 1, id, t.now)]
                      else l.decisions)
    case CancelEvent(id) => l.(state := Cancelled(l.state, id))
    case LookEvent => l.(state := Expire(l.state, t.now))
  }

  const START: Ledger := Ledger(Idle, [], [], [])

  function Run(events: seq<Timed>): Ledger
  {
    if |events| == 0 then START else After(Run(events[..|events| - 1]), events[|events| - 1])
  }

  /** Clock readings never go back. */
  predicate ClockOrder(events: seq<Timed>)
  {
    && (forall i :: 0 <= i < |events| ==> events[i].now <= events[i].later)
    && (forall i :: 0 < i < |events| ==> events[i - 1].later <= events[i].now)
  }

  /** Each claim: one activation, with its nonce, before its deadline; no two claims share one. */
  predicate ClaimsOk(l: Ledger)
  {
    && (forall i :: 0 <= i < |l.claims| ==>
          var c := l.claims[i];
          c.activation < |l.activations| && c.nonce == l.activations[c.activation].nonce
              && c.at < l.activations[c.activation].deadline)
    && (forall i, j :: 0 <= i < j < |l.claims| ==> l.claims[i].activation < l.claims[j].activation)
  }

  /** Each decision: one claim, its request, after it and before the deadline fixed when its
      invitation was activated; no two decisions share one. */
  predicate DecisionsOk(l: Ledger)
    requires ClaimsOk(l)
  {
    && (forall i :: 0 <= i < |l.decisions| ==> DecisionOk(l, l.decisions[i]))
    && (forall i, j :: 0 <= i < j < |l.decisions| ==> l.decisions[i].claim < l.decisions[j].claim)
  }

  predicate DecisionOk(l: Ledger, d: DecisionEntry)
    requires ClaimsOk(l)
  {
    && d.claim < |l.claims|
    && d.id == l.claims[d.claim].id
    && l.claims[d.claim].at <= d.at < l.activations[l.claims[d.claim].activation].deadline
  }

  /** The slot's contents are what the ledger's last entries granted and nobody has used. */
  predicate SlotOk(l: Ledger, now: Instant)
    requires ClaimsOk(l) && DecisionsOk(l)
  {
    match l.state
    case Idle => true
    case Active(nonce, deadline) =>
      && |l.activations| > 0 && l.activations[|l.activations| - 1] == Activation(nonce, deadline)
      && (|l.claims| > 0 ==> l.claims[|l.claims| - 1].activation < |l.activations| - 1)
    case Pending(info, _, deadline) =>
      && |l.claims| > 0
      && var c := l.claims[|l.claims| - 1];
      && c.activation == |l.activations| - 1 && c.id == info.requestId && c.at <= now
      && l.activations[c.activation].deadline == deadline
      && (|l.decisions| > 0 ==> l.decisions[|l.decisions| - 1].claim < |l.claims| - 1)
  }

  predicate LedgerOk(l: Ledger, now: Instant)
  {
    ClaimsOk(l) && DecisionsOk(l) && SlotOk(l, now)
  }

  lemma {:induction false} LaterIsOk(l: Ledger, before: Instant, now: Instant)
    requires LedgerOk(l, before) && before <= now
    ensures LedgerOk(l, now) && LedgerOk(l.(state := Idle), now)
  {
    var idle := l.(state := Idle);
    assert forall i :: 0 <= i < |l.decisions| ==> DecisionOk(l, l.decisions[i]);
    assert forall i :: 0 <= i < |l.decisions| ==> DecisionOk(idle, idle.decisions[i]);
  }

  lemma {:induction false} GrantActivation(l: Ledger, a: Activation, now: Instant)
    requires LedgerOk(l, now)
    ensures LedgerOk(Ledger(Active(a.nonce, a.deadline), l.activations + [a], l.claims, l.decisions), now)
  {
    var next := Ledger(Active(a.nonce, a.deadline), l.activations + [a], l.claims, l.decisions);
    assert forall i :: 0 <= i < |l.activations| ==> next.activations[i] == l.activations[i];
    forall i | 0 <= i < |l.decisions|
      ensures DecisionOk(next, next.decisions[i])
    {
      assert DecisionOk(l, l.decisions[i]);
    }
  }

  lemma {:induction false} GrantClaim(l: Ledger, info: JoinInfo, address: Bytes, now: Instant)
    requires LedgerOk(l, now) && l.state.Active? && now < l.state.deadline
    ensures var c := ClaimEntry(|l.activations| - 1, l.state.nonce, info.requestId, now);
            LedgerOk(Ledger(Pending(info, address, l.state.deadline), l.activations, l.claims + [c], l.decisions), now)
  {
    var c := ClaimEntry(|l.activations| - 1, l.state.nonce, info.requestId, now);
    var next := Ledger(Pending(info, address, l.state.deadline), l.activations, l.claims + [c], l.decisions);
    assert ClaimsOk(next) by {
      assert forall i :: 0 <= i < |l.claims| ==> next.claims[i] == l.claims[i];
    }
    forall i | 0 <= i < |l.decisions|
      ensures DecisionOk(next, next.decisions[i])
    {
      assert DecisionOk(l, l.decisions[i]);
    }
  }

  lemma {:induction false} GrantDecision(l: Ledger, now: Instant)
    requires LedgerOk(l, now) && l.state.Pending? && now < l.state.pendingDeadline
    ensures var d := DecisionEntry(|l.claims| - 1, l.state.info.requestId, now);
            LedgerOk(Ledger(Idle, l.activations, l.claims, l.decisions + [d]), now)
  {
    var d := DecisionEntry(|l.claims| - 1, l.state.info.requestId, now);
    var next := Ledger(Idle, l.activations, l.claims, l.decisions + [d]);
    forall i | 0 <= i < |next.decisions|
      ensures DecisionOk(next, next.decisions[i])
    {
      assert i < |l.decisions| ==> next.decisions[i] == l.decisions[i] && DecisionOk(l, l.decisions[i]);
    }
  }

  lemma {:induction false} SlotHasEntry(l: Ledger, now: Instant)
    requires LedgerOk(l, now)
    ensures l.state.Active? ==> |l.activations| > 0 && l.state.nonce == l.activations[|l.activations| - 1].nonce
    ensures l.state.Pending? ==> |l.claims| > 0
  {
  }

  lemma {:induction false} StepKeepsLedger(l: Ledger, t: Timed, before: Instant)
    requires LedgerOk(l, before) && before <= t.now <= t.later
    ensures LedgerOk(After(l, t), t.later)
  {
    hide LedgerOk;
    LaterIsOk(l, before, t.now);
    var current := l.(state := Expire(l.state, t.now));
    assert current == l || current == l.(state := Idle);
    LaterIsOk(current, t.now, t.later);
    LaterIsOk(l, t.now, t.later);
    match t.event
    case ActivateEvent(nonce, lifetime) =>
      GrantActivation(current, Activation(nonce, t.later + lifetime), t.later);
    case ClaimEvent(nonce, invalid, info, address) =>
      if current.state.Active? && t.later < current.state.deadline {
        SlotHasEntry(current, t.later);
        GrantClaim(current, info, address, t.later);
      }
    case DecideEvent(id, listening) =>
      if current.state.Pending? {
        SlotHasEntry(current, t.now);
        GrantDecision(current, t.now);
        var decided := l.decisions + [DecisionEntry(|l.claims| - 1, current.state.info.requestId, t.now)];
        LaterIsOk(Ledger(Idle, l.activations, l.claims, decided), t.now, t.later);
      }
    case CancelEvent(id) =>
    case LookEvent =>
  }

  /** Over all runs: each activation yields at most one claim, only with its own nonce and before
      its deadline; each claim gets at most one decision, also before that deadline. */
  lemma {:induction false} RunsKeepLedger(events: seq<Timed>)
    requires ClockOrder(events)
    ensures LedgerOk(Run(events), if |events| == 0 then 0 else events[|events| - 1].later)
  {
    hide LedgerOk, After;
    if |events| == 0 {
      StartIsOk();
    } else {
      var n := |events| - 1;
      RunsKeepLedger(events[..n]);
      StepKeepsLedger(Run(events[..n]), events[n], if n == 0 then 0 else events[n - 1].later);
    }
  }

  lemma {:induction false} StartIsOk()
    ensures LedgerOk(START, 0)
  {
  }

  /** The slot can be taken exactly when, expired contents aside, it is empty. */
  lemma {:induction false} ActivationSucceeds(s: JoinState, nonce: Nonce, lifetime: nat, now: Instant, later: Instant)
    ensures Activated(s, nonce, lifetime, now, later).1.Ok? <==>
            && MIN_INVITATION_LIFETIME <= lifetime <= MAX_INVITATION_LIFETIME
            && match s
               case Idle => true
               case Active(_, deadline) => now >= deadline
               case Pending(_, _, deadline) => now >= deadline
  {
  }

  /** A decision and a cancellation free the slot at once, as the passing of the deadline does. */
  lemma {:induction false} SlotIsReusable(s: JoinState, id: RequestId, nonce: Nonce, lifetime: nat, now: Instant,
      later: Instant, listening: bool)
    requires MIN_INVITATION_LIFETIME <= lifetime <= MAX_INVITATION_LIFETIME
    ensures var (decided, r) := Decided(s, id, now, listening);
            r != Err(UnknownJoinRequest) ==> Activated(decided, nonce, lifetime, now, later).1.Ok?
    ensures IsPending(s, id) ==> Activated(Cancelled(s, id), nonce, lifetime, now, later).1.Ok?
    ensures s.Active? && now >= s.deadline ==> Activated(s, nonce, lifetime, now, later).1.Ok?
    ensures s.Pending? && now >= s.pendingDeadline ==> Activated(s, nonce, lifetime, now, later).1.Ok?
  {
  }

  /** A wrong nonce changes nothing but what time changes. */
  lemma {:induction false} WrongNonceLeavesSlot(s: JoinState, nonce: Nonce, invalid: Option<JoinError>,
      info: JoinInfo, address: Bytes, now: Instant, later: Instant)
    requires s.Active? && nonce != s.nonce
    ensures var (next, r) := Claims(s, nonce, invalid, info, address, now, later);
            r.Err? && (next == s || (next == Idle && now >= s.deadline))
  {
  }

  predicate WithinLifetime(s: JoinState, now: Instant)
  {
    match s
    case Idle => true
    case Active(_, deadline) => deadline <= now + MAX_INVITATION_LIFETIME
    case Pending(_, _, deadline) => deadline <= now + MAX_INVITATION_LIFETIME
  }

  lemma {:induction false} StepKeepsLifetime(l: Ledger, t: Timed, before: Instant)
    requires WithinLifetime(l.state, before) && before <= t.now <= t.later
    ensures WithinLifetime(After(l, t).state, t.later)
  {
  }

  /** An invitation never outlives its longest lifetime: whatever is in the slot, that long after
      the last event the slot is free. */
  lemma {:induction false} SlotFreesItself(events: seq<Timed>, nonce: Nonce, lifetime: nat, now: Instant,
      later: Instant)
    requires ClockOrder(events) && |events| > 0 && MIN_INVITATION_LIFETIME <= lifetime <= MAX_INVITATION_LIFETIME
    requires now >= events[|events| - 1].later + MAX_INVITATION_LIFETIME
    ensures Activated(Run(events).state, nonce, lifetime, now, later).1.Ok?
  {
    RunsStayWithinLifetime(events);
  }

  lemma {:induction false} RunsStayWithinLifetime(events: seq<Timed>)
    requires ClockOrder(events)
    ensures WithinLifetime(Run(events).state, if |events| == 0 then 0 else events[|events| - 1].later)
  {
    hide After, WithinLifetime;
    if |events| == 0 {
      EmptySlot();
    } else {
      var n := |events| - 1;
      RunsStayWithinLifetime(events[..n]);
      StepKeepsLifetime(Run(events[..n]), events[n], if n == 0 then 0 else events[n - 1].later);
    }
  }

  lemma {:induction false} EmptySlot()
    ensures WithinLifetime(START.state, 0)
  {
  }
}
