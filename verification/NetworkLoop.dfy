/** The daemon's network loop: which peers have a session in flight, and when those who asked for
    a synchronisation are answered. */
module NetworkLoop {
  import opened Prelude
  import opened Bytes

  type Peer = Bytes32
  type Waiter = nat
  type Instant = nat

  /** A 64-bit `usize`. */
  const USIZE_MAX: int := U64_MAX

  datatype Summary = Summary(attempted: nat, succeeded: nat)

  const NO_SUMMARY: Summary := Summary(0, 0)

  datatype Command = Trigger | Sync(waiter: Waiter) | Shutdown(completed: Waiter)

  /** A spawned task; incoming ones are numbered. */
  datatype Task = Outgoing(peer: Peer) | Incoming(id: nat)

  datatype Outcome =
    | Synchronized(changed: bool)
    | Unreachable
    | Rejected(changed: bool)
    | LocalFailure

  /** `reconcile_again`. */
  predicate ReconcileAgain(o: Outcome)
  {
    (o.Synchronized? || o.Rejected?) && o.changed
  }

  /** What the select at the end of an iteration yields. */
  datatype Happening =
    | Accepted(id: nat)
    | Completed(task: Task, outcome: Outcome)
    | Panicked(task: Task)
    | Tick

  function SaturatingIncrement(x: nat): nat
  {
    if x < USIZE_MAX then x + 1 else USIZE_MAX
  }

  /** The loop's variables, and every answer sent so far with the sessions then in flight. */
  datatype LoopState = LoopState(
    live: multiset<Task>,
    outgoing: set<Peer>,
    waiters: seq<Waiter>,
    pendingTrigger: bool,
    deferredTrigger: bool,
    summary: Summary,
    nextPeriodic: Instant,
    stopping: Option<Waiter>,
    answers: seq<(Waiter, Summary)>)

  // ---------------------------------------------------------------- the parts of an iteration

  function Receive(s: LoopState, c: Command): LoopState
  {
    match c
    case Trigger =>
      if |s.waiters| == 0 then s.(pendingTrigger := true) else s.(deferredTrigger := true)
    case Sync(waiter) =>
      if |s.waiters| == 0 then
        s.(summary := Summary(|s.outgoing|, 0), pendingTrigger := true, waiters := [waiter])
      else s.(waiters := s.waiters + [waiter])
    case Shutdown(completed) => s.(stopping := Some(completed))
  }

  function ReceiveAll(s: LoopState, commands: seq<Command>): LoopState
  {
    if |commands| == 0 then s else Receive(ReceiveAll(s, commands[..|commands| - 1]), commands[|commands| - 1])
  }

  function Periodic(s: LoopState, now: Instant, later: Instant, interval: nat): LoopState
  {
    if now < s.nextPeriodic then s
    else s.(pendingTrigger := s.pendingTrigger || |s.waiters| == 0, nextPeriodic := later + interval)
  }

  function SpawnOne(s: LoopState, peer: Peer): LoopState
  {
    if peer in s.outgoing then s
    else
      s.(outgoing := s.outgoing + {peer}, live := s.live + multiset{Outgoing(peer)},
         summary := if |s.waiters| == 0 then s.summary
                    else s.summary.(attempted := SaturatingIncrement(s.summary.attempted)))
  }

  function SpawnAll(s: LoopState, peers: seq<Peer>): LoopState
  {
    if |peers| == 0 then s else SpawnOne(SpawnAll(s, peers[..|peers| - 1]), peers[|peers| - 1])
  }

  /** The active peers are read from the roster; if that fails nothing is started, and the trigger
      is used up all the same. */
  function Start(s: LoopState, peers: Option<seq<Peer>>): LoopState
  {
    if !s.pendingTrigger then s
    else
      var cleared := s.(pendingTrigger := false);
      if peers.None? then cleared else SpawnAll(cleared, peers.value)
  }

  function AnswersTo(waiters: seq<Waiter>, summary: Summary): (r: seq<(Waiter, Summary)>)
    ensures |r| == |waiters| && forall i :: 0 <= i < |waiters| ==> r[i] == (waiters[i], summary)
  {
    seq(|waiters|, i requires 0 <= i < |waiters| => (waiters[i], summary))
  }

  function Answer(s: LoopState): LoopState
  {
    if s.outgoing != {} || |s.waiters| == 0 then s
    else
      s.(answers := s.answers + AnswersTo(s.waiters, s.summary), waiters := [], summary := NO_SUMMARY,
         pendingTrigger := s.pendingTrigger || s.deferredTrigger, deferredTrigger := false)
  }

  /** A panic takes the task out of the live ones, and nothing else happens. */
  function Handle(s: LoopState, h: Happening): LoopState
  {
    match h
    case Accepted(id) => s.(live := s.live + multiset{Incoming(id)})
    case Panicked(task) => s.(live := s.live - multiset{task})
    case Tick => s
    case Completed(task, outcome) =>
      var counted := task.Outgoing? && outcome.Synchronized? && |s.waiters| > 0;
      s.(live := s.live - multiset{task},
         outgoing := if task.Outgoing? then s.outgoing - {task.peer} else s.outgoing,
         summary := if counted then s.summary.(succeeded := SaturatingIncrement(s.summary.succeeded)) else s.summary,
         pendingTrigger := s.pendingTrigger || ReconcileAgain(outcome))
  }

  // ---------------------------------------------------------------- the loop

  class Loop {
    const interval: nat
    var live: multiset<Task>
    var outgoing: set<Peer>
    var waiters: seq<Waiter>
    var pendingTrigger: bool
    var deferredTrigger: bool
    var summary: Summary
    var nextPeriodic: Instant
    var stopping: Option<Waiter>
    var answers: seq<(Waiter, Summary)>

    ghost function State(): LoopState
      reads this
    {
      LoopState(live, outgoing, waiters, pendingTrigger, deferredTrigger, summary, nextPeriodic, stopping, answers)
    }

    constructor (interval: nat, now: Instant)
      ensures State() == Initial(now + interval) && this.interval == interval
    {
      this.interval := interval;
      live, outgoing, waiters := multiset{}, {}, [];
      pendingTrigger, deferredTrigger, summary := true, false, NO_SUMMARY;
      nextPeriodic, stopping, answers := now + interval, None, [];
    }

    method ReceiveCommands(commands: seq<Command>)
      modifies this
      ensures State() == ReceiveAll(old(State()), commands)
    {
      ghost var before := State();
      for i := 0 to |commands|
        invariant State() == ReceiveAll(before, commands[..i])
      {
        assert commands[..i + 1][..i] == commands[..i];
        match commands[i]
        case Trigger =>
          if |waiters| == 0 {
            pendingTrigger := true;
          } else {
            deferredTrigger := true;
          }
        case Sync(waiter) =>
          if |waiters| == 0 {
            summary := Summary(|outgoing|, 0);
            pendingTrigger := true;
          }
          waiters := waiters + [waiter];
        case Shutdown(completed) =>
          stopping := Some(completed);
      }
      assert commands[..|commands|] == commands;
    }

    method SpawnPeers(peers: seq<Peer>)
      modifies this
      ensures State() == SpawnAll(old(State()), peers)
    {
      ghost var before := State();
      for i := 0 to |peers|
        invariant State() == SpawnAll(before, peers[..i])
      {
        assert peers[..i + 1][..i] == peers[..i];
        if peers[i] in outgoing {
          continue;
        }
        outgoing := outgoing + {peers[i]};
        if |waiters| > 0 {
          summary := summary.(attempted := SaturatingIncrement(summary.attempted));
        }
        live := live + multiset{Outgoing(peers[i])};
      }
      assert peers[..|peers|] == peers;
    }

    method AnswerWaiters()
      modifies this
      ensures State() == Answer(old(State()))
    {
      if outgoing == {} && |waiters| > 0 {
        answers := answers + AnswersTo(waiters, summary);
        waiters := [];
        summary := NO_SUMMARY;
        if deferredTrigger {
          pendingTrigger := true;
          deferredTrigger := false;
        }
      }
    }

    method Tick(now: Instant, later: Instant)
      modifies this
      ensures State() == Periodic(old(State()), now, later, interval)
    {
      if now >= nextPeriodic {
        if |waiters| == 0 {
          pendingTrigger := true;
        }
        nextPeriodic := later + interval;
      }
    }

    method StartSessions(peers: Option<seq<Peer>>)
      modifies this
      ensures State() == Start(old(State()), peers)
    {
      if pendingTrigger {
        pendingTrigger := false;
        if peers.Some? {
          SpawnPeers(peers.value);
        }
      }
    }

    method SessionEnded(peer: Peer, outcome: Outcome)
      modifies this`outgoing, this`summary
      ensures outgoing == old(outgoing) - {peer}
      ensures summary == if outcome.Synchronized? && |waiters| > 0
                         then old(summary).(succeeded := SaturatingIncrement(old(summary).succeeded)) else old(summary)
    {
      outgoing := outgoing - {peer};
      if outcome.Synchronized? && |waiters| > 0 {
        summary := summary.(succeeded := SaturatingIncrement(summary.succeeded));
      }
    }

    method TaskCompleted(task: Task, outcome: Outcome)
      modifies this
      ensures State() == Handle(old(State()), Completed(task, outcome))
    {
      hide SaturatingIncrement;
      live := live - multiset{task};
      if task.Outgoing? {
        SessionEnded(task.peer, outcome);
      }
      if ReconcileAgain(outcome) {
        pendingTrigger := true;
      }
    }

    method HandleHappening(h: Happening)
      modifies this
      ensures State() == Handle(old(State()), h)
    {
      match h {
        case Accepted(id) =>
          live := live + multiset{Incoming(id)};
        case Panicked(task) =>
          live := live - multiset{task};
        case Completed(task, outcome) =>
          TaskCompleted(task, outcome);
        case Tick =>
      }
    }

    /** One turn of the loop; `done` after a shutdown. */
    method Turn(t: TurnInput) returns (done: bool)
      modifies this
      ensures State() == TurnState(old(State()), t, interval)
      ensures done == State().stopping.Some?
    {
      hide ReceiveAll, Periodic, Start, Answer, Handle;
      ReceiveCommands(t.commands);
      if stopping.Some? {
        live := multiset{};
        return true;
      }
      ghost var received := State();
      Tick(t.now, t.later);
      StartSessions(t.peers);
      AnswerWaiters();
      ghost var waiting := State();
      HandleHappening(t.happening);
      TurnKeepsStopping(received, t, interval);
      return false;
    }
  }

  function Initial(nextPeriodic: Instant): LoopState
  {
    LoopState(multiset{}, {}, [], true, false, NO_SUMMARY, nextPeriodic, None, [])
  }

  /** What one turn is given: the commands queued, the clock, the active peers, what happens next. */
  datatype TurnInput = TurnInput(commands: seq<Command>, now: Instant, later: Instant, peers: Option<seq<Peer>>,
      happening: Happening)

  /** A turn up to its wait. */
  function BeforeWait(s: LoopState, t: TurnInput, interval: nat): LoopState
  {
    Answer(Start(Periodic(ReceiveAll(s, t.commands), t.now, t.later, interval), t.peers))
  }

  function TurnState(s: LoopState, t: TurnInput, interval: nat): LoopState
  {
    var received := ReceiveAll(s, t.commands);
    if received.stopping.Some? then received.(live := multiset{})
    else Handle(BeforeWait(s, t, interval), t.happening)
  }

  lemma {:induction false} TurnKeepsStopping(s: LoopState, t: TurnInput, interval: nat)
    ensures Handle(Answer(Start(Periodic(s, t.now, t.later, interval), t.peers)), t.happening).stopping == s.stopping
  {
    hide SpawnAll;
    var ticked := Periodic(s, t.now, t.later, interval);
    if t.peers.Some? {
      SpawnTouchesLittle(ticked.(pendingTrigger := false), t.peers.value);
    }
  }

  /** Starting sessions leaves the waiting and the answered alone. */
  lemma {:induction false} SpawnTouchesLittle(s: LoopState, peers: seq<Peer>)
    ensures var next := SpawnAll(s, peers);
            next.answers == s.answers && next.waiters == s.waiters && next.stopping == s.stopping
  {
    if |peers| > 0 {
      SpawnTouchesLittle(s, peers[..|peers| - 1]);
    }
  }

  /** Only live tasks complete or panic. */
  predicate Possible(s: LoopState, t: TurnInput, interval: nat)
  {
    var waiting := BeforeWait(s, t, interval);
    match t.happening
    case Completed(task, _) => task in waiting.live
    case Panicked(task) => task in waiting.live
    case Accepted(id) => Incoming(id) !in waiting.live
    case Tick => true
  }

  // ---------------------------------------------------------------- the invariant

  /** Live outgoing tasks and the peers marked as in flight are the same. */
  ghost predicate OneToOne(s: LoopState)
  {
    forall p: Peer {:trigger Outgoing(p)} :: s.live[Outgoing(p)] == if p in s.outgoing then 1 else 0
  }

  /** While somebody waits, every success and every session still in flight was counted as an
      attempt (until the counter saturates). */
  predicate Accounted(s: LoopState)
  {
    |s.waiters| > 0 && s.summary.attempted < USIZE_MAX ==> s.summary.succeeded + |s.outgoing| <= s.summary.attempted
  }

  /** A trigger is held back only while somebody waits. */
  predicate Deferred(s: LoopState)
  {
    s.deferredTrigger ==> |s.waiters| > 0
  }

  ghost predicate Inv(s: LoopState)
  {
    OneToOne(s) && Accounted(s) && Deferred(s)
  }

  lemma {:induction false} ReceiveKeepsInv(s: LoopState, commands: seq<Command>)
    requires Inv(s)
    ensures var next := ReceiveAll(s, commands);
            Inv(next) && next.live == s.live && next.outgoing == s.outgoing && next.answers == s.answers
  {
    if |commands| > 0 {
      ReceiveKeepsInv(s, commands[..|commands| - 1]);
    }
  }

  lemma {:induction false} SpawnKeepsInv(s: LoopState, peers: seq<Peer>)
    requires Inv(s)
    ensures var next := SpawnAll(s, peers);
            Inv(next) && next.answers == s.answers && next.waiters == s.waiters
  {
    if |peers| > 0 {
      hide Inv;
      var n := |peers| - 1;
      SpawnKeepsInv(s, peers[..n]);
      SpawnOneKeepsInv(SpawnAll(s, peers[..n]), peers[n]);
    }
  }

  /** A trigger leaves exactly the active peers, and those already busy, with a session in flight. */
  lemma {:induction false} TriggerReachesEveryPeer(s: LoopState, peers: seq<Peer>, p: Peer)
    ensures p in SpawnAll(s, peers).outgoing <==> p in s.outgoing || p in peers
  {
    if |peers| > 0 {
      var n := |peers| - 1;
      TriggerReachesEveryPeer(s, peers[..n], p);
      assert peers == peers[..n] + [peers[n]];
    }
  }

  lemma {:induction false} SpawnOneKeepsInv(s: LoopState, peer: Peer)
    requires Inv(s)
    ensures Inv(SpawnOne(s, peer))
  {
    if peer !in s.outgoing {
      assert |s.outgoing + {peer}| == |s.outgoing| + 1;
    }
  }

  lemma {:induction false} StartedKeepsInv(s: LoopState, t: TurnInput, interval: nat)
    requires Inv(s)
    ensures Inv(Start(Periodic(ReceiveAll(s, t.commands), t.now, t.later, interval), t.peers))
  {
    hide OneToOne, Accounted, ReceiveAll, SpawnAll;
    var received := ReceiveAll(s, t.commands);
    ReceiveKeepsInv(s, t.commands);
    var ticked := Periodic(received, t.now, t.later, interval);
    SameAccount(received, ticked);
    var cleared := ticked.(pendingTrigger := false);
    SameAccount(ticked, cleared);
    if t.peers.Some? {
      SpawnKeepsInv(cleared, t.peers.value);
    }
  }

  /** A turn up to its wait keeps the invariant; if somebody still waits then, some session is in
      flight to wait for. */
  lemma {:induction false} BeforeWaitKeepsInv(s: LoopState, t: TurnInput, interval: nat)
    requires Inv(s)
    ensures var waiting := BeforeWait(s, t, interval);
            Inv(waiting) && (|waiting.waiters| > 0 ==> waiting.outgoing != {})
  {
    hide Inv, Answer, Start, Periodic, ReceiveAll;
    StartedKeepsInv(s, t, interval);
    AnswerKeepsInv(Start(Periodic(ReceiveAll(s, t.commands), t.now, t.later, interval), t.peers));
  }

  lemma {:induction false} SameAccount(s: LoopState, next: LoopState)
    requires Inv(s) && next.live == s.live && next.outgoing == s.outgoing && next.waiters == s.waiters
             && next.summary == s.summary
    requires next.deferredTrigger == s.deferredTrigger
    ensures Inv(next)
  {
  }

  lemma {:induction false} AnswerKeepsInv(s: LoopState)
    requires Inv(s)
    ensures Inv(Answer(s)) && (|Answer(s).waiters| > 0 ==> Answer(s).outgoing != {})
  {
  }

  predicate SessionPanics(h: Happening)
  {
    h.Panicked? && h.task.Outgoing?
  }

  lemma {:induction false} HandleKeepsInv(s: LoopState, h: Happening)
    requires Inv(s) && !SessionPanics(h) && (h.Completed? || h.Panicked? ==> h.task in s.live)
    ensures Inv(Handle(s, h))
  {
    if h.Completed? && h.task.Outgoing? {
      var p := h.task.peer;
      assert s.live[Outgoing(p)] == if p in s.outgoing then 1 else 0;
      assert p in s.outgoing;
      assert s.outgoing == (s.outgoing - {p}) + {p};
    }
  }

  lemma {:induction false} TurnKeepsInv(s: LoopState, t: TurnInput, interval: nat)
    requires Inv(s) && Possible(s, t, interval) && !SessionPanics(t.happening)
    requires ReceiveAll(s, t.commands).stopping.None?
    ensures Inv(TurnState(s, t, interval))
  {
    hide Inv;
    BeforeWaitKeepsInv(s, t, interval);
    HandleKeepsInv(BeforeWait(s, t, interval), t.happening);
  }

  // ---------------------------------------------------------------- triggers

  /** A trigger that was received is pending or, while somebody waits, held back. */
  lemma {:induction false} TriggerIsRemembered(s: LoopState, commands: seq<Command>)
    requires Trigger in commands
    ensures ReceiveAll(s, commands).pendingTrigger || ReceiveAll(s, commands).deferredTrigger
  {
    var n := |commands| - 1;
    if commands[n] != Trigger {
      assert commands == commands[..n] + [commands[n]];
      TriggerIsRemembered(s, commands[..n]);
    }
  }

  /** Starting sessions and the passing of time leave a held-back trigger alone. */
  lemma {:induction false} StartKeepsDeferred(s: LoopState, t: TurnInput, interval: nat)
    ensures Start(Periodic(s, t.now, t.later, interval), t.peers).deferredTrigger == s.deferredTrigger
  {
    hide SpawnAll;
    var ticked := Periodic(s, t.now, t.later, interval);
    if t.peers.Some? {
      SpawnKeepsDeferred(ticked.(pendingTrigger := false), t.peers.value);
    }
  }

  lemma {:induction false} SpawnKeepsDeferred(s: LoopState, peers: seq<Peer>)
    ensures SpawnAll(s, peers).deferredTrigger == s.deferredTrigger
  {
    if |peers| > 0 {
      SpawnKeepsDeferred(s, peers[..|peers| - 1]);
    }
  }

  /** What a trigger comes to within its turn.  Pending, and the roster can be read: every active
      peer has a session in flight, a new one or the one it had.  Pending, and the roster cannot be
      read: it is used up and nothing starts.  Held back: it still is when the loop goes to sleep, or those
      who waited were answered and it is pending for the next turn. */
  lemma {:induction false} TriggerIsServedOrHeld(s: LoopState, t: TurnInput, interval: nat)
    requires Trigger in t.commands
    ensures var received := ReceiveAll(s, t.commands);
            var started := Start(Periodic(received, t.now, t.later, interval), t.peers);
            var waiting := BeforeWait(s, t, interval);
            && (received.pendingTrigger || received.deferredTrigger)
            && (received.pendingTrigger && t.peers.Some? ==> forall p :: p in t.peers.value ==> p in started.outgoing)
            && (received.pendingTrigger && t.peers.None? ==>
                  !started.pendingTrigger && started.outgoing == received.outgoing && started.live == received.live)
            && (received.deferredTrigger ==>
                  if started.outgoing != {} || started.waiters == [] then waiting.deferredTrigger
                  else waiting.pendingTrigger && !waiting.deferredTrigger)
  {
    hide ReceiveAll, SpawnAll;
    TriggerIsRemembered(s, t.commands);
    var received := ReceiveAll(s, t.commands);
    StartKeepsDeferred(received, t, interval);
    if received.pendingTrigger && t.peers.Some? {
      var cleared := Periodic(received, t.now, t.later, interval).(pendingTrigger := false);
      forall p | p in t.peers.value
        ensures p in SpawnAll(cleared, t.peers.value).outgoing
      {
        TriggerReachesEveryPeer(cleared, t.peers.value, p);
      }
    }
  }

  /** A trigger lost that way: in a first turn whose roster cannot be read, nothing starts, and
      nothing of the trigger remains. */
  lemma {:induction false} UnreadableRosterDropsTrigger(interval: nat)
    ensures var t := TurnInput([Trigger], 0, 0, None, Tick);
            var next := TurnState(Initial(0), t, interval);
            && Possible(Initial(0), t, interval)
            && !next.pendingTrigger && !next.deferredTrigger && next.outgoing == {} && next.live == multiset{}
  {
    var t := TurnInput([Trigger], 0, 0, None, Tick);
    assert t.commands[..0] == [];
    assert ReceiveAll(Initial(0), t.commands) == Receive(Initial(0), Trigger);
  }

  // ---------------------------------------------------------------- answers

  /** Everyone who has asked, in order. */
  function Askers(commands: seq<Command>): seq<Waiter>
  {
    if |commands| == 0 then []
    else
      var n := |commands| - 1;
      Askers(commands[..n]) + if commands[n].Sync? then [commands[n].waiter] else []
  }

  function Answered(answers: seq<(Waiter, Summary)>): (r: seq<Waiter>)
    ensures |r| == |answers| && forall i :: 0 <= i < |r| ==> r[i] == answers[i].0
  {
    seq(|answers|, i requires 0 <= i < |answers| => answers[i].0)
  }

  /** Answered, then waiting: nobody is lost, answered twice or overtaken. */
  function Queue(s: LoopState): seq<Waiter>
  {
    Answered(s.answers) + s.waiters
  }

  lemma {:induction false} ReceiveQueues(s: LoopState, commands: seq<Command>)
    ensures Queue(ReceiveAll(s, commands)) == Queue(s) + Askers(commands)
    ensures ReceiveAll(s, commands).answers == s.answers
  {
    if |commands| > 0 {
      var n := |commands| - 1;
      ReceiveQueues(s, commands[..n]);
      OneCommandQueues(ReceiveAll(s, commands[..n]), commands[n]);
    }
  }

  lemma {:induction false} OneCommandQueues(s: LoopState, c: Command)
    ensures Queue(Receive(s, c)) == Queue(s) + if c.Sync? then [c.waiter] else []
    ensures Receive(s, c).answers == s.answers
  {
    if c.Sync? {
      assert Receive(s, c).waiters == s.waiters + [c.waiter];
    }
  }

  lemma {:induction false} AnswerQueues(s: LoopState)
    ensures Queue(Answer(s)) == Queue(s)
  {
    assert Answered(s.answers + AnswersTo(s.waiters, s.summary)) == Answered(s.answers) + s.waiters;
  }

  lemma {:induction false} StartQueues(s: LoopState, t: TurnInput, interval: nat)
    ensures var started := Start(Periodic(s, t.now, t.later, interval), t.peers);
            started.answers == s.answers && started.waiters == s.waiters
  {
    hide SpawnAll;
    var ticked := Periodic(s, t.now, t.later, interval);
    if t.peers.Some? {
      SpawnTouchesLittle(ticked.(pendingTrigger := false), t.peers.value);
    }
  }

  /** One turn adds its askers to the queue and takes nobody out of it. */
  lemma {:induction false} TurnQueues(s: LoopState, t: TurnInput, interval: nat)
    ensures Queue(TurnState(s, t, interval)) == Queue(s) + Askers(t.commands)
  {
    hide ReceiveAll, Start, Periodic, Answer;
    ReceiveQueues(s, t.commands);
    var received := ReceiveAll(s, t.commands);
    StartQueues(received, t, interval);
    AnswerQueues(Start(Periodic(received, t.now, t.later, interval), t.peers));
  }

  /** An answer is sent only when no session is in flight, and then counts no more successes than
      attempts. */
  lemma {:induction false} AnswersComeWhenIdle(s: LoopState, t: TurnInput, interval: nat)
    requires Inv(s) && TurnState(s, t, interval).answers != s.answers
    ensures var waiting := BeforeWait(s, t, interval);
            && waiting.outgoing == {} && (forall p: Peer {:trigger Outgoing(p)} :: waiting.live[Outgoing(p)] == 0)
            && waiting.waiters == [] && s.answers <= waiting.answers
            && forall i :: |s.answers| <= i < |waiting.answers| ==>
                 waiting.answers[i].1.succeeded <= waiting.answers[i].1.attempted
                     || waiting.answers[i].1.attempted >= USIZE_MAX
  {
    hide ReceiveAll, Start, Periodic, Accounted, OneToOne;
    ReceiveQueues(s, t.commands);
    var received := ReceiveAll(s, t.commands);
    StartQueues(received, t, interval);
    BeforeWaitKeepsInv(s, t, interval);
    var started := Start(Periodic(received, t.now, t.later, interval), t.peers);
    StartedKeepsInv(s, t, interval);
    NothingLive(BeforeWait(s, t, interval));
    AccountOf(started);
  }

  lemma {:induction false} NothingLive(s: LoopState)
    requires OneToOne(s) && s.outgoing == {}
    ensures forall p: Peer {:trigger Outgoing(p)} :: s.live[Outgoing(p)] == 0
  {
  }

  lemma {:induction false} AccountOf(s: LoopState)
    requires Accounted(s) && |s.waiters| > 0
    ensures s.summary.attempted < USIZE_MAX ==> s.summary.succeeded <= s.summary.attempted
  {
  }

  // ---------------------------------------------------------------- runs

  ghost predicate IsRun(states: seq<LoopState>, turns: seq<TurnInput>, interval: nat)
  {
    && |states| == |turns| + 1
    && (exists first :: states[0] == Initial(first))
    && forall n :: 0 <= n < |turns| ==> Follows(states[n], turns[n], states[n + 1], interval)
  }

  /** A turn that does not shut the loop down. */
  ghost predicate Follows(s: LoopState, t: TurnInput, next: LoopState, interval: nat)
  {
    Possible(s, t, interval) && ReceiveAll(s, t.commands).stopping.None? && next == TurnState(s, t, interval)
  }

  /** Some outgoing session panicked during the turns. */
  predicate SomePanic(turns: seq<TurnInput>)
  {
    exists n :: 0 <= n < |turns| && SessionPanics(turns[n].happening)
  }

  function AllAskers(turns: seq<TurnInput>): seq<Waiter>
  {
    if |turns| == 0 then [] else AllAskers(turns[..|turns| - 1]) + Askers(turns[|turns| - 1].commands)
  }

  /** In every state reached without a session panic the bookkeeping is right. */
  lemma {:induction false} RunsKeepInv(states: seq<LoopState>, turns: seq<TurnInput>, interval: nat, n: nat)
    requires IsRun(states, turns, interval) && n < |states| && !SomePanic(turns[..n])
    ensures Inv(states[n])
  {
    if n > 0 {
      hide Inv, TurnState, Possible, SessionPanics;
      assert forall i :: 0 <= i < n - 1 ==> turns[..n - 1][i] == turns[..n][i];
      RunsKeepInv(states, turns, interval, n - 1);
      assert Follows(states[n - 1], turns[n - 1], states[n - 1 + 1], interval);
      assert turns[..n][n - 1] == turns[n - 1];
      TurnKeepsInv(states[n - 1], turns[n - 1], interval);
    } else {
      InitialIsInv(states[0]);
    }
  }

  lemma {:induction false} InitialIsInv(s: LoopState)
    requires exists first :: s == Initial(first)
    ensures Inv(s)
  {
  }

  /** Everyone who asked is answered exactly once, in order, or still waits; panics or not. */
  lemma {:induction false} RunsAnswerInOrder(states: seq<LoopState>, turns: seq<TurnInput>, interval: nat, n: nat)
    requires IsRun(states, turns, interval) && n < |states|
    ensures Queue(states[n]) == AllAskers(turns[..n])
  {
    hide TurnState, Possible, Queue;
    if n > 0 {
      RunsAnswerInOrder(states, turns, interval, n - 1);
      assert Follows(states[n - 1], turns[n - 1], states[n - 1 + 1], interval);
      TurnQueues(states[n - 1], turns[n - 1], interval);
      assert turns[..n][..n - 1] == turns[..n - 1];
    } else {
      NobodyQueues(states[0]);
    }
  }

  lemma {:induction false} NobodyQueues(s: LoopState)
    requires exists first :: s == Initial(first)
    ensures Queue(s) == []
  {
  }

  // ---------------------------------------------------------------- those who wait are answered

  function After(s: LoopState, turns: seq<TurnInput>, interval: nat): LoopState
  {
    if |turns| == 0 then s else TurnState(After(s, turns[..|turns| - 1], interval), turns[|turns| - 1], interval)
  }

  /** No outcome asks to reconcile again, nothing panics and nobody shuts the loop down. */
  predicate Quiet(s: LoopState, turns: seq<TurnInput>, interval: nat)
  {
    |turns| > 0 ==>
      var init, t := turns[..|turns| - 1], turns[|turns| - 1];
      && Quiet(s, init, interval)
      && Possible(After(s, init, interval), t, interval)
      && ReceiveAll(After(s, init, interval), t.commands).stopping.None?
      && !t.happening.Panicked? && (t.happening.Completed? ==> !ReconcileAgain(t.happening.outcome))
  }

  /** How many outgoing sessions completed. */
  function Completions(turns: seq<TurnInput>): nat
  {
    if |turns| == 0 then 0
    else
      var last := turns[|turns| - 1].happening;
      Completions(turns[..|turns| - 1]) + if last.Completed? && last.task.Outgoing? then 1 else 0
  }

  /** Everybody in `waiting` has been answered, after those answered before. */
  predicate AllAnswered(before: LoopState, now: LoopState)
  {
    Queue(before) <= Answered(now.answers)
  }

  /** Those who waited still wait, in front; nothing new was started, so that the sessions in
      flight are those of the beginning less the completed ones. */
  predicate StillWaiting(before: LoopState, now: LoopState, completions: nat)
  {
    && now.answers == before.answers && before.waiters <= now.waiters && |before.waiters| > 0
    && !now.pendingTrigger && |now.outgoing| + completions == |before.outgoing|
  }

  lemma {:induction false} CommandsWhileWaiting(s: LoopState, commands: seq<Command>)
    requires |s.waiters| > 0
    ensures var next := ReceiveAll(s, commands);
            && next.answers == s.answers && next.outgoing == s.outgoing && next.live == s.live
            && next.pendingTrigger == s.pendingTrigger && next.waiters == s.waiters + Askers(commands)
  {
    if |commands| > 0 {
      CommandsWhileWaiting(s, commands[..|commands| - 1]);
    }
  }

  /** One quiet turn with somebody waiting and no trigger pending: if nothing is in flight they are
      answered, else at most the one completed session leaves. */
  lemma {:induction false} QuietTurn(s: LoopState, t: TurnInput, interval: nat)
    requires Inv(s) && |s.waiters| > 0 && !s.pendingTrigger && Possible(s, t, interval)
    requires ReceiveAll(s, t.commands).stopping.None? && !t.happening.Panicked?
    requires t.happening.Completed? ==> !ReconcileAgain(t.happening.outcome)
    ensures s.outgoing == {} ==> AllAnswered(s, TurnState(s, t, interval))
    ensures s.outgoing != {} ==> StillWaiting(s, TurnState(s, t, interval), Completions([t]))
  {
    hide ReceiveAll, Inv;
    CommandsWhileWaiting(s, t.commands);
    var received := ReceiveAll(s, t.commands);
    var waiting := BeforeWait(s, t, interval);
    assert Completions([t]) == if t.happening.Completed? && t.happening.task.Outgoing? then 1 else 0 by {
      assert [t][..0] == [];
    }
    if s.outgoing == {} {
      assert Answered(s.answers + AnswersTo(received.waiters, received.summary))
             == Answered(s.answers) + received.waiters;
      assert Queue(s) + Askers(t.commands) == Answered(s.answers) + received.waiters;
    } else {
      assert waiting.outgoing == s.outgoing && waiting.live == s.live;
      if t.happening.Completed? && t.happening.task.Outgoing? {
        LiveIsInFlight(s, t.happening.task.peer);
        assert s.outgoing == (s.outgoing - {t.happening.task.peer}) + {t.happening.task.peer};
      }
    }
  }

  lemma {:induction false} LiveIsInFlight(s: LoopState, p: Peer)
    requires Inv(s) && Outgoing(p) in s.live
    ensures p in s.outgoing
  {
    assert s.live[Outgoing(p)] == if p in s.outgoing then 1 else 0;
  }

  /** An answer is never taken back. */
  lemma {:induction false} AnswersStay(before: LoopState, s: LoopState, t: TurnInput, interval: nat)
    requires AllAnswered(before, s)
    ensures AllAnswered(before, TurnState(s, t, interval))
  {
    hide ReceiveAll, Start, Periodic;
    ReceiveQueues(s, t.commands);
    var received := ReceiveAll(s, t.commands);
    StartQueues(received, t, interval);
    var started := Start(Periodic(received, t.now, t.later, interval), t.peers);
    assert s.answers <= Answer(started).answers;
    assert Answered(s.answers) <= Answered(Answer(started).answers);
  }

  /** Over quiet turns, either those who waited have all been answered, or they still wait and the
      sessions in flight have shrunk by the completions. */
  lemma {:induction false} QuietTurns(s: LoopState, turns: seq<TurnInput>, interval: nat)
    requires Inv(s) && |s.waiters| > 0 && !s.pendingTrigger && Quiet(s, turns, interval)
    ensures var now := After(s, turns, interval);
            && Inv(now) && (AllAnswered(s, now) || StillWaiting(s, now, Completions(turns)))
  {
    hide Inv, TurnState, Possible, ReceiveAll;
    if |turns| > 0 {
      var init, t := turns[..|turns| - 1], turns[|turns| - 1];
      QuietTurns(s, init, interval);
      var now := After(s, init, interval);
      TurnKeepsInv(now, t, interval);
      if AllAnswered(s, now) {
        AnswersStay(s, now, t, interval);
      } else {
        QuietTurn(now, t, interval);
        WaitingComposes(s, now, TurnState(now, t, interval), t);
        assert turns == init + [t];
        assert Completions(turns) == Completions(init) + Completions([t]) by {
          assert [t][..0] == [];
        }
      }
    }
  }

  lemma {:induction false} WaitingComposes(s: LoopState, now: LoopState, next: LoopState, t: TurnInput)
    requires now.answers == s.answers && s.waiters <= now.waiters
    ensures AllAnswered(now, next) ==> AllAnswered(s, next)
  {
    assert Queue(s) <= Queue(now);
  }

  /** Progress.  While nobody's outcome asks to reconcile again, those who wait are answered in the
      turn after as many sessions have completed as were in flight. */
  lemma {:induction false} WaitersAreAnswered(s: LoopState, turns: seq<TurnInput>, interval: nat)
    requires Inv(s) && |s.waiters| > 0 && !s.pendingTrigger && Quiet(s, turns, interval)
    requires |turns| > 0 && Completions(turns[..|turns| - 1]) >= |s.outgoing|
    ensures AllAnswered(s, After(s, turns, interval))
  {
    hide Inv, TurnState, Possible, ReceiveAll;
    var init, t := turns[..|turns| - 1], turns[|turns| - 1];
    QuietTurns(s, init, interval);
    var now := After(s, init, interval);
    if AllAnswered(s, now) {
      AnswersStay(s, now, t, interval);
    } else {
      assert now.outgoing == {};
      QuietTurn(now, t, interval);
      WaitingComposes(s, now, TurnState(now, t, interval), t);
    }
  }

  /** A quiet turn leaves no trigger pending for those who wait after it, so the progress above
      begins at the latest one turn after somebody asked. */
  lemma {:induction false} TurnClearsTrigger(s: LoopState, t: TurnInput, interval: nat)
    requires Inv(s) && Possible(s, t, interval) && ReceiveAll(s, t.commands).stopping.None?
    requires t.happening.Completed? ==> !ReconcileAgain(t.happening.outcome)
    requires |TurnState(s, t, interval).waiters| > 0
    ensures !TurnState(s, t, interval).pendingTrigger
  {
    hide ReceiveAll, SpawnAll, Inv;
    BeforeWaitKeepsInv(s, t, interval);
    var ticked := Periodic(ReceiveAll(s, t.commands), t.now, t.later, interval);
    if ticked.pendingTrigger && t.peers.Some? {
      SpawnKeepsPending(ticked.(pendingTrigger := false), t.peers.value);
    }
  }

  lemma {:induction false} SpawnKeepsPending(s: LoopState, peers: seq<Peer>)
    ensures SpawnAll(s, peers).pendingTrigger == s.pendingTrigger
  {
    if |peers| > 0 {
      SpawnKeepsPending(s, peers[..|peers| - 1]);
    }
  }

  // ---------------------------------------------------------------- panics

  /** A peer marked as in flight without a session. */
  ghost predicate Leaked(s: LoopState, p: Peer)
  {
    p in s.outgoing && s.live[Outgoing(p)] == 0
  }

  /** A panic in a peer's session leaks that peer. */
  lemma {:induction false} PanicLeaks(s: LoopState, t: TurnInput, interval: nat, p: Peer)
    requires Inv(s) && Possible(s, t, interval) && t.happening == Panicked(Outgoing(p))
    requires ReceiveAll(s, t.commands).stopping.None?
    ensures Leaked(TurnState(s, t, interval), p)
  {
    hide Accounted, BeforeWait;
    BeforeWaitKeepsInv(s, t, interval);
    var waiting := BeforeWait(s, t, interval);
    assert waiting.live[Outgoing(p)] == if p in waiting.outgoing then 1 else 0;
  }

  /** A leaked peer stays leaked: it is never contacted again, and from then on nobody who waits
      is ever answered. */
  lemma {:induction false} LeakIsPermanent(s: LoopState, t: TurnInput, interval: nat, p: Peer)
    requires Leaked(s, p) && Possible(s, t, interval) && ReceiveAll(s, t.commands).stopping.None?
    ensures Leaked(TurnState(s, t, interval), p) && TurnState(s, t, interval).answers == s.answers
  {
    hide ReceiveAll, Start, Periodic;
    ReceiveLeaks(s, t.commands);
    ReceiveQueues(s, t.commands);
    var received := ReceiveAll(s, t.commands);
    StartQueues(received, t, interval);
    StartLeaks(received, t, interval, p);
  }

  lemma {:induction false} ReceiveLeaks(s: LoopState, commands: seq<Command>)
    ensures ReceiveAll(s, commands).live == s.live && ReceiveAll(s, commands).outgoing == s.outgoing
  {
    if |commands| > 0 {
      ReceiveLeaks(s, commands[..|commands| - 1]);
    }
  }

  lemma {:induction false} SpawnLeaks(s: LoopState, peers: seq<Peer>, p: Peer)
    requires Leaked(s, p)
    ensures Leaked(SpawnAll(s, peers), p)
  {
    if |peers| > 0 {
      SpawnLeaks(s, peers[..|peers| - 1], p);
    }
  }

  lemma {:induction false} StartLeaks(s: LoopState, t: TurnInput, interval: nat, p: Peer)
    requires Leaked(s, p)
    ensures Leaked(Start(Periodic(s, t.now, t.later, interval), t.peers), p)
  {
    hide SpawnAll;
    var ticked := Periodic(s, t.now, t.later, interval);
    if t.peers.Some? {
      SpawnLeaks(ticked.(pendingTrigger := false), t.peers.value, p);
    }
  }

  lemma {:induction false} LastPanics(turns: seq<TurnInput>, n: nat)
    requires 0 < n <= |turns| && SomePanic(turns[..n])
    ensures SomePanic(turns[..n - 1]) || SessionPanics(turns[n - 1].happening)
  {
    hide SessionPanics;
    var i :| 0 <= i < n && SessionPanics(turns[..n][i].happening);
    if i < n - 1 {
      assert turns[..n - 1][i] == turns[..n][i];
    }
  }

  lemma {:induction false} PanicsAreFatal(states: seq<LoopState>, turns: seq<TurnInput>, interval: nat, n: nat)
    requires IsRun(states, turns, interval) && n < |states| && SomePanic(turns[..n])
    ensures exists p :: Leaked(states[n], p)
  {
    hide Inv, TurnState, Possible, Leaked;
    assert Follows(states[n - 1], turns[n - 1], states[n - 1 + 1], interval);
    if SomePanic(turns[..n - 1]) {
      PanicsAreFatal(states, turns, interval, n - 1);
      var p :| Leaked(states[n - 1], p);
      LeakIsPermanent(states[n - 1], turns[n - 1], interval, p);
    } else {
      RunsKeepInv(states, turns, interval, n - 1);
      LastPanics(turns, n);
      PanicLeaks(states[n - 1], turns[n - 1], interval, turns[n - 1].happening.task.peer);
    }
  }

  /** Exactly when the bookkeeping is right: a run's live sessions match its peers in flight if and
      only if no session has panicked. */
  lemma {:induction false} OneToOneUnlessPanic(states: seq<LoopState>, turns: seq<TurnInput>, interval: nat, n: nat)
    requires IsRun(states, turns, interval) && n < |states|
    ensures OneToOne(states[n]) <==> !SomePanic(turns[..n])
  {
    hide SomePanic;
    if SomePanic(turns[..n]) {
      PanicsAreFatal(states, turns, interval, n);
      var p :| Leaked(states[n], p);
      assert states[n].live[Outgoing(p)] == 0;
    } else {
      RunsKeepInv(states, turns, interval, n);
    }
  }

  /** From a leak on, the peer stays leaked and nobody is answered, whatever else happens. */
  lemma {:induction false} LeakStays(states: seq<LoopState>, turns: seq<TurnInput>, interval: nat, m: nat, n: nat,
      p: Peer)
    requires IsRun(states, turns, interval) && m <= n < |states| && Leaked(states[m], p)
    ensures Leaked(states[n], p) && states[n].answers == states[m].answers
  {
    hide TurnState, Possible, Leaked;
    if m < n {
      LeakStays(states, turns, interval, m, n - 1, p);
      assert Follows(states[n - 1], turns[n - 1], states[n - 1 + 1], interval);
      LeakIsPermanent(states[n - 1], turns[n - 1], interval, p);
    }
  }

  /** Somebody asks for a synchronisation, the session with the one active peer starts and
      panics. */
  function PanicTurn(): TurnInput
  {
    TurnInput([Sync(5)], 0, 0, Some([1]), Panicked(Outgoing(1)))
  }

  /** It can happen, in the very first turn. */
  lemma {:induction false} PanicIsReachable(interval: nat)
    ensures exists states: seq<LoopState> :: IsRun(states, [PanicTurn()], interval) && states[0] == Initial(0)
                             && Leaked(states[1], 1) && states[1].waiters == [5]
  {
    var s, t := Initial(0), PanicTurn();
    InitialIsInv(s);
    PanicInFirstTurn(s, t, interval);
    var states := [s, TurnState(s, t, interval)];
    assert Follows(states[0], t, states[1], interval);
    assert IsRun(states, [t], interval);
  }

  lemma {:induction false} PanicInFirstTurn(s: LoopState, t: TurnInput, interval: nat)
    requires s == Initial(0) && t == PanicTurn()
    ensures Possible(s, t, interval) && ReceiveAll(s, t.commands).stopping.None?
    ensures Leaked(TurnState(s, t, interval), 1) && TurnState(s, t, interval).waiters == [5]
  {
    assert t.commands[..0] == [] && t.peers.value[..0] == [];
    var received := Receive(s, Sync(5));
    assert ReceiveAll(s, t.commands) == received;
    var ticked := Periodic(received, 0, 0, interval);
    assert SpawnAll(ticked.(pendingTrigger := false), [1]) == SpawnOne(ticked.(pendingTrigger := false), 1);
  }

  /** Whoever asked in that turn waits for good. */
  lemma {:induction false} PanicStrandsTheWaiter(states: seq<LoopState>, turns: seq<TurnInput>, interval: nat, n: nat)
    requires IsRun(states, turns, interval) && states[0] == Initial(0) && 0 < n < |states|
    requires turns[0] == PanicTurn()
    ensures states[n].answers == []
    ensures Queue(states[n]) == AllAskers(turns[..n]) && 5 in states[n].waiters
  {
    hide TurnState, Possible, Leaked, Queue;
    PanicInFirstTurn(states[0], turns[0], interval);
    assert Follows(states[0], turns[0], states[0 + 1], interval);
    FirstAnswers(states[0], turns[0], interval);
    LeakStays(states, turns, interval, 1, n, 1);
    RunsAnswerInOrder(states, turns, interval, n);
    FirstAsker(turns[..n]);
    NotAnswered(states[n], 5);
  }

  lemma {:induction false} FirstAnswers(s: LoopState, t: TurnInput, interval: nat)
    requires s == Initial(0) && t == PanicTurn()
    ensures TurnState(s, t, interval).answers == []
  {
    assert t.commands[..0] == [] && t.peers.value[..0] == [];
    assert ReceiveAll(s, t.commands) == Receive(s, Sync(5));
    var ticked := Periodic(Receive(s, Sync(5)), 0, 0, interval);
    assert SpawnAll(ticked.(pendingTrigger := false), [1]) == SpawnOne(ticked.(pendingTrigger := false), 1);
  }

  lemma {:induction false} FirstAsker(turns: seq<TurnInput>)
    requires |turns| > 0 && turns[0] == PanicTurn()
    ensures 5 in AllAskers(turns)
  {
    if |turns| > 1 {
      FirstAsker(turns[..|turns| - 1]);
    } else {
      assert turns[..0] == [] && turns[0].commands[..0] == [];
      assert Askers(turns[0].commands) == [5];
    }
  }

  lemma {:induction false} NotAnswered(s: LoopState, x: Waiter)
    requires s.answers == [] && x in Queue(s)
    ensures x in s.waiters
  {
  }
}
