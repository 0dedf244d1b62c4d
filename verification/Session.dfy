/** The two ends of a session as state machines over a pair of byte streams, with every amount of
    buffering allowed, files becoming unavailable and collections being detached at any moment. */
module Session {
  import opened Prelude
  import opened Bytes
  import opened Records
  import opened RecordStore
  import opened Wire
  import opened Bundles
  import opened Exchange
  import opened Transfers

  /** A frame as the session sees it; `FinMsg` is the end of the stream. */
  datatype Message =
    | HelloMsg(collections: seq<Name>)
    | RosterMsg
    | ManifestsMsg(names: set<Name>)
    | RequestsMsg(requests: seq<FileRequest>)
    | ReplyMsg(reply: Reply)
    | DoneMsg
    | FinMsg

  /** One end: the collections it announced, those attached to the device now, the messages it
      started to write, how many of those writes completed, and the messages it has read. */
  datatype Local = Local(
    dialer: bool,
    collections: seq<Name>,
    attached: set<Name>,
    started: seq<Message>,
    written: nat,
    inbox: seq<Message>,
    error: Option<SyncError>)

  /** The collections both ends have, in local order. */
  method SharedCollections(mine: seq<Name>, theirs: seq<Name>) returns (shared: seq<Name>)
    ensures shared == SharedNames(mine, theirs)
  {
    var remote := SetOf(theirs);
    shared := [];
    for i := 0 to |mine|
      invariant shared == SharedNames(mine[..i], theirs)
    {
      assert mine[..i + 1][..i] == mine[..i];
      if mine[i] in remote {
        shared := shared + [mine[i]];
      }
    }
    assert mine[..|mine|] == mine;
  }

  function SharedNames(mine: seq<Name>, theirs: seq<Name>): seq<Name>
  {
    if |mine| == 0 then []
    else
      var n := |mine| - 1;
      SharedNames(mine[..n], theirs) + if mine[n] in theirs then [mine[n]] else []
  }

  lemma {:induction false} SharedIsIntersection(mine: seq<Name>, theirs: seq<Name>)
    ensures SetOf(SharedNames(mine, theirs)) == SetOf(mine) * SetOf(theirs)
  {
    if |mine| > 0 {
      var n := |mine| - 1;
      SharedIsIntersection(mine[..n], theirs);
      assert mine == mine[..n] + [mine[n]];
      assert SetOf(mine) == SetOf(mine[..n]) + {mine[n]};
      var last := if mine[n] in theirs then [mine[n]] else [];
      assert SetOf(SharedNames(mine, theirs)) == SetOf(SharedNames(mine[..n], theirs)) + SetOf(last);
    }
  }

  /** The shared collections as this end computes them from the peer's hello. */
  function SharedHere(l: Local): set<Name>
  {
    if |l.inbox| > 0 && l.inbox[0].HelloMsg? then SetOf(SharedNames(l.collections, l.inbox[0].collections)) else {}
  }

  /** Some shared collection is no longer attached here. */
  predicate DetachedHere(l: Local)
  {
    !(SharedHere(l) <= l.attached)
  }

  // ---------------------------------------------------------------- the program of one end

  function Asked(messages: seq<Message>): seq<FileRequest>
  {
    if |messages| > 3 && messages[3].RequestsMsg? then messages[3].requests else []
  }

  /** Where this end's answers end: four exchanged frames, then one answer for each request it
      was sent. */
  function Owed(l: Local): nat
  {
    4 + |Asked(l.inbox)|
  }

  /** Where the answers it expects end. */
  function Expected(l: Local): nat
  {
    4 + |Asked(l.started)|
  }

  /** The next write is due.  Within an exchange writing and reading overlap; an exchange starts
      only when the one before is complete.  The dialer answers first, the acceptor last. */
  predicate CanBegin(l: Local)
  {
    var s, i := |l.started|, |l.inbox|;
    && l.error.None? && l.written == s
    && if s < 4 then i >= s
       else if s < Owed(l) then (if l.dialer then i >= 4 else i >= Expected(l))
       else if s == Owed(l) then i >= Expected(l)
       else s == Owed(l) + 1 && i >= Expected(l) + 1
  }

  /** The next read is due. */
  predicate CanRead(l: Local)
  {
    var i := |l.inbox|;
    && l.error.None?
    && if i < 4 then l.written >= i
       else if i < Expected(l) then l.written >= if l.dialer then Owed(l) else 4
       else if i == Expected(l) then l.written >= Owed(l)
       else i == Expected(l) + 1 && l.written >= Owed(l) + 2
  }

  predicate Finished(l: Local)
  {
    l.error.None? && l.written == |l.started| == Owed(l) + 2 && |l.inbox| == Expected(l) + 2
  }

  /** What an honest end may write next.  Whether a requested file is still available is the
      environment's choice at every answer. */
  predicate MayWrite(hash: RecordHashing, l: Local, m: Message)
  {
    var s := |l.started|;
    if s == 0 then m == HelloMsg(l.collections)
    else if s == 1 then m == RosterMsg
    else if s == 2 then m == ManifestsMsg(SharedHere(l))
    else if s == 3 then m.RequestsMsg? && |m.requests| <= MAX_TRANSFERS && RequestsWithin(m.requests, SharedHere(l))
    else if s < Owed(l) then m.ReplyMsg? && ReplyFits(hash, Asked(l.inbox)[s - 4], m.reply)
    else if s == Owed(l) then m == DoneMsg
    else m == FinMsg
  }

  predicate RequestsWithin(requests: seq<FileRequest>, names: set<Name>)
  {
    forall i :: 0 <= i < |requests| ==> requests[i].collection in names
  }

  predicate ReplyFits(hash: RecordHashing, q: FileRequest, reply: Reply)
  {
    reply.FileReply? ==> Matches(hash, q, reply.record)
  }

  /** The checks made on reading: the frame's tag, the collections of a manifest bundle (each of
      which must still be attached when it is merged) and of a request list, the record of a file,
      and silence at the end. */
  function ReadError(hash: RecordHashing, l: Local, m: Message): Option<SyncError>
  {
    var i := |l.inbox|;
    var unexpected := Some(Protocol(UnexpectedFrame));
    if i == 0 then (if m.HelloMsg? then None else unexpected)
    else if i == 1 then (if m.RosterMsg? then None else unexpected)
    else if i == 2 then
      if !m.ManifestsMsg? then unexpected
      else if m.names != SharedHere(l) || DetachedHere(l) then Some(WrongCollections) else None
    else if i == 3 then
      if !m.RequestsMsg? then unexpected
      else if !RequestsWithin(m.requests, SharedHere(l)) then Some(WrongCollections) else None
    else if i < Expected(l) then
      if !m.ReplyMsg? then unexpected
      else if !ReplyFits(hash, Asked(l.started)[i - 4], m.reply) then Some(UnsolicitedFile) else None
    else if i == Expected(l) then (if m.DoneMsg? then None else unexpected)
    else if m.FinMsg? then None else Some(UnexpectedState)
  }

  // ---------------------------------------------------------------- the two ends together

  datatype Pair = Pair(dialer: Local, acceptor: Local)

  datatype Step =
    | Begin(atDialer: bool, message: Message)
    | Flush(atDialer: bool)
    | Read(atDialer: bool)
    | Detach(atDialer: bool, name: Name)
    | Attach(atDialer: bool, name: Name)

  /** Not the daemon attaching or detaching a collection beside the session. */
  predicate OfSession(step: Step)
  {
    !step.Detach? && !step.Attach?
  }

  function End(p: Pair, atDialer: bool): Local
  {
    if atDialer then p.dialer else p.acceptor
  }

  function With(p: Pair, atDialer: bool, l: Local): Pair
  {
    if atDialer then p.(dialer := l) else p.(acceptor := l)
  }

  /** What can happen.  A write may complete at once if the stream's buffers take it, or not until
      the other end has read it; reading can start as soon as the write has. */
  predicate Possible(hash: RecordHashing, p: Pair, step: Step)
  {
    var l, o := End(p, step.atDialer), End(p, !step.atDialer);
    match step
    case Begin(_, m) => CanBegin(l) && MayWrite(hash, l, m)
    case Flush(_) => l.error.None? && l.written < |l.started|
    case Read(_) => CanRead(l) && |l.inbox| < |o.started|
    case Detach(_, _) => true
    case Attach(_, _) => true
  }

  /** What can happen whatever the buffers: a write completes for certain once it has been read,
      and the end of a stream takes no room. */
  predicate Guaranteed(hash: RecordHashing, p: Pair, step: Step)
  {
    var l, o := End(p, step.atDialer), End(p, !step.atDialer);
    Possible(hash, p, step) && OfSession(step)
        && (step.Flush? ==> |o.inbox| >= |l.started| || l.started[|l.started| - 1] == FinMsg)
  }

  function After(hash: RecordHashing, p: Pair, step: Step): Pair
    requires Possible(hash, p, step)
  {
    var l, o := End(p, step.atDialer), End(p, !step.atDialer);
    With(p, step.atDialer,
         match step
         case Begin(_, m) => l.(started := l.started + [m])
         case Flush(_) => l.(written := l.written + 1)
         case Read(_) =>
           var m := o.started[|l.inbox|];
           if ReadError(hash, l, m).Some? then l.(error := ReadError(hash, l, m)) else l.(inbox := l.inbox + [m])
         case Detach(_, name) => l.(attached := l.attached - {name})
         case Attach(_, name) => l.(attached := l.attached + {name}))
  }

  function Start(dialer: seq<Name>, acceptor: seq<Name>): Pair
  {
    Pair(Local(true, dialer, SetOf(dialer), [], 0, [], None), Local(false, acceptor, SetOf(acceptor), [], 0, [], None))
  }

  ghost predicate IsRun(hash: RecordHashing, pairs: seq<Pair>, steps: seq<Step>)
  {
    && |pairs| == |steps| + 1
    && pairs[0] == Start(pairs[0].dialer.collections, pairs[0].acceptor.collections)
    && forall n :: 0 <= n < |steps| ==> Follows(hash, pairs[n], steps[n], pairs[n + 1])
  }

  ghost predicate Follows(hash: RecordHashing, p: Pair, step: Step, next: Pair)
  {
    Possible(hash, p, step) && next == After(hash, p, step)
  }

  // ---------------------------------------------------------------- the invariant

  /** The counts keep to the program's order. */
  predicate InOrder(l: Local)
  {
    var s, w, i := |l.started|, l.written, |l.inbox|;
    && w <= s <= w + 1
    && (s <= 4 ==> s <= i + 1)
    && (i <= 4 ==> i <= w + 1)
    && (s > 4 ==> i >= 4 && s <= Owed(l) + 2 && (l.dialer || i >= Expected(l)))
    && (i > 4 ==> w >= 4 && i <= Expected(l) + 2 && (l.dialer ==> w >= Owed(l)))
    && (s > Owed(l) ==> i >= Expected(l)) && (s > Owed(l) + 1 ==> i >= Expected(l) + 1)
    && (i > Expected(l) ==> w >= Owed(l)) && (i > Expected(l) + 1 ==> w >= Owed(l) + 2)
  }

  /** Every message written was legal when it was started. */
  predicate Legal(hash: RecordHashing, l: Local)
  {
    forall s :: 0 <= s < |l.started| ==> MayWrite(hash, l.(started := l.started[..s]), l.started[s])
  }

  /** The one error an end may have raised: a shared collection was gone when it came to merge. */
  predicate ErrorOk(l: Local)
  {
    l.error.Some? ==> l.error.value == WrongCollections && |l.inbox| == 2
  }

  ghost predicate EndInv(hash: RecordHashing, l: Local, o: Local)
  {
    ErrorOk(l) && InOrder(l) && Legal(hash, l) && l.inbox <= o.started
  }

  ghost predicate Inv(hash: RecordHashing, p: Pair)
  {
    p.dialer.dialer && !p.acceptor.dialer && EndInv(hash, p.dialer, p.acceptor) && EndInv(hash, p.acceptor, p.dialer)
  }

  /** The kinds of the first messages, and the counts they fix. */
  lemma {:induction false} LegalKinds(hash: RecordHashing, l: Local)
    requires Legal(hash, l)
    ensures |l.started| > 0 ==> l.started[0] == HelloMsg(l.collections)
    ensures |l.started| > 1 ==> l.started[1] == RosterMsg
    ensures |l.started| > 2 ==> l.started[2] == ManifestsMsg(SharedHere(l))
    ensures |l.started| > 3 ==> l.started[3].RequestsMsg? && |l.started[3].requests| <= MAX_TRANSFERS
                                && RequestsWithin(l.started[3].requests, SharedHere(l))
  {
    assert |l.started| > 0 ==> MayWrite(hash, l.(started := l.started[..0]), l.started[0]);
    assert |l.started| > 1 ==> MayWrite(hash, l.(started := l.started[..1]), l.started[1]);
    assert |l.started| > 2 ==> MayWrite(hash, l.(started := l.started[..2]), l.started[2]);
    assert |l.started| > 3 ==> MayWrite(hash, l.(started := l.started[..3]), l.started[3]);
  }

  /** The kinds of the later messages. */
  lemma {:induction false} LegalTail(hash: RecordHashing, l: Local, s: nat)
    requires Legal(hash, l) && 4 <= s < |l.started|
    ensures s < Owed(l) ==> l.started[s].ReplyMsg? && ReplyFits(hash, Asked(l.inbox)[s - 4], l.started[s].reply)
    ensures s == Owed(l) ==> l.started[s] == DoneMsg
    ensures s > Owed(l) ==> l.started[s] == FinMsg
  {
    assert MayWrite(hash, l.(started := l.started[..s]), l.started[s]);
  }

  /** Both ends compute the same shared collections. */
  lemma {:induction false} SharedAgree(hash: RecordHashing, p: Pair)
    requires Inv(hash, p) && |p.dialer.inbox| > 0 && |p.acceptor.inbox| > 0
    ensures SharedHere(p.dialer) == SharedHere(p.acceptor)
            == SetOf(p.dialer.collections) * SetOf(p.acceptor.collections)
  {
    LegalKinds(hash, p.dialer);
    LegalKinds(hash, p.acceptor);
    SharedIsIntersection(p.dialer.collections, p.acceptor.collections);
    SharedIsIntersection(p.acceptor.collections, p.dialer.collections);
  }

  /** Each end owes exactly the answers the other expects. */
  lemma {:induction false} CountsAgree(hash: RecordHashing, l: Local, o: Local)
    requires EndInv(hash, l, o) && EndInv(hash, o, l)
    ensures |l.inbox| >= 4 ==> Asked(l.inbox) == Asked(o.started) && Owed(l) == Expected(o)
  {
    LegalKinds(hash, o);
  }

  /** What the peer wrote passes every check but one: no tag is unexpected, no collection wrong, no
      file unsolicited; only a shared collection that is gone here is reported. */
  lemma {:induction false} ReadsPass(hash: RecordHashing, p: Pair, atDialer: bool)
    requires Inv(hash, p) && Possible(hash, p, Read(atDialer))
    ensures var l, o := End(p, atDialer), End(p, !atDialer);
            ReadError(hash, l, o.started[|l.inbox|])
            == if |l.inbox| == 2 && DetachedHere(l) then Some(WrongCollections) else None
  {
    hide MayWrite, ReplyFits, SharedHere, SetOf, RequestsWithin, DetachedHere;
    var l, o := End(p, atDialer), End(p, !atDialer);
    var i := |l.inbox|;
    if i < 4 {
      LegalKinds(hash, o);
      if i >= 2 {
        SharedAgree(hash, p);
      }
    } else {
      CountsAgree(hash, o, l);
      LegalTail(hash, o, i);
    }
  }

  lemma {:induction false} StartIsInv(hash: RecordHashing, dialer: seq<Name>, acceptor: seq<Name>)
    ensures Inv(hash, Start(dialer, acceptor))
  {
  }

  lemma {:induction false} StepKeepsInv(hash: RecordHashing, p: Pair, step: Step)
    requires Inv(hash, p) && Possible(hash, p, step)
    ensures Inv(hash, After(hash, p, step))
  {
    hide MayWrite, SetOf, Legal, InOrder, CanBegin, CanRead, ReadError, DetachedHere;
    var l, o := End(p, step.atDialer), End(p, !step.atDialer);
    match step
    case Begin(_, m) =>
      CanBeginIsHealthy(l);
      BeginKeepsLegal(hash, l, m);
    case Flush(_) =>
      FlushKeepsLegal(hash, l);
    case Read(_) =>
      CanReadIsHealthy(l);
      ReadsPass(hash, p, step.atDialer);
      ReadKeepsLegal(hash, l, o.started[|l.inbox|]);
      SidelineKeepsLegal(hash, l, l.attached, Some(WrongCollections));
    case Detach(_, name) =>
      SidelineKeepsLegal(hash, l, l.attached - {name}, l.error);
    case Attach(_, name) =>
      SidelineKeepsLegal(hash, l, l.attached + {name}, l.error);
  }

  lemma {:induction false} CanBeginIsHealthy(l: Local)
    requires CanBegin(l)
    ensures l.error.None?
  {
  }

  lemma {:induction false} CanReadIsHealthy(l: Local)
    requires CanRead(l)
    ensures l.error.None?
  {
  }

  /** What is attached and what was raised have no bearing on the order and contents of messages. */
  lemma {:induction false} SidelineKeepsLegal(hash: RecordHashing, l: Local, attached: set<Name>,
      error: Option<SyncError>)
    requires Legal(hash, l) && InOrder(l)
    ensures var next := l.(attached := attached, error := error);
            Legal(hash, next) && InOrder(next)
  {
    var next := l.(attached := attached, error := error);
    forall s | 0 <= s < |next.started|
      ensures MayWrite(hash, next.(started := next.started[..s]), next.started[s])
    {
      assert MayWrite(hash, l.(started := l.started[..s]), l.started[s]);
    }
  }

  lemma {:induction false} BeginKeepsLegal(hash: RecordHashing, l: Local, m: Message)
    requires Legal(hash, l) && InOrder(l) && CanBegin(l) && MayWrite(hash, l, m)
    ensures var next := l.(started := l.started + [m]);
            Legal(hash, next) && InOrder(next) && next.error.None?
  {
    var next := l.(started := l.started + [m]);
    forall s | 0 <= s < |next.started|
      ensures MayWrite(hash, next.(started := next.started[..s]), next.started[s])
    {
      if s < |l.started| {
        assert next.started[..s] == l.started[..s];
        assert MayWrite(hash, l.(started := l.started[..s]), l.started[s]);
        assert next.(started := next.started[..s]) == l.(started := l.started[..s]);
      } else {
        assert next.started[..s] == l.started;
        assert next.(started := next.started[..s]) == l;
      }
    }
  }

  lemma {:induction false} FlushKeepsLegal(hash: RecordHashing, l: Local)
    requires Legal(hash, l) && InOrder(l) && l.written < |l.started| && l.error.None?
    ensures var next := l.(written := l.written + 1);
            Legal(hash, next) && InOrder(next) && next.error.None?
  {
    var next := l.(written := l.written + 1);
    forall s | 0 <= s < |next.started|
      ensures MayWrite(hash, next.(started := next.started[..s]), next.started[s])
    {
      assert MayWrite(hash, l.(started := l.started[..s]), l.started[s]);
    }
  }

  lemma {:induction false} ReadKeepsLegal(hash: RecordHashing, l: Local, m: Message)
    requires Legal(hash, l) && InOrder(l) && CanRead(l)
    ensures var next := l.(inbox := l.inbox + [m]);
            Legal(hash, next) && InOrder(next) && next.error.None?
  {
    var next := l.(inbox := l.inbox + [m]);
    forall s | 0 <= s < |next.started|
      ensures MayWrite(hash, next.(started := next.started[..s]), next.started[s])
    {
      assert MayWrite(hash, l.(started := l.started[..s]), l.started[s]);
    }
  }

  // ---------------------------------------------------------------- the main results

  /** Every run keeps the invariant: the only error an end ever raises is that a shared collection
      was gone when it came to merge the peer's manifests. */
  lemma {:induction false} RunsKeepInv(hash: RecordHashing, pairs: seq<Pair>, steps: seq<Step>, n: nat)
    requires IsRun(hash, pairs, steps) && n < |pairs|
    ensures Inv(hash, pairs[n]) && ErrorOk(pairs[n].dialer) && ErrorOk(pairs[n].acceptor)
  {
    hide Inv;
    if n == 0 {
      StartIsInv(hash, pairs[0].dialer.collections, pairs[0].acceptor.collections);
    } else {
      RunsKeepInv(hash, pairs, steps, n - 1);
      assert Follows(hash, pairs[n - 1], steps[n - 1], pairs[n - 1 + 1]);
      StepKeepsInv(hash, pairs[n - 1], steps[n - 1]);
    }
    InvLimitsErrors(hash, pairs[n]);
  }

  lemma {:induction false} InvLimitsErrors(hash: RecordHashing, p: Pair)
    requires Inv(hash, p)
    ensures ErrorOk(p.dialer) && ErrorOk(p.acceptor)
  {
  }

  /** At this step the end comes to merge, and a shared collection was detached before and not
      attached again. */
  ghost predicate MergesWithout(pairs: seq<Pair>, steps: seq<Step>, m: nat, atDialer: bool)
    requires m < |steps| && m < |pairs|
  {
    var l := End(pairs[m], atDialer);
    && steps[m] == Read(atDialer) && |l.inbox| == 2
    && exists name :: name in SharedHere(l) && DetachedBefore(steps, m, atDialer, name)
  }

  /** The last word about a collection was that it is detached. */
  ghost predicate DetachedBefore(steps: seq<Step>, m: nat, atDialer: bool, name: Name)
    requires m <= |steps|
  {
    exists d :: 0 <= d < m && steps[d] == Detach(atDialer, name) && NotAttachedSince(steps, d, m, atDialer, name)
  }

  ghost predicate NotAttachedSince(steps: seq<Step>, d: nat, m: nat, atDialer: bool, name: Name)
    requires m <= |steps|
  {
    forall j :: d < j < m ==> steps[j] != Attach(atDialer, name)
  }

  /** Exactly when an announced collection is not attached: it was detached, and not attached since. */
  lemma {:induction false} AttachedUnlessDetached(hash: RecordHashing, pairs: seq<Pair>, steps: seq<Step>, n: nat,
      atDialer: bool, name: Name)
    requires IsRun(hash, pairs, steps) && n < |pairs| && name in End(pairs[0], atDialer).collections
    ensures name in End(pairs[n], atDialer).attached <==> !DetachedBefore(steps, n, atDialer, name)
    ensures End(pairs[n], atDialer).collections == End(pairs[0], atDialer).collections
  {
    hide Possible, ReadError, CanRead;
    if n > 0 {
      AttachedUnlessDetached(hash, pairs, steps, n - 1, atDialer, name);
      assert Follows(hash, pairs[n - 1], steps[n - 1], pairs[n - 1 + 1]);
      if steps[n - 1] == Detach(atDialer, name) {
        assert NotAttachedSince(steps, n - 1, n, atDialer, name);
      } else if DetachedBefore(steps, n - 1, atDialer, name) && steps[n - 1] != Attach(atDialer, name) {
        var d :| 0 <= d < n - 1 && steps[d] == Detach(atDialer, name)
            && NotAttachedSince(steps, d, n - 1, atDialer, name);
        assert NotAttachedSince(steps, d, n, atDialer, name);
      } else if d :| 0 <= d < n && steps[d] == Detach(atDialer, name) && NotAttachedSince(steps, d, n, atDialer, name) {
        assert NotAttachedSince(steps, d, n - 1, atDialer, name);
      }
    }
  }

  /** An end raises an error if and only if a shared collection had been detached on its device, and
      not attached again, when it came to merge; and the error is then WrongCollections. */
  lemma {:induction false} ErrorsComeFromDetaching(hash: RecordHashing, pairs: seq<Pair>, steps: seq<Step>, n: nat,
      atDialer: bool)
    requires IsRun(hash, pairs, steps) && n < |pairs|
    ensures var error := End(pairs[n], atDialer).error;
            && (error == None || error == Some(WrongCollections))
            && (error.Some? <==> exists m :: 0 <= m < n && MergesWithout(pairs, steps, m, atDialer))
  {
    hide Inv, ReadError, CanRead, SharedHere, DetachedHere, MergesWithout;
    RunsKeepInv(hash, pairs, steps, n);
    if n > 0 {
      ErrorsComeFromDetaching(hash, pairs, steps, n - 1, atDialer);
      var p, step := pairs[n - 1], steps[n - 1];
      assert Follows(hash, p, step, pairs[n - 1 + 1]);
      RunsKeepInv(hash, pairs, steps, n - 1);
      if step == Read(atDialer) {
        CanReadIsHealthy(End(p, atDialer));
        ReadsPass(hash, p, atDialer);
        MergeStep(hash, pairs, steps, n - 1, atDialer);
      } else {
        OtherSteps(pairs, steps, n - 1, atDialer);
      }
      if m :| 0 <= m < n && MergesWithout(pairs, steps, m, atDialer) && m < n - 1 {
        assert MergesWithout(pairs, steps, m, atDialer);
      }
    }
  }

  lemma {:induction false} OtherSteps(pairs: seq<Pair>, steps: seq<Step>, m: nat, atDialer: bool)
    requires m < |steps| && m < |pairs| && steps[m] != Read(atDialer)
    ensures !MergesWithout(pairs, steps, m, atDialer)
  {
  }

  lemma {:induction false} MergeStep(hash: RecordHashing, pairs: seq<Pair>, steps: seq<Step>, m: nat, atDialer: bool)
    requires IsRun(hash, pairs, steps) && m < |steps| && steps[m] == Read(atDialer)
    ensures var l := End(pairs[m], atDialer);
            |l.inbox| == 2 && DetachedHere(l) <==> MergesWithout(pairs, steps, m, atDialer)
  {
    hide Possible, DetachedBefore;
    var l := End(pairs[m], atDialer);
    KeepsCollections(hash, pairs, steps, m, atDialer);
    forall name | name in SharedHere(l)
      ensures name !in l.attached <==> DetachedBefore(steps, m, atDialer, name)
    {
      SharedIsIntersection(l.collections, l.inbox[0].collections);
      AttachedUnlessDetached(hash, pairs, steps, m, atDialer, name);
    }
  }

  lemma {:induction false} KeepsCollections(hash: RecordHashing, pairs: seq<Pair>, steps: seq<Step>, n: nat,
      atDialer: bool)
    requires IsRun(hash, pairs, steps) && n < |pairs|
    ensures End(pairs[n], atDialer).collections == End(pairs[0], atDialer).collections
  {
    hide Possible, ReadError, CanRead;
    if n > 0 {
      KeepsCollections(hash, pairs, steps, n - 1, atDialer);
      assert Follows(hash, pairs[n - 1], steps[n - 1], pairs[n - 1 + 1]);
    }
  }

  /** A message that may be written whenever a write is due. */
  function SomeMessage(l: Local): Message
  {
    var s := |l.started|;
    if s == 0 then HelloMsg(l.collections)
    else if s == 1 then RosterMsg
    else if s == 2 then ManifestsMsg(SharedHere(l))
    else if s == 3 then RequestsMsg([])
    else if s < Owed(l) then ReplyMsg(Unavailable)
    else if s == Owed(l) then DoneMsg
    else FinMsg
  }

  /** No deadlock: unless an end has raised its error, or both are finished, the session can take
      some step whatever the buffers. */
  lemma {:induction false} SomeStepIsEnabled(hash: RecordHashing, p: Pair)
    requires Inv(hash, p) && !(Finished(p.dialer) && Finished(p.acceptor))
    requires p.dialer.error.None? && p.acceptor.error.None?
    ensures exists step :: Guaranteed(hash, p, step)
  {
    hide MayWrite, Legal;
    var d, a := p.dialer, p.acceptor;
    CountsAgree(hash, d, a);
    CountsAgree(hash, a, d);
    if |d.started| > Owed(d) + 1 {
      EndOfStream(hash, d);
    }
    if |a.started| > Owed(a) + 1 {
      EndOfStream(hash, a);
    }
    if CanBegin(d) {
      SomeMessageMayBeWritten(hash, d);
      assert Guaranteed(hash, p, Begin(true, SomeMessage(d)));
    } else if CanBegin(a) {
      SomeMessageMayBeWritten(hash, a);
      assert Guaranteed(hash, p, Begin(false, SomeMessage(a)));
    } else if CanRead(d) && |d.inbox| < |a.started| {
      assert Guaranteed(hash, p, Read(true));
    } else if CanRead(a) && |a.inbox| < |d.started| {
      assert Guaranteed(hash, p, Read(false));
    } else if d.written < |d.started| && (|a.inbox| >= |d.started| || d.started[|d.started| - 1] == FinMsg) {
      assert Guaranteed(hash, p, Flush(true));
    } else {
      assert Guaranteed(hash, p, Flush(false));
    }
  }

  lemma {:induction false} SomeMessageMayBeWritten(hash: RecordHashing, l: Local)
    ensures MayWrite(hash, l, SomeMessage(l))
  {
  }

  lemma {:induction false} EndOfStream(hash: RecordHashing, l: Local)
    requires Legal(hash, l) && |l.started| > Owed(l) + 1
    ensures l.started[|l.started| - 1] == FinMsg
  {
    LegalTail(hash, l, |l.started| - 1);
  }

  function Progress(l: Local): nat
  {
    |l.started| + l.written + |l.inbox|
  }

  /** The steps of the session itself. */
  function SessionSteps(steps: seq<Step>): nat
  {
    if |steps| == 0 then 0
    else SessionSteps(steps[..|steps| - 1]) + if OfSession(steps[|steps| - 1]) then 1 else 0
  }

  /** No session goes on for ever: its length is bounded by the number of transfers. */
  lemma {:induction false} RunsAreBounded(hash: RecordHashing, pairs: seq<Pair>, steps: seq<Step>)
    requires IsRun(hash, pairs, steps)
    ensures SessionSteps(steps) <= 6 * (MAX_TRANSFERS + 6) + 2
  {
    var n := |steps|;
    RunsKeepInv(hash, pairs, steps, n);
    EveryStepCounts(hash, pairs, steps, n);
    assert steps[..n] == steps;
    var p := pairs[n];
    LegalKinds(hash, p.dialer);
    LegalKinds(hash, p.acceptor);
    CountsAgree(hash, p.dialer, p.acceptor);
    CountsAgree(hash, p.acceptor, p.dialer);
  }

  function Raised(l: Local): nat
  {
    if l.error.Some? then 1 else 0
  }

  lemma {:induction false} EveryStepCounts(hash: RecordHashing, pairs: seq<Pair>, steps: seq<Step>, n: nat)
    requires IsRun(hash, pairs, steps) && n < |pairs|
    ensures var p := pairs[n];
            Progress(p.dialer) + Progress(p.acceptor) + Raised(p.dialer) + Raised(p.acceptor)
                == SessionSteps(steps[..n])
  {
    hide ReadError, CanRead, CanBegin, MayWrite, DetachedHere;
    if n > 0 {
      EveryStepCounts(hash, pairs, steps, n - 1);
      RunsKeepInv(hash, pairs, steps, n - 1);
      assert steps[..n][..n - 1] == steps[..n - 1];
      assert Follows(hash, pairs[n - 1], steps[n - 1], pairs[n - 1 + 1]);
      var l := End(pairs[n - 1], steps[n - 1].atDialer);
      if steps[n - 1].Read? {
        CanReadIsHealthy(l);
        ReadsPass(hash, pairs[n - 1], steps[n - 1].atDialer);
      } else if steps[n - 1].Begin? {
        CanBeginIsHealthy(l);
      }
    }
  }

  /** Four frames, one fitting answer for each request in order, and the end. */
  predicate AllAnswered(hash: RecordHashing, asked: seq<FileRequest>, inbox: seq<Message>)
  {
    && |inbox| == 4 + |asked| + 2
    && (forall j :: 0 <= j < |asked| ==> AnsweredAt(hash, asked, inbox, j))
    && inbox[4 + |asked|..] == [DoneMsg, FinMsg]
  }

  predicate AnsweredAt(hash: RecordHashing, asked: seq<FileRequest>, inbox: seq<Message>, j: nat)
    requires j < |asked| && 4 + j < |inbox|
  {
    inbox[4 + j].ReplyMsg? && ReplyFits(hash, asked[j], inbox[4 + j].reply)
  }

  /** When both ends have finished, every request of either was answered exactly once, in order,
      by its file or by a refusal, and both worked on the same collections. */
  lemma {:induction false} FinishedSession(hash: RecordHashing, p: Pair, atDialer: bool)
    requires Inv(hash, p) && Finished(p.dialer) && Finished(p.acceptor)
    ensures var l, o := End(p, atDialer), End(p, !atDialer);
            && l.inbox == o.started && AllAnswered(hash, Asked(l.started), l.inbox)
            && SharedHere(l) == SharedHere(o)
  {
    hide MayWrite, SetOf, SharedHere, AllAnswered;
    var l, o := End(p, atDialer), End(p, !atDialer);
    CountsAgree(hash, l, o);
    CountsAgree(hash, o, l);
    SharedAgree(hash, p);
    assert EndInv(hash, l, o) && EndInv(hash, o, l) && Finished(l) && Finished(o);
    assert |l.inbox| == |o.started|;
    AnswersInOrder(hash, l, o);
  }

  lemma {:induction false} AnswersInOrder(hash: RecordHashing, l: Local, o: Local)
    requires Legal(hash, o) && l.inbox == o.started && Asked(o.inbox) == Asked(l.started) && |o.started| == Owed(o) + 2
    ensures AllAnswered(hash, Asked(l.started), l.inbox)
  {
    hide MayWrite, ReplyFits, Legal;
    var asked := Asked(l.started);
    forall j | 0 <= j < |asked|
      ensures AnsweredAt(hash, asked, l.inbox, j)
    {
      LegalTail(hash, o, 4 + j);
    }
    LegalTail(hash, o, 4 + |asked|);
    LegalTail(hash, o, 5 + |asked|);
    assert l.inbox[4 + |asked|..] == [l.inbox[4 + |asked|], l.inbox[5 + |asked|]];
  }

  // ---------------------------------------------------------------- an error that happens

  ghost predicate Reachable(hash: RecordHashing, p: Pair)
  {
    exists pairs, steps :: RunTo(hash, pairs, steps, p)
  }

  ghost predicate RunTo(hash: RecordHashing, pairs: seq<Pair>, steps: seq<Step>, p: Pair)
  {
    IsRun(hash, pairs, steps) && pairs[|steps|] == p
  }

  lemma {:induction false} StartIsReachable(hash: RecordHashing, dialer: seq<Name>, acceptor: seq<Name>)
    ensures Reachable(hash, Start(dialer, acceptor))
  {
    assert RunTo(hash, [Start(dialer, acceptor)], [], Start(dialer, acceptor));
  }

  lemma {:induction false} StepReaches(hash: RecordHashing, p: Pair, step: Step)
    requires Reachable(hash, p) && Possible(hash, p, step)
    ensures Reachable(hash, After(hash, p, step))
  {
    hide Possible, After, Start;
    var pairs, steps :| RunTo(hash, pairs, steps, p);
    var next := After(hash, p, step);
    forall n | 0 <= n < |steps + [step]|
      ensures Follows(hash, (pairs + [next])[n], (steps + [step])[n], (pairs + [next])[n + 1])
    {
      assert n < |steps| ==> Follows(hash, pairs[n], steps[n], pairs[n + 1]);
    }
    assert RunTo(hash, pairs + [next], steps + [step], next);
  }

  /** An end that has exchanged so many frames. */
  predicate Even(l: Local, n: nat)
  {
    l.error.None? && |l.started| == n && l.written == n && |l.inbox| == n
  }

  function Exchanged(l: Local, mine: Message, theirs: Message): Local
  {
    l.(started := l.started + [mine], written := l.written + 1, inbox := l.inbox + [theirs])
  }

  /** Each of the first exchanges can be carried out. */
  lemma {:induction false} ExchangeReaches(hash: RecordHashing, p: Pair, n: nat, x: Message, y: Message)
    requires Reachable(hash, p) && n < 2 && Even(p.dialer, n) && Even(p.acceptor, n)
    requires MayWrite(hash, p.dialer, x) && MayWrite(hash, p.acceptor, y)
    ensures Reachable(hash, Pair(Exchanged(p.dialer, x, y), Exchanged(p.acceptor, y, x)))
  {
    hide Reachable, SharedHere, DetachedHere;
    var d, a := p.dialer, p.acceptor;
    StepReaches(hash, p, Begin(true, x));
    var d1 := d.(started := d.started + [x]);
    StepReaches(hash, Pair(d1, a), Begin(false, y));
    var a1 := a.(started := a.started + [y]);
    StepReaches(hash, Pair(d1, a1), Flush(true));
    var d2 := d1.(written := n + 1);
    StepReaches(hash, Pair(d2, a1), Flush(false));
    var a2 := a1.(written := n + 1);
    StepReaches(hash, Pair(d2, a2), Read(true));
    StepReaches(hash, Pair(d2.(inbox := d.inbox + [y]), a2), Read(false));
  }

  /** Such an error is reachable: the dialer's only shared collection is detached after the rosters,
      and reading the acceptor's manifests then raises it. */
  lemma {:induction false} DetachedMidSession(hash: RecordHashing, name: Name)
    ensures exists p :: Reachable(hash, p) && p.dialer.collections == [name] == p.acceptor.collections
                        && p.dialer.error == Some(WrongCollections)
  {
    hide Reachable;
    var names := [name];
    var p := Start(names, names);
    StartIsReachable(hash, names, names);
    ExchangeReaches(hash, p, 0, HelloMsg(names), HelloMsg(names));
    var d, a := Exchanged(p.dialer, HelloMsg(names), HelloMsg(names)),
        Exchanged(p.acceptor, HelloMsg(names), HelloMsg(names));
    ExchangeReaches(hash, Pair(d, a), 1, RosterMsg, RosterMsg);
    var d1, a1 := Exchanged(d, RosterMsg, RosterMsg), Exchanged(a, RosterMsg, RosterMsg);
    SharedIsIntersection(names, names);
    assert SharedHere(d1) == {name} == SharedHere(a1);
    StepReaches(hash, Pair(d1, a1), Begin(false, ManifestsMsg({name})));
    var a2 := a1.(started := a1.started + [ManifestsMsg({name})]);
    StepReaches(hash, Pair(d1, a2), Detach(true, name));
    var d2 := d1.(attached := d1.attached - {name});
    assert DetachedHere(d2);
    StepReaches(hash, Pair(d2, a2), Read(true));
    assert After(hash, Pair(d2, a2), Read(true)).dialer.error == Some(WrongCollections);
  }
}
