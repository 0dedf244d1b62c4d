/** Serving and receiving the requested files: each request gets one answer, the byte budgets
    hold, and what is received is recorded. */
module Transfers {
  import opened Prelude
  import opened Bytes
  import opened Canonical
  import opened Paths
  import opened Records
  import opened Manifests
  import opened RecordStore
  import opened Install
  import opened Wire
  import opened Bundles
  import opened Exchange

  /** The answer to one request: a file header with its bytes behind it, or nothing. */
  datatype Reply = FileReply(record: Record) | Unavailable

  function RequestKey(q: FileRequest): Key
  {
    (q.collection, q.path)
  }

  // ---------------------------------------------------------------- sending

  /** `prepare_requested_file`, short of opening the file. */
  function Prepared(hash: RecordHashing, t: Tables, q: FileRequest): Option<Record>
  {
    var k := RequestKey(q);
    if k !in t.rows || hash(t.rows[k].record) != q.recordHash || !t.rows[k].materialized
       || q.collection !in t.collections || t.rows[k].record.kind.Tombstone?
    then None
    else Some(t.rows[k].record)
  }

  datatype Sending = Sending(tables: Tables, sent: nat, replies: seq<Reply>, error: Option<SyncError>)

  /** One request.  `opens` says whether the file on disk still is the recorded one. */
  function SendStep(hash: RecordHashing, s: Sending, q: FileRequest, opens: bool): Sending
  {
    if s.error.Some? then s
    else
      match Prepared(hash, s.tables, q)
      case None => s.(replies := s.replies + [Unavailable])
      case Some(record) =>
        if !opens then s.(tables := MarkRepair(s.tables, RequestKey(q)).value, replies := s.replies + [Unavailable])
        else if s.sent + record.kind.size > MAX_SESSION_FILE_BYTES then s.(replies := s.replies + [Unavailable])
        else
          match CheckRecord(record, record.collection)
          case Err(error) => s.(error := Some(Protocol(error)))
          case Ok(_) => s.(sent := s.sent + record.kind.size, replies := s.replies + [FileReply(record)])
  }

  function SendAll(hash: RecordHashing, t: Tables, requests: seq<FileRequest>, opens: nat -> bool): Sending
  {
    if |requests| == 0 then Sending(t, 0, [], None)
    else
      var n := |requests| - 1;
      SendStep(hash, SendAll(hash, t, requests[..n], opens), requests[n], opens(n))
  }

  lemma {:induction false} SendingStops(hash: RecordHashing, t: Tables, requests: seq<FileRequest>,
      opens: nat -> bool, n: nat)
    requires n <= |requests| && SendAll(hash, t, requests[..n], opens).error.Some?
    ensures SendAll(hash, t, requests, opens) == SendAll(hash, t, requests[..n], opens)
  {
    if n == |requests| {
      assert requests[..n] == requests;
    } else {
      assert requests[..|requests| - 1][..n] == requests[..n];
      SendingStops(hash, t, requests[..|requests| - 1], opens, n);
    }
  }

  /** `send_files`. */
  method SendFiles(store: RecordTables, shared: seq<Name>, requests: seq<FileRequest>, opens: nat -> bool)
    returns (r: Result<seq<Reply>, SyncError>)
    requires store.Valid()
    modifies store
    ensures store.Valid()
    ensures (exists q :: q in requests && q.collection !in shared) ==>
            r == Err(WrongCollections) && store.State() == old(store.State())
    ensures (forall q :: q in requests ==> q.collection in shared) ==>
              var s := SendAll(store.hash, old(store.State()), requests, opens);
              && store.State() == s.tables
              && r == (if s.error.Some? then Err(s.error.value) else Ok(s.replies))
  {
    hide RecordOk, RowSound;
    if exists q :: q in requests && q.collection !in shared {
      return Err(WrongCollections);
    }
    ghost var t := store.State();
    var sent: u64, replies := 0, [];
    for i := 0 to |requests|
      invariant store.Valid()
      invariant SendAll(store.hash, t, requests[..i], opens) == Sending(store.State(), sent, replies, None)
      invariant sent <= MAX_SESSION_FILE_BYTES
    {
      assert requests[..i + 1][..i] == requests[..i];
      var k := RequestKey(requests[i]);
      var prepared := PrepareFile(store, requests[i]);
      if prepared.None? {
        replies := replies + [Unavailable];
      } else if !opens(i) {
        var _ := store.MarkRepairRequired(k);
        replies := replies + [Unavailable];
      } else if sent + prepared.value.kind.size > U64_MAX || sent + prepared.value.kind.size > MAX_SESSION_FILE_BYTES {
        replies := replies + [Unavailable];
      } else {
        sent := sent + prepared.value.kind.size;
        var header := CheckRecord(prepared.value, prepared.value.collection);
        if header.Err? {
          SendingStops(store.hash, t, requests, opens, i + 1);
          return Err(Protocol(header.error));
        }
        replies := replies + [FileReply(prepared.value)];
      }
    }
    assert requests[..|requests|] == requests;
    return Ok(replies);
  }

  method PrepareFile(store: RecordTables, q: FileRequest) returns (r: Option<Record>)
    ensures r == Prepared(store.hash, store.State(), q)
    ensures r.Some? ==> RequestKey(q) in store.rows && store.rows[RequestKey(q)].record == r.value && r.value.kind.File?
  {
    var k := RequestKey(q);
    if k !in store.rows { return None; }
    if store.hash(store.rows[k].record) != q.recordHash { return None; }
    if !store.rows[k].materialized { return None; }
    if q.collection !in store.collections { return None; }
    if store.rows[k].record.kind.Tombstone? { return None; }
    return Some(store.rows[k].record);
  }

  // ---------------------------------------------------------------- receiving

  /** How one transfer went: whether the bytes had the declared hash, and how installing ended. */
  datatype Outcome = Outcome(intact: bool, installed: Result<Installed, InstallError>)

  datatype Receiving = Receiving(tables: Tables, received: nat, error: Option<SyncError>)

  /** The bytes of an answer's frame. */
  function FrameSize(reply: Reply): nat
  {
    match reply
    case Unavailable => HEADER_BYTES
    case FileReply(r) => HEADER_BYTES + if |r.collection| <= U32_MAX && |r.path| <= U32_MAX then |RecordBytes(r)| else 0
  }

  predicate Matches(hash: RecordHashing, q: FileRequest, record: Record)
  {
    record.collection == q.collection && record.path == q.path && hash(record) == q.recordHash && record.kind.File?
  }

  function ReceiveStep(hash: RecordHashing, s: Receiving, q: FileRequest, reply: Reply, o: Outcome): Receiving
  {
    if s.error.Some? then s
    else if s.received + FrameSize(reply) > MAX_CONNECTION_BYTES then s.(error := Some(Protocol(ConnectionLimit)))
    else
      var received := s.received + FrameSize(reply);
      match reply
      case Unavailable => s.(received := received)
      case FileReply(record) =>
        if !Matches(hash, q, record) then s.(error := Some(UnsolicitedFile))
        else if received + record.kind.size > MAX_CONNECTION_BYTES then s.(error := Some(Protocol(ConnectionLimit)))
        else if !o.intact then s.(error := Some(CorruptFile))
        else Receiving(ReceiveTables(s.tables, q, record, o), received + record.kind.size, None)
  }

  /** The store after an intact file: nothing if the record no longer wins. */
  function ReceiveTables(t: Tables, q: FileRequest, record: Record, o: Outcome): Tables
  {
    if !Wins(t.rows, record) || q.collection !in t.collections then t
    else ApplyTables(t, record, o.installed).0
  }

  function ReceiveAll(hash: RecordHashing, t: Tables, requests: seq<FileRequest>, replies: seq<Reply>,
                      outcomes: nat -> Outcome, received: nat): Receiving
    requires |replies| == |requests|
  {
    if |requests| == 0 then Receiving(t, received, None)
    else
      var n := |requests| - 1;
      ReceiveStep(hash, ReceiveAll(hash, t, requests[..n], replies[..n], outcomes, received), requests[n], replies[n],
          outcomes(n))
  }

  lemma {:induction false} ReceivingStops(hash: RecordHashing, t: Tables, requests: seq<FileRequest>,
      replies: seq<Reply>,
      outcomes: nat -> Outcome, received: nat, n: nat)
    requires |replies| == |requests| && n <= |requests|
    requires ReceiveAll(hash, t, requests[..n], replies[..n], outcomes, received).error.Some?
    ensures ReceiveAll(hash, t, requests, replies, outcomes, received)
            == ReceiveAll(hash, t, requests[..n], replies[..n], outcomes, received)
  {
    if n == |requests| {
      assert requests[..n] == requests && replies[..n] == replies;
    } else {
      var m := |requests| - 1;
      assert requests[..m][..n] == requests[..n] && replies[..m][..n] == replies[..n];
      ReceivingStops(hash, t, requests[..m], replies[..m], outcomes, received, n);
    }
  }

  /** `receive_files`, with one answer for each request. */
  method ReceiveFiles(store: RecordTables, requests: seq<FileRequest>, replies: seq<Reply>, outcomes: nat -> Outcome,
      received: u64)
    returns (r: Result<u64, SyncError>)
    requires store.Valid() && |replies| == |requests|
    requires forall i :: 0 <= i < |replies| && replies[i].FileReply? ==>
               Sendable(replies[i].record) && RightFile(replies[i].record, outcomes(i).installed)
    modifies store
    ensures store.Valid()
    ensures var s := ReceiveAll(store.hash, old(store.State()), requests, replies, outcomes, received);
            && store.State() == s.tables
            && r == (if s.error.Some? then Err(s.error.value) else Ok(s.received))
  {
    hide RecordOk, RowSound, ApplyTables, FrameSize;
    ghost var t := store.State();
    var total: u64 := received;
    for i := 0 to |requests|
      invariant store.Valid()
      invariant ReceiveAll(store.hash, t, requests[..i], replies[..i], outcomes, received)
                == Receiving(store.State(), total, None)
    {
      assert requests[..i + 1][..i] == requests[..i] && replies[..i + 1][..i] == replies[..i];
      FrameSizeBound(replies[i]);
      var counted := AddReceived(total, FrameSize(replies[i]));
      if counted.Err? {
        ReceivingStops(store.hash, t, requests, replies, outcomes, received, i + 1);
        return Err(Protocol(counted.error));
      }
      total := counted.value;
      if replies[i].FileReply? {
        var record := replies[i].record;
        if !Matches(store.hash, requests[i], record) {
          ReceivingStops(store.hash, t, requests, replies, outcomes, received, i + 1);
          return Err(UnsolicitedFile);
        }
        counted := AddReceived(total, record.kind.size);
        if counted.Err? {
          ReceivingStops(store.hash, t, requests, replies, outcomes, received, i + 1);
          return Err(Protocol(counted.error));
        }
        total := counted.value;
        if !outcomes(i).intact {
          ReceivingStops(store.hash, t, requests, replies, outcomes, received, i + 1);
          return Err(CorruptFile);
        }
        ApplyReceived(store, requests[i], record, outcomes(i));
      }
    }
    assert requests[..|requests|] == requests && replies[..|replies|] == replies;
    return Ok(total);
  }

  method ApplyReceived(store: RecordTables, q: FileRequest, record: Record, o: Outcome)
    requires store.Valid() && RightFile(record, o.installed)
    modifies store
    ensures store.Valid() && store.State() == ReceiveTables(old(store.State()), q, record, o)
  {
    hide RecordOk, RowSound, ApplyTables;
    var k := (record.collection, record.path);
    if k in store.rows && store.rows[k].record == record && q.collection in store.collections {
      var _ := RecordOutcome(store, record, o.installed);
    }
  }

  // ---------------------------------------------------------------- lengths

  lemma {:induction false} FrameSizeBound(reply: Reply)
    requires reply.FileReply? ==> Sendable(reply.record)
    ensures HEADER_BYTES <= FrameSize(reply) <= HEADER_BYTES + 4_460
  {
    hide RecordBytes, IsUtf8, ParsePath;
    if reply.FileReply? {
      RecordLength(reply.record);
    }
  }

  lemma {:induction false} ItemsLength(rs: seq<FileRequest>)
    requires forall q :: q in rs ==> CheckRequest(q).Ok?
    ensures |ItemsBytes(RequestCodec(), rs)| <= 4_391 * |rs|
    decreases |rs|
  {
    hide CheckRequest, U32Bytes, Fixed32;
    if |rs| > 0 {
      RequestIsShort(rs[0]);
      ItemsLength(rs[1..]);
    }
  }

  lemma {:induction false} RequestIsShort(q: FileRequest)
    requires CheckRequest(q).Ok?
    ensures |RequestCodec().encode(q)| <= 4_391
  {
    hide U32Bytes, Fixed32;
    assert RequestCodec().encode(q) == RequestBytes(q);
  }

  lemma {:induction false} SortedRequestsPass(rs: seq<FileRequest>)
    requires SortedRequests(rs) && forall q :: q in rs ==> CheckRequest(q).Ok?
    ensures CheckRequests(rs) == Ok(())
  {
    hide CheckRequest, RequestLess;
    if |rs| > 0 {
      var n := |rs| - 1;
      SortedRequestsPass(rs[..n]);
      assert rs[n] in rs;
    }
  }

  /** The request list of an honest session always encodes, within its frame's limit. */
  lemma {:induction false} ChosenRequestsEncode(hash: RecordHashing, rows: Rows, limit: i64, cs: seq<Record>)
    requires forall c :: c in cs ==> Sendable(c)
    ensures var s := Choose(hash, rows, limit, cs);
            && |s| <= MAX_TRANSFERS && EncodeRequests(s) == Ok(RequestsBytes(s))
            && |RequestsBytes(s)| <= 4 + 1_024 * 4_391 <= PayloadLimit(RequestsTag)
  {
    hide RecordOk, Choose, ItemsBytes, CheckRequests, CheckRequest, U32Bytes, SortedRequests;
    ChosenRequests(hash, rows, limit, cs);
    var s := Choose(hash, rows, limit, cs);
    forall q | q in s
      ensures CheckRequest(q).Ok?
    {
      var c :| c in cs && Wanted(rows, limit, c) && q == RequestFor(hash, c);
      SendableIsValid(hash, c);
    }
    SortedRequestsPass(s);
    ItemsLength(s);
  }

  lemma {:induction false} SendableIsValid(hash: RecordHashing, c: Record)
    requires Sendable(c)
    ensures CheckRequest(RequestFor(hash, c)).Ok?
  {
  }

  // ---------------------------------------------------------------- every request is answered

  /** Serving only ever takes materialisation away from file rows. */
  lemma {:induction false} SendingKeepsRecords(hash: RecordHashing, t: Tables, requests: seq<FileRequest>,
      opens: nat -> bool)
    ensures var next := SendAll(hash, t, requests, opens).tables;
            && next.collections == t.collections && next.rows.Keys == t.rows.Keys
            && forall k :: k in t.rows ==>
               next.rows[k] == t.rows[k] || (t.rows[k].record.kind.File? && next.rows[k] == Unmaterialize(t.rows[k]))
  {
    if |requests| > 0 {
      SendingKeepsRecords(hash, t, requests[..|requests| - 1], opens);
    }
  }

  /** No two distinct records in use share a hash. */
  ghost predicate HashesApart(hash: RecordHashing, s: set<Record>)
  {
    forall x, y :: x in s && y in s && hash(x) == hash(y) ==> x == y
  }

  function RecordsIn(rows: Rows): set<Record>
  {
    set k | k in rows :: rows[k].record
  }

  /** Requests an honest peer makes: for its own winning files, within both caps. */
  ghost predicate Honest(hash: RecordHashing, rows: Rows, requests: seq<FileRequest>)
  {
    && TotalSize(rows, requests) <= MAX_SESSION_FILE_BYTES && |requests| <= MAX_TRANSFERS
    && forall i :: 0 <= i < |requests| ==> HonestRequest(hash, rows, requests[i])
  }

  ghost predicate HonestRequest(hash: RecordHashing, rows: Rows, q: FileRequest)
  {
    var k := RequestKey(q);
    k in rows && Sendable(rows[k].record) && Matches(hash, q, rows[k].record)
  }

  lemma {:induction false} ChosenIsHonest(hash: RecordHashing, rows: Rows, limit: i64, cs: seq<Record>)
    requires forall c :: c in cs ==> Sendable(c)
    ensures Honest(hash, rows, Choose(hash, rows, limit, cs))
  {
    hide RecordOk, Choose, SortedRequests;
    ChosenRequests(hash, rows, limit, cs);
    var s := Choose(hash, rows, limit, cs);
    forall i | 0 <= i < |s|
      ensures HonestRequest(hash, rows, s[i])
    {
      assert s[i] in s;
      var c :| c in cs && Wanted(rows, limit, c) && s[i] == RequestFor(hash, c);
    }
  }

  lemma {:induction false} TotalSizeAppend(rows: Rows, rs: seq<FileRequest>, n: nat)
    requires n < |rs|
    ensures TotalSize(rows, rs[..n + 1])
            == TotalSize(rows, rs[..n]) + (match SizeAt(rows, rs[n]) case None => 0 case Some(size) => size)
  {
    hide SizeAt;
    if n > 0 {
      TotalSizeAppend(rows, rs[1..], n - 1);
      assert rs[1..][..n] == rs[..n + 1][1..] && rs[1..][..n - 1] == rs[..n][1..];
    }
  }

  lemma {:induction false} TotalSizePrefix(rows: Rows, rs: seq<FileRequest>, n: nat)
    requires n <= |rs|
    ensures TotalSize(rows, rs[..n]) <= TotalSize(rows, rs)
    decreases |rs| - n
  {
    if n == |rs| {
      assert rs[..n] == rs;
    } else {
      TotalSizeAppend(rows, rs, n);
      TotalSizePrefix(rows, rs, n + 1);
    }
  }

  /** The answer a request deserves: the file if the sender has it recorded and it opens. */
  function Deserved(hash: RecordHashing, t: Tables, q: FileRequest, opens: bool): Reply
  {
    var prepared := Prepared(hash, t, q);
    if prepared.Some? && opens then FileReply(prepared.value) else Unavailable
  }

  /** Request `i` got the answer it deserved at its turn, and a file is the one asked for. */
  ghost predicate ServedAt(hash: RecordHashing, rows: Rows, t: Tables, requests: seq<FileRequest>, opens: nat -> bool,
      i: nat, reply: Reply)
    requires i < |requests|
  {
    && RequestKey(requests[i]) in rows
    && reply == Deserved(hash, SendAll(hash, t, requests[..i], opens).tables, requests[i], opens(i))
    && (reply.FileReply? ==> reply.record == rows[RequestKey(requests[i])].record)
  }

  /** The sender's own cap never refuses an honest peer: each request gets exactly one answer, in
      order, and it is the file whenever the sender has it and can open it.  The file is then the
      very record the requester asked for. */
  lemma {:induction false} HonestRequestsAreServed(hash: RecordHashing, rows: Rows, t: Tables,
      requests: seq<FileRequest>, opens: nat -> bool)
    requires Honest(hash, rows, requests) && HashesApart(hash, RecordsIn(rows) + RecordsIn(t.rows))
    ensures var s := SendAll(hash, t, requests, opens);
            && s.error == None && |s.replies| == |requests| && s.sent <= TotalSize(rows, requests)
            && forall i :: 0 <= i < |requests| ==>
                 HonestRequest(hash, rows, requests[i]) && ServedAt(hash, rows, t, requests, opens, i, s.replies[i])
  {
    hide RecordOk, TotalSize, SendStep, Deserved, HashesApart, RecordsIn, HonestRequest;
    if |requests| > 0 {
      var n := |requests| - 1;
      var init, q := requests[..n], requests[n];
      HonestInit(hash, rows, requests);
      HonestRequestsAreServed(hash, rows, t, init, opens);
      var before := SendAll(hash, t, init, opens);
      SendingKeepsRecordSet(hash, t, init, opens);
      ServedStep(hash, rows, before, q, opens(n));
      forall i | 0 <= i < n
        ensures HonestRequest(hash, rows, requests[i]) && ServedAt(hash, rows, t, requests, opens, i, before.replies[i])
      {
        assert HonestRequest(hash, rows, init[i]) && ServedAt(hash, rows, t, init, opens, i, before.replies[i]);
        assert init[..i] == requests[..i];
      }
    } else {
      assert TotalSize(rows, requests) >= 0;
    }
  }

  lemma {:induction false} SendingKeepsRecordSet(hash: RecordHashing, t: Tables, requests: seq<FileRequest>,
      opens: nat -> bool)
    ensures RecordsIn(SendAll(hash, t, requests, opens).tables.rows) == RecordsIn(t.rows)
  {
    hide SendAll;
    SendingKeepsRecords(hash, t, requests, opens);
  }

  lemma {:induction false} HonestInit(hash: RecordHashing, rows: Rows, requests: seq<FileRequest>)
    requires Honest(hash, rows, requests) && |requests| > 0
    ensures var n := |requests| - 1;
            && Honest(hash, rows, requests[..n]) && HonestRequest(hash, rows, requests[n])
               && RequestKey(requests[n]) in rows
            && rows[RequestKey(requests[n])].record.kind.File?
            && TotalSize(rows, requests)
               == TotalSize(rows, requests[..n]) + rows[RequestKey(requests[n])].record.kind.size
  {
    hide RecordOk, TotalSize;
    var n := |requests| - 1;
    TotalSizePrefix(rows, requests, n);
    TotalSizeAppend(rows, requests, n);
    assert requests[..n + 1] == requests;
    assert HonestRequest(hash, rows, requests[n]);
    forall i | 0 <= i < n
      ensures HonestRequest(hash, rows, requests[..n][i])
    {
      assert HonestRequest(hash, rows, requests[i]);
    }
  }

  lemma {:induction false} ServedStep(hash: RecordHashing, rows: Rows, s: Sending, q: FileRequest, opens: bool)
    requires HonestRequest(hash, rows, q) && HashesApart(hash, RecordsIn(rows) + RecordsIn(s.tables.rows))
    requires s.error.None? && s.sent + rows[RequestKey(q)].record.kind.size <= MAX_SESSION_FILE_BYTES
    ensures var next := SendStep(hash, s, q, opens);
            && next.error == None && next.replies == s.replies + [Deserved(hash, s.tables, q, opens)]
            && next.sent <= s.sent + rows[RequestKey(q)].record.kind.size
            && (Deserved(hash, s.tables, q, opens).FileReply? ==>
                  Deserved(hash, s.tables, q, opens).record == rows[RequestKey(q)].record)
  {
    hide RecordOk, HashesApart;
    if Prepared(hash, s.tables, q).Some? {
      SameHashSameRecord(hash, rows, s.tables.rows, q);
    }
  }

  lemma {:induction false} SameHashSameRecord(hash: RecordHashing, rows: Rows, other: Rows, q: FileRequest)
    requires HonestRequest(hash, rows, q) && HashesApart(hash, RecordsIn(rows) + RecordsIn(other))
    requires RequestKey(q) in other && hash(other[RequestKey(q)].record) == q.recordHash
    ensures other[RequestKey(q)].record == rows[RequestKey(q)].record
  {
    assert rows[RequestKey(q)].record in RecordsIn(rows) && other[RequestKey(q)].record in RecordsIn(other);
  }

  /** The answers fit the requests: what the lemma above establishes, as the receiver needs it. */
  ghost predicate Answers(rows: Rows, requests: seq<FileRequest>, replies: seq<Reply>)
  {
    && |replies| == |requests|
    && forall i :: 0 <= i < |requests| && replies[i].FileReply? ==>
         RequestKey(requests[i]) in rows && replies[i].record == rows[RequestKey(requests[i])].record
  }

  // ---------------------------------------------------------------- the connection's budget

  /** Receiving the answers to honest requests raises no error, and costs at most 4,465 bytes a
      request beyond the files themselves. */
  lemma {:induction false} HonestReceiptFits(hash: RecordHashing, rows: Rows, t: Tables, requests: seq<FileRequest>,
      replies: seq<Reply>,
      outcomes: nat -> Outcome, received: nat)
    requires Honest(hash, rows, requests) && Answers(rows, requests, replies)
    requires forall i :: 0 <= i < |requests| ==> outcomes(i).intact
    requires received + 4_465 * |requests| + TotalSize(rows, requests) <= MAX_CONNECTION_BYTES
    ensures var s := ReceiveAll(hash, t, requests, replies, outcomes, received);
            s.error == None && s.received <= received + 4_465 * |requests| + TotalSize(rows, requests)
  {
    hide RecordOk, TotalSize, FrameSize, ReceiveTables;
    if |requests| > 0 {
      var n := |requests| - 1;
      HonestInit(hash, rows, requests);
      HonestReceiptFits(hash, rows, t, requests[..n], replies[..n], outcomes, received);
      FrameSizeBound(replies[n]);
    }
  }

  /** A whole honest session stays under the connection's limit: the four control payloads at
      their own limits, every requested file with its header, and the closing frame. */
  lemma {:induction false} HonestSessionFits(hash: RecordHashing, rows: Rows, t: Tables, limit: i64, cs: seq<Record>,
      replies: seq<Reply>,
      outcomes: nat -> Outcome, hello: Bytes, roster: Bytes, manifests: Bytes, requests: Bytes)
    requires forall c :: c in cs ==> Sendable(c)
    requires Fits((HelloTag, hello)) && Fits((RosterTag, roster)) && Fits((ManifestsTag, manifests))
             && Fits((RequestsTag, requests))
    requires Answers(rows, Choose(hash, rows, limit, cs), replies)
    requires forall i :: outcomes(i).intact
    ensures var control := 4 * HEADER_BYTES + |hello| + |roster| + |manifests| + |requests|;
            var s := ReceiveAll(hash, t, Choose(hash, rows, limit, cs), replies, outcomes, control);
            s.error == None && s.received + HEADER_BYTES <= MAX_CONNECTION_BYTES
  {
    hide Choose, TotalSize, ReceiveAll, Honest, RecordOk;
    var chosen := Choose(hash, rows, limit, cs);
    ChosenIsHonest(hash, rows, limit, cs);
    HonestCaps(hash, rows, chosen);
    var control := 4 * HEADER_BYTES + |hello| + |roster| + |manifests| + |requests|;
    HonestReceiptFits(hash, rows, t, chosen, replies, outcomes, control);
  }

  lemma {:induction false} HonestCaps(hash: RecordHashing, rows: Rows, requests: seq<FileRequest>)
    requires Honest(hash, rows, requests)
    ensures TotalSize(rows, requests) <= MAX_SESSION_FILE_BYTES && |requests| <= MAX_TRANSFERS
  {
  }
}
