/** Convergence of last-write-wins: whatever the order, repetition and topology of merges, a
    peer's winner for a path is the greatest record it ever merged there. */
module Gossip {
  import opened Prelude
  import opened Bytes
  import opened Records
  import opened RecordStore

  /** The winning record of every path a peer knows. */
  type Winners = map<Key, Record>

  function KeyOf(r: Record): Key
  {
    (r.collection, r.path)
  }

  function WinnersOf(rows: Rows): Winners
  {
    map k | k in rows :: rows[k].record
  }

  /** The greater of two records for one path; the current one stays on a tie. */
  function Best(hash: RecordHashing, current: Record, candidate: Record): Record
  {
    if Beats(hash, candidate, current) then candidate else current
  }

  function MergeOne(hash: RecordHashing, w: Winners, r: Record): Winners
  {
    w[KeyOf(r) := if KeyOf(r) in w then Best(hash, w[KeyOf(r)], r) else r]
  }

  /** A received manifest: records later than the limit are ignored, the others merged path by
      path. */
  function MergeManifest(hash: RecordHashing, w: Winners, remote: Winners, limit: i64): Winners
  {
    map k | k in w.Keys + remote.Keys && (k in w || remote[k].modifiedNs <= limit) ::
      if k !in w then remote[k]
      else if k in remote && remote[k].modifiedNs <= limit then Best(hash, w[k], remote[k])
      else w[k]
  }

  /** The records of a manifest that are within a clock limit. */
  ghost function Within(remote: Winners, limit: i64): set<Record>
  {
    set k | k in remote && remote[k].modifiedNs <= limit :: remote[k]
  }

  // ---------------------------------------------------------------- the invariant

  /** `w` holds, for each path, a record of `seen` that no other record of `seen` beats. */
  ghost predicate HoldsMaxima(hash: RecordHashing, w: Winners, seen: set<Record>)
  {
    && (forall k :: k in w ==> w[k] in seen && KeyOf(w[k]) == k)
    && (forall r :: r in seen ==> KeyOf(r) in w && !Beats(hash, r, w[KeyOf(r)]))
  }

  lemma {:induction false} MergeOneKeepsMaxima(hash: RecordHashing, w: Winners, seen: set<Record>, r: Record)
    requires HoldsMaxima(hash, w, seen)
    ensures HoldsMaxima(hash, MergeOne(hash, w, r), seen + {r})
  {
    var next := MergeOne(hash, w, r);
    forall x | x in seen + {r}
      ensures KeyOf(x) in next && !Beats(hash, x, next[KeyOf(x)])
    {
      if KeyOf(x) == KeyOf(r) && KeyOf(r) in w {
        WinnerOrderIsTotal(hash, x, r, w[KeyOf(r)]);
        WinnerOrderIsTotal(hash, r, w[KeyOf(r)], x);
      }
    }
  }

  lemma {:induction false} MergeManifestKeepsMaxima(hash: RecordHashing, w: Winners, seen: set<Record>,
      remote: Winners, limit: i64)
    requires HoldsMaxima(hash, w, seen)
    requires forall k :: k in remote ==> KeyOf(remote[k]) == k
    ensures HoldsMaxima(hash, MergeManifest(hash, w, remote, limit), seen + Within(remote, limit))
  {
    var next := MergeManifest(hash, w, remote, limit);
    forall k | k in next
      ensures next[k] in seen + Within(remote, limit) && KeyOf(next[k]) == k
    {
    }
    forall x | x in seen + Within(remote, limit)
      ensures KeyOf(x) in next && !Beats(hash, x, next[KeyOf(x)])
    {
      var k := KeyOf(x);
      if k in w {
        if k in remote {
          WinnerOrderIsTotal(hash, x, remote[k], w[k]);
          WinnerOrderIsTotal(hash, remote[k], w[k], x);
        }
      }
    }
  }

  // ---------------------------------------------------------------- a network of peers

  /** Peers, and the history of records each has merged. */
  datatype Net = Net(winners: seq<Winners>, seen: seq<set<Record>>)

  datatype Event =
    | Author(peer: nat, record: Record)
    | Exchange(from: nat, to: nat, shared: set<Name>, limit: i64)

  /** The part of a peer's winners that it sends: its manifests of the shared collections. */
  function Shared(w: Winners, names: set<Name>): Winners
  {
    map k | k in w && k.0 in names :: w[k]
  }

  function After(hash: RecordHashing, n: Net, event: Event): Net
    requires |n.winners| == |n.seen|
  {
    match event
    case Author(peer, record) =>
      if peer >= |n.winners| then n
      else Net(n.winners[peer := MergeOne(hash, n.winners[peer], record)], n.seen[peer := n.seen[peer] + {record}])
    case Exchange(from, to, names, limit) =>
      if from >= |n.winners| || to >= |n.winners| then n
      else
        var remote := Shared(n.winners[from], names);
        Net(n.winners[to := MergeManifest(hash, n.winners[to], remote, limit)],
            n.seen[to := n.seen[to] + (set k | k in remote && remote[k].modifiedNs <= limit :: remote[k])])
  }

  function Run(hash: RecordHashing, n: Net, events: seq<Event>): (r: Net)
    requires |n.winners| == |n.seen|
    ensures |r.winners| == |r.seen| == |n.winners|
  {
    if |events| == 0 then n else After(hash, Run(hash, n, events[..|events| - 1]), events[|events| - 1])
  }

  function Start(peers: nat): Net
  {
    Net(seq(peers, _ => map[]), seq(peers, _ => {}))
  }

  /** After any events whatever, every peer holds the maxima of exactly the records it merged. */
  lemma {:induction false} RunsHoldMaxima(hash: RecordHashing, peers: nat, events: seq<Event>, peer: nat)
    requires peer < peers
    ensures var n := Run(hash, Start(peers), events);
            HoldsMaxima(hash, n.winners[peer], n.seen[peer])
    decreases |events|
  {
    if |events| > 0 {
      var init, event := events[..|events| - 1], events[|events| - 1];
      RunsHoldMaxima(hash, peers, init, peer);
      var n := Run(hash, Start(peers), init);
      match event
      case Author(p, record) =>
        if p == peer {
          MergeOneKeepsMaxima(hash, n.winners[p], n.seen[p], record);
        }
      case Exchange(from, to, names, limit) =>
        if to == peer && from < peers {
          RunsHoldMaxima(hash, peers, init, from);
          var remote := Shared(n.winners[from], names);
          MergeManifestKeepsMaxima(hash, n.winners[to], n.seen[to], remote, limit);
          assert Within(remote, limit) == set k | k in remote && remote[k].modifiedNs <= limit :: remote[k];
        }
    }
  }

  /** Nothing is invented: every record a peer merged was authored by some event. */
  lemma {:induction false} RunsInventNothing(hash: RecordHashing, peers: nat, events: seq<Event>, peer: nat, r: Record)
    requires peer < peers && r in Run(hash, Start(peers), events).seen[peer]
    ensures exists i, p :: 0 <= i < |events| && events[i] == Author(p, r)
    decreases |events|
  {
    if |events| > 0 {
      var init, event := events[..|events| - 1], events[|events| - 1];
      var n := Run(hash, Start(peers), init);
      if event.Author? && event.record == r {
        assert events[|events| - 1] == Author(event.peer, r);
      } else {
        var source := if r in n.seen[peer] then peer else event.from;
        RunsHoldMaxima(hash, peers, init, source);
        RunsInventNothing(hash, peers, init, source, r);
        var i, p :| 0 <= i < |init| && init[i] == Author(p, r);
        assert events[i] == Author(p, r);
      }
    }
  }

  /** Records in use never compare equal unless they are the same record
      (`Records.EqualOnlyOnEqualRecords` derives this from the encoding). */
  ghost predicate Distinguishes(hash: RecordHashing, s: set<Record>)
  {
    forall x, y :: x in s && y in s && CompareWinner(hash, x, y).Equal? ==> x == y
  }

  /** Strong convergence: two peers that merged the same records agree on every winner, however
      differently the records reached them. */
  lemma {:induction false} SameRecordsSameWinners(hash: RecordHashing, a: Winners, b: Winners, seen: set<Record>)
    requires HoldsMaxima(hash, a, seen) && HoldsMaxima(hash, b, seen) && Distinguishes(hash, seen)
    ensures a == b
  {
    forall k | k in a
      ensures k in b && a[k] == b[k]
    {
      WinnerOrderIsTotal(hash, a[k], b[k], a[k]);
    }
    forall k | k in b
      ensures k in a
    {
    }
  }

  /** Where both peers have a record for a path of the named collections, the order tells them
      apart. */
  ghost predicate Decides(hash: RecordHashing, a: Winners, b: Winners, names: set<Name>)
  {
    forall k :: k in a && k in b && k.0 in names && CompareWinner(hash, a[k], b[k]).Equal? ==> a[k] == b[k]
  }

  /** Neither peer's record for this path, if it has one, is too late for the other. */
  predicate InTime(a: Winners, b: Winners, limitA: i64, limitB: i64, k: Key)
  {
    (k in a ==> a[k].modifiedNs <= limitB) && (k in b ==> b[k].modifiedNs <= limitA)
  }

  /** An index in the named collections, where the records two peers send each other are in time. */
  function Timely(w: Winners, a: Winners, b: Winners, names: set<Name>, limitA: i64, limitB: i64): Winners
  {
    map k | k in w && k.0 in names && InTime(a, b, limitA, limitB, k) :: w[k]
  }

  /** Two peers that exchange the manifests of their shared collections end with the same winners
      there, at every path where neither peer's record exceeds the other's clock limit. */
  lemma {:induction false} ExchangeConverges(hash: RecordHashing, a: Winners, b: Winners, names: set<Name>,
      limitA: i64, limitB: i64)
    requires Decides(hash, a, b, names)
    ensures Timely(MergeManifest(hash, a, Shared(b, names), limitA), a, b, names, limitA, limitB) ==
            Timely(MergeManifest(hash, b, Shared(a, names), limitB), a, b, names, limitA, limitB)
  {
    var x := Timely(MergeManifest(hash, a, Shared(b, names), limitA), a, b, names, limitA, limitB);
    var y := Timely(MergeManifest(hash, b, Shared(a, names), limitB), a, b, names, limitA, limitB);
    assert x.Keys == y.Keys;
    forall k | k in x
      ensures x[k] == y[k]
    {
      if k in a && k in b {
        WinnerOrderIsTotal(hash, a[k], b[k], a[k]);
      }
    }
  }

  /** A record beyond the receiver's limit is never stored: whatever is new was within it. */
  lemma {:induction false} OverLimitIsNotStored(hash: RecordHashing, w: Winners, remote: Winners, limit: i64, k: Key)
    requires k in MergeManifest(hash, w, remote, limit)
    ensures var next := MergeManifest(hash, w, remote, limit);
            (k in w && next[k] == w[k]) || (k in remote && next[k] == remote[k] && next[k].modifiedNs <= limit)
  {
  }
}
