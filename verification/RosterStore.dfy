/** The roster half of the state store: the table of revisions, the four operations that write
    it, and the invariant they keep. */
module RosterStore {
  import opened Prelude
  import opened Bytes
  import opened Roster
  import opened RosterLattice

  const MAX_PEER_HINT_BYTES: nat := 16 * 1024
  const MAX_ROSTER_RETRY_DEPTH: nat := 1024

  datatype StateError =
    | RosterTopology
    | RevisionRejected(error: RosterError)
    | DuplicateRow
    | RosterRetryLimit
    | PeerHintLimit

  /** The table: revisions by hash. */
  type Rows = map<RosterHash, RosterRevision>

  // ---------------------------------------------------------------- the invariant

  ghost predicate Keyed(e: RosterEnv, rows: Rows)
  {
    forall h :: h in rows ==> e.hash(rows[h]) == h
  }

  /** One genesis, every other revision a valid child of a stored parent. */
  ghost predicate Consistent(e: RosterEnv, rows: Rows)
  {
    Keyed(e, rows) && (rows == map[] || exists g :: IsTree(e, g, rows.Values))
  }

  ghost function Root(e: RosterEnv, rows: Rows): (g: RosterRevision)
    requires Consistent(e, rows) && rows != map[]
    ensures IsTree(e, g, rows.Values)
  {
    var g :| IsTree(e, g, rows.Values); g
  }

  ghost function SelectedChain(e: RosterEnv, rows: Rows): seq<RosterRevision>
    requires Consistent(e, rows)
  {
    if rows == map[] then [] else [Root(e, rows)] + Chain(e, Root(e, rows), rows.Values)
  }

  lemma {:induction false} RootIsUnique(e: RosterEnv, g: RosterRevision, h: RosterRevision, s: set<RosterRevision>)
    requires IsTree(e, g, s) && IsTree(e, h, s)
    ensures g == h
  {
    assert g.number == 0 && h.number == 0;
    assert g == h || HasParent(e, s, g);
  }

  lemma {:induction false} OneGroup(e: RosterEnv, g: RosterRevision, s: set<RosterRevision>, r: RosterRevision)
    requires IsTree(e, g, s) && r in s
    ensures r.groupId == g.groupId
    decreases r.number
  {
    if r != g {
      assert HasParent(e, s, r);
      var p :| p in s && IsChild(e, p, r);
      OneGroup(e, g, s, p);
    }
  }

  lemma {:induction false} SelectedChainIsChain(e: RosterEnv, rows: Rows)
    requires Consistent(e, rows) && rows != map[]
    ensures IsChain(e, SelectedChain(e, rows))
    ensures Elements(SelectedChain(e, rows)) <= rows.Values
  {
    ChainIsLine(e, Root(e, rows), rows.Values);
    assert SelectedChain(e, rows)[1..] == Chain(e, Root(e, rows), rows.Values);
  }

  /** The end of the selected chain has no stored child. */
  lemma {:induction false} TipIsLeaf(e: RosterEnv, parent: RosterRevision, s: set<RosterRevision>, c: RosterRevision)
    requires c in s
    ensures var chain := [parent] + Chain(e, parent, s);
            !IsChild(e, chain[|chain| - 1], c)
    decreases U64_MAX - parent.number
  {
    match GreatestChild(e, parent, s)
    case Some(d) =>
      TipIsLeaf(e, d, s, c);
    case None =>
      if IsChild(e, parent, c) {
        GreatestChildExists(e, parent, s, c);
      }
  }

  lemma {:induction false} TipNumber(e: RosterEnv, parent: RosterRevision, s: set<RosterRevision>)
    ensures var chain := [parent] + Chain(e, parent, s);
            chain[|chain| - 1].number == parent.number + |Chain(e, parent, s)|
    decreases U64_MAX - parent.number
  {
    match GreatestChild(e, parent, s)
    case Some(d) =>
      TipNumber(e, d, s);
      assert ([parent] + Chain(e, parent, s))[1..] == [d] + Chain(e, d, s);
    case None =>
  }

  lemma {:induction false} ChildNumber(e: RosterEnv, parent: RosterRevision, c: RosterRevision)
    requires IsChild(e, parent, c)
    ensures c.number == parent.number + 1 && c.groupId == parent.groupId
  {
  }

  /** A leaf added below the tip extends the selected branch by exactly that leaf. */
  lemma {:induction false} ExtendTip(e: RosterEnv, genesis: RosterRevision, parent: RosterRevision,
                                     s: set<RosterRevision>, c: RosterRevision)
    requires IsTree(e, genesis, s)
    requires HashInjective(e, s + {c}) && parent in s && c !in s
    requires var chain := [parent] + Chain(e, parent, s);
             IsChild(e, chain[|chain| - 1], c)
    ensures Chain(e, parent, s + {c}) == Chain(e, parent, s) + [c]
    decreases U64_MAX - parent.number
  {
    hide IsChild, IsTree;
    var chain := [parent] + Chain(e, parent, s);
    TipNumber(e, parent, s);
    ChildNumber(e, chain[|chain| - 1], c);
    match GreatestChild(e, parent, s)
    case Some(d) =>
      ChildNumber(e, parent, d);
      assert chain[1..] == [d] + Chain(e, d, s);
      assert !IsChild(e, parent, c) by {
        if IsChild(e, parent, c) {
          ChildNumber(e, parent, c);
        }
      }
      assert IsGreatestChild(e, parent, s + {c}, d);
      GreatestChildIsUnique(e, parent, s + {c}, d);
      ExtendTip(e, genesis, d, s, c);
    case None =>
      assert chain == [parent];
      forall d | d in s
        ensures !IsChild(e, parent, d)
      {
        TipIsLeaf(e, parent, s, d);
      }
      assert IsGreatestChild(e, parent, s + {c}, c);
      GreatestChildIsUnique(e, parent, s + {c}, c);
      NewLeafHasNoChildren(e, genesis, s, c);
  }

  lemma {:induction false} NewLeafHasNoChildren(e: RosterEnv, genesis: RosterRevision, s: set<RosterRevision>,
      c: RosterRevision)
    requires IsTree(e, genesis, s) && c !in s && c.number > 0
    requires HashInjective(e, s + {c})
    ensures Chain(e, c, s + {c}) == []
  {
    forall d | d in s + {c}
      ensures !IsChild(e, c, d)
    {
      assert d == c || d == genesis || HasParent(e, s, d);
    }
  }

  lemma {:induction false} ChainIgnoresRoot(e: RosterEnv, parent: RosterRevision, s: set<RosterRevision>,
      g: RosterRevision)
    requires HashInjective(e, s) && g.number == 0
    ensures Chain(e, parent, s - {g}) == Chain(e, parent, s)
    decreases U64_MAX - parent.number
  {
    match GreatestChild(e, parent, s)
    case Some(c) =>
      assert IsGreatestChild(e, parent, s - {g}, c);
      GreatestChildIsUnique(e, parent, s - {g}, c);
      ChainIgnoresRoot(e, c, s, g);
    case None =>
      if GreatestChild(e, parent, s - {g}).Some? {
        GreatestChildExists(e, parent, s, GreatestChild(e, parent, s - {g}).value);
      }
  }

  // ---------------------------------------------------------------- what the operations do

  function AddRow(e: RosterEnv, rows: Rows, r: RosterRevision): Result<Rows, StateError>
  {
    if e.hash(r) in rows then Err(DuplicateRow) else Ok(rows[e.hash(r) := r])
  }

  /** `insert_roster_revision`: a genesis only into an empty table, a child only below a stored
      parent it validly extends. */
  function Insert(e: RosterEnv, rows: Rows, r: RosterRevision): Result<Rows, StateError>
  {
    if r.number == 0 then
      if rows != map[] then Err(RosterTopology)
      else
        match ValidateGenesis(e, r)
        case Err(error) => Err(RevisionRejected(error))
        case Ok(_) => AddRow(e, rows, r)
    else if r.parentHash.None? || r.parentHash.value !in rows then Err(RosterTopology)
    else
      match ValidateChild(e, r, rows[r.parentHash.value])
      case Err(error) => Err(RevisionRejected(error))
      case Ok(_) => AddRow(e, rows, r)
  }

  /** Inserting a received line revision by revision: each insert is its own transaction, so a
      failure leaves the earlier ones in place. */
  function InsertMissing(e: RosterEnv, rows: Rows, line: seq<RosterRevision>): (Rows, Result<(), StateError>)
    decreases |line|
  {
    if |line| == 0 then (rows, Ok(()))
    else if e.hash(line[0]) in rows then InsertMissing(e, rows, line[1..])
    else
      match Insert(e, rows, line[0])
      case Err(error) => (rows, Err(error))
      case Ok(next) => InsertMissing(e, next, line[1..])
  }

  lemma {:induction false} AddChildKeepsConsistent(e: RosterEnv, rows: Rows, p: RosterRevision, r: RosterRevision)
    requires Consistent(e, rows) && p in rows.Values && IsChild(e, p, r) && e.hash(r) !in rows
    ensures var next := rows[e.hash(r) := r];
            Consistent(e, next) && next != map[] && Root(e, next) == Root(e, rows) && next.Values == rows.Values + {r}
  {
    var next := rows[e.hash(r) := r];
    var g := Root(e, rows);
    assert next.Values == rows.Values + {r} by {
      assert next[e.hash(r)] == r;
      forall x | x in rows.Values
        ensures x in next.Values
      {
        assert next[e.hash(x)] == x;
      }
    }
    forall x | x in next.Values && x != g
      ensures HasParent(e, next.Values, x)
    {
      if x == r {
        assert IsChild(e, p, x);
      } else {
        assert HasParent(e, rows.Values, x);
      }
    }
    assert IsTree(e, g, next.Values);
    assert e.hash(r) in next;
    RootIsUnique(e, g, Root(e, next), next.Values);
  }

  lemma {:induction false} InsertKeepsConsistent(e: RosterEnv, rows: Rows, r: RosterRevision)
    requires Consistent(e, rows)
    ensures var next := Insert(e, rows, r);
            next.Ok? ==> Consistent(e, next.value) && rows.Values <= next.value.Values
    ensures var next := Insert(e, rows, r);
            next.Ok? && rows != map[] ==> next.value != map[] && Root(e, next.value) == Root(e, rows)
  {
    if Insert(e, rows, r).Ok? {
      if r.number == 0 {
        var next := Insert(e, rows, r).value;
        assert next.Values == {r} by { assert next[e.hash(r)] == r; }
        assert IsTree(e, r, next.Values);
      } else {
        AddChildKeepsConsistent(e, rows, rows[r.parentHash.value], r);
      }
    }
  }

  lemma {:induction false} InsertMissingKeepsConsistent(e: RosterEnv, rows: Rows, line: seq<RosterRevision>)
    requires Consistent(e, rows)
    ensures var next := InsertMissing(e, rows, line).0;
            && Consistent(e, next) && rows.Values <= next.Values
            && (rows != map[] ==> next != map[] && Root(e, next) == Root(e, rows))
    decreases |line|
  {
    if |line| > 0 {
      if e.hash(line[0]) in rows {
        InsertMissingKeepsConsistent(e, rows, line[1..]);
      } else {
        InsertKeepsConsistent(e, rows, line[0]);
        if Insert(e, rows, line[0]).Ok? {
          InsertMissingKeepsConsistent(e, Insert(e, rows, line[0]).value, line[1..]);
        }
      }
    }
  }

  /** The next revision of a valid line is either stored already or accepted below its parent. */
  lemma {:induction false} NextOfLine(e: RosterEnv, rows: Rows, u: set<RosterRevision>, p: RosterRevision,
      r: RosterRevision)
    requires Consistent(e, rows) && p in rows.Values && IsChild(e, p, r)
    requires HashInjective(e, u) && rows.Values <= u && r in u
    ensures e.hash(r) in rows ==> r in rows.Values
    ensures e.hash(r) !in rows ==>
              var next := rows[e.hash(r) := r];
              && Insert(e, rows, r) == Ok(next)
              && Consistent(e, next) && next != map[] && Root(e, next) == Root(e, rows)
              && next.Values == rows.Values + {r}
  {
    assert rows[e.hash(p)] == p;
    if e.hash(r) in rows {
      assert rows[e.hash(r)] in rows.Values;
    } else {
      AddChildKeepsConsistent(e, rows, p, r);
    }
  }

  lemma {:induction false} ElementsOfLine(line: seq<RosterRevision>)
    requires |line| > 0
    ensures Elements(line) == {line[0]} + Elements(line[1..])
  {
    assert line == [line[0]] + line[1..];
    ElementsAppend([line[0]], line[1..]);
  }

  /** Below a stored parent a valid line is always accepted, and the table becomes the union. */
  lemma {:induction false} InsertMissingIsUnion(e: RosterEnv, rows: Rows, u: set<RosterRevision>, p: RosterRevision,
      line: seq<RosterRevision>)
    requires Consistent(e, rows) && p in rows.Values && IsLine(e, p, line)
    requires HashInjective(e, u) && rows.Values <= u && Elements(line) <= u
    ensures var (next, result) := InsertMissing(e, rows, line);
            result.Ok? && next.Values == rows.Values + Elements(line)
    decreases |line|
  {
    hide ValidateChild, ApplyChange, Child;
    if |line| > 0 {
      var r := line[0];
      ElementsOfLine(line);
      NextOfLine(e, rows, u, p, r);
      InsertMissingIsUnion(e, if e.hash(r) in rows then rows else rows[e.hash(r) := r], u, r, line[1..]);
    }
  }

  /** `roster_change_is_satisfied`. */
  predicate Satisfied(tip: RosterRevision, change: RosterChange)
  {
    match change
    case Initialize(member) => member.endpointId in tip.members && tip.members[member.endpointId] == member.deviceName
    case Admit(member) => member.endpointId in tip.members
    case Remove(endpointId) => endpointId !in tip.members
  }

  /** Applying a change the author is entitled to make produces a child that satisfies it. */
  lemma {:induction false} ChildSatisfies(e: RosterEnv, parent: RosterRevision, change: RosterChange,
      author: DeviceIdentity)
    requires Child(e, parent, change, author).Ok?
    ensures var r := Child(e, parent, change, author).value;
            && IsChild(e, parent, r) && Satisfied(r, change) && r.change == change && r.author == author.endpointId
  {
  }

  lemma {:induction false} RuntimeChecksAreTheInvariant(e: RosterEnv, rows: Rows, g: RosterRevision)
    requires Keyed(e, rows) && g in rows.Values && g.number == 0 && g.parentHash.None?
    ensures IsTree(e, g, rows.Values) <==>
            && ValidateGenesis(e, g).Ok?
            && forall r :: r in rows.Values && r != g ==> StoredBelow(e, rows, g, r)
  {
    if IsTree(e, g, rows.Values) {
      forall r | r in rows.Values && r != g
        ensures StoredBelow(e, rows, g, r)
      {
        OneGroup(e, g, rows.Values, r);
        assert HasParent(e, rows.Values, r);
      }
    } else if ValidateGenesis(e, g).Ok? && forall r :: r in rows.Values && r != g ==> StoredBelow(e, rows, g, r) {
      forall r | r in rows.Values && r != g
        ensures HasParent(e, rows.Values, r)
      {
        assert StoredBelow(e, rows, g, r);
        assert rows[r.parentHash.value] in rows.Values;
      }
    }
  }

  /** What `selected_roster_chain` checks of every stored revision other than the genesis. */
  predicate StoredBelow(e: RosterEnv, rows: Rows, g: RosterRevision, r: RosterRevision)
  {
    && r.groupId == g.groupId
    && r.parentHash.Some?
    && r.parentHash.value in rows
    && ValidateChild(e, r, rows[r.parentHash.value]).Ok?
  }

  lemma {:induction false} TwoGeneses(e: RosterEnv, rows: Rows, a: RosterRevision, b: RosterRevision)
    requires a in rows.Values && b in rows.Values && a != b && a.number == 0 && b.number == 0
    ensures !Consistent(e, rows)
  {
    if Consistent(e, rows) {
      GenesisCandidates(e, rows, Root(e, rows));
    }
  }

  lemma {:induction false} NoGenesis(e: RosterEnv, rows: Rows)
    requires rows != map[] && forall r :: r in rows.Values ==> !(r.number == 0 && r.parentHash.None?)
    ensures !Consistent(e, rows)
  {
    if Consistent(e, rows) {
      GenesisCandidates(e, rows, Root(e, rows));
    }
  }

  lemma {:induction false} GenesisCandidates(e: RosterEnv, rows: Rows, g: RosterRevision)
    requires IsTree(e, g, rows.Values)
    ensures forall r :: r in rows.Values && r.number == 0 ==> r == g
  {
    forall r | r in rows.Values && r.number == 0
      ensures r == g
    {
      assert r == g || HasParent(e, rows.Values, r);
    }
  }

  ghost function Tip(e: RosterEnv, rows: Rows): RosterRevision
    requires Consistent(e, rows) && rows != map[]
  {
    SelectedChain(e, rows)[|SelectedChain(e, rows)| - 1]
  }

  lemma {:induction false} TipIsStored(e: RosterEnv, rows: Rows)
    requires Consistent(e, rows) && rows != map[]
    ensures Tip(e, rows) in rows.Values
    ensures forall r :: r in rows.Values ==> !IsChild(e, Tip(e, rows), r)
  {
    SelectedChainIsChain(e, rows);
    assert Tip(e, rows) in Elements(SelectedChain(e, rows));
    forall r | r in rows.Values
      ensures !IsChild(e, Tip(e, rows), r)
    {
      TipIsLeaf(e, Root(e, rows), rows.Values, r);
    }
  }

  /** One roster change with nobody else writing: nothing when the tip already satisfies it,
      otherwise one new revision below the tip.  A hash that is already taken (a collision) makes
      every attempt fail alike. */
  ghost function Apply(e: RosterEnv, rows: Rows, identity: DeviceIdentity, change: RosterChange)
    : (Rows, Result<RosterRevision, StateError>)
    requires Consistent(e, rows)
  {
    if rows == map[] then (rows, Err(RosterTopology))
    else if Satisfied(Tip(e, rows), change) then (rows, Ok(Tip(e, rows)))
    else
      match Child(e, Tip(e, rows), change, identity)
      case Err(error) => (rows, Err(RevisionRejected(error)))
      case Ok(child) =>
        if e.hash(child) in rows then (rows, Err(RosterRetryLimit))
        else (rows[e.hash(child) := child], Ok(child))
  }

  lemma {:induction false} RetryChangesNothing(e: RosterEnv, rows: Rows, identity: DeviceIdentity, change: RosterChange)
    requires Consistent(e, rows)
    ensures Apply(e, rows, identity, change).1 == Err(RosterRetryLimit) ==>
              Apply(e, rows, identity, change).0 == rows
  {
  }

  /** A new revision below the tip becomes the tip and changes nothing else. */
  lemma {:induction false} NewTip(e: RosterEnv, rows: Rows, child: RosterRevision)
    requires Consistent(e, rows) && rows != map[] && IsChild(e, Tip(e, rows), child)
    requires e.hash(child) !in rows
    ensures var next := rows[e.hash(child) := child];
            && Consistent(e, next) && next != map[] && Root(e, next) == Root(e, rows)
            && next.Values == rows.Values + {child}
            && SelectedChain(e, next) == SelectedChain(e, rows) + [child]
            && Tip(e, next) == child
  {
    hide ValidateChild, ApplyChange, Child;
    TipIsStored(e, rows);
    AddChildKeepsConsistent(e, rows, Tip(e, rows), child);
    ExtendTip(e, Root(e, rows), Root(e, rows), rows.Values, child);
    var g := Root(e, rows);
    assert [g] + Chain(e, g, rows.Values + {child}) == ([g] + Chain(e, g, rows.Values)) + [child];
  }

  /** The invariant is kept; a change that was not yet satisfied extends the selected chain by
      exactly one revision, and on success the new tip satisfies the change. */
  lemma {:induction false} ApplyExtendsByOne(e: RosterEnv, rows: Rows, identity: DeviceIdentity, change: RosterChange)
    requires Consistent(e, rows) && rows != map[]
    ensures var (next, result) := Apply(e, rows, identity, change);
            && Consistent(e, next) && next != map[] && Root(e, next) == Root(e, rows)
            && (result.Err? ==> next == rows)
            && (result.Ok? ==> result.value == Tip(e, next) && Satisfied(result.value, change))
            && (if result.Err? || Satisfied(Tip(e, rows), change) then next == rows
                else && SelectedChain(e, next) == SelectedChain(e, rows) + [result.value]
                     && next.Values == rows.Values + {result.value})
  {
    var (next, result) := Apply(e, rows, identity, change);
    if result.Ok? && !Satisfied(Tip(e, rows), change) {
      ChildSatisfies(e, Tip(e, rows), change, identity);
      NewTip(e, rows, result.value);
    }
  }

  /** `merge_selected_roster_chain`. */
  ghost function MergeChain(e: RosterEnv, rows: Rows, chain: seq<RosterRevision>): (Rows, Result<(), StateError>)
    requires Consistent(e, rows)
  {
    if |chain| == 0 then (rows, Err(RosterTopology))
    else
      match CheckChain(e, chain)
      case Err(error) => (rows, Err(RevisionRejected(error)))
      case Ok(_) =>
        if rows == map[] || e.hash(chain[0]) != e.hash(Root(e, rows)) then (rows, Err(RosterTopology))
        else InsertMissing(e, rows, chain[1..])
  }

  /** Revisions that other writers of the database commit around one attempt: before it reads the
      tip, between that and its own commit, between the commit and reading the result, and between
      its last reading and returning. */
  datatype Window = Window(
    beforeRead: seq<RosterRevision>,
    beforeCommit: seq<RosterRevision>,
    beforeReread: seq<RosterRevision>,
    beforeReturn: seq<RosterRevision>)

  const QUIET: Window := Window([], [], [], [])

  /** The tip was the selected one at some moment between two states of a growing table. */
  ghost predicate TipAt(e: RosterEnv, before: Rows, moment: Rows, after: Rows, tip: RosterRevision)
  {
    && Consistent(e, moment) && moment != map[] && tip == Tip(e, moment)
    && before.Values <= moment.Values <= after.Values
  }

  lemma {:induction false} EarlierTip(e: RosterEnv, before: Rows, start: Rows, moment: Rows, after: Rows,
      tip: RosterRevision)
    requires TipAt(e, start, moment, after, tip) && before.Values <= start.Values
    ensures TipAt(e, before, moment, after, tip)
  {
  }

  class StateStore {
    const env: RosterEnv
    var revisions: Rows
    var hints: map<EndpointId, Bytes>

    ghost predicate Valid()
      reads this
    {
      Consistent(env, revisions)
    }

    constructor (env: RosterEnv)
      ensures Valid() && this.env == env && revisions == map[] && hints == map[]
    {
      this.env := env;
      revisions, hints := map[], map[];
    }

    /** The stored revisions, in some order. */
    method Values() returns (values: seq<RosterRevision>)
      ensures Elements(values) == revisions.Values
    {
      values := [];
      var pending := revisions.Keys;
      while pending != {}
        invariant pending <= revisions.Keys
        invariant Elements(values) == set h | h in revisions.Keys - pending :: revisions[h]
      {
        var h :| h in pending;
        pending := pending - {h};
        ElementsAppend(values, [revisions[h]]);
        values := values + [revisions[h]];
      }
      assert revisions.Values == set h | h in revisions.Keys :: revisions[h];
    }

    method CheckHashes() returns (ok: bool)
      ensures ok <==> Keyed(env, revisions)
    {
      var pending := revisions.Keys;
      while pending != {}
        invariant pending <= revisions.Keys
        invariant forall h :: h in revisions.Keys - pending ==> env.hash(revisions[h]) == h
      {
        var h :| h in pending;
        if env.hash(revisions[h]) != h {
          return false;
        }
        pending := pending - {h};
      }
      return true;
    }

    /** `selected_roster_chain`: every check it makes on the stored rows, then the selection loop.
        It succeeds exactly on consistent tables, so never fails on a reachable one. */
    method SelectedRosterChain() returns (r: Result<seq<RosterRevision>, StateError>)
      ensures r.Ok? <==> Consistent(env, revisions)
      ensures r.Ok? ==> r.value == SelectedChain(env, revisions)
    {
      var keyed := CheckHashes();
      if !keyed {
        return Err(RosterTopology);
      }
      if revisions == map[] {
        return Ok([]);
      }
      var values := Values();
      var genesis: Option<RosterRevision> := None;
      var i := 0;
      while i < |values|
        invariant 0 <= i <= |values|
        invariant genesis.None? ==> forall k :: 0 <= k < i ==> !(values[k].number == 0 && values[k].parentHash.None?)
        invariant genesis.Some? ==>
                  genesis.value in values && genesis.value.number == 0 && genesis.value.parentHash.None?
        invariant genesis.Some? ==> forall k :: 0 <= k < i && values[k].number == 0 && values[k].parentHash.None? ==>
                  values[k] == genesis.value
      {
        if values[i].number == 0 && values[i].parentHash.None? {
          if genesis.Some? && genesis.value != values[i] {
            assert genesis.value in Elements(values) && values[i] in Elements(values);
            TwoGeneses(env, revisions, genesis.value, values[i]);
            return Err(RosterTopology);
          }
          genesis := Some(values[i]);
        }
        i := i + 1;
      }
      if genesis.None? {
        forall r | r in revisions.Values
          ensures !(r.number == 0 && r.parentHash.None?)
        {
          assert r in Elements(values);
        }
        NoGenesis(env, revisions);
        return Err(RosterTopology);
      }
      var g := genesis.value;
      assert g in Elements(values);
      RuntimeChecksAreTheInvariant(env, revisions, g);
      forall h | IsTree(env, h, revisions.Values)
        ensures h == g
      {
        GenesisCandidates(env, revisions, h);
      }
      var candidates := [];
      i := 0;
      while i < |values|
        invariant 0 <= i <= |values|
        invariant forall k :: 0 <= k < i && values[k] != g ==> StoredBelow(env, revisions, g, values[k])
        invariant Elements(candidates) == Elements(values[..i]) - {g}
      {
        if values[i] != g {
          if !StoredBelow(env, revisions, g, values[i]) {
            assert values[i] in Elements(values);
            return Err(RosterTopology);
          }
          ElementsAppend(candidates, [values[i]]);
          candidates := candidates + [values[i]];
        }
        ElementsAppend(values[..i], [values[i]]);
        assert values[..i + 1] == values[..i] + [values[i]];
        i := i + 1;
      }
      assert values[..i] == values;
      var selected := SelectChain(env, g, candidates);
      if selected.Err? {
        return Err(RevisionRejected(selected.error));
      }
      forall r | r in revisions.Values && r != g
        ensures StoredBelow(env, revisions, g, r)
      {
        assert r in Elements(values);
      }
      RootIsUnique(env, g, Root(env, revisions), revisions.Values);
      BranchIsChain(env, g, candidates);
      ChainIgnoresRoot(env, g, revisions.Values, g);
      return Ok([g] + selected.value);
    }

    method InsertRosterRevision(revision: RosterRevision) returns (r: Result<(), StateError>)
      requires Valid()
      modifies this`revisions
      ensures Valid()
      ensures var next := Insert(env, old(revisions), revision);
              if next.Ok? then r == Ok(()) && revisions == next.value
              else r == Err(next.error) && revisions == old(revisions)
    {
      InsertKeepsConsistent(env, revisions, revision);
      var next :- Insert(env, revisions, revision);
      revisions := next;
      return Ok(());
    }

    method MergeSelectedRosterChain(chain: seq<RosterRevision>) returns (r: Result<(), StateError>)
      requires Valid()
      modifies this`revisions
      ensures Valid()
      ensures (revisions, r) == MergeChain(env, old(revisions), chain)
    {
      if |chain| == 0 {
        return Err(RosterTopology);
      }
      var checked := ValidateChain(env, chain);
      if checked.Err? {
        return Err(RevisionRejected(checked.error));
      }
      var selected := SelectedRosterChain();
      var local := selected.value;
      if |local| == 0 || env.hash(chain[0]) != env.hash(local[0]) {
        return Err(RosterTopology);
      }
      r := InsertLine(chain[1..]);
    }

    /** Inserts the revisions of a line that are not stored yet. */
    method InsertLine(line: seq<RosterRevision>) returns (r: Result<(), StateError>)
      requires Valid()
      modifies this`revisions
      ensures Valid()
      ensures (revisions, r) == InsertMissing(env, old(revisions), line)
    {
      var i := 0;
      assert line[0..] == line;
      while i < |line|
        invariant 0 <= i <= |line|
        invariant Valid()
        invariant InsertMissing(env, old(revisions), line) == InsertMissing(env, revisions, line[i..])
      {
        assert line[i..][0] == line[i] && line[i..][1..] == line[i + 1..];
        if env.hash(line[i]) !in revisions {
          var _ :- InsertRosterRevision(line[i]);
        }
        i := i + 1;
      }
      return Ok(());
    }

    /** Other connections to the database, which write through the same validated insert. */
    method OtherWriters(writes: seq<RosterRevision>)
      requires Valid()
      modifies this`revisions
      ensures Valid() && old(revisions).Values <= revisions.Values
      ensures old(revisions) != map[] ==> revisions != map[]
      ensures |writes| == 0 ==> revisions == old(revisions)
    {
      for i := 0 to |writes|
        invariant Valid() && old(revisions).Values <= revisions.Values
        invariant old(revisions) != map[] ==> revisions != map[]
        invariant i == 0 ==> revisions == old(revisions)
      {
        InsertKeepsConsistent(env, revisions, writes[i]);
        var _ := InsertRosterRevision(writes[i]);
      }
    }

    method ReplaceHint(peerHint: Option<(EndpointId, Bytes)>)
      modifies this`hints
      ensures hints == HintsAfter(old(hints), peerHint)
    {
      if peerHint.Some? {
        hints := hints[peerHint.value.0 := peerHint.value.1];
      }
    }

    /** Commits a child built on the tip that was read, and reads the tip again. */
    method Commit(parent: RosterRevision, child: RosterRevision, peerHint: Option<(EndpointId, Bytes)>,
        window: Window)
      returns (tip: RosterRevision)
      requires Valid() && parent in revisions.Values && IsChild(env, parent, child)
      modifies this
      ensures Valid() && old(revisions).Values <= revisions.Values
      ensures revisions != map[] && tip == Tip(env, revisions)
      ensures window == QUIET && env.hash(child) !in old(revisions) ==>
                revisions == old(revisions)[env.hash(child) := child]
      ensures window == QUIET && env.hash(child) in old(revisions) ==> revisions == old(revisions)
      ensures hints == HintsAfter(old(hints), peerHint)
    {
      OtherWriters(window.beforeCommit);
      if env.hash(child) !in revisions {
        AddChildKeepsConsistent(env, revisions, parent, child);
        revisions := revisions[env.hash(child) := child];
      }
      assert revisions != map[];
      ReplaceHint(peerHint);
      OtherWriters(window.beforeReread);
      var selected := SelectedRosterChain();
      tip := selected.value[|selected.value| - 1];
    }

    /** One attempt of `apply_roster_change_inner`, with what others commit around its steps.
        `None` asks for another attempt.  A tip that is returned was selected at the moment it was
        read; others may have moved on since. */
    method Attempt(identity: DeviceIdentity, change: RosterChange,
                   peerHint: Option<(EndpointId, Bytes)>, window: Window)
      returns (r: Option<Result<RosterRevision, StateError>>, ghost moment: Rows)
      requires Valid()
      modifies this
      ensures Valid() && old(revisions).Values <= revisions.Values
      ensures r.Some? && r.value.Ok? ==>
                TipAt(env, old(revisions), moment, revisions, r.value.value) && Satisfied(r.value.value, change)
      ensures window == QUIET ==>
                var (next, result) := Apply(env, old(revisions), identity, change);
                && revisions == next
                && r == if result == Err(RosterRetryLimit) then None else Some(result)
      ensures r.Some? && r.value.Err? ==> hints == old(hints)
      ensures !(r.Some? && r.value.Err?) ==> hints == HintsAfter(old(hints), peerHint)
    {
      OtherWriters(window.beforeRead);
      var read := SelectedRosterChain();
      var chain := read.value;
      moment := revisions;
      if |chain| == 0 {
        return Some(Err(RosterTopology)), moment;
      }
      var parent := chain[|chain| - 1];
      if Satisfied(parent, change) {
        OtherWriters(window.beforeCommit);
        ReplaceHint(peerHint);
        OtherWriters(window.beforeReturn);
        return Some(Ok(parent)), moment;
      }
      var child := Child(env, parent, change, identity);
      if child.Err? {
        return Some(Err(RevisionRejected(child.error))), moment;
      }
      ChildSatisfies(env, parent, change, identity);
      TipIsStored(env, revisions);
      ApplyExtendsByOne(env, revisions, identity, change);
      var tip := Commit(parent, child.value, peerHint, window);
      moment := revisions;
      OtherWriters(window.beforeReturn);
      if Satisfied(tip, change) {
        return Some(Ok(tip)), moment;
      }
      return None, moment;
    }

    /** `apply_roster_change_inner`: attempts until the change is satisfied at the selected tip.
        Other writers may commit before, within and between the attempts. */
    method ApplyRosterChange(identity: DeviceIdentity, change: RosterChange,
                             peerHint: Option<(EndpointId, Bytes)>, windows: seq<Window>)
      returns (r: Result<RosterRevision, StateError>, ghost moment: Rows)
      requires Valid()
      modifies this
      ensures Valid() && old(revisions).Values <= revisions.Values
      ensures r.Ok? ==> TipAt(env, old(revisions), moment, revisions, r.value) && Satisfied(r.value, change)
      ensures |windows| == 0 ==> (revisions, r) == Apply(env, old(revisions), identity, change)
      ensures r.Ok? ==> hints == HintsAfter(old(hints), peerHint)
      ensures hints == old(hints) || hints == HintsAfter(old(hints), peerHint)
    {
      hide Apply, Satisfied, TipAt;
      moment := revisions;
      var attempt := 0;
      while attempt <= MAX_ROSTER_RETRY_DEPTH
        invariant Valid() && old(revisions).Values <= revisions.Values
        invariant attempt == 0 ==> revisions == old(revisions) && hints == old(hints)
        invariant attempt > 0 && |windows| == 0 ==>
                    && revisions == old(revisions)
                    && Apply(env, revisions, identity, change) == (revisions, Err(RosterRetryLimit))
        invariant hints == old(hints) || hints == HintsAfter(old(hints), peerHint)
      {
        ghost var rows := revisions;
        var outcome;
        outcome, moment := Attempt(identity, change, peerHint, if attempt < |windows| then windows[attempt] else QUIET);
        RetryChangesNothing(env, rows, identity, change);
        if outcome.Some? {
          if outcome.value.Ok? {
            EarlierTip(env, old(revisions), rows, moment, revisions, outcome.value.value);
          }
          return outcome.value, moment;
        }
        attempt := attempt + 1;
      }
      return Err(RosterRetryLimit), moment;
    }

    /** `install_joined_state_inner`: the chain received when joining (or resuming a join). */
    method InstallJoinedState(chain: seq<RosterRevision>, localEndpoint: EndpointId, localName: Option<Bytes>,
                              peerHints: seq<(EndpointId, Bytes)>, allowResume: bool)
      returns (r: Result<(), StateError>)
      requires Valid()
      modifies this
      ensures HashInjective(env, old(revisions).Values + Elements(chain)) ==> Valid()
      ensures revisions == old(revisions) ||
                (Joinable(env, old(revisions), chain, localEndpoint, localName, allowResume)
                 && revisions == AddMissing(env, old(revisions), chain))
      ensures r.Ok? ==> revisions == AddMissing(env, old(revisions), chain)
      ensures r.Ok? ==> Joinable(env, old(revisions), chain, localEndpoint, localName, allowResume)
      ensures r.Ok? && allowResume && Valid() && revisions != map[] ==>
              HasName(Tip(env, revisions), localEndpoint, localName)
    {
      if |chain| == 0 {
        return Err(RosterTopology);
      }
      var checked := ValidateChain(env, chain);
      if checked.Err? {
        return Err(RevisionRejected(checked.error));
      }
      var tip := chain[|chain| - 1];
      if localEndpoint !in tip.members || (localName.Some? && !HasName(tip, localEndpoint, localName)) {
        return Err(RosterTopology);
      }
      var read := SelectedRosterChain();
      var existing := read.value;
      if !allowResume && |existing| > 0 {
        return Err(RosterTopology);
      }
      if |existing| > 0 && env.hash(existing[0]) != env.hash(chain[0]) {
        return Err(RosterTopology);
      }
      if allowResume && |existing| > 0 && !HasName(existing[|existing| - 1], localEndpoint, localName) {
        return Err(RosterTopology);
      }
      assert Joinable(env, revisions, chain, localEndpoint, localName, allowResume);
      var i := 0;
      while i < |peerHints|
      {
        if |peerHints[i].1| == 0 || |peerHints[i].1| > MAX_PEER_HINT_BYTES {
          return Err(PeerHintLimit);
        }
        i := i + 1;
      }
      AddRows(chain);
      i := 0;
      while i < |peerHints|
        invariant revisions == AddMissing(env, old(revisions), chain)
      {
        ReplaceHint(Some(peerHints[i]));
        i := i + 1;
      }
      AddMissingIsUnion(env, old(revisions), chain);
      if allowResume {
        var selected := SelectedRosterChain();
        if selected.Err? || |selected.value| == 0
           || !HasName(selected.value[|selected.value| - 1], localEndpoint, localName) {
          return Err(RosterTopology);
        }
      }
      return Ok(());
    }

    /** The join transaction: rows that are not stored yet, without further checks. */
    method AddRows(chain: seq<RosterRevision>)
      modifies this`revisions
      ensures revisions == AddMissing(env, old(revisions), chain)
    {
      var i := 0;
      assert chain[0..] == chain;
      while i < |chain|
        invariant 0 <= i <= |chain|
        invariant AddMissing(env, old(revisions), chain) == AddMissing(env, revisions, chain[i..])
      {
        assert chain[i..][0] == chain[i] && chain[i..][1..] == chain[i + 1..];
        if env.hash(chain[i]) !in revisions {
          revisions := revisions[env.hash(chain[i]) := chain[i]];
        }
        i := i + 1;
      }
    }
  }

  predicate HasName(tip: RosterRevision, endpoint: EndpointId, name: Option<Bytes>)
  {
    name.Some? && endpoint in tip.members && tip.members[endpoint] == name.value
  }

  function AddMissing(e: RosterEnv, rows: Rows, chain: seq<RosterRevision>): Rows
    decreases |chain|
  {
    if |chain| == 0 then rows
    else AddMissing(e, if e.hash(chain[0]) in rows then rows else rows[e.hash(chain[0]) := chain[0]], chain[1..])
  }

  /** The conditions under which a joined chain is committed. */
  ghost predicate Joinable(e: RosterEnv, rows: Rows, chain: seq<RosterRevision>, endpoint: EndpointId,
      name: Option<Bytes>, allowResume: bool)
    requires Consistent(e, rows)
  {
    && |chain| > 0 && IsChain(e, chain)
    && endpoint in chain[|chain| - 1].members
    && (name.Some? ==> HasName(chain[|chain| - 1], endpoint, name))
    && (rows != map[] ==>
          && allowResume
          && e.hash(Root(e, rows)) == e.hash(chain[0])
          && HasName(Tip(e, rows), endpoint, name))
  }

  lemma {:induction false} AddLineIsUnion(e: RosterEnv, rows: Rows, u: set<RosterRevision>, p: RosterRevision,
      line: seq<RosterRevision>)
    requires Consistent(e, rows) && p in rows.Values && IsLine(e, p, line)
    requires HashInjective(e, u) && rows.Values <= u && Elements(line) <= u
    ensures var next := AddMissing(e, rows, line);
            Consistent(e, next) && next != map[] && Root(e, next) == Root(e, rows)
                && next.Values == rows.Values + Elements(line)
    decreases |line|
  {
    hide ValidateChild, ApplyChange, Child;
    if |line| > 0 {
      var r := line[0];
      ElementsOfLine(line);
      NextOfLine(e, rows, u, p, r);
      AddLineIsUnion(e, if e.hash(r) in rows then rows else rows[e.hash(r) := r], u, r, line[1..]);
    }
  }

  /** Without hash collisions, joining leaves a consistent table that is the union of what was
      stored and the chain received, over the same genesis. */
  lemma {:induction false} AddMissingIsUnion(e: RosterEnv, rows: Rows, chain: seq<RosterRevision>)
    requires Consistent(e, rows) && |chain| > 0 && IsChain(e, chain)
    requires rows != map[] ==> e.hash(Root(e, rows)) == e.hash(chain[0])
    ensures HashInjective(e, rows.Values + Elements(chain)) ==>
              var next := AddMissing(e, rows, chain);
              && Consistent(e, next) && next != map[] && Root(e, next) == chain[0]
              && next.Values == rows.Values + Elements(chain)
  {
    hide ValidateChild, ApplyChange, Child;
    if HashInjective(e, rows.Values + Elements(chain)) {
      var g, u := chain[0], rows.Values + Elements(chain);
      ElementsOfLine(chain);
      var first: Rows := map[e.hash(g) := g];
      if rows == map[] {
        assert first.Values == {g} by { assert first[e.hash(g)] == g; }
        assert IsTree(e, g, first.Values);
        RootIsUnique(e, g, Root(e, first), first.Values);
        AddLineIsUnion(e, first, u, g, chain[1..]);
        assert rows[e.hash(g) := g] == first;
      } else {
        assert Root(e, rows) == g;
        assert rows[e.hash(g)] in rows.Values;
        AddLineIsUnion(e, rows, u, g, chain[1..]);
      }
    }
  }

  function HintsAfter(hints: map<EndpointId, Bytes>, peerHint: Option<(EndpointId, Bytes)>): map<EndpointId, Bytes>
  {
    if peerHint.Some? then hints[peerHint.value.0 := peerHint.value.1] else hints
  }

  // ---------------------------------------------------------------- whole runs

  datatype RosterOp =
    | InsertOp(revision: RosterRevision)
    | MergeOp(chain: seq<RosterRevision>)
    | ApplyOp(identity: DeviceIdentity, change: RosterChange)
    | JoinOp(chain: seq<RosterRevision>, endpoint: EndpointId, name: Option<Bytes>, allowResume: bool)

  /** The table after one operation, failed ones included. */
  ghost function AfterOp(e: RosterEnv, rows: Rows, op: RosterOp): Rows
    requires Consistent(e, rows)
  {
    match op
    case InsertOp(r) => if Insert(e, rows, r).Ok? then Insert(e, rows, r).value else rows
    case MergeOp(chain) => MergeChain(e, rows, chain).0
    case ApplyOp(identity, change) => Apply(e, rows, identity, change).0
    case JoinOp(chain, endpoint, name, resume) =>
      if Joinable(e, rows, chain, endpoint, name, resume) then AddMissing(e, rows, chain) else rows
  }

  /** Joining writes without per-row checks, so it needs the received chain to be free of hash
      collisions with what is stored. */
  ghost predicate Clean(e: RosterEnv, rows: Rows, op: RosterOp)
  {
    op.JoinOp? ==> HashInjective(e, rows.Values + Elements(op.chain))
  }

  lemma {:induction false} MergeKeepsConsistent(e: RosterEnv, rows: Rows, chain: seq<RosterRevision>)
    requires Consistent(e, rows)
    ensures var next := MergeChain(e, rows, chain).0;
            && Consistent(e, next) && rows.Values <= next.Values
            && (rows != map[] ==> next != map[] && Root(e, next) == Root(e, rows))
  {
    if |chain| > 0 {
      InsertMissingKeepsConsistent(e, rows, chain[1..]);
    }
  }

  lemma {:induction false} OpKeepsInvariant(e: RosterEnv, rows: Rows, op: RosterOp)
    requires Consistent(e, rows) && Clean(e, rows, op)
    ensures var next := AfterOp(e, rows, op);
            && Consistent(e, next) && rows.Values <= next.Values
            && (rows != map[] ==> next != map[] && Root(e, next) == Root(e, rows))
  {
    match op
    case InsertOp(r) => InsertKeepsConsistent(e, rows, r);
    case MergeOp(chain) => MergeKeepsConsistent(e, rows, chain);
    case ApplyOp(identity, change) =>
      if rows != map[] {
        ApplyExtendsByOne(e, rows, identity, change);
      }
    case JoinOp(chain, endpoint, name, resume) =>
      if Joinable(e, rows, chain, endpoint, name, resume) {
        AddMissingIsUnion(e, rows, chain);
      }
  }

  /** A growing table's selected chain only ever moves up in the order of branches. */
  lemma {:induction false} SelectionOnlyAdvances(e: RosterEnv, rows: Rows, next: Rows)
    requires Consistent(e, rows) && Consistent(e, next) && rows != map[] && next != map[]
    requires rows.Values <= next.Values && Root(e, next) == Root(e, rows)
    ensures var g := Root(e, rows);
            Greater(e, Chain(e, g, rows.Values), Chain(e, g, next.Values)) == Chain(e, g, next.Values)
  {
    assert rows.Values + next.Values == next.Values;
    SelectionIsJoin(e, Root(e, rows), rows.Values, next.Values);
  }

  ghost predicate IsStep(e: RosterEnv, rows: Rows, op: RosterOp, next: Rows)
  {
    Consistent(e, rows) ==> Clean(e, rows, op) && next == AfterOp(e, rows, op)
  }

  /** A history of the table: each state follows from the one before by some operation. */
  ghost predicate IsRun(e: RosterEnv, states: seq<Rows>, ops: seq<RosterOp>)
  {
    && |states| == |ops| + 1
    && states[0] == map[]
    && forall i :: 0 <= i < |ops| ==>
         IsStep(e, states[i], ops[i], states[i + 1])
  }

  /** Every reachable table is consistent, its genesis never changes once set, and its selected
      chain only advances. */
  lemma {:induction false} RunsStayConsistent(e: RosterEnv, states: seq<Rows>, ops: seq<RosterOp>, i: nat, j: nat)
    requires IsRun(e, states, ops) && i <= j < |states|
    ensures Consistent(e, states[i]) && Consistent(e, states[j])
    ensures states[i].Values <= states[j].Values
    ensures states[i] != map[] ==>
              && states[j] != map[] && Root(e, states[j]) == Root(e, states[i])
              && var g := Root(e, states[i]);
                 Greater(e, Chain(e, g, states[i].Values), Chain(e, g, states[j].Values))
                     == Chain(e, g, states[j].Values)
    decreases j
  {
    if j > 0 {
      if i < j {
        RunsStayConsistent(e, states, ops, i, j - 1);
      } else {
        RunsStayConsistent(e, states, ops, j - 1, j - 1);
      }
      var k := j - 1;
      assert IsStep(e, states[k], ops[k], states[k + 1]);
      OpKeepsInvariant(e, states[k], ops[k]);
    }
    if states[i] != map[] {
      SelectionOnlyAdvances(e, states[i], states[j]);
    }
  }
}
