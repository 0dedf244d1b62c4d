/** Branch selection as a join: over parent-closed sets of revisions, the selected chain of a
    union is the greater of the selected chains. */
module RosterLattice {
  import opened Prelude
  import opened Roster

  /** No two distinct revisions of a finite set in use share a hash. */
  ghost predicate HashInjective(e: RosterEnv, s: set<RosterRevision>)
  {
    forall x, y :: x in s && y in s && e.hash(x) == e.hash(y) ==> x == y
  }

  ghost predicate HasParent(e: RosterEnv, s: set<RosterRevision>, r: RosterRevision)
  {
    exists p :: p in s && IsChild(e, p, r)
  }

  /** A set of valid revisions over one genesis that contains every member's parent. */
  ghost predicate IsTree(e: RosterEnv, genesis: RosterRevision, s: set<RosterRevision>)
  {
    && genesis in s
    && ValidateGenesis(e, genesis).Ok?
    && forall r :: r in s ==> r == genesis || HasParent(e, s, r)
  }

  ghost predicate IsGreatestChild(e: RosterEnv, parent: RosterRevision, s: set<RosterRevision>, c: RosterRevision)
  {
    && c in s
    && IsChild(e, parent, c)
    && forall d :: d in s && IsChild(e, parent, d) ==> !KeyLess(e, c, d)
  }

  ghost function GreatestChild(e: RosterEnv, parent: RosterRevision,
      s: set<RosterRevision>): (r: Option<RosterRevision>)
    ensures r.Some? ==> IsGreatestChild(e, parent, s, r.value)
    ensures r.None? ==> !exists c :: IsGreatestChild(e, parent, s, c)
  {
    if c :| IsGreatestChild(e, parent, s, c) then Some(c) else None
  }

  /** The branch a set selects, stated without any order on the candidates. */
  ghost function Chain(e: RosterEnv, parent: RosterRevision, s: set<RosterRevision>): seq<RosterRevision>
    decreases U64_MAX - parent.number
  {
    match GreatestChild(e, parent, s)
    case None => []
    case Some(child) => [child] + Chain(e, child, s)
  }

  /** The greater of two branches below one parent: the first divergence is decided by the
      selection key, and an extension beats its prefix. */
  ghost function Greater(e: RosterEnv, a: seq<RosterRevision>, b: seq<RosterRevision>): seq<RosterRevision>
  {
    if |a| == 0 then b
    else if |b| == 0 then a
    else if a[0] == b[0] then [a[0]] + Greater(e, a[1..], b[1..])
    else if KeyLess(e, a[0], b[0]) then b
    else a
  }

  ghost function Elements(s: seq<RosterRevision>): (r: set<RosterRevision>)
  {
    set x | x in s
  }

  lemma {:induction false} ElementsAppend(s: seq<RosterRevision>, t: seq<RosterRevision>)
    ensures Elements(s + t) == Elements(s) + Elements(t)
  {
    forall x
      ensures x in s + t <==> x in s || x in t
    {
    }
  }

  // ---------------------------------------------------------------- one step

  lemma {:induction false} GreatestChildExists(e: RosterEnv, parent: RosterRevision, s: set<RosterRevision>,
      c: RosterRevision)
    requires c in s && IsChild(e, parent, c)
    ensures exists d :: IsGreatestChild(e, parent, s, d)
    decreases s
  {
    var rest := s - {c};
    if exists d :: d in rest && IsChild(e, parent, d) {
      var d :| d in rest && IsChild(e, parent, d);
      GreatestChildExists(e, parent, rest, d);
      var g :| IsGreatestChild(e, parent, rest, g);
      assert IsGreatestChild(e, parent, s, if KeyLess(e, g, c) then c else g);
    } else {
      assert IsGreatestChild(e, parent, s, c);
    }
  }

  lemma {:induction false} GreatestChildIsUnique(e: RosterEnv, parent: RosterRevision, s: set<RosterRevision>,
      c: RosterRevision)
    requires HashInjective(e, s)
    requires IsGreatestChild(e, parent, s, c)
    ensures GreatestChild(e, parent, s) == Some(c)
  {
    var r := GreatestChild(e, parent, s);
    assert !KeyLess(e, c, r.value) && !KeyLess(e, r.value, c);
  }

  lemma {:induction false} SelectChildIsGreatest(e: RosterEnv, parent: RosterRevision, candidates: seq<RosterRevision>)
    ensures var c := SelectChild(e, parent, candidates);
            if c.Some? then IsGreatestChild(e, parent, Elements(candidates), c.value)
            else forall d :: d in candidates ==> !IsChild(e, parent, d)
  {
    if |candidates| > 0 {
      var init, last := candidates[..|candidates| - 1], candidates[|candidates| - 1];
      SelectChildIsGreatest(e, parent, init);
      assert candidates == init + [last];
    }
  }

  /** The loop over a candidate slice computes the order-free branch: neither the order of the
      candidates nor repetitions among them matter. */
  lemma {:induction false} BranchIsChain(e: RosterEnv, parent: RosterRevision, candidates: seq<RosterRevision>)
    requires HashInjective(e, Elements(candidates))
    ensures Branch(e, parent, candidates) == Chain(e, parent, Elements(candidates))
    decreases U64_MAX - parent.number
  {
    var s := Elements(candidates);
    SelectChildIsGreatest(e, parent, candidates);
    match SelectChild(e, parent, candidates)
    case Some(child) =>
      GreatestChildIsUnique(e, parent, s, child);
      BranchIsChain(e, child, candidates);
    case None =>
      assert GreatestChild(e, parent, s).None?;
  }

  lemma {:induction false} CandidateOrderIsIrrelevant(e: RosterEnv, parent: RosterRevision, a: seq<RosterRevision>,
      b: seq<RosterRevision>)
    requires Elements(a) == Elements(b)
    requires HashInjective(e, Elements(a))
    ensures Branch(e, parent, a) == Branch(e, parent, b)
  {
    BranchIsChain(e, parent, a);
    BranchIsChain(e, parent, b);
  }

  // ---------------------------------------------------------------- the join theorem

  /** A parent-closed set that lacks `x` holds no child of `x`, so it cannot change the branch
      another set selects below `x`. */
  lemma {:induction false} ForeignSetIsSilent(e: RosterEnv, genesis: RosterRevision, x: RosterRevision,
                                              a: set<RosterRevision>, b: set<RosterRevision>)
    requires IsTree(e, genesis, b)
    requires HashInjective(e, a + b)
    requires x in a && x !in b
    ensures Chain(e, x, a + b) == Chain(e, x, a)
    decreases U64_MAX - x.number
  {
    forall c | c in b
      ensures !IsChild(e, x, c)
    {
      assert c == genesis || HasParent(e, b, c);
    }
    match GreatestChild(e, x, a + b)
    case Some(c) =>
      assert IsGreatestChild(e, x, a, c);
      GreatestChildIsUnique(e, x, a, c);
      ForeignSetIsSilent(e, genesis, c, a, b);
    case None =>
      forall c | c in a
        ensures !IsChild(e, x, c)
      {
        if IsChild(e, x, c) {
          GreatestChildExists(e, x, a + b, c);
          assert false;
        }
      }
      assert GreatestChild(e, x, a).None?;
  }

  lemma {:induction false} GreatestChildOfUnion(e: RosterEnv, parent: RosterRevision, a: set<RosterRevision>,
      b: set<RosterRevision>)
    requires HashInjective(e, a + b)
    ensures var ca, cb := GreatestChild(e, parent, a), GreatestChild(e, parent, b);
            GreatestChild(e, parent, a + b) ==
              if ca.None? then cb
              else if cb.None? then ca
              else if KeyLess(e, ca.value, cb.value) then cb else ca
  {
    var ca, cb := GreatestChild(e, parent, a), GreatestChild(e, parent, b);
    forall d | d in a && IsChild(e, parent, d)
      ensures ca.Some?
    {
      GreatestChildExists(e, parent, a, d);
    }
    forall d | d in b && IsChild(e, parent, d)
      ensures cb.Some?
    {
      GreatestChildExists(e, parent, b, d);
    }
    if ca.Some? || cb.Some? {
      var c := if ca.None? then cb.value
               else if cb.None? then ca.value
               else if KeyLess(e, ca.value, cb.value) then cb.value else ca.value;
      assert IsGreatestChild(e, parent, a + b, c);
      GreatestChildIsUnique(e, parent, a + b, c);
    }
  }

  /** A greatest child that the other tree lacks keeps the branch its own tree gives it. */
  lemma {:induction false} JoinDiverging(e: RosterEnv, genesis: RosterRevision, parent: RosterRevision,
                      a: set<RosterRevision>, b: set<RosterRevision>)
    requires IsTree(e, genesis, b)
    requires HashInjective(e, a + b)
    requires var c := GreatestChild(e, parent, a);
             c.Some? && c.value !in b && GreatestChild(e, parent, a + b) == c
    ensures Chain(e, parent, a + b) == Chain(e, parent, a)
  {
    ForeignSetIsSilent(e, genesis, GreatestChild(e, parent, a).value, a, b);
  }

  lemma {:induction false} JoinBelow(e: RosterEnv, genesis: RosterRevision, parent: RosterRevision,
                                     a: set<RosterRevision>, b: set<RosterRevision>)
    requires IsTree(e, genesis, a) && IsTree(e, genesis, b)
    requires HashInjective(e, a + b)
    ensures Chain(e, parent, a + b) == Greater(e, Chain(e, parent, a), Chain(e, parent, b))
    decreases U64_MAX - parent.number
  {
    GreatestChildOfUnion(e, parent, a, b);
    assert b + a == a + b;
    var ca, cb := GreatestChild(e, parent, a), GreatestChild(e, parent, b);
    if ca.Some? && cb.Some? && ca == cb {
      JoinBelow(e, genesis, ca.value, a, b);
    } else if ca.Some? && (cb.None? || !KeyLess(e, ca.value, cb.value)) {
      if ca.value in b {
        GreatestChildExists(e, parent, b, ca.value);
        assert false;
      }
      JoinDiverging(e, genesis, parent, a, b);
    } else if cb.Some? {
      if cb.value in a {
        GreatestChildExists(e, parent, a, cb.value);
        assert false;
      }
      JoinDiverging(e, genesis, parent, b, a);
    }
  }

  /** The selected chain of a union of trees is the greater of the selected chains. */
  lemma {:induction false} SelectionIsJoin(e: RosterEnv, genesis: RosterRevision, a: set<RosterRevision>,
      b: set<RosterRevision>)
    requires IsTree(e, genesis, a) && IsTree(e, genesis, b)
    requires HashInjective(e, a + b)
    ensures IsTree(e, genesis, a + b)
    ensures Chain(e, genesis, a + b) == Greater(e, Chain(e, genesis, a), Chain(e, genesis, b))
  {
    JoinBelow(e, genesis, genesis, a, b);
    forall r | r in a + b && r != genesis
      ensures HasParent(e, a + b, r)
    {
      if r in a {
        assert HasParent(e, a, r);
      } else {
        assert HasParent(e, b, r);
      }
    }
  }

  // ---------------------------------------------------------------- chains as trees

  lemma {:induction false} ChainIsLine(e: RosterEnv, parent: RosterRevision, s: set<RosterRevision>)
    ensures IsLine(e, parent, Chain(e, parent, s))
    ensures Elements(Chain(e, parent, s)) <= s
    decreases U64_MAX - parent.number
  {
    match GreatestChild(e, parent, s)
    case Some(c) => ChainIsLine(e, c, s);
    case None =>
  }

  lemma {:induction false} LineNumbers(e: RosterEnv, parent: RosterRevision, line: seq<RosterRevision>, i: nat)
    requires IsLine(e, parent, line) && i < |line|
    ensures line[i].number == parent.number + 1 + i
    ensures line[i].groupId == parent.groupId
    ensures IsChild(e, if i == 0 then parent else line[i - 1], line[i])
    decreases i
  {
    if i > 0 {
      LineNumbers(e, line[0], line[1..], i - 1);
    }
  }

  lemma {:induction false} LineIsTree(e: RosterEnv, genesis: RosterRevision, line: seq<RosterRevision>)
    requires ValidateGenesis(e, genesis).Ok? && IsLine(e, genesis, line)
    ensures IsTree(e, genesis, {genesis} + Elements(line))
  {
    var s := {genesis} + Elements(line);
    forall r | r in s && r != genesis
      ensures HasParent(e, s, r)
    {
      var i :| 0 <= i < |line| && line[i] == r;
      LineNumbers(e, genesis, line, i);
      var p := if i == 0 then genesis else line[i - 1];
      assert p in s && IsChild(e, p, r);
    }
  }

  /** A line is the branch selected by any set whose revisions numbered above `parent` are
      exactly the line's. */
  lemma {:induction false} LineSelectsItself(e: RosterEnv, parent: RosterRevision, line: seq<RosterRevision>,
      s: set<RosterRevision>)
    requires IsLine(e, parent, line)
    requires forall r :: r in s && r.number > parent.number <==> r in line
    ensures Chain(e, parent, s) == line
    decreases |line|
  {
    if |line| == 0 {
      assert GreatestChild(e, parent, s).None?;
    } else {
      forall r | r in s && IsChild(e, parent, r)
        ensures r == line[0]
      {
        var i :| 0 <= i < |line| && line[i] == r;
        LineNumbers(e, parent, line, i);
      }
      assert line[0] in s;
      assert IsGreatestChild(e, parent, s, line[0]);
      assert GreatestChild(e, parent, s) == Some(line[0]);
      forall r
        ensures r in s && r.number > line[0].number <==> r in line[1..]
      {
        assert line == [line[0]] + line[1..];
        if r in line[1..] {
          var i :| 0 <= i < |line[1..]| && line[1..][i] == r;
          LineNumbers(e, parent, line, i + 1);
        }
      }
      LineSelectsItself(e, line[0], line[1..], s);
      assert line == [line[0]] + line[1..];
    }
  }

  lemma {:induction false} ChainSetSelectsItself(e: RosterEnv, genesis: RosterRevision, line: seq<RosterRevision>)
    requires ValidateGenesis(e, genesis).Ok? && IsLine(e, genesis, line)
    ensures Chain(e, genesis, {genesis} + Elements(line)) == line
  {
    forall r
      ensures r in {genesis} + Elements(line) && r.number > genesis.number <==> r in line
    {
      if r in line {
        var i :| 0 <= i < |line| && line[i] == r;
        LineNumbers(e, genesis, line, i);
      }
    }
    LineSelectsItself(e, genesis, line, {genesis} + Elements(line));
  }

  /** Exchanging only the selected chain is worth as much as exchanging the whole tree. */
  lemma {:induction false} SelectedChainSuffices(e: RosterEnv, genesis: RosterRevision, a: set<RosterRevision>,
      b: set<RosterRevision>)
    requires IsTree(e, genesis, a) && IsTree(e, genesis, b)
    requires HashInjective(e, a + b)
    ensures var sent := {genesis} + Elements(Chain(e, genesis, b));
            IsTree(e, genesis, a + sent) && Chain(e, genesis, a + sent) == Chain(e, genesis, a + b)
  {
    var sent := {genesis} + Elements(Chain(e, genesis, b));
    ChainIsLine(e, genesis, b);
    LineIsTree(e, genesis, Chain(e, genesis, b));
    ChainSetSelectsItself(e, genesis, Chain(e, genesis, b));
    assert a + sent <= a + b;
    SelectionIsJoin(e, genesis, a, b);
    SelectionIsJoin(e, genesis, a, sent);
  }

  // ---------------------------------------------------------------- semilattice laws

  lemma {:induction false} GreaterChooses(e: RosterEnv, a: seq<RosterRevision>, b: seq<RosterRevision>)
    ensures Greater(e, a, b) == a || Greater(e, a, b) == b
    ensures a <= b ==> Greater(e, a, b) == b
    ensures b <= a ==> Greater(e, a, b) == a
  {
    if |a| > 0 && |b| > 0 && a[0] == b[0] {
      GreaterChooses(e, a[1..], b[1..]);
      assert a == [a[0]] + a[1..] && b == [b[0]] + b[1..];
    }
  }

  /** What `Greater` decides, in terms of the first position where two branches differ. */
  lemma {:induction false} GreaterAtDivergence(e: RosterEnv, a: seq<RosterRevision>, b: seq<RosterRevision>, i: nat)
    requires i < |a| && i < |b| && a[..i] == b[..i] && a[i] != b[i]
    ensures Greater(e, a, b) == if KeyLess(e, a[i], b[i]) then b else a
    decreases i
  {
    if i > 0 {
      assert a[0] == a[..i][0] && b[0] == b[..i][0];
      assert a[1..][..i - 1] == a[..i][1..] && b[1..][..i - 1] == b[..i][1..];
      GreaterAtDivergence(e, a[1..], b[1..], i - 1);
      assert a == [a[0]] + a[1..] && b == [b[0]] + b[1..];
    }
  }

  lemma {:induction false} SelectionCommutes(e: RosterEnv, genesis: RosterRevision, a: set<RosterRevision>,
      b: set<RosterRevision>)
    requires IsTree(e, genesis, a) && IsTree(e, genesis, b)
    requires HashInjective(e, a + b)
    ensures Greater(e, Chain(e, genesis, a), Chain(e, genesis, b))
            == Greater(e, Chain(e, genesis, b), Chain(e, genesis, a))
  {
    assert a + b == b + a;
    SelectionIsJoin(e, genesis, a, b);
    SelectionIsJoin(e, genesis, b, a);
  }

  lemma {:induction false} SelectionAssociates(e: RosterEnv, genesis: RosterRevision,
                            a: set<RosterRevision>, b: set<RosterRevision>, c: set<RosterRevision>)
    requires IsTree(e, genesis, a) && IsTree(e, genesis, b) && IsTree(e, genesis, c)
    requires HashInjective(e, a + b + c)
    ensures var (x, y, z) := (Chain(e, genesis, a), Chain(e, genesis, b), Chain(e, genesis, c));
            Greater(e, x, Greater(e, y, z)) == Greater(e, Greater(e, x, y), z)
  {
    assert a + (b + c) == (a + b) + c;
    SelectionIsJoin(e, genesis, a, b);
    SelectionIsJoin(e, genesis, b, c);
    SelectionIsJoin(e, genesis, a, b + c);
    SelectionIsJoin(e, genesis, a + b, c);
  }

  /** Branch selection is a semilattice on the chains of trees over one genesis, so gossip in
      any order and with any repetition gives one result. */
  lemma {:induction false} SelectionIsSemilattice(e: RosterEnv, genesis: RosterRevision,
                               a: set<RosterRevision>, b: set<RosterRevision>, c: set<RosterRevision>)
    requires IsTree(e, genesis, a) && IsTree(e, genesis, b) && IsTree(e, genesis, c)
    requires HashInjective(e, a + b + c)
    ensures var (x, y, z) := (Chain(e, genesis, a), Chain(e, genesis, b), Chain(e, genesis, c));
            && Greater(e, x, x) == x
            && Greater(e, x, y) == Greater(e, y, x)
            && Greater(e, x, Greater(e, y, z)) == Greater(e, Greater(e, x, y), z)
  {
    GreaterChooses(e, Chain(e, genesis, a), Chain(e, genesis, a));
    SelectionCommutes(e, genesis, a, b);
    SelectionAssociates(e, genesis, a, b, c);
  }
}
