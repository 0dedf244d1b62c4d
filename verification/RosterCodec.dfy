/** Canonical bytes of roster revisions, and the hash and signature environment they give. */
module RosterCodec {
  import opened Prelude
  import opened Bytes
  import opened Canonical
  import opened Roster
  import opened RosterLattice

  type Entry = (EndpointId, Bytes)

  // ---------------------------------------------------------------- ordered maps

  ghost predicate Ascending(s: seq<Entry>)
  {
    forall i, j :: 0 <= i < j < |s| ==> s[i].0 < s[j].0
  }

  /** The map that inserting the entries one after the other builds. */
  function ToMap(s: seq<Entry>): map<EndpointId, Bytes>
  {
    if |s| == 0 then map[] else ToMap(s[..|s| - 1])[s[|s| - 1].0 := s[|s| - 1].1]
  }

  lemma {:induction false} KeysBelow(s: seq<Entry>, bound: int)
    requires Ascending(s) && (|s| > 0 ==> s[|s| - 1].0 < bound)
    ensures forall k :: k in ToMap(s) ==> k < bound
    ensures |ToMap(s)| == |s|
  {
    if |s| > 0 {
      KeysBelow(s[..|s| - 1], s[|s| - 1].0);
    }
  }

  lemma {:induction false} EntryCount(s: seq<Entry>)
    requires Ascending(s)
    ensures |ToMap(s)| == |s|
  {
    if |s| > 0 {
      KeysBelow(s[..|s| - 1], s[|s| - 1].0);
    }
  }

  lemma {:induction false} EntryInMap(s: seq<Entry>, i: nat)
    requires i < |s|
    ensures s[i].0 in ToMap(s)
  {
    if i < |s| - 1 {
      EntryInMap(s[..|s| - 1], i);
    }
  }

  lemma {:induction false} GreatestKey(keys: set<EndpointId>) returns (k: EndpointId)
    requires keys != {}
    ensures k in keys && forall j :: j in keys ==> j <= k
    decreases keys
  {
    var first :| first in keys;
    var rest := keys - {first};
    k := first;
    if rest != {} {
      var m := GreatestKey(rest);
      k := if first > m then first else m;
    }
    assert keys == rest + {first};
  }

  /** Every map has its entries in key order. */
  lemma {:induction false} EntriesExist(m: map<EndpointId, Bytes>)
    ensures exists s: seq<Entry> :: Ascending(s) && ToMap(s) == m
    decreases m.Keys
  {
    if m.Keys == {} {
      assert Ascending([]) && ToMap([]) == m;
    } else {
      var k := GreatestKey(m.Keys);
      var rest := m - {k};
      assert rest.Keys == m.Keys - {k};
      EntriesExist(rest);
      var s: seq<Entry> :| Ascending(s) && ToMap(s) == rest;
      AppendEntry(s, k, m[k]);
      assert rest[k := m[k]] == m;
    }
  }

  lemma {:induction false} AppendEntry(s: seq<Entry>, k: EndpointId, name: Bytes)
    requires Ascending(s) && forall j :: j in ToMap(s) ==> j < k
    ensures Ascending(s + [(k, name)]) && ToMap(s + [(k, name)]) == ToMap(s)[k := name]
  {
    var t := s + [(k, name)];
    assert t[..|t| - 1] == s;
    forall i | 0 <= i < |s|
      ensures s[i].0 < k
    {
      EntryInMap(s, i);
    }
  }

  lemma {:induction false} LastEntry(s: seq<Entry>)
    requires Ascending(s) && |s| > 0
    ensures var last := s[|s| - 1];
            && last.0 in ToMap(s) && ToMap(s)[last.0] == last.1
            && (forall k :: k in ToMap(s) ==> k <= last.0)
            && ToMap(s[..|s| - 1]) == ToMap(s) - {last.0}
  {
    KeysBelow(s[..|s| - 1], s[|s| - 1].0);
  }

  lemma {:induction false} EntriesAreUnique(s: seq<Entry>, t: seq<Entry>)
    requires Ascending(s) && Ascending(t) && ToMap(s) == ToMap(t)
    ensures s == t
  {
    EntryCount(s);
    EntryCount(t);
    if |s| > 0 {
      LastEntry(s);
      LastEntry(t);
      EntriesAreUnique(s[..|s| - 1], t[..|t| - 1]);
      assert s == s[..|s| - 1] + [s[|s| - 1]] && t == t[..|t| - 1] + [t[|t| - 1]];
    }
  }

  /** Iteration over a `BTreeMap`. */
  ghost function Entries(m: map<EndpointId, Bytes>): (s: seq<Entry>)
    ensures Ascending(s) && ToMap(s) == m && |s| == |m|
  {
    EntriesExist(m);
    var s: seq<Entry> :| Ascending(s) && ToMap(s) == m;
    EntryCount(s);
    s
  }

  // ---------------------------------------------------------------- encoding

  /** "skillsync-roster-v1" and a NUL. */
  const ROSTER_DOMAIN: Bytes :=
      [115, 107, 105, 108, 108, 115, 121, 110, 99, 45, 114, 111, 115, 116, 101, 114, 45, 118, 49, 0]

  predicate NameOk(name: Bytes)
  {
    ValidateDeviceName(name).Ok? && IsUtf8(name)
  }

  predicate ChangeOk(change: RosterChange)
  {
    change.Remove? || NameOk(change.member.deviceName)
  }

  predicate MembersOk(s: seq<Entry>)
  {
    forall i :: 0 <= i < |s| ==> NameOk(s[i].1)
  }

  /** Revisions whose names are device names: all that `RosterMember::new` lets through. */
  ghost predicate RevisionNames(r: RosterRevision)
  {
    MembersOk(Entries(r.members)) && ChangeOk(r.change)
  }

  /** Those that have canonical bytes: the member count is written in 32 bits. */
  ghost predicate RevisionOk(r: RosterRevision)
  {
    |r.members| <= U32_MAX && RevisionNames(r)
  }

  function ParentBytes(parent: Option<RosterHash>): Bytes
  {
    match parent
    case None => [0]
    case Some(hash) => [1] + Fixed32(hash)
  }

  function HeadBytes(domain: Bytes, groupId: GroupId, number: u64, parent: Option<RosterHash>): Bytes
  {
    domain + Fixed32(groupId) + U64Bytes(number) + ParentBytes(parent)
  }

  function EntryBytes(entry: Entry): Bytes
    requires |entry.1| <= U32_MAX
  {
    Fixed32(entry.0) + Sized(entry.1)
  }

  function EntriesBytes(s: seq<Entry>): Bytes
    requires MembersOk(s)
  {
    if |s| == 0 then [] else EntryBytes(s[0]) + EntriesBytes(s[1..])
  }

  function MemberBytes(member: RosterMember): Bytes
    requires |member.deviceName| <= U32_MAX
  {
    Fixed32(member.endpointId) + Sized(member.deviceName)
  }

  function ChangeBytes(change: RosterChange): Bytes
    requires ChangeOk(change)
  {
    match change
    case Initialize(member) => [0] + MemberBytes(member)
    case Admit(member) => [1] + MemberBytes(member)
    case Remove(endpointId) => [2] + Fixed32(endpointId)
  }

  function TableBytes(s: seq<Entry>): Bytes
    requires |s| <= U32_MAX && MembersOk(s)
  {
    U32Bytes(|s|) + EntriesBytes(s)
  }

  /** Everything but the signature: what is signed. */
  ghost function UnsignedBytes(r: RosterRevision): Bytes
    requires RevisionOk(r)
  {
    HeadBytes(ROSTER_DOMAIN, r.groupId, r.number, r.parentHash) + TableBytes(Entries(r.members))
    + (ChangeBytes(r.change) + Fixed32(r.author))
  }

  ghost function RevisionBytes(r: RosterRevision): Bytes
    requires RevisionOk(r)
  {
    UnsignedBytes(r) + Fixed64(r.signature)
  }

  // ---------------------------------------------------------------- decoding

  function Lift<T>(r: Result<T, CanonicalError>): Result<T, RosterError>
  {
    match r
    case Ok(value) => Ok(value)
    case Err(error) => Err(BadEncoding(error))
  }

  function TakeParent(b: Bytes, p: nat): Result<(Option<RosterHash>, nat), CanonicalError>
  {
    var (tag, p1) :- TakeU8(b, p);
    if tag == 0 then Ok((None, p1))
    else if tag == 1 then
      var (hash, p2) :- TakeFixed32(b, p1);
      Ok((Some(hash), p2))
    else Err(UnknownTag)
  }

  function TakeHead(b: Bytes, domain: Bytes): Result<(GroupId, u64, Option<RosterHash>, nat), CanonicalError>
  {
    var p0 :- Open(b, domain);
    var (groupId, p1) :- TakeFixed32(b, p0);
    var (number, p2) :- TakeU64(b, p1);
    var (parent, p3) :- TakeParent(b, p2);
    Ok((groupId, number, parent, p3))
  }

  /** Reads `count` members behind those already read; each identifier must exceed the last. */
  function TakeEntries(b: Bytes, p: nat, count: nat, before: seq<Entry>): Result<(seq<Entry>, nat), RosterError>
    decreases count
  {
    if count == 0 then Ok((before, p))
    else
      var (endpointId, p1) :- Lift(TakeFixed32(b, p));
      if |before| > 0 && before[|before| - 1].0 >= endpointId then Err(BadEncoding(UnorderedKeys))
      else
        var (name, p2) :- Lift(TakeString(b, p1));
        var _ :- ValidateDeviceName(name);
        TakeEntries(b, p2, count - 1, before + [(endpointId, name)])
  }

  function TakeTable(b: Bytes, p: nat, maxMembers: nat): Result<(seq<Entry>, nat), RosterError>
  {
    var (count, p1) :- Lift(TakeU32(b, p));
    if count > maxMembers then Err(MemberLimit) else TakeEntries(b, p1, count, [])
  }

  function TakeMember(b: Bytes, p: nat): Result<(RosterMember, nat), RosterError>
  {
    var (endpointId, p1) :- Lift(TakeFixed32(b, p));
    var (name, p2) :- Lift(TakeString(b, p1));
    var member :- NewMember(endpointId, name);
    Ok((member, p2))
  }

  function TakeChange(b: Bytes, p: nat): Result<(RosterChange, nat), RosterError>
  {
    var (tag, p1) :- Lift(TakeU8(b, p));
    if tag == 0 then
      var (member, p2) :- TakeMember(b, p1);
      Ok((Initialize(member), p2))
    else if tag == 1 then
      var (member, p2) :- TakeMember(b, p1);
      Ok((Admit(member), p2))
    else if tag == 2 then
      var (endpointId, p2) :- Lift(TakeFixed32(b, p1));
      Ok((Remove(endpointId), p2))
    else Err(BadEncoding(UnknownTag))
  }

  /** The decoder up to, and without, its final re-encoding check. */
  function TakeRevision(b: Bytes, maxMembers: nat): Result<RosterRevision, RosterError>
  {
    var (groupId, number, parent, p1) :- Lift(TakeHead(b, ROSTER_DOMAIN));
    var (entries, p2) :- TakeTable(b, p1, maxMembers);
    var (change, p3) :- TakeChange(b, p2);
    var (author, p4) :- Lift(TakeFixed32(b, p3));
    var (signature, p5) :- Lift(TakeFixed64(b, p4));
    var _ :- Lift(Finish(b, p5));
    Ok(RosterRevision(groupId, number, parent, ToMap(entries), change, author, signature))
  }

  /** `from_canonical_with_member_limit`. */
  ghost function ParseRevision(b: Bytes, maxMembers: nat): Result<RosterRevision, RosterError>
  {
    var r :- TakeRevision(b, maxMembers);
    if RevisionOk(r) && RevisionBytes(r) == b then Ok(r) else Err(BadEncoding(Invalid))
  }

  // ---------------------------------------------------------------- round trips of the parts

  lemma {:induction false} ParentAt(b: Bytes, p: nat, parent: Option<RosterHash>)
    ensures At(b, p, ParentBytes(parent)) <==> TakeParent(b, p) == Ok((parent, p + |ParentBytes(parent)|))
    ensures TakeParent(b, p).Ok? && TakeParent(b, p).value.0 == parent ==>
            TakeParent(b, p).value.1 == p + |ParentBytes(parent)|
  {
    match parent
    case None =>
      if At(b, p, [0]) {
        TakesU8(b, p, 0);
      }
    case Some(hash) =>
      AtConcat(b, p, [1], Fixed32(hash));
      if At(b, p, ParentBytes(parent)) {
        TakesU8(b, p, 1);
        TakesFixed32(b, p + 1, hash);
      }
  }

  lemma {:induction false} HeadDecodes(b: Bytes, domain: Bytes, groupId: GroupId, number: u64,
      parent: Option<RosterHash>)
    requires At(b, 0, HeadBytes(domain, groupId, number, parent))
    ensures TakeHead(b, domain) == Ok((groupId, number, parent, |HeadBytes(domain, groupId, number, parent)|))
  {
    hide Fixed32, U64Bytes, ParentBytes, TakeFixed32, TakeU64, TakeParent;
    AtConcat(b, 0, domain + Fixed32(groupId) + U64Bytes(number), ParentBytes(parent));
    AtConcat(b, 0, domain + Fixed32(groupId), U64Bytes(number));
    AtConcat(b, 0, domain, Fixed32(groupId));
    TakesFixed32(b, |domain|, groupId);
    TakesU64(b, |domain| + 32, number);
    ParentAt(b, |domain| + 40, parent);
  }

  lemma {:induction false} HeadEncodes(b: Bytes, domain: Bytes)
    requires TakeHead(b, domain).Ok?
    ensures var (groupId, number, parent, p) := TakeHead(b, domain).value;
            At(b, 0, HeadBytes(domain, groupId, number, parent)) && p == |HeadBytes(domain, groupId, number, parent)|
  {
    hide Fixed32, U64Bytes, ParentBytes, TakeFixed32, TakeU64, TakeParent;
    var (groupId, number, parent, p) := TakeHead(b, domain).value;
    ParentAt(b, |domain| + 40, parent);
    AtConcat(b, 0, domain, Fixed32(groupId));
    AtConcat(b, 0, domain + Fixed32(groupId), U64Bytes(number));
    AtConcat(b, 0, domain + Fixed32(groupId) + U64Bytes(number), ParentBytes(parent));
  }

  lemma {:induction false} EntriesDecode(b: Bytes, p: nat, s: seq<Entry>, before: seq<Entry>)
    requires MembersOk(s) && Ascending(before + s)
    requires At(b, p, EntriesBytes(s))
    ensures TakeEntries(b, p, |s|, before) == Ok((before + s, p + |EntriesBytes(s)|))
    decreases |s|
  {
    hide Fixed32, Sized, TakeFixed32, TakeString, IsUtf8, IsBlank;
    if |s| > 0 {
      AtConcat(b, p, EntryBytes(s[0]), EntriesBytes(s[1..]));
      AtConcat(b, p, Fixed32(s[0].0), Sized(s[0].1));
      TakesFixed32(b, p, s[0].0);
      TakesString(b, p + 32, s[0].1);
      assert before + [s[0]] + s[1..] == before + s;
      assert (before + s)[|before|] == s[0];
      assert |before| > 0 ==> (before + s)[|before| - 1] == before[|before| - 1];
      EntriesDecode(b, p + |EntryBytes(s[0])|, s[1..], before + [s[0]]);
      assert s[0] == (s[0].0, s[0].1);
    } else {
      assert before + s == before;
    }
  }

  lemma {:induction false} EntriesEncode(b: Bytes, p: nat, count: nat, before: seq<Entry>)
    requires p <= |b| && Ascending(before) && TakeEntries(b, p, count, before).Ok?
    ensures var (all, end) := TakeEntries(b, p, count, before).value;
            && |all| == |before| + count && before <= all && Ascending(all)
            && MembersOk(all[|before|..])
            && At(b, p, EntriesBytes(all[|before|..])) && end == p + |EntriesBytes(all[|before|..])|
    decreases count
  {
    hide Fixed32, Sized, TakeFixed32, TakeString, IsUtf8, IsBlank, EntriesBytes, Ascending, MembersOk;
    var (all, end) := TakeEntries(b, p, count, before).value;
    if count > 0 {
      var entry, next := FirstEntry(b, p, count, before);
      EntriesEncode(b, next, count - 1, before + [entry]);
      assert (before + [entry])[|before|] == entry && all[|before|] == entry;
      var rest := all[|before| + 1..];
      assert all[|before|..] == [entry] + rest;
      EntryInFront(b, p, entry, rest);
    } else {
      assert all[|before|..] == [];
      NoEntries(b, p);
    }
  }

  /** The first of the entries still to be read. */
  lemma {:induction false} FirstEntry(b: Bytes, p: nat, count: nat, before: seq<Entry>)
    returns (entry: Entry, next: nat)
    requires count > 0 && Ascending(before) && TakeEntries(b, p, count, before).Ok?
    ensures TakeEntries(b, p, count, before) == TakeEntries(b, next, count - 1, before + [entry])
    ensures Ascending(before + [entry]) && NameOk(entry.1)
    ensures At(b, p, Fixed32(entry.0)) && At(b, p + 32, Sized(entry.1)) && next == p + |EntryBytes(entry)| <= |b|
  {
    hide Fixed32, Sized, TakeFixed32, TakeString, IsUtf8, IsBlank;
    var (endpointId, p1) := TakeFixed32(b, p).value;
    var (name, p2) := TakeString(b, p1).value;
    return (endpointId, name), p2;
  }

  lemma {:induction false} NoEntries(b: Bytes, p: nat)
    requires p <= |b|
    ensures At(b, p, EntriesBytes([])) && EntriesBytes([]) == [] && MembersOk([])
  {
    assert b[p..p] == [];
  }

  lemma {:induction false} EntryInFront(b: Bytes, p: nat, entry: Entry, rest: seq<Entry>)
    requires NameOk(entry.1) && MembersOk(rest)
    requires At(b, p, Fixed32(entry.0)) && At(b, p + 32, Sized(entry.1))
    requires At(b, p + |EntryBytes(entry)|, EntriesBytes(rest))
    ensures MembersOk([entry] + rest) && At(b, p, EntriesBytes([entry] + rest))
    ensures |EntriesBytes([entry] + rest)| == |EntryBytes(entry)| + |EntriesBytes(rest)|
  {
    hide Fixed32, Sized, IsUtf8, IsBlank;
    var s := [entry] + rest;
    assert s[1..] == rest;
    AtConcat(b, p, Fixed32(entry.0), Sized(entry.1));
    AtConcat(b, p, EntryBytes(entry), EntriesBytes(rest));
  }

  lemma {:induction false} TableDecodes(b: Bytes, p: nat, s: seq<Entry>, maxMembers: nat)
    requires |s| <= U32_MAX && |s| <= maxMembers && MembersOk(s) && Ascending(s)
    requires At(b, p, TableBytes(s))
    ensures TakeTable(b, p, maxMembers) == Ok((s, p + |TableBytes(s)|))
  {
    hide U32Bytes, TakeU32, EntriesBytes, TakeEntries;
    AtConcat(b, p, U32Bytes(|s|), EntriesBytes(s));
    TakesU32(b, p, |s|);
    assert [] + s == s;
    EntriesDecode(b, p + 4, s, []);
  }

  lemma {:induction false} TableEncodes(b: Bytes, p: nat, maxMembers: nat)
    requires TakeTable(b, p, maxMembers).Ok?
    ensures var (s, end) := TakeTable(b, p, maxMembers).value;
            && |s| <= U32_MAX && |s| <= maxMembers && MembersOk(s) && Ascending(s)
            && At(b, p, TableBytes(s)) && end == p + |TableBytes(s)|
  {
    hide U32Bytes, TakeU32, EntriesBytes, TakeEntries;
    var (count, p1) := TakeU32(b, p).value;
    var (s, end) := TakeEntries(b, p1, count, []).value;
    EntriesEncode(b, p1, count, []);
    assert s[0..] == s;
    AtConcat(b, p, U32Bytes(count), EntriesBytes(s));
  }

  lemma {:induction false} MemberDecodes(b: Bytes, p: nat, member: RosterMember)
    requires NameOk(member.deviceName) && At(b, p, MemberBytes(member))
    ensures TakeMember(b, p) == Ok((member, p + |MemberBytes(member)|))
  {
    hide Fixed32, Sized, TakeFixed32, TakeString, IsUtf8, IsBlank;
    AtConcat(b, p, Fixed32(member.endpointId), Sized(member.deviceName));
    TakesFixed32(b, p, member.endpointId);
    TakesString(b, p + 32, member.deviceName);
  }

  lemma {:induction false} MemberEncodes(b: Bytes, p: nat)
    requires TakeMember(b, p).Ok?
    ensures var (member, end) := TakeMember(b, p).value;
            NameOk(member.deviceName) && At(b, p, MemberBytes(member)) && end == p + |MemberBytes(member)|
  {
    hide Fixed32, Sized, TakeFixed32, TakeString, IsUtf8, IsBlank;
    var (member, end) := TakeMember(b, p).value;
    AtConcat(b, p, Fixed32(member.endpointId), Sized(member.deviceName));
  }

  lemma {:induction false} ChangeDecodes(b: Bytes, p: nat, change: RosterChange)
    requires ChangeOk(change) && At(b, p, ChangeBytes(change))
    ensures TakeChange(b, p) == Ok((change, p + |ChangeBytes(change)|))
  {
    hide Fixed32, TakeFixed32, MemberBytes, TakeMember;
    match change
    case Initialize(member) =>
      AtConcat(b, p, [0], MemberBytes(member));
      TakesU8(b, p, 0);
      MemberDecodes(b, p + 1, member);
    case Admit(member) =>
      AtConcat(b, p, [1], MemberBytes(member));
      TakesU8(b, p, 1);
      MemberDecodes(b, p + 1, member);
    case Remove(endpointId) =>
      AtConcat(b, p, [2], Fixed32(endpointId));
      TakesU8(b, p, 2);
      TakesFixed32(b, p + 1, endpointId);
  }

  lemma {:induction false} ChangeEncodes(b: Bytes, p: nat)
    requires TakeChange(b, p).Ok?
    ensures var (change, end) := TakeChange(b, p).value;
            ChangeOk(change) && At(b, p, ChangeBytes(change)) && end == p + |ChangeBytes(change)|
  {
    hide Fixed32, TakeFixed32, MemberBytes, TakeMember;
    var (change, end) := TakeChange(b, p).value;
    var (tag, p1) := TakeU8(b, p).value;
    match change
    case Initialize(member) =>
      MemberEncodes(b, p1);
      AtConcat(b, p, [0], MemberBytes(member));
    case Admit(member) =>
      MemberEncodes(b, p1);
      AtConcat(b, p, [1], MemberBytes(member));
    case Remove(endpointId) =>
      AtConcat(b, p, [2], Fixed32(endpointId));
  }

  // ---------------------------------------------------------------- round trips of revisions

  /** Where the parts of an encoded revision stand. */
  lemma {:induction false} RevisionParts(b: Bytes, head: Bytes, table: Bytes, change: Bytes, author: Bytes,
      signature: Bytes)
    ensures b == head + table + (change + author) + signature <==>
            && At(b, 0, head)
            && At(b, |head|, table)
            && At(b, |head| + |table|, change)
            && At(b, |head| + |table| + |change|, author)
            && At(b, |head| + |table| + |change| + |author|, signature)
            && |b| == |head| + |table| + |change| + |author| + |signature|
  {
    AtWhole(b, head + table + (change + author) + signature);
    AtConcat(b, 0, head + table + (change + author), signature);
    AtConcat(b, 0, head + table, change + author);
    AtConcat(b, |head| + |table|, change, author);
    AtConcat(b, 0, head, table);
  }

  /** Decoding an encoded revision returns the revision, for any sufficient member limit. */
  lemma {:induction false} RevisionDecodes(r: RosterRevision, maxMembers: nat)
    requires RevisionOk(r) && |r.members| <= maxMembers
    ensures ParseRevision(RevisionBytes(r), maxMembers) == Ok(r)
  {
    hide HeadBytes, TableBytes, ChangeBytes, Fixed32, Fixed64, TakeHead, TakeTable, TakeChange, TakeFixed32,
         TakeFixed64, ToMap, Entries, MembersOk, NameOk, Ascending;
    var b := RevisionBytes(r);
    var entries := Entries(r.members);
    var head, table := HeadBytes(ROSTER_DOMAIN, r.groupId, r.number, r.parentHash), TableBytes(entries);
    var change, author, signature := ChangeBytes(r.change), Fixed32(r.author), Fixed64(r.signature);
    RevisionParts(b, head, table, change, author, signature);
    HeadDecodes(b, ROSTER_DOMAIN, r.groupId, r.number, r.parentHash);
    TableDecodes(b, |head|, entries, maxMembers);
    ChangeDecodes(b, |head| + |table|, r.change);
    TakesFixed32(b, |head| + |table| + |change|, r.author);
    TakesFixed64(b, |head| + |table| + |change| + 32, r.signature);
  }

  /** Whatever the decoder reads to the end re-encodes to the bytes it read, so the final
      re-encoding check never fires. */
  lemma {:induction false} RevisionEncodes(b: Bytes, maxMembers: nat)
    ensures ParseRevision(b, maxMembers) == TakeRevision(b, maxMembers)
    ensures TakeRevision(b, maxMembers).Ok? ==>
              var r := TakeRevision(b, maxMembers).value;
              RevisionOk(r) && |r.members| <= maxMembers && RevisionBytes(r) == b
  {
    hide HeadBytes, TableBytes, ChangeBytes, Fixed32, Fixed64, TakeHead, TakeTable, TakeChange, TakeFixed32,
         TakeFixed64, ToMap;
    if TakeRevision(b, maxMembers).Ok? {
      var r := TakeRevision(b, maxMembers).value;
      var (groupId, number, parent, p1) := TakeHead(b, ROSTER_DOMAIN).value;
      var (entries, p2) := TakeTable(b, p1, maxMembers).value;
      var (change, p3) := TakeChange(b, p2).value;
      HeadEncodes(b, ROSTER_DOMAIN);
      TableEncodes(b, p1, maxMembers);
      ChangeEncodes(b, p2);
      EntryCount(entries);
      EntriesAreUnique(entries, Entries(r.members));
      RevisionParts(b, HeadBytes(ROSTER_DOMAIN, groupId, number, parent), TableBytes(entries), ChangeBytes(change),
                    Fixed32(r.author), Fixed64(r.signature));
    }
  }

  lemma {:induction false} RevisionBytesInjective(x: RosterRevision, y: RosterRevision)
    requires RevisionOk(x) && RevisionOk(y) && RevisionBytes(x) == RevisionBytes(y)
    ensures x == y
  {
    hide RevisionBytes, ParseRevision;
    RevisionDecodes(x, |x.members| + |y.members|);
    RevisionDecodes(y, |x.members| + |y.members|);
  }

  // ---------------------------------------------------------------- hashing and signing bytes

  /** The environment that hashes and verifies canonical bytes: `e.hash` and `e.verified` go
      through the encoding for every encodable revision. */
  ghost predicate ByteEnv(e: RosterEnv, digest: Bytes -> Bytes32, verify: (EndpointId, Bytes, Bytes64) -> bool)
  {
    forall r: RosterRevision {:trigger e.hash(r)} {:trigger e.verified(r)} :: RevisionOk(r) ==>
      e.hash(r) == digest(RevisionBytes(r)) && e.verified(r) == verify(r.author, UnsignedBytes(r), r.signature)
  }

  /** In such an environment distinct revisions share a hash only if the digest collides on
      distinct byte strings: the hypothesis of the branch-selection results is exactly freedom
      from digest collisions among the encodings in use. */
  lemma {:induction false} NoDigestCollisionMeansInjective(e: RosterEnv, digest: Bytes -> Bytes32,
      verify: (EndpointId, Bytes, Bytes64) -> bool, s: set<RosterRevision>)
    requires ByteEnv(e, digest, verify)
    requires forall x :: x in s ==> RevisionOk(x)
    ensures HashInjective(e, s) <==>
            forall x, y :: x in s && y in s && RevisionBytes(x) != RevisionBytes(y) ==>
                digest(RevisionBytes(x)) != digest(RevisionBytes(y))
  {
    hide RevisionBytes, RevisionOk, UnsignedBytes;
    forall x, y | x in s && y in s && RevisionBytes(x) == RevisionBytes(y)
      ensures x == y
    {
      RevisionBytesInjective(x, y);
    }
    if HashInjective(e, s) {
      forall x, y | x in s && y in s && RevisionBytes(x) != RevisionBytes(y)
        ensures digest(RevisionBytes(x)) != digest(RevisionBytes(y))
      {
        assert e.hash(x) == digest(RevisionBytes(x)) && e.hash(y) == digest(RevisionBytes(y));
      }
    } else {
      var x, y :| x in s && y in s && e.hash(x) == e.hash(y) && x != y;
      assert digest(RevisionBytes(x)) == digest(RevisionBytes(y));
    }
  }

  /** A signature covers the revision: changing anything but the signature changes the bytes. */
  lemma {:induction false} SignatureCoversRevision(x: RosterRevision, y: RosterRevision)
    requires RevisionOk(x) && RevisionOk(y) && UnsignedBytes(x) == UnsignedBytes(y)
    ensures x == y.(signature := x.signature)
  {
    hide UnsignedBytes;
    var z := y.(signature := x.signature);
    assert UnsignedBytes(z) == UnsignedBytes(y) by { SameUnsigned(y, z); }
    RevisionBytesInjective(x, z);
  }

  lemma {:induction false} SameUnsigned(y: RosterRevision, z: RosterRevision)
    requires RevisionOk(y) && z == y.(signature := z.signature)
    ensures RevisionOk(z) && UnsignedBytes(z) == UnsignedBytes(y)
  {
  }

  // ---------------------------------------------------------------- codec methods

  /** Iterating over the members in key order. */
  method InKeyOrder(m: map<EndpointId, Bytes>) returns (s: seq<Entry>)
    ensures s == Entries(m)
  {
    s := [];
    var pending := m.Keys;
    assert m - m.Keys == map[];
    while pending != {}
      invariant pending <= m.Keys && Collected(m, s, pending)
      decreases pending
    {
      ghost var least := LeastKey(pending);
      var k :| k in pending && forall j :: j in pending ==> k <= j;
      CollectNext(m, s, pending, k);
      s := s + [(k, m[k])];
      pending := pending - {k};
    }
    assert m - {} == m;
    EntriesAreUnique(s, Entries(m));
  }

  /** `s` holds the entries of `m` outside `pending`, all of them below those inside. */
  ghost predicate Collected(m: map<EndpointId, Bytes>, s: seq<Entry>, pending: set<EndpointId>)
  {
    && Ascending(s)
    && ToMap(s) == m - pending
    && forall i, j :: i in ToMap(s) && j in pending ==> i < j
  }

  lemma {:induction false} CollectNext(m: map<EndpointId, Bytes>, s: seq<Entry>, pending: set<EndpointId>,
      k: EndpointId)
    requires pending <= m.Keys && Collected(m, s, pending)
    requires k in pending && forall j :: j in pending ==> k <= j
    ensures Collected(m, s + [(k, m[k])], pending - {k})
  {
    hide Ascending, ToMap;
    AppendEntry(s, k, m[k]);
    assert m - (pending - {k}) == (m - pending)[k := m[k]];
  }

  lemma {:induction false} LeastKey(keys: set<EndpointId>) returns (k: EndpointId)
    requires keys != {}
    ensures k in keys && forall j :: j in keys ==> k <= j
    decreases keys
  {
    var first :| first in keys;
    var rest := keys - {first};
    k := first;
    if rest != {} {
      var m := LeastKey(rest);
      k := if first < m then first else m;
    }
    assert keys == rest + {first};
  }

  method EncodeHead(encoder: Encoder, r: RosterRevision)
    modifies encoder
    ensures encoder.bytes == HeadBytes(old(encoder.bytes), r.groupId, r.number, r.parentHash)
  {
    encoder.Fixed(Fixed32(r.groupId));
    encoder.U64(r.number);
    match r.parentHash
    case None =>
      encoder.U8(0);
    case Some(hash) =>
      ghost var start := encoder.bytes;
      encoder.U8(1);
      encoder.Fixed(Fixed32(hash));
      assert encoder.bytes == start + ([1] + Fixed32(hash));
  }

  method EncodeTable(encoder: Encoder, entries: seq<Entry>)
    requires |entries| <= U32_MAX && MembersOk(entries)
    modifies encoder
    ensures encoder.bytes == old(encoder.bytes) + TableBytes(entries)
  {
    hide Fixed32, Sized, U32Bytes, IsUtf8, IsBlank;
    ghost var start := encoder.bytes;
    encoder.U32(|entries|);
    var i := 0;
    assert entries[0..] == entries;
    while i < |entries|
      invariant 0 <= i <= |entries| && MembersOk(entries[i..])
      invariant encoder.bytes + EntriesBytes(entries[i..]) == start + U32Bytes(|entries|) + EntriesBytes(entries)
    {
      assert entries[i..][0] == entries[i] && entries[i..][1..] == entries[i + 1..];
      ghost var before := encoder.bytes;
      encoder.Fixed(Fixed32(entries[i].0));
      var _ := encoder.SizedBytes(entries[i].1);
      assert encoder.bytes == before + EntryBytes(entries[i]);
      assert before + (EntryBytes(entries[i]) + EntriesBytes(entries[i + 1..]))
             == encoder.bytes + EntriesBytes(entries[i + 1..]);
      i := i + 1;
    }
    assert encoder.bytes + [] == encoder.bytes;
    assert start + U32Bytes(|entries|) + EntriesBytes(entries) == start + TableBytes(entries);
  }

  method EncodeMember(encoder: Encoder, tag: byte, member: RosterMember)
    requires |member.deviceName| <= U32_MAX
    modifies encoder
    ensures encoder.bytes == old(encoder.bytes) + ([tag] + MemberBytes(member))
  {
    hide Fixed32, Sized;
    ghost var start := encoder.bytes;
    encoder.U8(tag);
    encoder.Fixed(Fixed32(member.endpointId));
    var _ := encoder.SizedBytes(member.deviceName);
    assert encoder.bytes == start + ([tag] + (Fixed32(member.endpointId) + Sized(member.deviceName)));
  }

  method EncodeChange(encoder: Encoder, change: RosterChange)
    requires ChangeOk(change)
    modifies encoder
    ensures encoder.bytes == old(encoder.bytes) + ChangeBytes(change)
  {
    match change
    case Initialize(member) => EncodeMember(encoder, 0, member);
    case Admit(member) => EncodeMember(encoder, 1, member);
    case Remove(endpointId) =>
      ghost var start := encoder.bytes;
      encoder.U8(2);
      encoder.Fixed(Fixed32(endpointId));
      assert encoder.bytes == start + ([2] + Fixed32(endpointId));
  }

  method EncodeRevision(r: RosterRevision) returns (b: Bytes)
    requires RevisionOk(r)
    ensures b == RevisionBytes(r)
  {
    hide HeadBytes, TableBytes, ChangeBytes, Fixed32, Fixed64;
    var encoder := new Encoder(ROSTER_DOMAIN);
    EncodeHead(encoder, r);
    ghost var head := encoder.bytes;
    var entries := InKeyOrder(r.members);
    EncodeTable(encoder, entries);
    EncodeChange(encoder, r.change);
    encoder.Fixed(Fixed32(r.author));
    assert encoder.bytes == head + TableBytes(entries) + (ChangeBytes(r.change) + Fixed32(r.author));
    encoder.Fixed(Fixed64(r.signature));
    b := encoder.bytes;
  }

  method DecodeHead(decoder: Decoder) returns (r: Result<(GroupId, u64, Option<RosterHash>), CanonicalError>)
    requires At(decoder.bytes, 0, ROSTER_DOMAIN) && decoder.position == |ROSTER_DOMAIN|
    modifies decoder
    ensures match TakeHead(decoder.bytes, ROSTER_DOMAIN)
            case Ok((groupId, number, parent, end)) => r == Ok((groupId, number, parent)) && decoder.position == end
            case Err(error) => r == Err(error)
  {
    hide TakeFixed32, TakeU64, TakeU8;
    var groupId :- decoder.F32();
    var number :- decoder.U64();
    var tag :- decoder.U8();
    if tag == 0 {
      return Ok((groupId, number, None));
    } else if tag == 1 {
      var hash :- decoder.F32();
      return Ok((groupId, number, Some(hash)));
    }
    return Err(UnknownTag);
  }

  lemma {:induction false} EmptyTable()
    ensures ToMap([]) == map[]
  {
  }

  lemma {:induction false} OneMoreEntry(read: seq<Entry>, entry: Entry)
    ensures ToMap(read + [entry]) == ToMap(read)[entry.0 := entry.1]
  {
    assert (read + [entry])[..|read|] == read;
  }

  /** The member loop: identifiers strictly increase, names are device names. */
  method DecodeTable(decoder: Decoder, maxMembers: nat) returns (r: Result<map<EndpointId, Bytes>, RosterError>)
    modifies decoder
    ensures match TakeTable(decoder.bytes, old(decoder.position), maxMembers)
            case Ok((entries, end)) => r == Ok(ToMap(entries)) && decoder.position == end
            case Err(error) => r == Err(error)
  {
    hide TakeFixed32, TakeString, TakeU32, ValidateDeviceName, ToMap;
    var count := decoder.U32();
    if count.Err? {
      return Err(BadEncoding(count.error));
    }
    if count.value > maxMembers {
      return Err(MemberLimit);
    }
    var members: map<EndpointId, Bytes> := map[];
    var previous: Option<EndpointId> := None;
    ghost var read: seq<Entry> := [];
    EmptyTable();
    var i := 0;
    while i < count.value
      invariant 0 <= i <= count.value
      invariant members == ToMap(read)
      invariant previous == if |read| == 0 then None else Some(read[|read| - 1].0)
      invariant TakeTable(decoder.bytes, old(decoder.position), maxMembers) ==
                TakeEntries(decoder.bytes, decoder.position, count.value - i, read)
    {
      var endpointId := decoder.F32();
      if endpointId.Err? {
        return Err(BadEncoding(endpointId.error));
      }
      if previous.Some? && previous.value >= endpointId.value {
        return Err(BadEncoding(UnorderedKeys));
      }
      var name := decoder.String();
      if name.Err? {
        return Err(BadEncoding(name.error));
      }
      var _ :- ValidateDeviceName(name.value);
      ghost var next := read + [(endpointId.value, name.value)];
      OneMoreEntry(read, (endpointId.value, name.value));
      members := members[endpointId.value := name.value];
      previous := Some(endpointId.value);
      read := next;
      i := i + 1;
    }
    return Ok(members);
  }

  method DecodeMember(decoder: Decoder) returns (r: Result<RosterMember, RosterError>)
    modifies decoder
    ensures match TakeMember(decoder.bytes, old(decoder.position))
            case Ok((member, end)) => r == Ok(member) && decoder.position == end
            case Err(error) => r == Err(error)
  {
    hide TakeFixed32, TakeString, IsUtf8, IsBlank;
    var endpointId := decoder.F32();
    if endpointId.Err? {
      return Err(BadEncoding(endpointId.error));
    }
    var name := decoder.String();
    if name.Err? {
      return Err(BadEncoding(name.error));
    }
    var member :- NewMember(endpointId.value, name.value);
    return Ok(member);
  }

  method DecodeChange(decoder: Decoder) returns (r: Result<RosterChange, RosterError>)
    modifies decoder
    ensures match TakeChange(decoder.bytes, old(decoder.position))
            case Ok((change, end)) => r == Ok(change) && decoder.position == end
            case Err(error) => r == Err(error)
  {
    hide TakeFixed32, TakeU8, TakeMember;
    var tag := decoder.U8();
    if tag.Err? {
      return Err(BadEncoding(tag.error));
    }
    if tag.value == 0 {
      var member :- DecodeMember(decoder);
      return Ok(Initialize(member));
    } else if tag.value == 1 {
      var member :- DecodeMember(decoder);
      return Ok(Admit(member));
    } else if tag.value == 2 {
      var endpointId := decoder.F32();
      if endpointId.Err? {
        return Err(BadEncoding(endpointId.error));
      }
      return Ok(Remove(endpointId.value));
    }
    return Err(BadEncoding(UnknownTag));
  }

  /** `from_canonical_with_member_limit`; the last comparison is there, and proved never to fail. */
  method DecodeRevision(b: Bytes, maxMembers: nat) returns (r: Result<RosterRevision, RosterError>)
    ensures r == ParseRevision(b, maxMembers)
  {
    hide TakeHead, TakeTable, TakeChange, TakeFixed32, TakeFixed64, ToMap, RevisionBytes, RevisionOk;
    RevisionEncodes(b, maxMembers);
    var start := Open(b, ROSTER_DOMAIN);
    if start.Err? {
      assert TakeHead(b, ROSTER_DOMAIN) == Err(start.error) by { HeadNeedsDomain(b); }
      return Err(BadEncoding(start.error));
    }
    var decoder := new Decoder(b, start.value);
    var head := DecodeHead(decoder);
    if head.Err? {
      return Err(BadEncoding(head.error));
    }
    var members :- DecodeTable(decoder, maxMembers);
    var change :- DecodeChange(decoder);
    var author := decoder.F32();
    if author.Err? {
      return Err(BadEncoding(author.error));
    }
    var signature := decoder.F64();
    if signature.Err? {
      return Err(BadEncoding(signature.error));
    }
    var end := decoder.End();
    if end.Err? {
      return Err(BadEncoding(end.error));
    }
    var revision := RosterRevision(head.value.0, head.value.1, head.value.2, members, change, author.value,
        signature.value);
    var again := EncodeRevision(revision);
    if again != b {
      assert false;
    }
    return Ok(revision);
  }

  lemma {:induction false} HeadNeedsDomain(b: Bytes)
    ensures Open(b, ROSTER_DOMAIN).Err? ==> TakeHead(b, ROSTER_DOMAIN) == Err(Open(b, ROSTER_DOMAIN).error)
  {
  }
}
