/** The wire layer of the session protocol: limits, length-prefixed fields with a limit on each,
    lists of items, and frames. */
module Wire {
  import opened Prelude
  import opened Bytes
  import opened Canonical
  import opened Records
  import opened Roster
  import opened Paths

  const MAX_FRAME_BYTES: nat := 8 * 1024 * 1024
  const MAX_MANIFEST_BYTES: nat := 8 * 1024 * 1024
  const MAX_MANIFEST_RECORDS: nat := 10_000
  const MAX_ROSTER_BYTES: nat := 2 * 1024 * 1024
  const MAX_ROSTER_REVISIONS: nat := 1_024
  const MAX_ROSTER_MEMBERS: nat := 1_024
  const MAX_COLLECTIONS: nat := 64
  const MAX_COLLECTION_NAME_BYTES: nat := 255
  const MAX_PATH_BYTES: nat := 4_096
  const MAX_FILE_BYTES: nat := 64 * 1024 * 1024
  const MAX_TRANSFERS: nat := 1_024
  const MAX_SESSION_FILE_BYTES: nat := 192 * 1024 * 1024
  const MAX_ADDRESS_HINT_BYTES: nat := 16 * 1024
  const MAX_CONNECTION_BYTES: nat := 256 * 1024 * 1024
  const HEADER_BYTES: nat := 5

  datatype ProtocolError =
    | Truncated
    | TrailingBytes
    | UnknownFrameType
    | UnexpectedFrame
    | FrameLimit
    | ConnectionLimit
    | CountLimit
    | StringLimit
    | CollectionLimit
    | UnorderedCollections
    | DuplicateCollection
    | WrongCollection
    | ManifestLimit
    | PathLimit
    | FileLimit
    | TransferLimit
    | UnorderedRequests
    | UnexpectedTombstone
    | AddressHintTooLarge
    | RosterLimit
    | InvalidRoster
    | InvalidUtf8
    | LengthOverflow
    | BadRecord(record: RecordError)
    | BadRoster(roster: RosterError)
    | BadRequestPath(path: PathError)

  // ---------------------------------------------------------------- limited fields

  function ReadCount(b: Bytes, p: nat, limit: nat): Result<(nat, nat), ProtocolError>
  {
    match TakeU32(b, p)
    case Err(_) => Err(ProtocolError.Truncated)
    case Ok((n, next)) => if n > limit then Err(CountLimit) else Ok((n, next))
  }

  function ReadBytes(b: Bytes, p: nat, limit: nat): Result<(Bytes, nat), ProtocolError>
  {
    var (n, next) :- ReadCount(b, p, limit);
    match Take(b, next, n)
    case Err(_) => Err(ProtocolError.Truncated)
    case Ok((s, end)) => Ok((s, end))
  }

  function ReadString(b: Bytes, p: nat, limit: nat): Result<(Bytes, nat), ProtocolError>
  {
    var (s, end) :- ReadBytes(b, p, limit);
    if IsUtf8(s) then Ok((s, end)) else Err(ProtocolError.InvalidUtf8)
  }

  function ReadHash(b: Bytes, p: nat): Result<(Bytes32, nat), ProtocolError>
  {
    match TakeFixed32(b, p)
    case Err(_) => Err(ProtocolError.Truncated)
    case Ok((h, end)) => Ok((h, end))
  }

  function ReadEnd(b: Bytes, p: nat): Result<(), ProtocolError>
  {
    if p == |b| then Ok(()) else Err(ProtocolError.TrailingBytes)
  }

  lemma {:induction false} ReadCountExact(b: Bytes, p: nat, limit: nat, n: nat, end: nat)
    ensures ReadCount(b, p, limit) == Ok((n, end)) <==>
            n <= limit && n <= U32_MAX && At(b, p, U32Bytes(n)) && end == p + 4
  {
    if n <= U32_MAX && At(b, p, U32Bytes(n)) {
      TakesU32(b, p, n);
    }
  }

  lemma {:induction false} ReadBytesExact(b: Bytes, p: nat, limit: nat, s: Bytes, end: nat)
    ensures ReadBytes(b, p, limit) == Ok((s, end)) <==>
            |s| <= limit && |s| <= U32_MAX && At(b, p, Sized(s)) && end == p + |Sized(s)|
  {
    hide U32Bytes, TakeU32, ReadCount;
    if |s| <= U32_MAX {
      AtConcat(b, p, U32Bytes(|s|), s);
      ReadCountExact(b, p, limit, |s|, p + 4);
    }
    if ReadBytes(b, p, limit).Ok? {
      var (n, next) := ReadCount(b, p, limit).value;
      ReadCountExact(b, p, limit, n, next);
      var t := Take(b, next, n).value.0;
      AtConcat(b, p, U32Bytes(n), t);
    }
  }

  lemma {:induction false} ReadStringExact(b: Bytes, p: nat, limit: nat, s: Bytes, end: nat)
    ensures ReadString(b, p, limit) == Ok((s, end)) <==>
            |s| <= limit && |s| <= U32_MAX && IsUtf8(s) && At(b, p, Sized(s)) && end == p + |Sized(s)|
  {
    hide IsUtf8;
    ReadBytesExact(b, p, limit, s, end);
  }

  lemma {:induction false} ReadHashExact(b: Bytes, p: nat, h: Bytes32, end: nat)
    ensures ReadHash(b, p) == Ok((h, end)) <==> At(b, p, Fixed32(h)) && end == p + 32
  {
    if At(b, p, Fixed32(h)) {
      TakesFixed32(b, p, h);
    }
  }

  // ---------------------------------------------------------------- the writer and the reader

  class WireWriter {
    var bytes: Bytes

    constructor ()
      ensures bytes == []
    {
      bytes := [];
    }

    method Fixed(s: Bytes)
      modifies this
      ensures bytes == old(bytes) + s
    {
      bytes := bytes + s;
    }

    method Count(n: nat) returns (r: Result<(), ProtocolError>)
      modifies this
      ensures if n > U32_MAX then r == Err(ProtocolError.LengthOverflow) && bytes == old(bytes)
              else r == Ok(()) && bytes == old(bytes) + U32Bytes(n)
    {
      if n > U32_MAX {
        return Err(ProtocolError.LengthOverflow);
      }
      Fixed(U32Bytes(n));
      return Ok(());
    }

    method Field(s: Bytes) returns (r: Result<(), ProtocolError>)
      modifies this
      ensures if |s| > U32_MAX then r == Err(ProtocolError.LengthOverflow) && bytes == old(bytes)
              else r == Ok(()) && bytes == old(bytes) + Sized(s)
    {
      ghost var start := bytes;
      var _ :- Count(|s|);
      Fixed(s);
      assert bytes == start + (U32Bytes(|s|) + s);
      return Ok(());
    }
  }

  class WireReader {
    const bytes: Bytes
    var position: nat

    constructor (bytes: Bytes)
      ensures this.bytes == bytes && position == 0
    {
      this.bytes, position := bytes, 0;
    }

    method Count(limit: nat) returns (r: Result<nat, ProtocolError>)
      modifies this
      ensures Reads(ReadCount(bytes, old(position), limit), r, position)
    {
      var s := Take(bytes, position, 4);
      if s.Err? {
        return Err(ProtocolError.Truncated);
      }
      Width8();
      position := position + 4;
      var n := FromBigEndian(s.value.0);
      if n > limit {
        return Err(CountLimit);
      }
      return Ok(n);
    }

    method Field(limit: nat) returns (r: Result<Bytes, ProtocolError>)
      modifies this
      ensures Reads(ReadBytes(bytes, old(position), limit), r, position)
    {
      hide TakeU32;
      var n :- Count(limit);
      var s := Take(bytes, position, n);
      if s.Err? {
        return Err(ProtocolError.Truncated);
      }
      position := position + n;
      return Ok(s.value.0);
    }

    method Text(limit: nat) returns (r: Result<Bytes, ProtocolError>)
      modifies this
      ensures Reads(ReadString(bytes, old(position), limit), r, position)
    {
      hide ReadBytes;
      var s :- Field(limit);
      if !IsUtf8(s) {
        return Err(ProtocolError.InvalidUtf8);
      }
      return Ok(s);
    }

    method Hash() returns (r: Result<Bytes32, ProtocolError>)
      modifies this
      ensures Reads(ReadHash(bytes, old(position)), r, position)
    {
      var s := Take(bytes, position, 32);
      if s.Err? {
        return Err(ProtocolError.Truncated);
      }
      Width32();
      position := position + 32;
      return Ok(FromBigEndian(s.value.0));
    }

    method End() returns (r: Result<(), ProtocolError>)
      ensures r == ReadEnd(bytes, position)
    {
      return if position == |bytes| then Ok(()) else Err(ProtocolError.TrailingBytes);
    }
  }

  predicate Reads<T(==)>(spec: Result<(T, nat), ProtocolError>, got: Result<T, ProtocolError>, after: nat)
  {
    match spec
    case Ok((value, next)) => got == Ok(value) && after == next
    case Err(error) => got == Err(error)
  }

  // ---------------------------------------------------------------- lists of items

  /** How one kind of item is written and read.  Reading and admitting an item may depend on the
      items before it. */
  datatype ItemCodec<!T> = ItemCodec(
    encode: T -> Bytes,
    read: (seq<T>, Bytes, nat) -> Result<(T, nat), ProtocolError>,
    admits: (seq<T>, T) -> bool)

  /** Reading accepts exactly what writing produces from admitted items. */
  ghost predicate Exact<T(!new)>(c: ItemCodec<T>)
  {
    forall before: seq<T>, b: Bytes, p: nat, x: T, end: nat :: ExactAt(c, before, b, p, x, end)
  }

  ghost predicate ExactAt<T(!new)>(c: ItemCodec<T>, before: seq<T>, b: Bytes, p: nat, x: T, end: nat)
  {
    c.read(before, b, p) == Ok((x, end)) <==>
      c.admits(before, x) && At(b, p, c.encode(x)) && end == p + |c.encode(x)|
  }

  function ReadItems<T>(c: ItemCodec<T>, b: Bytes, p: nat, count: nat,
      before: seq<T>): Result<(seq<T>, nat), ProtocolError>
    decreases count
  {
    if count == 0 then Ok((before, p))
    else
      var (x, next) :- c.read(before, b, p);
      ReadItems(c, b, next, count - 1, before + [x])
  }

  function ItemsBytes<T>(c: ItemCodec<T>, xs: seq<T>): Bytes
    decreases |xs|
  {
    if |xs| == 0 then [] else c.encode(xs[0]) + ItemsBytes(c, xs[1..])
  }

  predicate AdmitsAll<T>(c: ItemCodec<T>, before: seq<T>, xs: seq<T>)
    decreases |xs|
  {
    |xs| == 0 || (c.admits(before, xs[0]) && AdmitsAll(c, before + [xs[0]], xs[1..]))
  }

  /** Reading a list accepts exactly what writing one produces. */
  lemma {:induction false} ItemsExact<T(!new)>(c: ItemCodec<T>, b: Bytes, p: nat, before: seq<T>, xs: seq<T>, end: nat)
    requires p <= |b|
    requires Exact(c)
    ensures ReadItems(c, b, p, |xs|, before) == Ok((before + xs, end)) <==>
            AdmitsAll(c, before, xs) && At(b, p, ItemsBytes(c, xs)) && end == p + |ItemsBytes(c, xs)|
    decreases |xs|
  {
    if |xs| == 0 {
      assert before + xs == before && b[p..p] == [];
    } else {
      var x, rest := xs[0], xs[1..];
      AtConcat(b, p, c.encode(x), ItemsBytes(c, rest));
      assert before + [x] + rest == before + xs;
      assert (before + xs)[|before|] == x;
      assert ExactAt(c, before, b, p, x, p + |c.encode(x)|);
      if c.admits(before, x) && At(b, p, c.encode(x)) {
        ItemsExact(c, b, p + |c.encode(x)|, before + [x], rest, end);
      }
      if ReadItems(c, b, p, |xs|, before) == Ok((before + xs, end)) {
        var (y, next) := c.read(before, b, p).value;
        ReadItemsExtends(c, b, next, |rest|, before + [y]);
        assert (before + [y])[|before|] == y;
        assert ExactAt(c, before, b, p, y, next);
        ItemsExact(c, b, next, before + [x], rest, end);
      }
    }
  }

  lemma {:induction false} AdmitsAppend<T>(c: ItemCodec<T>, before: seq<T>, xs: seq<T>, x: T)
    ensures AdmitsAll(c, before, xs + [x]) <==> AdmitsAll(c, before, xs) && c.admits(before + xs, x)
    decreases |xs|
  {
    if |xs| == 0 {
      assert before + xs == before && xs + [x] == [x];
    } else {
      assert (xs + [x])[1..] == xs[1..] + [x];
      assert before + [xs[0]] + xs[1..] == before + xs;
      AdmitsAppend(c, before + [xs[0]], xs[1..], x);
    }
  }

  lemma {:induction false} ItemsBytesAppend<T>(c: ItemCodec<T>, xs: seq<T>, x: T)
    ensures ItemsBytes(c, xs + [x]) == ItemsBytes(c, xs) + c.encode(x)
    decreases |xs|
  {
    if |xs| == 0 {
      assert xs + [x] == [x];
    } else {
      assert (xs + [x])[1..] == xs[1..] + [x];
      ItemsBytesAppend(c, xs[1..], x);
    }
  }

  lemma {:induction false} ReadItemsExtends<T>(c: ItemCodec<T>, b: Bytes, p: nat, count: nat, before: seq<T>)
    ensures ReadItems(c, b, p, count, before).Ok? ==>
              var all := ReadItems(c, b, p, count, before).value.0;
              before <= all && |all| == |before| + count
    decreases count
  {
    if count > 0 {
      match c.read(before, b, p)
      case Ok((x, next)) => ReadItemsExtends(c, b, next, count - 1, before + [x]);
      case Err(_) =>
    }
  }

  // ---------------------------------------------------------------- frames

  datatype FrameTag = HelloTag | RosterTag | ManifestsTag | RequestsTag | FileTag | DoneTag | FileUnavailableTag

  function TagByte(tag: FrameTag): byte
  {
    match tag
    case HelloTag => 1
    case RosterTag => 2
    case ManifestsTag => 3
    case RequestsTag => 4
    case FileTag => 5
    case DoneTag => 6
    case FileUnavailableTag => 7
  }

  function TagFromByte(value: byte): Result<FrameTag, ProtocolError>
  {
    match value
    case 1 => Ok(HelloTag)
    case 2 => Ok(RosterTag)
    case 3 => Ok(ManifestsTag)
    case 4 => Ok(RequestsTag)
    case 5 => Ok(FileTag)
    case 6 => Ok(DoneTag)
    case 7 => Ok(FileUnavailableTag)
    case _ => Err(UnknownFrameType)
  }

  function PayloadLimit(tag: FrameTag): nat
  {
    match tag
    case HelloTag => 64 * 1024
    case RosterTag => MAX_ROSTER_BYTES
    case ManifestsTag => MAX_MANIFEST_BYTES
    case RequestsTag => MAX_FRAME_BYTES
    case FileTag => 64 * 1024
    case DoneTag => 0
    case FileUnavailableTag => 0
  }

  type Frame = (FrameTag, Bytes)

  predicate Fits(frame: Frame)
  {
    |frame.1| <= PayloadLimit(frame.0)
  }

  function FrameBytes(frame: Frame): Bytes
    requires Fits(frame)
  {
    [TagByte(frame.0)] + U32Bytes(|frame.1|) + frame.1
  }

  function EncodeFrame(tag: FrameTag, payload: Bytes): Result<Bytes, ProtocolError>
  {
    if |payload| > PayloadLimit(tag) || |payload| > MAX_FRAME_BYTES then Err(FrameLimit)
    else Ok(FrameBytes((tag, payload)))
  }

  /** `decode_frame` at a position: a five-byte header, then the payload it announces. */
  function DecodeFrame(b: Bytes, p: nat): Result<(Frame, nat), ProtocolError>
  {
    if p + HEADER_BYTES > |b| then Err(ProtocolError.Truncated)
    else
      var tag :- TagFromByte(b[p]);
      var (length, start) := TakeU32(b, p + 1).value;
      if length > MAX_FRAME_BYTES || length > PayloadLimit(tag) then Err(FrameLimit)
      else if start + length > |b| then Err(ProtocolError.Truncated)
      else Ok(((tag, b[start..start + length]), start + length))
  }

  lemma {:induction false} TagRoundTrip(tag: FrameTag)
    ensures TagFromByte(TagByte(tag)) == Ok(tag)
  {
  }

  /** Decoding at a position accepts exactly what encoding a frame produces. */
  lemma {:induction false} FrameExact(b: Bytes, p: nat, frame: Frame, end: nat)
    ensures EncodeFrame(frame.0, frame.1) == if Fits(frame) then Ok(FrameBytes(frame)) else Err(FrameLimit)
    ensures var encoded := EncodeFrame(frame.0, frame.1);
            DecodeFrame(b, p) == Ok((frame, end)) <==>
            encoded.Ok? && At(b, p, encoded.value) && end == p + |encoded.value|
  {
    hide U32Bytes;
    if Fits(frame) && At(b, p, FrameBytes(frame)) {
      AtConcat(b, p, [TagByte(frame.0)] + U32Bytes(|frame.1|), frame.1);
      AtConcat(b, p, [TagByte(frame.0)], U32Bytes(|frame.1|));
      assert b[p] == b[p..p + 1][0];
      TagRoundTrip(frame.0);
      TakesU32(b, p + 1, |frame.1|);
    }
    if DecodeFrame(b, p) == Ok((frame, end)) {
      var (length, start) := TakeU32(b, p + 1).value;
      assert b[p..p + 1] == [b[p]];
      AtConcat(b, p, [TagByte(frame.0)], U32Bytes(|frame.1|));
      AtConcat(b, p, [TagByte(frame.0)] + U32Bytes(|frame.1|), frame.1);
    }
  }

  function DecodeFrames(b: Bytes, p: nat, count: nat): Result<(seq<Frame>, nat), ProtocolError>
    decreases count
  {
    if count == 0 then Ok(([], p))
    else
      var (frame, next) :- DecodeFrame(b, p);
      var (rest, end) :- DecodeFrames(b, next, count - 1);
      Ok(([frame] + rest, end))
  }

  function FramesBytes(frames: seq<Frame>): Bytes
    requires forall i :: 0 <= i < |frames| ==> Fits(frames[i])
  {
    if |frames| == 0 then [] else FrameBytes(frames[0]) + FramesBytes(frames[1..])
  }

  /** Any concatenation of encoded frames decodes to exactly the original frames. */
  lemma {:induction false} FrameStreamDecodes(frames: seq<Frame>, b: Bytes, p: nat)
    requires forall i :: 0 <= i < |frames| ==> Fits(frames[i])
    requires At(b, p, FramesBytes(frames))
    ensures DecodeFrames(b, p, |frames|) == Ok((frames, p + |FramesBytes(frames)|))
    decreases |frames|
  {
    hide FrameBytes, DecodeFrame, EncodeFrame;
    if |frames| > 0 {
      AtConcat(b, p, FrameBytes(frames[0]), FramesBytes(frames[1..]));
      FrameExact(b, p, frames[0], p + |FrameBytes(frames[0])|);
      FrameStreamDecodes(frames[1..], b, p + |FrameBytes(frames[0])|);
      assert frames == [frames[0]] + frames[1..];
    }
  }

  /** `add_received`: the running total of a connection, capped. */
  method AddReceived(received: u64, amount: u64) returns (r: Result<u64, ProtocolError>)
    ensures r == if received + amount > MAX_CONNECTION_BYTES then Err(ConnectionLimit) else Ok(received + amount)
  {
    if received + amount > U64_MAX {
      return Err(ConnectionLimit);
    }
    if received + amount > MAX_CONNECTION_BYTES {
      return Err(ConnectionLimit);
    }
    return Ok(received + amount);
  }
}
