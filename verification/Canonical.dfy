/** The canonical encoding: an append-only encoder, a cursor decoder, and for each primitive the
    byte string it stands for. */
module Canonical {
  import opened Prelude
  import opened Bytes

  datatype CanonicalError =
    | Truncated
    | TrailingBytes
    | InvalidUtf8
    | LengthOverflow
    | UnknownTag
    | UnorderedKeys
    | Invalid

  // ---------------------------------------------------------------- positions

  /** `s` stands at position `p` of `b`. */
  predicate At(b: Bytes, p: nat, s: Bytes)
  {
    p + |s| <= |b| && b[p..p + |s|] == s
  }

  lemma {:induction false} AtConcat(b: Bytes, p: nat, s: Bytes, t: Bytes)
    ensures At(b, p, s + t) <==> At(b, p, s) && At(b, p + |s|, t)
  {
    if At(b, p, s + t) {
      assert b[p..p + |s|] == (s + t)[..|s|];
      assert b[p + |s|..p + |s| + |t|] == (s + t)[|s|..];
    }
    if At(b, p, s) && At(b, p + |s|, t) {
      assert b[p..p + |s + t|] == b[p..p + |s|] + b[p + |s|..p + |s| + |t|];
    }
  }

  lemma {:induction false} AtWhole(b: Bytes, s: Bytes)
    ensures At(b, 0, s) && |s| == |b| <==> b == s
  {
    if At(b, 0, s) && |s| == |b| {
      assert b[0..|b|] == b;
    }
  }

  // ---------------------------------------------------------------- primitive encodings

  function U32Bytes(v: u32): (s: Bytes)
    ensures |s| == 4
  {
    Width8();
    BigEndian(v, 4)
  }

  function U64Bytes(v: u64): (s: Bytes)
    ensures |s| == 8
  {
    Width8();
    BigEndian(v, 8)
  }

  /** Two's complement. */
  function I64Bytes(v: i64): (s: Bytes)
    ensures |s| == 8
  {
    U64Bytes(if v < 0 then v + U64_MAX + 1 else v)
  }

  function Fixed32(v: Bytes32): (s: Bytes)
    ensures |s| == 32
  {
    Width32();
    BigEndian(v, 32)
  }

  function Fixed64(v: Bytes64): (s: Bytes)
    ensures |s| == 64
  {
    Width64();
    BigEndian(v, 64)
  }

  /** A byte string preceded by its length. */
  function Sized(s: Bytes): (r: Bytes)
    requires |s| <= U32_MAX
    ensures |r| == 4 + |s|
  {
    U32Bytes(|s|) + s
  }

  // ---------------------------------------------------------------- primitive decodings

  function Take(b: Bytes, p: nat, n: nat): (r: Result<(Bytes, nat), CanonicalError>)
    ensures r.Ok? <==> p + n <= |b|
    ensures r.Ok? ==> r.value.1 == p + n && |r.value.0| == n && At(b, p, r.value.0)
  {
    if p + n <= |b| then Ok((b[p..p + n], p + n)) else Err(Truncated)
  }

  function TakeU8(b: Bytes, p: nat): (r: Result<(byte, nat), CanonicalError>)
    ensures r.Ok? ==> r.value.1 == p + 1 && At(b, p, [r.value.0])
  {
    var (s, next) :- Take(b, p, 1);
    Ok((s[0], next))
  }

  function TakeU32(b: Bytes, p: nat): (r: Result<(u32, nat), CanonicalError>)
    ensures r.Ok? ==> r.value.1 == p + 4 && At(b, p, U32Bytes(r.value.0))
  {
    var (s, next) :- Take(b, p, 4);
    Width8();
    BigEndianEncodes(s);
    Ok((FromBigEndian(s), next))
  }

  function TakeU64(b: Bytes, p: nat): (r: Result<(u64, nat), CanonicalError>)
    ensures r.Ok? ==> r.value.1 == p + 8 && At(b, p, U64Bytes(r.value.0))
  {
    var (s, next) :- Take(b, p, 8);
    Width8();
    BigEndianEncodes(s);
    Ok((FromBigEndian(s), next))
  }

  function TakeI64(b: Bytes, p: nat): (r: Result<(i64, nat), CanonicalError>)
    ensures r.Ok? ==> r.value.1 == p + 8 && At(b, p, I64Bytes(r.value.0))
  {
    var (v, next) :- TakeU64(b, p);
    Ok((if v > I64_MAX then v - U64_MAX - 1 else v, next))
  }

  function TakeFixed32(b: Bytes, p: nat): (r: Result<(Bytes32, nat), CanonicalError>)
    ensures r.Ok? ==> r.value.1 == p + 32 && At(b, p, Fixed32(r.value.0))
  {
    var (s, next) :- Take(b, p, 32);
    Width32();
    BigEndianEncodes(s);
    Ok((FromBigEndian(s), next))
  }

  function TakeFixed64(b: Bytes, p: nat): (r: Result<(Bytes64, nat), CanonicalError>)
    ensures r.Ok? ==> r.value.1 == p + 64 && At(b, p, Fixed64(r.value.0))
  {
    var (s, next) :- Take(b, p, 64);
    Width64();
    BigEndianEncodes(s);
    Ok((FromBigEndian(s), next))
  }

  function TakeSized(b: Bytes, p: nat): (r: Result<(Bytes, nat), CanonicalError>)
    ensures r.Ok? ==> |r.value.0| <= U32_MAX && r.value.1 == p + |Sized(r.value.0)| && At(b, p, Sized(r.value.0))
  {
    var (length, middle) :- TakeU32(b, p);
    var (s, next) :- Take(b, middle, length);
    AtConcat(b, p, U32Bytes(length), s);
    Ok((s, next))
  }

  function TakeString(b: Bytes, p: nat): (r: Result<(Bytes, nat), CanonicalError>)
    ensures r.Ok? ==> |r.value.0| <= U32_MAX && r.value.1 == p + |Sized(r.value.0)| && At(b, p, Sized(r.value.0))
    ensures r.Ok? ==> IsUtf8(r.value.0)
  {
    var (s, next) :- TakeSized(b, p);
    if IsUtf8(s) then Ok((s, next)) else Err(InvalidUtf8)
  }

  /** `Decoder::new`: checks the domain prefix and returns the position after it. */
  function Open(b: Bytes, domain: Bytes): (r: Result<nat, CanonicalError>)
    ensures r.Ok? <==> At(b, 0, domain)
    ensures r.Ok? ==> r.value == |domain|
  {
    if domain <= b then
      assert b[0..|domain|] == domain;
      Ok(|domain|)
    else
      assert |domain| <= |b| ==> b[0..|domain|] != domain;
      Err(Invalid)
  }

  /** `finish`: everything was consumed. */
  function Finish(b: Bytes, p: nat): Result<(), CanonicalError>
  {
    if p == |b| then Ok(()) else Err(TrailingBytes)
  }

  // ---------------------------------------------------------------- decoding what was encoded

  lemma {:induction false} TakesBytes(b: Bytes, p: nat, s: Bytes)
    requires At(b, p, s)
    ensures Take(b, p, |s|) == Ok((s, p + |s|))
  {
  }

  lemma {:induction false} TakesU8(b: Bytes, p: nat, v: byte)
    requires At(b, p, [v])
    ensures TakeU8(b, p) == Ok((v, p + 1))
  {
    TakesBytes(b, p, [v]);
  }

  lemma {:induction false} TakesU32(b: Bytes, p: nat, v: u32)
    requires At(b, p, U32Bytes(v))
    ensures TakeU32(b, p) == Ok((v, p + 4))
  {
    TakesBytes(b, p, U32Bytes(v));
    Width8();
    BigEndianDecodes(v, 4);
  }

  lemma {:induction false} TakesU64(b: Bytes, p: nat, v: u64)
    requires At(b, p, U64Bytes(v))
    ensures TakeU64(b, p) == Ok((v, p + 8))
  {
    TakesBytes(b, p, U64Bytes(v));
    Width8();
    BigEndianDecodes(v, 8);
  }

  lemma {:induction false} TakesI64(b: Bytes, p: nat, v: i64)
    requires At(b, p, I64Bytes(v))
    ensures TakeI64(b, p) == Ok((v, p + 8))
  {
    TakesU64(b, p, if v < 0 then v + U64_MAX + 1 else v);
  }

  lemma {:induction false} TakesFixed32(b: Bytes, p: nat, v: Bytes32)
    requires At(b, p, Fixed32(v))
    ensures TakeFixed32(b, p) == Ok((v, p + 32))
  {
    TakesBytes(b, p, Fixed32(v));
    Width32();
    BigEndianDecodes(v, 32);
  }

  lemma {:induction false} TakesFixed64(b: Bytes, p: nat, v: Bytes64)
    requires At(b, p, Fixed64(v))
    ensures TakeFixed64(b, p) == Ok((v, p + 64))
  {
    TakesBytes(b, p, Fixed64(v));
    Width64();
    BigEndianDecodes(v, 64);
  }

  lemma {:induction false} TakesSized(b: Bytes, p: nat, s: Bytes)
    requires |s| <= U32_MAX && At(b, p, Sized(s))
    ensures TakeSized(b, p) == Ok((s, p + |Sized(s)|))
  {
    AtConcat(b, p, U32Bytes(|s|), s);
    TakesU32(b, p, |s|);
    TakesBytes(b, p + 4, s);
  }

  lemma {:induction false} TakesString(b: Bytes, p: nat, s: Bytes)
    requires |s| <= U32_MAX && IsUtf8(s) && At(b, p, Sized(s))
    ensures TakeString(b, p) == Ok((s, p + |Sized(s)|))
  {
    TakesSized(b, p, s);
  }

  // ---------------------------------------------------------------- the encoder and decoder

  class Encoder {
    var bytes: Bytes

    constructor (domain: Bytes)
      ensures bytes == domain
    {
      bytes := domain;
    }

    method U8(value: byte)
      modifies this
      ensures bytes == old(bytes) + [value]
    {
      bytes := bytes + [value];
    }

    method U32(value: u32)
      modifies this
      ensures bytes == old(bytes) + U32Bytes(value)
    {
      bytes := bytes + U32Bytes(value);
    }

    method U64(value: u64)
      modifies this
      ensures bytes == old(bytes) + U64Bytes(value)
    {
      bytes := bytes + U64Bytes(value);
    }

    method I64(value: i64)
      modifies this
      ensures bytes == old(bytes) + I64Bytes(value)
    {
      bytes := bytes + I64Bytes(value);
    }

    method Fixed(value: Bytes)
      modifies this
      ensures bytes == old(bytes) + value
    {
      bytes := bytes + value;
    }

    /** `string` and `sized_bytes`: the length must fit 32 bits, else nothing is written. */
    method SizedBytes(value: Bytes) returns (r: Result<(), CanonicalError>)
      modifies this
      ensures if |value| > U32_MAX then r == Err(LengthOverflow) && bytes == old(bytes)
              else r == Ok(()) && bytes == old(bytes) + Sized(value)
    {
      if |value| > U32_MAX {
        return Err(LengthOverflow);
      }
      ghost var start := bytes;
      U32(|value|);
      Fixed(value);
      assert bytes == start + (U32Bytes(|value|) + value);
      return Ok(());
    }
  }

  class Decoder {
    const bytes: Bytes
    var position: nat

    constructor (bytes: Bytes, position: nat)
      ensures this.bytes == bytes && this.position == position
    {
      this.bytes, this.position := bytes, position;
    }

    method TakeBytes(length: nat) returns (r: Result<Bytes, CanonicalError>)
      modifies this
      ensures Advanced(Take(bytes, old(position), length), r, old(position), position)
    {
      if position + length > |bytes| {
        return Err(Truncated);
      }
      var value := bytes[position..position + length];
      position := position + length;
      return Ok(value);
    }

    method U8() returns (r: Result<byte, CanonicalError>)
      modifies this
      ensures Advanced(TakeU8(bytes, old(position)), r, old(position), position)
    {
      var s :- TakeBytes(1);
      return Ok(s[0]);
    }

    method U32() returns (r: Result<u32, CanonicalError>)
      modifies this
      ensures Advanced(TakeU32(bytes, old(position)), r, old(position), position)
    {
      var s :- TakeBytes(4);
      Width8();
      return Ok(FromBigEndian(s));
    }

    method U64() returns (r: Result<u64, CanonicalError>)
      modifies this
      ensures Advanced(TakeU64(bytes, old(position)), r, old(position), position)
    {
      var s :- TakeBytes(8);
      Width8();
      return Ok(FromBigEndian(s));
    }

    method I64() returns (r: Result<i64, CanonicalError>)
      modifies this
      ensures Advanced(TakeI64(bytes, old(position)), r, old(position), position)
    {
      var v :- U64();
      return Ok(if v > I64_MAX then v - U64_MAX - 1 else v);
    }

    method F32() returns (r: Result<Bytes32, CanonicalError>)
      modifies this
      ensures Advanced(TakeFixed32(bytes, old(position)), r, old(position), position)
    {
      var s :- TakeBytes(32);
      Width32();
      return Ok(FromBigEndian(s));
    }

    method F64() returns (r: Result<Bytes64, CanonicalError>)
      modifies this
      ensures Advanced(TakeFixed64(bytes, old(position)), r, old(position), position)
    {
      var s :- TakeBytes(64);
      Width64();
      return Ok(FromBigEndian(s));
    }

    method SizedBytes() returns (r: Result<Bytes, CanonicalError>)
      modifies this
      ensures Moved(TakeSized(bytes, old(position)), r, position)
    {
      var length :- U32();
      r := TakeBytes(length);
    }

    method String() returns (r: Result<Bytes, CanonicalError>)
      modifies this
      ensures Moved(TakeString(bytes, old(position)), r, position)
    {
      var s :- SizedBytes();
      if !IsUtf8(s) {
        return Err(InvalidUtf8);
      }
      return Ok(s);
    }

    method End() returns (r: Result<(), CanonicalError>)
      ensures r == Finish(bytes, position)
    {
      if position == |bytes| {
        return Ok(());
      }
      return Err(TrailingBytes);
    }
  }

  /** A decoder step agrees with the function on cursors, and a failed step stays where it was. */
  predicate Advanced<T(==)>(spec: Result<(T, nat), CanonicalError>, got: Result<T, CanonicalError>, before: nat,
      after: nat)
  {
    match spec
    case Ok((value, next)) => got == Ok(value) && after == next
    case Err(error) => got == Err(error) && after == before
  }

  /** The same for compound steps, which may fail half way. */
  predicate Moved<T(==)>(spec: Result<(T, nat), CanonicalError>, got: Result<T, CanonicalError>, after: nat)
  {
    match spec
    case Ok((value, next)) => got == Ok(value) && after == next
    case Err(error) => got == Err(error)
  }
}
