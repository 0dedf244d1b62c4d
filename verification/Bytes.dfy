/** Byte strings: lexicographic order, big-endian integers, sub-string positions, and the
    textual checks the original program makes on decoded strings. */
module Bytes {
  import opened Prelude

  type Bytes = seq<byte>

  // ---------------------------------------------------------------- lexicographic order

  /** The order Rust gives `[u8]` and `str`: the first difference decides, a prefix is smaller. */
  predicate LexLess(a: Bytes, b: Bytes)
  {
    if |b| == 0 then false
    else if |a| == 0 then true
    else a[0] < b[0] || (a[0] == b[0] && LexLess(a[1..], b[1..]))
  }

  lemma {:induction false} LexIrreflexive(a: Bytes)
    ensures !LexLess(a, a)
  {
    if |a| > 0 {
      LexIrreflexive(a[1..]);
    }
  }

  lemma {:induction false} LexTransitive(a: Bytes, b: Bytes, c: Bytes)
    requires LexLess(a, b) && LexLess(b, c)
    ensures LexLess(a, c)
  {
    if |a| > 0 && a[0] == b[0] && b[0] == c[0] {
      LexTransitive(a[1..], b[1..], c[1..]);
    }
  }

  lemma {:induction false} LexTotal(a: Bytes, b: Bytes)
    ensures a == b || LexLess(a, b) || LexLess(b, a)
  {
    if |a| > 0 && |b| > 0 && a[0] == b[0] {
      LexTotal(a[1..], b[1..]);
      assert a == [a[0]] + a[1..] && b == [b[0]] + b[1..];
    }
  }

  // ---------------------------------------------------------------- big-endian integers

  function Pow256(n: nat): (r: nat)
    ensures r > 0
  {
    if n == 0 then 1 else 256 * Pow256(n - 1)
  }

  /** `to_be_bytes` of an n-byte unsigned integer. */
  function BigEndian(value: nat, n: nat): (r: Bytes)
    requires value < Pow256(n)
    ensures |r| == n
  {
    if n == 0 then [] else BigEndian(value / 256, n - 1) + [value % 256]
  }

  /** `from_be_bytes`. */
  function FromBigEndian(s: Bytes): (r: nat)
    ensures r < Pow256(|s|)
  {
    if |s| == 0 then 0 else 256 * FromBigEndian(s[..|s| - 1]) + s[|s| - 1]
  }

  lemma {:induction false} BigEndianDecodes(value: nat, n: nat)
    requires value < Pow256(n)
    ensures FromBigEndian(BigEndian(value, n)) == value
  {
    if n > 0 {
      BigEndianDecodes(value / 256, n - 1);
      var s := BigEndian(value, n);
      assert s[..|s| - 1] == BigEndian(value / 256, n - 1);
    }
  }

  lemma {:induction false} BigEndianEncodes(s: Bytes)
    ensures BigEndian(FromBigEndian(s), |s|) == s
  {
    if |s| > 0 {
      BigEndianEncodes(s[..|s| - 1]);
      var high, low := FromBigEndian(s[..|s| - 1]), s[|s| - 1];
      assert FromBigEndian(s) / 256 == high && FromBigEndian(s) % 256 == low;
      assert s == s[..|s| - 1] + [low];
    }
  }

  lemma {:induction false} LexAppend(a: Bytes, b: Bytes, x: byte, y: byte)
    requires |a| == |b|
    ensures LexLess(a + [x], b + [y]) <==> LexLess(a, b) || (a == b && x < y)
  {
    if |a| > 0 {
      LexAppend(a[1..], b[1..], x, y);
      assert (a + [x])[1..] == a[1..] + [x] && (b + [y])[1..] == b[1..] + [y];
      assert a == [a[0]] + a[1..] && b == [b[0]] + b[1..];
    } else {
      assert (a + [x])[1..] == [] && (b + [y])[1..] == [];
    }
  }

  /** Fixed-width big-endian numbers sort as their bytes do, so comparing `Bytes32` values is
      the byte-wise comparison Rust derives for `[u8; 32]`. */
  lemma {:induction false} BigEndianOrder(x: nat, y: nat, n: nat)
    requires x < Pow256(n) && y < Pow256(n)
    ensures LexLess(BigEndian(x, n), BigEndian(y, n)) <==> x < y
  {
    if n > 0 {
      BigEndianOrder(x / 256, y / 256, n - 1);
      LexAppend(BigEndian(x / 256, n - 1), BigEndian(y / 256, n - 1), x % 256, y % 256);
      BigEndianDecodes(x / 256, n - 1);
      BigEndianDecodes(y / 256, n - 1);
    }
  }

  lemma {:induction false} PowAdd(m: nat, n: nat)
    ensures Pow256(m + n) == Pow256(m) * Pow256(n)
  {
    if m > 0 {
      PowAdd(m - 1, n);
      assert Pow256(m + n) == 256 * (Pow256(m - 1) * Pow256(n));
    }
  }

  lemma {:induction false} Width8()
    ensures Pow256(4) == U32_MAX + 1
    ensures Pow256(8) == U64_MAX + 1
  {
    assert Pow256(2) == 65536;
    PowAdd(2, 2);
    PowAdd(4, 4);
  }

  lemma {:induction false} Width16()
    ensures Pow256(16) == 0x1_0000_0000_0000_0000_0000_0000_0000_0000
  {
    Width8();
    PowAdd(8, 8);
  }

  lemma {:induction false} Width32()
    ensures Pow256(32) == 0x1_0000_0000_0000_0000_0000_0000_0000_0000_0000_0000_0000_0000_0000_0000_0000_0000
  {
    Width16();
    PowAdd(16, 16);
  }

  lemma {:induction false} Width64()
    ensures Pow256(64) == 0x1_0000_0000_0000_0000_0000_0000_0000_0000_0000_0000_0000_0000_0000_0000_0000_0000
                          * 0x1_0000_0000_0000_0000_0000_0000_0000_0000_0000_0000_0000_0000_0000_0000_0000_0000
  {
    Width32();
    PowAdd(32, 32);
  }

  // ---------------------------------------------------------------- text

  /** Length in bytes of the UTF-8 sequence that starts `s`, or 0 when none does (section 3 of
      RFC 3629, which excludes overlong forms, surrogates and values above 0x10FFFF). */
  function Utf8Width(s: Bytes): (w: nat)
    ensures w <= |s| && w <= 4
  {
    if |s| == 0 then 0
    else if s[0] < 0x80 then 1
    else if 0xC2 <= s[0] <= 0xDF && |s| >= 2 && 0x80 <= s[1] <= 0xBF then 2
    else if 0xE0 <= s[0] <= 0xEF && |s| >= 3
            && (if s[0] == 0xE0 then 0xA0 else 0x80) <= s[1] <= (if s[0] == 0xED then 0x9F else 0xBF)
            && 0x80 <= s[2] <= 0xBF then 3
    else if 0xF0 <= s[0] <= 0xF4 && |s| >= 4
            && (if s[0] == 0xF0 then 0x90 else 0x80) <= s[1] <= (if s[0] == 0xF4 then 0x8F else 0xBF)
            && 0x80 <= s[2] <= 0xBF && 0x80 <= s[3] <= 0xBF then 4
    else 0
  }

  /** `String::from_utf8` accepts exactly these byte strings. */
  predicate IsUtf8(s: Bytes)
    decreases |s|
  {
    |s| == 0 || (Utf8Width(s) > 0 && IsUtf8(s[Utf8Width(s)..]))
  }

  /** Width of the white-space character that starts `s`, or 0. */
  function SpaceWidth(s: Bytes): (w: nat)
    ensures w <= |s|
  {
    if |s| >= 1 && (0x09 <= s[0] <= 0x0D || s[0] == 0x20) then 1
    else if |s| >= 2 && s[0] == 0xC2 && (s[1] == 0x85 || s[1] == 0xA0) then 2
    else if |s| >= 3 && ((s[0] == 0xE1 && s[1] == 0x9A && s[2] == 0x80)
                         || (s[0] == 0xE2 && s[1] == 0x80 && (0x80 <= s[2] <= 0x8A || s[2] in {0xA8, 0xA9, 0xAF}))
                         || (s[0] == 0xE2 && s[1] == 0x81 && s[2] == 0x9F)
                         || (s[0] == 0xE3 && s[1] == 0x80 && s[2] == 0x80)) then 3
    else 0
  }

  /** `s.trim().is_empty()`. */
  predicate IsBlank(s: Bytes)
    decreases |s|
  {
    |s| == 0 || (SpaceWidth(s) > 0 && IsBlank(s[SpaceWidth(s)..]))
  }
}
