/** Bytes and little-endian unsigned integers, as x86 lays out the
    Multiboot information in memory. */
module Bytes {

  type Byte = b: nat | b < 256

  /** The NUL byte that ends a C string. */
  const Nul: Byte := 0

  /** 2^32 and 2^64: the ranges of the u32 and u64 fields; size_t
      arithmetic wraps modulo 2^64. */
  const Pow32: nat := 0x1_0000_0000
  const Word: nat := 0x1_0000_0000_0000_0000

  type U32 = x: nat | x < 0x1_0000_0000
  type U64 = x: nat | x < 0x1_0000_0000_0000_0000

  /** The u32 stored little-endian in the 4 bytes at `off`. */
  function ReadU32(s: seq<Byte>, off: nat): (v: nat)
    requires off + 4 <= |s|
    ensures v < Pow32
  {
    s[off] as nat + 0x100 * s[off + 1] as nat + 0x1_0000 * s[off + 2] as nat + 0x100_0000 * s[off + 3] as nat
  }

  /** The u64 stored little-endian in the 8 bytes at `off`: low word first. */
  function ReadU64(s: seq<Byte>, off: nat): (v: nat)
    requires off + 8 <= |s|
    ensures v < Word
  {
    ReadU32(s, off) + Pow32 * ReadU32(s, off + 4)
  }

  function EncodeU32(v: U32): (s: seq<Byte>)
    ensures |s| == 4
  {
    var q1 := v / 0x100;
    var q2 := q1 / 0x100;
    [v % 0x100, q1 % 0x100, q2 % 0x100, q2 / 0x100]
  }

  function EncodeU64(v: U64): (s: seq<Byte>)
    ensures |s| == 8
  {
    EncodeU32(v % Pow32) + EncodeU32(v / Pow32)
  }

  /** Decoding an encoded u32 wherever it sits gives the value back. */
  lemma DecodeEncodedU32(pre: seq<Byte>, v: U32, post: seq<Byte>)
    ensures ReadU32(pre + EncodeU32(v) + post, |pre|) == v
  {
    var s := pre + EncodeU32(v) + post;
    var k := |pre|;
    var q1 := v / 0x100;
    var q2 := q1 / 0x100;
    assert s[k] == v % 0x100 && s[k + 1] == q1 % 0x100;
    assert s[k + 2] == q2 % 0x100 && s[k + 3] == q2 / 0x100;
    assert v == v % 0x100 + 0x100 * q1;
    assert q1 == q1 % 0x100 + 0x100 * q2;
    assert q2 == q2 % 0x100 + 0x100 * (q2 / 0x100);
  }

  /** Decoding an encoded u64 wherever it sits gives the value back. */
  lemma DecodeEncodedU64(pre: seq<Byte>, v: U64, post: seq<Byte>)
    ensures ReadU64(pre + EncodeU64(v) + post, |pre|) == v
  {
    var lo, hi := EncodeU32(v % Pow32), EncodeU32(v / Pow32);
    var s := pre + EncodeU64(v) + post;
    assert s == pre + lo + (hi + post);
    DecodeEncodedU32(pre, v % Pow32, hi + post);
    assert s == (pre + lo) + hi + post;
    DecodeEncodedU32(pre + lo, v / Pow32, post);
  }

  /** Regrouping a concatenation, stated over opaque parts so that the
      solver does not look inside encoded entries to do it. */
  lemma ConcatAssoc(a: seq<Byte>, b: seq<Byte>, c: seq<Byte>)
    ensures (a + b) + c == a + (b + c)
  {
  }

  /** Two memories that agree on the bytes of a field decode it alike. */
  predicate SameBytes(s: seq<Byte>, t: seq<Byte>, i: nat, j: nat, n: nat)
    requires i + n <= |s| && j + n <= |t|
  {
    s[i..i + n] == t[j..j + n]
  }

  lemma SameBytesU32(s: seq<Byte>, t: seq<Byte>, i: nat, j: nat)
    requires i + 4 <= |s| && j + 4 <= |t| && SameBytes(s, t, i, j, 4)
    ensures ReadU32(s, i) == ReadU32(t, j)
  {
    assert s[i] == s[i..i + 4][0] && t[j] == t[j..j + 4][0];
    assert s[i + 1] == s[i..i + 4][1] && t[j + 1] == t[j..j + 4][1];
    assert s[i + 2] == s[i..i + 4][2] && t[j + 2] == t[j..j + 4][2];
    assert s[i + 3] == s[i..i + 4][3] && t[j + 3] == t[j..j + 4][3];
  }

  lemma SameBytesU64(s: seq<Byte>, t: seq<Byte>, i: nat, j: nat)
    requires i + 8 <= |s| && j + 8 <= |t| && SameBytes(s, t, i, j, 8)
    ensures ReadU64(s, i) == ReadU64(t, j)
  {
    SubSlice(s, t, i, j, 8, 0, 4);
    SubSlice(s, t, i, j, 8, 4, 4);
    SameBytesU32(s, t, i, j);
    SameBytesU32(s, t, i + 4, j + 4);
  }

  /** Agreement on a range implies agreement on every part of it. */
  lemma SubSlice(s: seq<Byte>, t: seq<Byte>, i: nat, j: nat, n: nat, f: nat, m: nat)
    requires i + n <= |s| && j + n <= |t| && SameBytes(s, t, i, j, n) && f + m <= n
    ensures SameBytes(s, t, i + f, j + f, m)
  {
    var a, b := s[i + f..i + f + m], t[j + f..j + f + m];
    forall k | 0 <= k < m ensures a[k] == b[k] {
      assert a[k] == s[i..i + n][f + k];
      assert b[k] == t[j..j + n][f + k];
    }
  }
}
