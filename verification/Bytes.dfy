/**
 Bytes, fixed-size pages and the little-endian integer fields every on-disk
 format of the engine is made of.
 */
module Bytes {

  type byte = x: int | 0 <= x < 256

  const PAGE_SIZE: nat := 4096

  /** The sentinel page id that names no page. */
  const INVALID_ID: nat := 0xFFFF_FFFF

  function Zeros(n: nat): (z: seq<byte>)
    ensures |z| == n && forall k :: 0 <= k < n ==> z[k] == 0
  {
    seq(n, _ => 0)
  }

  /** The bytes of one page. */
  type Page = p: seq<byte> | |p| == 4096 witness seq(4096, _ => 0)

  const ZERO_PAGE: Page := Zeros(4096)

  // ---- little-endian integers ----------------------------------------------

  /** 256 to the power n: how many values n bytes can hold. */
  function Radix(n: nat): (r: nat)
    ensures r >= 1
  {
    if n == 0 then 1 else 256 * Radix(n - 1)
  }

  lemma RadixValues()
    ensures Radix(2) == 0x1_0000
    ensures Radix(4) == 0x1_0000_0000
    ensures Radix(8) == 0x1_0000_0000_0000_0000
  {
    assert Radix(1) == 256;
    assert Radix(3) == 256 * Radix(2);
    assert Radix(5) == 256 * Radix(4);
    assert Radix(7) == 256 * Radix(6);
  }

  /** The low n bytes of v, least significant first. */
  function Encode(v: nat, n: nat): (s: seq<byte>)
    ensures |s| == n
  {
    if n == 0 then [] else [v % 256] + Encode(v / 256, n - 1)
  }

  function Decode(s: seq<byte>): (v: nat)
    ensures v < Radix(|s|)
  {
    if s == [] then 0 else s[0] + 256 * Decode(s[1..])
  }

  lemma {:induction false} DecodeEncode(v: nat, n: nat)
    requires v < Radix(n)
    ensures Decode(Encode(v, n)) == v
  {
    if n > 0 {
      DecodeEncode(v / 256, n - 1);
      assert Encode(v, n)[1..] == Encode(v / 256, n - 1);
    }
  }

  lemma LowByte(b: byte, rest: nat)
    ensures (b + 256 * rest) % 256 == b && (b + 256 * rest) / 256 == rest
  {
  }

  lemma {:induction false} EncodeDecode(s: seq<byte>)
    ensures Encode(Decode(s), |s|) == s
  {
    if s != [] {
      EncodeDecode(s[1..]);
      LowByte(s[0], Decode(s[1..]));
      assert s == [s[0]] + s[1..];
    }
  }

  /** Fields of equal width with equal values are the same bytes. */
  lemma DecodeInjective(s: seq<byte>, t: seq<byte>)
    requires |s| == |t| && Decode(s) == Decode(t)
    ensures s == t
  {
    EncodeDecode(s);
    EncodeDecode(t);
  }

  // ---- slices ----------------------------------------------------------------

  lemma SliceOfPrefix<T>(s: seq<T>, w: nat, x: nat, y: nat)
    requires x <= y <= w <= |s|
    ensures s[..w][x..y] == s[x..y]
  {
  }

  lemma SliceOfSuffix<T>(s: seq<T>, w: nat, x: nat, y: nat)
    requires w <= |s| && x <= y <= |s| - w
    ensures s[w..][x..y] == s[w + x..w + y]
  {
  }

  // ---- fields inside a buffer ----------------------------------------------

  /** The n-byte little-endian field at offset `at`. */
  function Field(p: seq<byte>, at: nat, n: nat): (v: nat)
    requires at + n <= |p|
    ensures v < Radix(n)
  {
    Decode(p[at .. at + n])
  }

  function U16(p: seq<byte>, at: nat): (v: nat)
    requires at + 2 <= |p|
    ensures v < 0x1_0000
  {
    RadixValues();
    Field(p, at, 2)
  }

  function U32(p: seq<byte>, at: nat): (v: nat)
    requires at + 4 <= |p|
    ensures v < 0x1_0000_0000
  {
    RadixValues();
    Field(p, at, 4)
  }

  /** `p` with the bytes from offset `at` overwritten by `b`. */
  function Splice(p: seq<byte>, at: nat, b: seq<byte>): (q: seq<byte>)
    requires at + |b| <= |p|
    ensures |q| == |p|
    ensures forall k {:trigger q[k]} :: 0 <= k < |p| ==> q[k] == if at <= k < at + |b| then b[k - at] else p[k]
    ensures q[at .. at + |b|] == b
  {
    p[..at] + b + p[at + |b|..]
  }

  /** A range that a splice does not touch keeps its bytes. */
  lemma SpliceElsewhere(p: seq<byte>, at: nat, b: seq<byte>, lo: nat, hi: nat)
    requires at + |b| <= |p| && lo <= hi <= |p|
    requires hi <= at || at + |b| <= lo
    ensures Splice(p, at, b)[lo..hi] == p[lo..hi]
  {
  }

  function PutU16(p: seq<byte>, at: nat, v: nat): (q: seq<byte>)
    requires at + 2 <= |p|
    ensures |q| == |p|
  {
    Splice(p, at, Encode(v, 2))
  }

  function PutU32(p: seq<byte>, at: nat, v: nat): (q: seq<byte>)
    requires at + 4 <= |p|
    ensures |q| == |p|
  {
    Splice(p, at, Encode(v, 4))
  }

  lemma PutU16Reads(p: seq<byte>, at: nat, v: nat)
    requires at + 2 <= |p| && v < 0x1_0000
    ensures U16(PutU16(p, at, v), at) == v
    ensures forall j :: 0 <= j <= |p| - 2 && (j + 2 <= at || at + 2 <= j) ==> U16(PutU16(p, at, v), j) == U16(p, j)
  {
    RadixValues();
    DecodeEncode(v, 2);
    forall j | 0 <= j <= |p| - 2 && (j + 2 <= at || at + 2 <= j)
      ensures U16(PutU16(p, at, v), j) == U16(p, j)
    {
      SpliceElsewhere(p, at, Encode(v, 2), j, j + 2);
    }
  }

  lemma PutU32Reads(p: seq<byte>, at: nat, v: nat)
    requires at + 4 <= |p| && v < 0x1_0000_0000
    ensures U32(PutU32(p, at, v), at) == v
    ensures forall j :: 0 <= j <= |p| - 4 && (j + 4 <= at || at + 4 <= j) ==> U32(PutU32(p, at, v), j) == U32(p, j)
  {
    RadixValues();
    DecodeEncode(v, 4);
    forall j | 0 <= j <= |p| - 4 && (j + 4 <= at || at + 4 <= j)
      ensures U32(PutU32(p, at, v), j) == U32(p, j)
    {
      SpliceElsewhere(p, at, Encode(v, 4), j, j + 4);
    }
  }
}
