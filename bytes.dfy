/** Machine-level vocabulary shared by every component: bytes, fixed-width
    unsigned integers, little-endian encoding and NUL-terminated C strings. */
module Bytes {

  /** One byte of memory. C `char` and `u8` buffers are both modelled as bytes. */
  type u8 = x: int | 0 <= x < 0x100

  type u32 = x: int | 0 <= x < 0x1_0000_0000

  type u64 = x: int | 0 <= x < 0x1_0000_0000_0000_0000

  const U64_LIMIT: int := 0x1_0000_0000_0000_0000

  const NUL: u8 := 0

  /** 2^63, the first value a signed 64-bit `isize` cannot hold. */
  const ISIZE_LIMIT: int := 0x8000_0000_0000_0000

  /** The value a u64 takes once stored into a signed 64-bit `isize`: itself below
      2^63, and 2^64 less than itself (a negative number) from there on. */
  function AsIsize(x: u64): (r: int)
    ensures x < ISIZE_LIMIT ==> r == x
    ensures x >= ISIZE_LIMIT ==> r < 0 && r + U64_LIMIT == x
    ensures -ISIZE_LIMIT <= r < ISIZE_LIMIT
  {
    if x < ISIZE_LIMIT then x else x - U64_LIMIT
  }

  /** Reduction modulo 2^64: what a store into a `u64`/`usize` does to a value. */
  function Wrap64(x: int): (r: u64)
    ensures 0 <= x < U64_LIMIT ==> r == x
  {
    x % U64_LIMIT
  }

  function Zeros(n: nat): (r: seq<u8>)
    ensures |r| == n && forall i :: 0 <= i < n ==> r[i] == 0
  {
    seq(n, _ => 0)
  }

  /** The bytes of an ASCII literal, as a C compiler lays it out (without its NUL). */
  function Ascii(s: string): (r: seq<u8>)
    ensures |r| == |s|
  {
    seq(|s|, i requires 0 <= i < |s| => (s[i] as int) % 0x100)
  }

  function Pow256(n: nat): (r: nat)
    ensures r >= 1
  {
    if n == 0 then 1 else 0x100 * Pow256(n - 1)
  }

  lemma Pow256Widths()
    ensures Pow256(4) == 0x1_0000_0000
    ensures Pow256(8) == U64_LIMIT
  {
    assert Pow256(2) == 0x1_0000;
    assert Pow256(4) == 0x100 * (0x100 * Pow256(2));
    assert Pow256(6) == 0x100 * (0x100 * Pow256(4));
    assert Pow256(8) == 0x100 * (0x100 * Pow256(6));
  }

  /** The `n` low-order bytes of `x`, least significant first. */
  function EncodeLE(x: nat, n: nat): (r: seq<u8>)
    ensures |r| == n
  {
    if n == 0 then [] else [x % 0x100] + EncodeLE(x / 0x100, n - 1)
  }

  /** The unsigned value of a little-endian byte string. */
  function DecodeLE(b: seq<u8>): (r: nat)
    ensures r < Pow256(|b|)
  {
    if |b| == 0 then 0 else b[0] + 0x100 * DecodeLE(b[1..])
  }

  lemma {:induction false} DecodeEncodeLE(x: nat, n: nat)
    requires x < Pow256(n)
    ensures DecodeLE(EncodeLE(x, n)) == x
  {
    if n > 0 {
      var e := EncodeLE(x, n);
      assert e[1..] == EncodeLE(x / 0x100, n - 1);
      DecodeEncodeLE(x / 0x100, n - 1);
    }
  }

  function EncodeU32(x: u32): (r: seq<u8>)
    ensures |r| == 4
  {
    EncodeLE(x, 4)
  }

  function EncodeU64(x: u64): (r: seq<u8>)
    ensures |r| == 8
  {
    EncodeLE(x, 8)
  }

  function DecodeU32(b: seq<u8>): (r: u32)
    requires |b| == 4
  {
    Pow256Widths();
    DecodeLE(b)
  }

  function DecodeU64(b: seq<u8>): (r: u64)
    requires |b| == 8
  {
    Pow256Widths();
    DecodeLE(b)
  }

  lemma DecodeEncodeU32(x: u32)
    ensures DecodeU32(EncodeU32(x)) == x
  {
    Pow256Widths();
    DecodeEncodeLE(x, 4);
  }

  lemma DecodeEncodeU64(x: u64)
    ensures DecodeU64(EncodeU64(x)) == x
  {
    Pow256Widths();
    DecodeEncodeLE(x, 8);
  }

  /** C `strlen`: the index of the first NUL of a terminated buffer. */
  function StrLen(s: seq<u8>): (n: nat)
    requires NUL in s
    ensures n < |s| && s[n] == NUL && NUL !in s[..n]
  {
    if s[0] == NUL then 0
    else
      var m := StrLen(s[1..]);
      assert s[..1 + m] == [s[0]] + s[1..][..m];
      1 + m
  }

  /** The C string a terminated buffer holds: its bytes up to the first NUL. */
  function CString(s: seq<u8>): (r: seq<u8>)
    requires NUL in s
    ensures |r| < |s| && NUL !in r && r + [NUL] == s[..|r| + 1]
  {
    s[..StrLen(s)]
  }

  lemma {:induction false} StrLenOfTerminated(r: seq<u8>, rest: seq<u8>)
    requires NUL !in r
    ensures NUL in r + [NUL] + rest && StrLen(r + [NUL] + rest) == |r|
  {
    var s := r + [NUL] + rest;
    assert s[|r|] == NUL;
    if |r| > 0 {
      assert s[1..] == r[1..] + [NUL] + rest;
      StrLenOfTerminated(r[1..], rest);
    }
  }
}
