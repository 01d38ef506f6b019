/** The 64-bit FNV-1 hash of src/wpl/wplUtil.c (`wHashBuffer`, `wHashString`),
    repeated verbatim as `hashBuffer` / `hashString` in not_yet_used/wbTexture.c.
    Per byte the accumulator is first multiplied by the prime and then XORed
    with the byte (FNV-1 order, not FNV-1a). */
module Fnv {
  import opened Bytes

  const BASIS: bv64 := 14695981039346656037
  const PRIME: bv64 := 1099511628211

  /** A C `char` promoted to 64 bits on a target where `char` is signed
      (the MSVC convention of the toolchain this code is built with):
      bytes 0x80..0xFF are sign-extended. */
  function SignExtend(c: bv8): bv64 {
    if c < 0x80 then c as bv64 else (c as bv64) | 0xFFFF_FFFF_FFFF_FF00
  }

  function CharBits(b: u8): bv64 {
    SignExtend(b as bv8)
  }

  /** One step of the accumulator: multiply (mod 2^64), then XOR. */
  function Step(h: bv64, b: u8): bv64 {
    (h * PRIME) ^ CharBits(b)
  }

  /** The hash of `s` as the C loops compute it: bytes consumed front to back. */
  function HashFrom(h: bv64, s: seq<u8>): bv64
    decreases |s|
  {
    if |s| == 0 then h else HashFrom(Step(h, s[0]), s[1..])
  }

  /** Reference definition by the last byte: FNV-1 of a prefix, extended by one byte. */
  function Fnv1(s: seq<u8>): bv64 {
    if |s| == 0 then BASIS else Step(Fnv1(s[..|s| - 1]), s[|s| - 1])
  }

  /** The hash as the C `u64` it is returned as. */
  function Hash(s: seq<u8>): (r: u64) {
    HashFrom(BASIS, s) as int
  }

  lemma {:induction false} HashFromAppend(h: bv64, s: seq<u8>, b: u8)
    ensures HashFrom(h, s + [b]) == Step(HashFrom(h, s), b)
    decreases |s|
  {
    if |s| > 0 {
      assert (s + [b])[1..] == s[1..] + [b];
      HashFromAppend(Step(h, s[0]), s[1..], b);
    }
  }

  /** The front-to-back loop and the reference definition agree on every input. */
  lemma {:induction false} HashFromIsFnv1(s: seq<u8>)
    ensures HashFrom(BASIS, s) == Fnv1(s)
  {
    if |s| > 0 {
      var init := s[..|s| - 1];
      assert s == init + [s[|s| - 1]];
      HashFromIsFnv1(init);
      HashFromAppend(BASIS, init, s[|s| - 1]);
    }
  }

  /** Sign extension keeps the byte in the low 8 bits and fills the upper 56 bits
      with copies of its top bit. */
  lemma SignExtendBits(c: bv8)
    ensures SignExtend(c) & 0xFF == c as bv64
    ensures c < 0x80 ==> SignExtend(c) >> 8 == 0
    ensures c >= 0x80 ==> SignExtend(c) >> 8 == 0x00FF_FFFF_FFFF_FFFF
  {
  }

  /** The byte 0x80 hashes differently from what an unsigned-char target computes,
      and the result differs from FNV-1a (XOR first, then multiply). */
  lemma SignedCharMatters()
    ensures Hash([0x80]) != ((BASIS * PRIME) ^ 0x80) as int
    ensures Hash([0x80]) != ((BASIS ^ 0x80) * PRIME) as int
  {
    assert [0x80 as u8][1..] == [];
  }

  /** wHashBuffer (src/wpl/wplUtil.c:3-11): hash of the first `length` bytes; a
      non-positive length leaves the basis. */
  method HashBuffer(buf: seq<u8>, length: int) returns (hash: u64)
    requires length <= |buf|
    ensures length <= 0 ==> hash == 14695981039346656037
    ensures length > 0 ==> hash == Fnv1(buf[..length]) as int
  {
    var h := BASIS;
    var i := 0;
    ghost var n := if length < 0 then 0 else length;
    while i < length
      invariant 0 <= i <= n
      invariant HashFrom(h, buf[i..n]) == HashFrom(BASIS, buf[..n])
    {
      assert buf[i..n] == [buf[i]] + buf[i + 1..n];
      h := Step(h, buf[i]);
      i := i + 1;
    }
    assert buf[i..n] == [];
    HashFromIsFnv1(buf[..n]);
    hash := h as int;
  }

  /** wHashString (src/wpl/wplUtil.c:13-21): hashes the bytes before the first NUL,
      so it agrees with HashBuffer over `strlen(s)` bytes. */
  method HashString(s: seq<u8>) returns (hash: u64)
    requires NUL in s
    ensures hash == Fnv1(CString(s)) as int
    ensures hash == Hash(CString(s))
    ensures s[0] == NUL ==> hash == 14695981039346656037
  {
    var h := BASIS;
    var i := 0;
    ghost var n := StrLen(s);
    while s[i] != NUL
      invariant 0 <= i <= n
      invariant HashFrom(h, s[i..n]) == HashFrom(BASIS, s[..n])
      decreases n - i
    {
      assert s[i..n] == [s[i]] + s[i + 1..n];
      h := Step(h, s[i]);
      i := i + 1;
    }
    assert s[i..n] == [];
    HashFromIsFnv1(s[..n]);
    hash := h as int;
  }
}
