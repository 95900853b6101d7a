/** Bytes, 64-bit words and the option type shared by every component. */
module Bytes {

  datatype Option<+T> = None | Some(value: T)

  datatype Result<+T, +E> = Success(value: T) | Failure(error: E)

  type byte = b: int | 0 <= b < 256
  type bytes = seq<byte>

  const U64_LIMIT: nat := 0x1_0000_0000_0000_0000

  type u64 = n: int | 0 <= n < U64_LIMIT

  /** A 32-byte root or digest. */
  type B256 = b: bytes | |b| == 32 witness ZeroBytes(32)

  const ZERO_ROOT: B256 := ZeroBytes(32)

  function ZeroBytes(n: nat): (zeros: bytes)
    ensures |zeros| == n
    ensures forall i :: 0 <= i < n ==> zeros[i] == 0
  {
    if n == 0 then [] else [0] + ZeroBytes(n - 1)
  }

  function Max(a: int, b: int): int {
    if a < b then b else a
  }

  function Min(a: int, b: int): int {
    if a < b then a else b
  }

  /** `u64::saturating_add`. */
  function SaturatingAdd(a: u64, b: u64): u64 {
    Min(a + b, U64_LIMIT - 1)
  }

  /** `saturating_sub` on an unsigned type. */
  function SaturatingSub(a: nat, b: nat): nat {
    if a < b then 0 else a - b
  }

  function Pow256(width: nat): nat {
    if width == 0 then 1 else 256 * Pow256(width - 1)
  }

  /** The little-endian encoding of `n` in `width` bytes (truncating). */
  function LittleEndian(n: nat, width: nat): (encoded: bytes)
    ensures |encoded| == width
  {
    if width == 0 then [] else [n % 256] + LittleEndian(n / 256, width - 1)
  }

  function FromLittleEndian(encoded: bytes): nat {
    if encoded == [] then 0 else encoded[0] + 256 * FromLittleEndian(encoded[1..])
  }

  lemma {:induction false} LittleEndianRoundTrip(n: nat, width: nat)
    requires n < Pow256(width)
    ensures FromLittleEndian(LittleEndian(n, width)) == n
  {
    if width > 0 {
      LittleEndianRoundTrip(n / 256, width - 1);
      assert LittleEndian(n, width)[1..] == LittleEndian(n / 256, width - 1);
    }
  }

  lemma {:induction false} LittleEndianCanonical(encoded: bytes)
    ensures FromLittleEndian(encoded) < Pow256(|encoded|)
    ensures LittleEndian(FromLittleEndian(encoded), |encoded|) == encoded
  {
    if encoded != [] {
      LittleEndianCanonical(encoded[1..]);
      assert encoded == [encoded[0]] + encoded[1..];
    }
  }

  lemma Pow256Of8()
    ensures Pow256(8) == U64_LIMIT
  {
    assert Pow256(4) == 0x1_0000_0000;
    assert Pow256(8) == 256 * (256 * (256 * (256 * Pow256(4))));
  }

  predicate Distinct(s: seq<B256>) {
    forall i, j :: 0 <= i < j < |s| ==> s[i] != s[j]
  }

  lemma SliceOfSlice(b: bytes, lo: nat, hi: nat, i: nat, j: nat)
    requires lo <= hi <= |b| && i <= j <= hi - lo
    ensures b[lo..hi][i..j] == b[lo + i..lo + j]
  {
    forall k | 0 <= k < j - i
      ensures b[lo..hi][i..j][k] == b[lo + i..lo + j][k]
    {
      assert b[lo..hi][i + k] == b[lo + (i + k)];
    }
  }

  /** `u64::to_le_bytes`. */
  function EncodeU64(n: u64): (encoded: bytes)
    ensures |encoded| == 8
    ensures DecodeU64(encoded) == n
  {
    Pow256Of8();
    LittleEndianRoundTrip(n, 8);
    LittleEndian(n, 8)
  }

  /** `u64::from_le_bytes`. */
  function DecodeU64(encoded: bytes): u64
    requires |encoded| == 8
  {
    Pow256Of8();
    LittleEndianCanonical(encoded);
    FromLittleEndian(encoded)
  }

  lemma DecodeU64Canonical(encoded: bytes)
    requires |encoded| == 8
    ensures EncodeU64(DecodeU64(encoded)) == encoded
  {
    LittleEndianCanonical(encoded);
  }
}
