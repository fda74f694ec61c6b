// Little-endian encoding of unsigned integers, the way header fields lie in
// the reservation's bytes.
module Bytes {

  type byte = b: int | 0 <= b < 256

  function Pow256(n: nat): nat {
    if n == 0 then 1 else 256 * Pow256(n - 1)
  }

  /** The value of the bytes of s from index i on. */
  function FromBytes(s: seq<byte>, i: nat): nat
    decreases |s| - i
  {
    if i >= |s| then 0 else s[i] + 256 * FromBytes(s, i + 1)
  }

  function ToBytes(v: nat, n: nat): (s: seq<byte>)
    ensures |s| == n
  {
    if n == 0 then [] else [v % 256] + ToBytes(v / 256, n - 1)
  }

  lemma {:induction false} FromBytesShift(s: seq<byte>, b: byte, i: nat)
    ensures FromBytes([b] + s, i + 1) == FromBytes(s, i)
    decreases |s| - i
  {
    if i < |s| {
      FromBytesShift(s, b, i + 1);
    }
  }

  lemma {:induction false} RoundTrip(v: nat, n: nat)
    requires v < Pow256(n)
    ensures FromBytes(ToBytes(v, n), 0) == v
  {
    if n > 0 {
      RoundTrip(v / 256, n - 1);
      FromBytesShift(ToBytes(v / 256, n - 1), v % 256, 0);
    }
  }

  lemma {:induction false} FromBytesBound(s: seq<byte>, i: nat)
    requires i <= |s|
    ensures FromBytes(s, i) < Pow256(|s| - i)
    decreases |s| - i
  {
    if i < |s| {
      FromBytesBound(s, i + 1);
    }
  }

  /** The unsigned integer stored in the n bytes at address a. */
  function Load(m: seq<byte>, a: nat, n: nat): nat
    requires a + n <= |m|
  {
    FromBytes(m[a..a + n], 0)
  }

  function SetByte(s: seq<byte>, i: nat, v: byte): seq<byte>
    requires i < |s|
  {
    s[i := v]
  }

  /** The memory changed at most in the addresses from lo up to hi. */
  ghost predicate SameOutside(m: seq<byte>, m': seq<byte>, lo: nat, hi: nat) {
    && |m| == |m'|
    && forall x: nat, y: nat {:trigger m'[x..y]} :: x <= y <= |m| && (y <= lo || hi <= x) ==> m'[x..y] == m[x..y]
  }
}
