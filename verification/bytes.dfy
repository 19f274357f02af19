/** Byte strings, fixed-width digests and 64-bit words. */
module Bytes {

  type byte = bv8

  type Bytes = seq<byte>

  /** Width of every digest, key path and address: 32 bytes (`[u8; 32]`). */
  const DigestLength: nat := 32

  type Bytes32 = s: Bytes | |s| == DigestLength witness seq(32, _ => 0)

  /** A hash output. */
  type Digest = Bytes32

  /** `n` zero bytes (`vec![0u8; n]`). */
  function Zeros(n: nat): (z: Bytes)
    ensures |z| == n
    ensures forall i | 0 <= i < n :: z[i] == 0
  {
    seq(n, _ => 0)
  }

  /** Splitting a concatenation at the length of its first part gives the
      parts back. */
  lemma SplitConcat(a: Bytes, b: Bytes)
    ensures (a + b)[..|a|] == a
    ensures (a + b)[|a|..] == b
  {
  }

  /** Largest `u64`. */
  const U64Max: nat := 0xFFFF_FFFF_FFFF_FFFF

  type u64 = x: nat | x <= U64Max

  /** The eight bytes of a 64-bit word, least significant first
      (`to_le_bytes`). */
  function LittleEndian64(x: bv64): (s: Bytes)
    ensures |s| == 8
  {
    [(x & 0xFF) as byte, ((x >> Byte1) & 0xFF) as byte, ((x >> Byte2) & 0xFF) as byte, ((x >> Byte3) & 0xFF) as byte,
     ((x >> Byte4) & 0xFF) as byte, ((x >> Byte5) & 0xFF) as byte, ((x >> Byte6) & 0xFF) as byte, ((x >> Byte7) & 0xFF) as byte]
  }

  /** The 64-bit word whose little-endian bytes are `s`. */
  function FromLittleEndian64(s: Bytes): bv64
    requires |s| == 8
  {
    (s[0] as bv64) | ((s[1] as bv64) << Byte1) | ((s[2] as bv64) << Byte2) | ((s[3] as bv64) << Byte3)
    | ((s[4] as bv64) << Byte4) | ((s[5] as bv64) << Byte5) | ((s[6] as bv64) << Byte6) | ((s[7] as bv64) << Byte7)
  }

  /** Bit offsets of the bytes of a 64-bit word, as bit-vector shift amounts. */
  const Byte1: bv7 := 8
  const Byte2: bv7 := 16
  const Byte3: bv7 := 24
  const Byte4: bv7 := 32
  const Byte5: bv7 := 40
  const Byte6: bv7 := 48
  const Byte7: bv7 := 56

  /** Reading back the little-endian bytes of a word gives the word. */
  lemma LittleEndian64RoundTrip(x: bv64)
    ensures FromLittleEndian64(LittleEndian64(x)) == x
  {
  }
}
