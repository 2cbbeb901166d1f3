/** Bytes and SHA-1 digests. */
module Bytes {

  /** A `u8`. */
  type Byte = b: int | 0 <= b < 256

  /** Length in bytes of a SHA-1 digest (FIPS 180-4): the `[u8; 20]` digest of `Blob::hash`. */
  const DigestLength: nat := 20

  type Digest = s: seq<Byte> | |s| == DigestLength witness seq(20, _ => 0)

  /** SHA-1 over a byte sequence. The algorithm lives in an external crate and is
      not modelled: every operation that hashes takes it as a parameter, so the
      model holds for whatever deterministic 20-byte function is supplied. */
  type Sha1 = seq<Byte> -> Digest
}
