/** Blob identifiers: fixed-width SHA-1 digests, treated as opaque byte strings
    compared by equality. Only the first byte is ever inspected, to pick the
    bucket a blob ID lives in. */
module BlobIds {

  /** An unsigned 8-bit value (Rust's `u8`). */
  newtype byte = b: int | 0 <= b < 256

  /** Width of a SHA-1 digest in bytes. */
  const DigestLen: nat := 20

  /** Number of buckets: one per possible value of the first byte. */
  const NumBuckets: nat := 256

  /** A blob ID is a SHA-1 digest; its non-emptiness makes the first byte defined. */
  type BlobId = s: seq<byte> | |s| == DigestLen witness seq(DigestLen, _ => 0)

  /** The bucket a blob ID belongs to: its first byte, used directly as an index.
      Every value of a `u8` is a valid index into the 256 buckets. */
  function BucketOf(id: BlobId): (b: nat)
    ensures b < NumBuckets
  {
    id[0] as nat
  }
}
