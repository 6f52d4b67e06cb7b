/** Values shared by every component: optional results, bytes and cache digests. */
module Types {

  datatype Option<+T> = None | Some(value: T)

  /** A `u8`. */
  type byte = x: int | 0 <= x < 256

  const DIGEST_LEN: nat := 32

  const ZERO_BYTES: seq<byte> :=
    [0, 0, 0, 0, 0, 0, 0, 0, 0, 0, 0, 0, 0, 0, 0, 0, 0, 0, 0, 0, 0, 0, 0, 0, 0, 0, 0, 0, 0, 0, 0, 0]

  type DigestBytes = s: seq<byte> | |s| == DIGEST_LEN witness ZERO_BYTES

  /** A SHA-256 digest. The hash itself is foreign code: a digest is any 32 bytes. */
  datatype Digest = Digest(bytes: DigestBytes)

  const ZERO_DIGEST: Digest := Digest(ZERO_BYTES)

  /** No element occurs twice. */
  ghost predicate NoDup<T>(s: seq<T>) {
    forall i, j :: 0 <= i < j < |s| ==> s[i] != s[j]
  }
}
