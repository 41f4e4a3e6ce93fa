/** The owner hash of utils/hash.rs.

    `hash_owner` hex-encodes the SHA-512 digest of the owner's bytes. SHA-512 is not modelled:
    every component that needs the hash takes it as a parameter of type `string -> Digest`.
    A Dafny function is deterministic, so the same owner always maps to the same id, and the
    only other fact available is the length of the hex digest (64 bytes, two characters each).
    Nothing assumes that two owners get different ids. */
module Hash {

  const DigestLength := 128

  type Digest = s: string | |s| == DigestLength witness seq(128, _ => '0')
}
