/**
 * The digest primitive. SHA-256 itself is not modelled: a hash algorithm
 * carries its message digest as an arbitrary function over byte arrays,
 * next to the two object identifiers the enum records for it.
 */
module CryptoUtils {
  import opened ByteOrder

  /** An ASN.1 object identifier, as its arcs. */
  type Oid = seq<nat>

  /** `HashAlgorithm`: the identifier used in timestamp requests, the NIST digest identifier, and the digest. */
  datatype HashAlgorithm = HashAlgorithm(tspOid: Oid, nistOid: Oid, digest: Bytes -> Bytes)

  /** `CryptoUtils.hash(content, algorithm)`. */
  function Hash(content: Bytes, algorithm: HashAlgorithm): Bytes {
    algorithm.digest(content)
  }
}
