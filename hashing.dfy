/**
 * The hashing collaborator that Security relies on: PHP's `hash_algos()`,
 * `hash()` and `hash_hmac()`. Their internals are not part of this model;
 * the collaborator is a value handed to every derivation, so each property
 * proved about PBKDF2 holds for every hash function that meets `Valid()`.
 */
module Hashing {
  import opened Bitwise

  datatype Error =
    | InvalidHashAlgorithm   // the exception `pbkdf2` throws when `$algo` is not registered
    | HmacAlgorithmRejected  // `hash_hmac` refusing an algorithm name (PHP 8's ValueError)

  datatype Result<T> = Ok(value: T) | Err(error: Error)

  /** The name PHP reads for a variable that was never assigned: null,
      which a string parameter receives as the empty string. */
  const UndefinedName: string := ""

  /**
   * `algos` is the registry (`hash_algos()`), `hmacAlgos` the names
   * `hash_hmac` accepts (`hash_hmac_algos()`: the cryptographic ones),
   * `hash(algo, data)` the raw digest (`hash($algo, $data, true)`) and
   * `hmac(algo, data, key)` the raw HMAC (`hash_hmac($algo, $data, $key,
   * true)`), arguments in PHP's order.
   */
  datatype Hasher = Hasher(
    algos: set<string>,
    hmacAlgos: set<string>,
    hash: (string, Bytes) -> Bytes,
    hmac: (string, Bytes, Bytes) -> Bytes)
  {
    /** The digest length of `algo`, as the source measures it: the length
        of the digest of the empty string. */
    function DigestLength(algo: string): nat
    {
      |hash(algo, [])|
    }

    /** A call of `hash_hmac` as PHP 8 makes it: an algorithm name it does
        not accept is an error, any other gives the raw HMAC. */
    function HashHmac(algo: string, data: Bytes, key: Bytes): Result<Bytes>
    {
      if algo in hmacAlgos then Ok(hmac(algo, data, key)) else Err(HmacAlgorithmRejected)
    }

    /** What PHP guarantees: `hash_hmac` accepts only registered names, never
        the empty one, and every HMAC is as long as that algorithm's digest. */
    ghost predicate Valid()
    {
      && UndefinedName !in hmacAlgos
      && hmacAlgos <= algos
      && forall algo, data, key | algo in hmacAlgos ::
           |hmac(algo, data, key)| == |hash(algo, [])|
    }
  }
}
