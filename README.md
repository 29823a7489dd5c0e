# php-future `Security`, modelled in Dafny

The `Security` class of php-future back-ports two primitives to older PHP:

- `hashEquals` compares two byte strings in time that does not depend on
  where they differ. Strings of different lengths are unequal at once.
  Otherwise the XOR of every byte pair is ORed into an accumulator, with no
  early exit, and the strings are equal when the accumulator ends at zero.
- `pbkdf2` is PBKDF2 as defined in section 5.2 of RFC 8018. It rejects an
  algorithm missing from the hash registry and returns the empty string
  for a digest of length 0. Its first `hash_hmac` call (line 79) fails, as
  PHP 8 makes it fail, when `hash_hmac` does not accept the algorithm.
  Otherwise it computes `ceil(length / hLen)` blocks and returns the first
  `length` bytes of their concatenation. Block `i` is `U1 ^ ... ^ Uc`,
  where `U1 = HMAC(password, salt || INT(i))` and
  `Uj = HMAC(password, U(j-1))`.
- `ourStrlen` and `ourSubstr` are the byte length and byte slice both of
  these use.

Files:

- `bitwise.dfy` (module `Bitwise`) holds the PHP operators the class uses.
  Bytes are the integers `ord()` returns. `^` and `|` on them are defined
  bit by bit, and `^` on two strings is byte-wise, cut to the shorter one.
- `hashing.dfy` (module `Hashing`) holds the hash collaborator, which is
  PHP's `hash_algos()`, `hash()` and `hash_hmac()`. It is a value of type
  `Hasher` that is passed to every derivation. Its functions are not
  interpreted. It has two registries: `algos` for `hash_algos()`, and
  `hmacAlgos` for the names `hash_hmac` accepts. Since PHP 7.2 the second
  excludes non-cryptographic hashes such as `crc32b`. `Hasher.HashHmac` is a
  call to `hash_hmac` as PHP 8 makes it: a name outside `hmacAlgos` is an
  error. `Hasher.Valid()` is what the model assumes about the collaborator:
  - `hmacAlgos` is part of `algos` and does not hold the empty name;
  - every HMAC is as long as its algorithm's digest.
- `security.dfy` (module `Security`) holds the class itself. `StrLen` and
  `Substr` model `ourStrlen` and `ourSubstr`. `HashEquals` is the compare
  loop, specified by `Accumulated`, the fold it performs. `Pbkdf2` is the
  derivation with its two nested loops, specified by the function
  `DerivedKey`. The lemmas state the properties of `DerivedKey`.
  `Pbkdf2AsWritten` is the same derivation with line 82 as the source
  spells it (see "## Findings").

`Pbkdf2` has a ghost out-parameter, `hmacCalls`, that counts HMAC
evaluations. Through it, the method states two things: no HMAC is computed
when the derivation fails, and each block costs
`max(1, iterations)` HMACs.

Where the code and a strict reading of PBKDF2 differ, the model follows the
code:

- The iteration count is not checked. With `iterations <= 1`, including 0
  and negative counts, each block is the single HMAC `U1`.
- A `length` that is not positive produces no block. `ourSubstr` then
  returns the empty string, as `mb_substr` and PHP 8's `substr` do.
- Block indices are encoded with `pack('N')`, which keeps the low 32 bits.
  The source never raises RFC 8018's "derived key too long" error.

## Model

| member | source | states |
|---|---|---|
| `Bitwise.XorZeroIff` | src/Security.php:46-49 | the XOR of two bytes is 0 exactly when the bytes are equal |
| `Bitwise.OrZeroIff` | src/Security.php:46-49 | an OR is 0 exactly when both operands are 0, so one differing pair keeps the accumulator non-zero |
| `Bitwise.XorSymmetric` | src/Security.php:46 | `a ^ b == b ^ a` |
| `Bitwise.XorBelow` | src/Security.php:82 | the XOR of two k-bit numbers is a k-bit number, so XOR-ing bytes gives bytes |
| `Security.StrLen` | src/Security.php:95-108 | the byte length `\|s\|` of the string, as `mb_strlen($str, '8bit')` and `strlen` both give it |
| `Security.Substr` | src/Security.php:118-133 | the result is never longer than the input. From offset 0 with a length n >= 0 it is the first min(n, \|s\|) bytes. A negative length drops that many bytes from the end. A null length runs to the end. A start past the end gives the empty string |
| `Security.AccumulatedZeroIff` | src/Security.php:44-49 | the accumulator after n byte pairs is 0 exactly when the first n bytes of both strings agree |
| `Security.AccumulatedSymmetric` | src/Security.php:44-49 | the accumulator is the same with the two strings swapped, so the comparison is symmetric |
| `Security.AccumulatedSelf` | src/Security.php:44-49 | comparing a string with itself accumulates 0, so the comparison is reflexive |
| `Security.HashEquals` | src/Security.php:36-50 | strings of different lengths are unequal. For equal lengths, the result is whether the fold over all \|known\| byte pairs ends at 0. The result is true exactly when the strings are equal (so empty/empty is true) |
| `Security.BlockCountIsCeiling` | src/Security.php:74 | the block count is `ceil(length / hLen)`. Its blocks cover `length` bytes, one block fewer would not, and a length <= 0 needs no block |
| `Security.Int32BERoundTrip` | src/Security.php:78 | `pack('N', i)` is four bytes whose big-endian value is `i mod 2^32` |
| `Security.ULength` | src/Security.php:79-82 | under `Valid()`, every chained HMAC `Uj` of an algorithm `hash_hmac` accepts is exactly one digest long |
| `Security.XorSumLength` | src/Security.php:79-83 | under `Valid()`, every XOR sum `U1 ^ ... ^ Uj` is exactly one digest long |
| `Security.BlocksLength` | src/Security.php:76-85 | n concatenated blocks are n * hLen bytes |
| `Security.BlockListPrefix` | src/Security.php:77-85 | block i does not depend on how many blocks are computed |
| `Security.DerivedKeyFails` | src/Security.php:65-79 | the derivation fails exactly when the algorithm is not registered (`InvalidHashAlgorithm`), or when a block is due, the digest is non-empty and `hash_hmac` refuses the algorithm (`HmacAlgorithmRejected`) |
| `Security.DerivedKeyLength` | src/Security.php:69-86 | for a registered algorithm with a non-empty digest, the derivation succeeds exactly when `hash_hmac` accepts the algorithm or `length <= 0`. The key is then exactly `length` bytes (0 when `length <= 0`) |
| `Security.DerivedKeyBlock` | src/Security.php:74-86 | bytes `(i-1)*hLen` up to `min(i*hLen, length)` of the key are the corresponding prefix of block i |
| `Security.DerivedKeyPrefix` | src/Security.php:74-86 | for `len1 <= len2`, the key of length len1 is a prefix of the key of length len2 |
| `Security.SingleIterationBlock` | src/Security.php:78-83 | with `iterations <= 1`, a block is the one HMAC `HMAC(password, salt \|\| INT(i))` |
| `Security.NextIterationBlock` | src/Security.php:81-83 | one more iteration XORs one more chained HMAC into the block |
| `Security.Pbkdf2` | src/Security.php:63-87 | the loops, with `$algo` at line 82, compute `DerivedKey` of the inputs. The result is an error exactly when the algorithm is not registered, or when `hash_hmac` refuses it and a block is due; then no HMAC was computed. For a non-empty digest, `BlockCount * max(1, iterations)` HMACs are computed. Under `Valid()` a successful key is `max(length, 0)` bytes, or empty when the digest is empty (lines 70-72) |
| `Security.Pbkdf2AsWritten` | src/Security.php:63-87 | the loops with `$algorithm`, the empty name, at line 82. With `iterations <= 1` the result is `DerivedKey`. When `hash_hmac` refuses the empty name, two or more iterations turn every successful derivation with a non-empty digest and `length >= 1` into `HmacAlgorithmRejected`, and leave every other result as `DerivedKey` |
| `Security.AsWrittenCounterexample` | src/Security.php:82 | a valid hasher with a 1-byte digest, 2 iterations and length 1 derives the key `[0]`, so the error `Pbkdf2AsWritten` returns there replaces a real key |
| `Security.CompareOnZeroHasher` | src/Security.php:82 | on that input, `Pbkdf2AsWritten` returns `HmacAlgorithmRejected` while `Pbkdf2` returns `[0]` |

## Findings

| source | as written | input that shows it | evidently intended | confidence | as-written member | corrected member |
|---|---|---|---|---|---|---|
| src/Security.php:82 | `\hash_hmac($algorithm, $last, $password, true)`: `$algorithm` is never assigned, so the call gets null, which is no registered algorithm | any algorithm `hash_hmac` accepts, `iterations = 2`, `length = 1`. For example, a 1-byte hash whose HMACs are all the zero byte should derive `[0]` | `\hash_hmac($algo, ...)`, the algorithm used on line 79 | not executed; high | `Security.Pbkdf2AsWritten`, `Security.AsWrittenCounterexample`, `Security.CompareOnZeroHasher` | `Security.Pbkdf2` |

The rest of the model uses the corrected derivation.

## Left out

- The timing guarantee of `hashEquals` cannot be expressed. The model keeps only the loop's shape: `HashEquals` folds every byte pair with no early exit, and its contract gives the result as that full fold.
- The `function_exists` feature detection, its cached `static $exists`, and the choice between `mb_strlen`/`strlen` and `mb_substr`/`substr` (src/Security.php:97-107, 120-132). In 8-bit mode both branches mean byte length and byte slice, and that is what `StrLen` and `Substr` model.
- The internals of `hash_algos`, `hash_hmac_algos`, `hash` and `hash_hmac` are foreign library code. They are fields of `Hashing.Hasher`. The model relies only on `Hasher.Valid()` and on the digest length being measured as `|hash(algo, "")|`, as line 69 does.
- PHP's float `ceil($length / $hashlen)` is modelled as integer ceiling division. Floating-point rounding for huge lengths is not modelled.
- The exception class and message of line 66 are reduced to the error value `InvalidHashAlgorithm`.
- Security.Pbkdf2AsWritten: follows PHP 8, where `hash_hmac` throws on a name it does not accept. Before PHP 8 the call instead warns and returns `false`, and `^=` then falls back to integer XOR. Those garbage bytes are not modelled. Its failure clause assumes that `hash_hmac` refuses the empty name, which `Hasher.Valid()` also states.
- PHP's type juggling of non-string arguments, such as an integer password or a string iteration count, is not modelled. Every input is a byte string or an integer.
