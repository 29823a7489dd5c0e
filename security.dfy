/**
 * The `Security` class of php-future: a constant-time comparison of byte
 * strings (`hashEquals`) and PBKDF2 as defined in section 5.2 of RFC 8018
 * (`pbkdf2`), with the two byte-string helpers they use (`ourStrlen`,
 * `ourSubstr`).
 */
module Security {
  import opened Bitwise
  import opened Hashing

  datatype Option<T> = None | Some(value: T)

  // ---------------------------------------------------------------------
  // ourStrlen and ourSubstr: byte length and byte slice ('8bit' mode)
  // ---------------------------------------------------------------------

  /** Number of bytes of `s`. */
  function StrLen(s: Bytes): (n: nat)
    ensures n == |s|
  {
    |s|
  }

  /**
   * `substr($str, $start, $length)` on bytes. A negative `start` counts from
   * the end, a start past the end gives the empty string, a negative
   * `length` leaves that many bytes off the end, and `None` (PHP's null)
   * runs to the end; every bound is clamped to the string.
   */
  function Substr(s: Bytes, start: int, length: Option<int>): (r: Bytes)
    ensures |r| <= |s|
    ensures start == 0 && length.Some? && length.value >= 0 ==> r == s[..Min(length.value, |s|)]
    ensures start == 0 && length.Some? && length.value < 0 ==> r == s[..Max(|s| + length.value, 0)]
    ensures 0 <= start <= |s| && length.None? ==> r == s[start..]
    ensures start >= |s| ==> r == []
  {
    var n := |s|;
    var from := if start < 0 then Max(n + start, 0) else Min(start, n);
    var count :=
      match length
      case None => n - from
      case Some(l) => if l < 0 then Max(n - from + l, 0) else Min(l, n - from);
    s[from..from + count]
  }

  // ---------------------------------------------------------------------
  // hashEquals
  // ---------------------------------------------------------------------

  /** The accumulator `$result` after the first `n` byte pairs: the OR of
      their XORs. */
  function Accumulated(known: Bytes, user: Bytes, n: nat): nat
    requires n <= |known| && n <= |user|
  {
    if n == 0 then 0 else Or(Accumulated(known, user, n - 1), Xor(known[n - 1], user[n - 1]))
  }

  /** The accumulator is zero exactly when the prefixes read so far agree. */
  lemma {:induction false} AccumulatedZeroIff(known: Bytes, user: Bytes, n: nat)
    requires n <= |known| && n <= |user|
    ensures Accumulated(known, user, n) == 0 <==> known[..n] == user[..n]
  {
    if n > 0 {
      AccumulatedZeroIff(known, user, n - 1);
      OrZeroIff(Accumulated(known, user, n - 1), Xor(known[n - 1], user[n - 1]));
      XorZeroIff(known[n - 1], user[n - 1]);
      assert known[..n] == known[..n - 1] + [known[n - 1]];
      assert user[..n] == user[..n - 1] + [user[n - 1]];
      if known[..n] == user[..n] {
        assert known[..n - 1] == known[..n][..n - 1] && user[..n - 1] == user[..n][..n - 1];
        assert known[n - 1] == known[..n][n - 1] && user[n - 1] == user[..n][n - 1];
      }
    }
  }

  /** The accumulator does not depend on which string is the known one. */
  lemma {:induction false} AccumulatedSymmetric(known: Bytes, user: Bytes, n: nat)
    requires n <= |known| && n <= |user|
    ensures Accumulated(known, user, n) == Accumulated(user, known, n)
  {
    if n > 0 {
      AccumulatedSymmetric(known, user, n - 1);
      XorSymmetric(known[n - 1], user[n - 1]);
    }
  }

  /** Comparing a string with itself accumulates nothing. */
  lemma {:induction false} AccumulatedSelf(s: Bytes, n: nat)
    requires n <= |s|
    ensures Accumulated(s, s, n) == 0
  {
    if n > 0 {
      AccumulatedSelf(s, n - 1);
      XorZeroIff(s[n - 1], s[n - 1]);
    }
  }

  /**
   * Compares two byte strings. Strings of different lengths are unequal at
   * once; otherwise every byte pair is folded into the accumulator, with no
   * early exit, and the strings are equal when it ends at zero.
   */
  method HashEquals(knownString: Bytes, userString: Bytes) returns (equal: bool)
    ensures |knownString| != |userString| ==> !equal
    ensures |knownString| == |userString| ==>
              (equal <==> Accumulated(knownString, userString, |knownString|) == 0)
    ensures equal <==> knownString == userString
  {
    var kLen := StrLen(knownString);
    var uLen := StrLen(userString);
    if kLen != uLen {
      return false;
    }
    var result := 0;
    for i := 0 to kLen
      invariant result == Accumulated(knownString, userString, i)
    {
      result := Or(result, Xor(knownString[i], userString[i]));
    }
    equal := result == 0;
    AccumulatedZeroIff(knownString, userString, kLen);
    assert knownString[..kLen] == knownString && userString[..kLen] == userString;
  }

  // ---------------------------------------------------------------------
  // Arithmetic used by the block layout
  // ---------------------------------------------------------------------

  lemma MulMonotone(a: nat, b: nat, c: nat)
    requires a <= b
    ensures a * c <= b * c
  {
  }

  lemma MulStep(a: nat, c: nat)
    ensures (a + 1) * c == a * c + c
  {
  }

  lemma DivMonotone(a: int, b: int, d: int)
    requires 0 <= a <= b && d > 0
    ensures a / d <= b / d
  {
    var qa, qb := a / d, b / d;
    assert qa * d <= a && b < qb * d + d;
    if qa > qb {
      MulMonotone(qb + 1, qa, d);
    }
  }

  // ---------------------------------------------------------------------
  // pbkdf2: the pieces of the construction
  // ---------------------------------------------------------------------

  /** HMACs computed per block: U1 unconditionally, then one more for every
      `j` with `1 <= j < iterations`. */
  function Rounds(iterations: int): (c: nat)
    ensures c >= 1
    ensures iterations >= 1 ==> c == iterations
  {
    if iterations < 1 then 1 else iterations
  }

  /** `ceil($length / $hashlen)` for a positive digest length; no block for
      a length that is not positive. */
  function BlockCount(length: int, hLen: nat): nat
    requires hLen > 0
  {
    if length <= 0 then 0 else (length + hLen - 1) / hLen
  }

  /** The block count is the ceiling: the blocks cover `length` bytes, and
      one block fewer would not. */
  lemma BlockCountIsCeiling(length: int, hLen: nat)
    requires hLen > 0
    ensures length <= 0 ==> BlockCount(length, hLen) == 0
    ensures length > 0 ==> (BlockCount(length, hLen) - 1) * hLen < length <= BlockCount(length, hLen) * hLen
  {
    if length > 0 {
      var n := BlockCount(length, hLen);
      var rest := (length + hLen - 1) % hLen;
      assert n * hLen + rest == length + hLen - 1;
      assert (n - 1) * hLen == n * hLen - hLen;
    }
  }

  /** `pack('N', $i)`: the low 32 bits of `i`, most significant byte first. */
  function Int32BE(i: int): (r: Bytes)
    ensures |r| == 4
  {
    var w := i % 0x1_0000_0000;
    var w1 := w / 0x100;
    var w2 := w1 / 0x100;
    [w2 / 0x100, w2 % 0x100, w1 % 0x100, w % 0x100]
  }

  /** The unsigned number four bytes spell, most significant byte first. */
  function Int32BEValue(b: Bytes): nat
    requires |b| == 4
  {
    ((b[0] as int * 0x100 + b[1]) * 0x100 + b[2]) * 0x100 + b[3]
  }

  /** The encoding keeps all 32 bits of the block index: decoding gives back
      the index modulo 2^32, so indices below 2^32 are told apart. */
  lemma Int32BERoundTrip(i: int)
    ensures Int32BEValue(Int32BE(i)) == i % 0x1_0000_0000
  {
    var w := i % 0x1_0000_0000;
    var w1 := w / 0x100;
    var w2 := w1 / 0x100;
    assert w2 == w2 / 0x100 * 0x100 + w2 % 0x100;
    assert w1 == w2 * 0x100 + w1 % 0x100;
    assert w == w1 * 0x100 + w % 0x100;
  }

  /** U_j of the block whose first HMAC message is `seed`:
      U_1 = HMAC(password, seed), U_j = HMAC(password, U_(j-1)). */
  function U(h: Hasher, algo: string, password: Bytes, seed: Bytes, j: nat): Bytes
    requires j >= 1
  {
    if j == 1 then h.hmac(algo, seed, password)
    else h.hmac(algo, U(h, algo, password, seed, j - 1), password)
  }

  /** U_1 ^ U_2 ^ ... ^ U_j. */
  function XorSum(h: Hasher, algo: string, password: Bytes, seed: Bytes, j: nat): Bytes
    requires j >= 1
  {
    if j == 1 then U(h, algo, password, seed, 1)
    else XorBytes(XorSum(h, algo, password, seed, j - 1), U(h, algo, password, seed, j))
  }

  /** Block `index` of the derived key, whose first HMAC message is the
      salt followed by the index. */
  function Block(h: Hasher, algo: string, password: Bytes, salt: Bytes, iterations: int, index: int): Bytes
  {
    XorSum(h, algo, password, salt + Int32BE(index), Rounds(iterations))
  }

  /** Blocks 1 to `n`, in order. */
  function BlockList(h: Hasher, algo: string, password: Bytes, salt: Bytes, iterations: int, n: nat): (bs: seq<Bytes>)
    ensures |bs| == n
  {
    seq(n, k requires 0 <= k < n => Block(h, algo, password, salt, iterations, k + 1))
  }

  /** The strings of `bs` one after the other. */
  function Concat(bs: seq<Bytes>): Bytes
  {
    if bs == [] then [] else Concat(bs[..|bs| - 1]) + bs[|bs| - 1]
  }

  /** The key `pbkdf2` derives: an error for an unregistered algorithm, the
      empty string for a zero-length digest, an error when a block is due
      and `hash_hmac` does not accept the algorithm, and otherwise the
      first `length` bytes of the concatenated blocks. */
  function DerivedKey(h: Hasher, algo: string, password: Bytes, salt: Bytes, iterations: int, length: int): Result<Bytes>
  {
    if algo !in h.algos then Err(InvalidHashAlgorithm)
    else if h.DigestLength(algo) == 0 then Ok([])
    else if BlockCount(length, h.DigestLength(algo)) >= 1 && algo !in h.hmacAlgos then Err(HmacAlgorithmRejected)
    else
      var blocks := BlockList(h, algo, password, salt, iterations, BlockCount(length, h.DigestLength(algo)));
      Ok(Substr(Concat(blocks), 0, Some(length)))
  }

  // ---------------------------------------------------------------------
  // pbkdf2: properties of the construction
  // ---------------------------------------------------------------------

  /** Strings of equal size `size` concatenate to `|bs| * size` bytes. */
  lemma {:induction false} ConcatLength(bs: seq<Bytes>, size: nat)
    requires forall k :: 0 <= k < |bs| ==> |bs[k]| == size
    ensures |Concat(bs)| == |bs| * size
  {
    if bs != [] {
      ConcatLength(bs[..|bs| - 1], size);
      MulStep(|bs| - 1, size);
    }
  }

  /** Concatenating fewer of the strings gives a prefix. */
  lemma {:induction false} ConcatPrefix(bs: seq<Bytes>, m: nat)
    requires m <= |bs|
    ensures Concat(bs[..m]) <= Concat(bs)
    decreases |bs|
  {
    if m < |bs| {
      var init := bs[..|bs| - 1];
      ConcatPrefix(init, m);
      assert init[..m] == bs[..m];
    } else {
      assert bs[..m] == bs;
    }
  }

  /** String `k` sits right after strings 0 to `k - 1` in the concatenation. */
  lemma ConcatAt(bs: seq<Bytes>, k: nat)
    requires k < |bs|
    ensures var lo, hi := |Concat(bs[..k])|, |Concat(bs[..k + 1])|;
            lo <= hi <= |Concat(bs)| && Concat(bs)[lo .. hi] == bs[k]
  {
    ConcatPrefix(bs, k + 1);
    var upto := bs[..k + 1];
    assert upto[..|upto| - 1] == bs[..k];
    assert Concat(upto) == Concat(bs[..k]) + bs[k];
  }

  /** Every U is one HMAC output, hence one digest long. */
  lemma ULength(h: Hasher, algo: string, password: Bytes, seed: Bytes, j: nat)
    requires h.Valid() && algo in h.hmacAlgos && j >= 1
    ensures |U(h, algo, password, seed, j)| == h.DigestLength(algo)
  {
  }

  /** XOR-ing digests of equal length keeps that length. */
  lemma {:induction false} XorSumLength(h: Hasher, algo: string, password: Bytes, seed: Bytes, j: nat)
    requires h.Valid() && algo in h.hmacAlgos && j >= 1
    ensures |XorSum(h, algo, password, seed, j)| == h.DigestLength(algo)
  {
    ULength(h, algo, password, seed, j);
    if j > 1 {
      XorSumLength(h, algo, password, seed, j - 1);
    }
  }

  /** `n` blocks make `n` digests' worth of bytes. */
  lemma BlocksLength(h: Hasher, algo: string, password: Bytes, salt: Bytes, iterations: int, n: nat)
    requires h.Valid() && algo in h.hmacAlgos
    ensures |Concat(BlockList(h, algo, password, salt, iterations, n))| == n * h.DigestLength(algo)
  {
    var bs := BlockList(h, algo, password, salt, iterations, n);
    forall k | 0 <= k < n
      ensures |bs[k]| == h.DigestLength(algo)
    {
      XorSumLength(h, algo, password, salt + Int32BE(k + 1), Rounds(iterations));
    }
    ConcatLength(bs, h.DigestLength(algo));
  }

  /** No block depends on how many blocks are asked for. */
  lemma BlockListPrefix(h: Hasher, algo: string, password: Bytes, salt: Bytes, iterations: int, n1: nat, n2: nat)
    requires n1 <= n2
    ensures BlockList(h, algo, password, salt, iterations, n1) == BlockList(h, algo, password, salt, iterations, n2)[..n1]
  {
  }

  /** For a registered algorithm with a non-empty digest, the derivation
      succeeds exactly when `hash_hmac` accepts the algorithm or no block is
      due, and the key is then exactly `length` bytes long (none for a
      length that is not positive). */
  lemma DerivedKeyLength(h: Hasher, algo: string, password: Bytes, salt: Bytes, iterations: int, length: int)
    requires h.Valid() && algo in h.algos && h.DigestLength(algo) > 0
    ensures DerivedKey(h, algo, password, salt, iterations, length).Ok? <==> algo in h.hmacAlgos || length <= 0
    ensures DerivedKey(h, algo, password, salt, iterations, length).Ok? ==>
              |DerivedKey(h, algo, password, salt, iterations, length).value| == Max(length, 0)
  {
    var hLen := h.DigestLength(algo);
    if algo in h.hmacAlgos {
      BlocksLength(h, algo, password, salt, iterations, BlockCount(length, hLen));
    }
    BlockCountIsCeiling(length, hLen);
  }

  /** The derivation fails exactly for an unregistered algorithm, or when
      a block is due and `hash_hmac` does not accept the algorithm. */
  lemma DerivedKeyFails(h: Hasher, algo: string, password: Bytes, salt: Bytes, iterations: int, length: int)
    ensures DerivedKey(h, algo, password, salt, iterations, length).Err? <==>
              algo !in h.algos || (algo !in h.hmacAlgos && h.DigestLength(algo) > 0 && length >= 1)
    ensures DerivedKey(h, algo, password, salt, iterations, length).Err? ==>
              DerivedKey(h, algo, password, salt, iterations, length).error
                == if algo !in h.algos then InvalidHashAlgorithm else HmacAlgorithmRejected
  {
    if algo in h.algos && h.DigestLength(algo) > 0 {
      BlockCountIsCeiling(length, h.DigestLength(algo));
    }
  }

  /** Bytes `(i - 1) * hLen` up to `i * hLen` of the key (cut at `length`)
      are block `i`, for every block `i` the derivation computes. */
  lemma DerivedKeyBlock(h: Hasher, algo: string, password: Bytes, salt: Bytes, iterations: int, length: int, i: nat)
    requires h.Valid() && algo in h.hmacAlgos && h.DigestLength(algo) > 0
    requires 1 <= i <= BlockCount(length, h.DigestLength(algo))
    ensures var hLen := h.DigestLength(algo);
            var key := DerivedKey(h, algo, password, salt, iterations, length).value;
            var block := Block(h, algo, password, salt, iterations, i);
            var start, end := (i - 1) * hLen, Min(i * hLen, length);
            |block| == hLen && 0 <= start < end <= |key| && end - start <= hLen &&
            key[start .. end] == block[.. end - start]
  {
    var hLen := h.DigestLength(algo);
    var n := BlockCount(length, hLen);
    var bs := BlockList(h, algo, password, salt, iterations, n);
    var all := Concat(bs);
    BlockCountIsCeiling(length, hLen);
    BlocksLength(h, algo, password, salt, iterations, n);
    BlockListPrefix(h, algo, password, salt, iterations, i - 1, n);
    BlockListPrefix(h, algo, password, salt, iterations, i, n);
    BlocksLength(h, algo, password, salt, iterations, i - 1);
    BlocksLength(h, algo, password, salt, iterations, i);
    ConcatAt(bs, i - 1);
    MulMonotone(i - 1, n - 1, hLen);
    MulStep(i - 1, hLen);
    var lo, hi := (i - 1) * hLen, i * hLen;
    var block := Block(h, algo, password, salt, iterations, i);
    XorSumLength(h, algo, password, salt + Int32BE(i), Rounds(iterations));
    assert bs[i - 1] == block;
    assert all[lo .. hi] == block;
    assert lo < length;
    var key := DerivedKey(h, algo, password, salt, iterations, length).value;
    assert key == all[..length];
    SliceOfPrefix(all, length, lo, hi);
    assert key[lo .. Min(hi, length)] == block[.. Min(hi, length) - lo];
  }

  /** Cutting a string at `len` and then taking `lo .. hi` (cut at `len`)
      is taking `lo .. hi` first and cutting that. */
  lemma SliceOfPrefix(s: Bytes, len: int, lo: int, hi: int)
    requires 0 <= lo < hi <= |s| && lo < len <= |s|
    ensures s[..len][lo .. Min(hi, len)] == s[lo .. hi][.. Min(hi, len) - lo]
  {
  }

  /** A shorter key is a prefix of a longer one derived from the same
      inputs. */
  lemma DerivedKeyPrefix(h: Hasher, algo: string, password: Bytes, salt: Bytes, iterations: int, len1: int, len2: int)
    requires h.Valid() && algo in h.hmacAlgos
    requires len1 <= len2
    ensures DerivedKey(h, algo, password, salt, iterations, len1).Ok?
    ensures DerivedKey(h, algo, password, salt, iterations, len2).Ok?
    ensures DerivedKey(h, algo, password, salt, iterations, len1).value
              <= DerivedKey(h, algo, password, salt, iterations, len2).value
  {
    var hLen := h.DigestLength(algo);
    if hLen > 0 {
      var n1, n2 := BlockCount(len1, hLen), BlockCount(len2, hLen);
      assert n1 <= n2 by {
        if len1 > 0 {
          DivMonotone(len1 + hLen - 1, len2 + hLen - 1, hLen);
        }
      }
      var bs := BlockList(h, algo, password, salt, iterations, n2);
      BlockListPrefix(h, algo, password, salt, iterations, n1, n2);
      ConcatPrefix(bs, n1);
      DerivedKeyLength(h, algo, password, salt, iterations, len1);
      DerivedKeyLength(h, algo, password, salt, iterations, len2);
    }
  }

  /** With at most one iteration, each block is the single HMAC
      U1 = HMAC(password, salt || INT(i)). */
  lemma SingleIterationBlock(h: Hasher, algo: string, password: Bytes, salt: Bytes, iterations: int, index: int)
    requires iterations <= 1
    ensures Block(h, algo, password, salt, iterations, index) == h.hmac(algo, salt + Int32BE(index), password)
  {
  }

  /** One iteration more XORs one more chained HMAC into every block. */
  lemma NextIterationBlock(h: Hasher, algo: string, password: Bytes, salt: Bytes, iterations: int, index: int)
    requires iterations >= 1
    ensures var seed := salt + Int32BE(index);
            Block(h, algo, password, salt, iterations + 1, index)
              == XorBytes(Block(h, algo, password, salt, iterations, index),
                          h.hmac(algo, U(h, algo, password, seed, iterations), password))
  {
  }

  // ---------------------------------------------------------------------
  // pbkdf2: the derivation loop
  // ---------------------------------------------------------------------

  /** Appending block `n + 1`, computed as the XOR sum of its chain, to
      the first `n` blocks. */
  lemma ConcatNextBlock(h: Hasher, algo: string, password: Bytes, salt: Bytes, iterations: int, n: nat, block: Bytes)
    requires block == XorSum(h, algo, password, salt + Int32BE(n + 1), Rounds(iterations))
    ensures Concat(BlockList(h, algo, password, salt, iterations, n + 1))
              == Concat(BlockList(h, algo, password, salt, iterations, n)) + block
  {
    var bs := BlockList(h, algo, password, salt, iterations, n + 1);
    assert bs[..n] == BlockList(h, algo, password, salt, iterations, n);
  }

  /**
   * Derives `length` bytes from `password` and `salt` with `iterations`
   * rounds of HMAC under `algo`. `hmacCalls` counts the HMACs evaluated:
   * none when the derivation fails, `Rounds(iterations)` per block
   * otherwise.
   */
  method Pbkdf2(h: Hasher, algo: string, password: Bytes, salt: Bytes, iterations: int, length: int)
    returns (r: Result<Bytes>, ghost hmacCalls: nat)
    ensures r == DerivedKey(h, algo, password, salt, iterations, length)
    ensures r.Err? <==> algo !in h.algos || (algo !in h.hmacAlgos && h.DigestLength(algo) > 0 && length >= 1)
    ensures r.Err? ==> hmacCalls == 0
    ensures r.Ok? && h.DigestLength(algo) > 0 ==>
              hmacCalls == BlockCount(length, h.DigestLength(algo)) * Rounds(iterations)
    ensures r.Ok? && h.Valid() ==>
              |r.value| == if h.DigestLength(algo) == 0 then 0 else Max(length, 0)
  {
    hmacCalls := 0;
    if algo !in h.algos {
      return Err(InvalidHashAlgorithm), hmacCalls;
    }
    var hashLen := StrLen(h.hash(algo, []));
    if hashLen == 0 {
      DerivedKeyFails(h, algo, password, salt, iterations, length);
      return Ok([]), hmacCalls;
    }
    var blockCount := BlockCount(length, hashLen);
    ghost var rounds := Rounds(iterations);
    var output: Bytes := [];
    var i := 1;
    while i <= blockCount
      invariant 1 <= i <= blockCount + 1
      invariant i > 1 ==> algo in h.hmacAlgos
      invariant output == Concat(BlockList(h, algo, password, salt, iterations, i - 1))
      invariant hmacCalls == (i - 1) * rounds
    {
      var last := salt + Int32BE(i);
      ghost var seed := last;
      var first := h.HashHmac(algo, last, password);
      if first.Err? {
        DerivedKeyFails(h, algo, password, salt, iterations, length);
        return first, hmacCalls;
      }
      var xorsum := first.value;
      hmacCalls := hmacCalls + 1;
      last := xorsum;
      var j := 1;
      while j < iterations
        invariant 1 <= j <= rounds
        invariant last == U(h, algo, password, seed, j)
        invariant xorsum == XorSum(h, algo, password, seed, j)
        invariant hmacCalls == (i - 1) * rounds + j
      {
        // `hash_hmac` has just accepted `algo` for U1, so this call succeeds
        last := h.HashHmac(algo, last, password).value;
        hmacCalls := hmacCalls + 1;
        xorsum := XorBytes(xorsum, last);
        j := j + 1;
      }
      MulStep(i - 1, rounds);
      ConcatNextBlock(h, algo, password, salt, iterations, i - 1, xorsum);
      output := output + xorsum;
      i := i + 1;
    }
    r := Ok(Substr(output, 0, Some(length)));
    DerivedKeyFails(h, algo, password, salt, iterations, length);
    if h.Valid() {
      DerivedKeyLength(h, algo, password, salt, iterations, length);
    }
  }

  // ---------------------------------------------------------------------
  // pbkdf2 as written: the inner HMAC names an undefined variable
  // ---------------------------------------------------------------------

  /**
   * The derivation as the source spells it: the HMAC inside the iteration
   * loop is asked for `$algorithm`, which is never assigned, so it receives
   * the empty name. With at most one iteration that call is never made and
   * the result is the key. With more, whenever `hash_hmac` refuses the
   * empty name, the first block computed makes the derivation fail, where
   * the construction would have produced a key.
   */
  method Pbkdf2AsWritten(h: Hasher, algo: string, password: Bytes, salt: Bytes, iterations: int, length: int)
    returns (r: Result<Bytes>)
    ensures iterations <= 1 ==> r == DerivedKey(h, algo, password, salt, iterations, length)
    ensures UndefinedName !in h.hmacAlgos ==>
              r == if iterations >= 2 && DerivedKey(h, algo, password, salt, iterations, length).Ok?
                      && h.DigestLength(algo) > 0 && length >= 1
                   then Err(HmacAlgorithmRejected)
                   else DerivedKey(h, algo, password, salt, iterations, length)
  {
    if algo !in h.algos {
      return Err(InvalidHashAlgorithm);
    }
    var hashLen := StrLen(h.hash(algo, []));
    if hashLen == 0 {
      return Ok([]);
    }
    var blockCount := BlockCount(length, hashLen);
    var output: Bytes := [];
    var i := 1;
    while i <= blockCount
      invariant 1 <= i <= blockCount + 1
      invariant i > 1 ==> algo in h.hmacAlgos
      invariant iterations >= 2 && UndefinedName !in h.hmacAlgos ==> i == 1
      invariant iterations <= 1 || UndefinedName !in h.hmacAlgos ==>
                  output == Concat(BlockList(h, algo, password, salt, iterations, i - 1))
    {
      var last := salt + Int32BE(i);
      ghost var seed := last;
      var first := h.HashHmac(algo, last, password);
      if first.Err? {
        return first;
      }
      var xorsum := first.value;
      last := xorsum;
      var j := 1;
      while j < iterations
        invariant 1 <= j
        invariant iterations <= 1 ==> xorsum == h.hmac(algo, seed, password)
        invariant iterations >= 2 && UndefinedName !in h.hmacAlgos ==> j == 1
      {
        var next := h.HashHmac(UndefinedName, last, password);
        if next.Err? {
          return next;
        }
        last := next.value;
        xorsum := XorBytes(xorsum, last);
        j := j + 1;
      }
      if iterations <= 1 {
        ConcatNextBlock(h, algo, password, salt, iterations, i - 1, xorsum);
      }
      output := output + xorsum;
      i := i + 1;
    }
    r := Ok(Substr(output, 0, Some(length)));
  }

  /** A hash with a one-byte digest: every digest and every HMAC is the zero
      byte. */
  function ZeroHasher(): Hasher
  {
    Hasher({"zero"}, {"zero"}, (algo, data) => [0], (algo, data, key) => [0])
  }

  /** Every block `ZeroHasher` computes with two iterations is the zero
      byte, whatever its first HMAC message. */
  lemma ZeroHasherBlock(seed: Bytes)
    ensures XorSum(ZeroHasher(), "zero", [], seed, 2) == [0]
  {
    assert Xor(0, 0) == 0;
    assert XorBytes([0], [0]) == [0];
  }

  /** An input that shows the difference: the valid `ZeroHasher` with two
      iterations and a length of 1 derives the key [0], which
      `Pbkdf2AsWritten` turns into an error. */
  lemma AsWrittenCounterexample()
    ensures ZeroHasher().Valid()
    ensures DerivedKey(ZeroHasher(), "zero", [], [], 2, 1) == Ok([0])
  {
    var h := ZeroHasher();
    ZeroHasherBlock([] + Int32BE(1));
    var blocks: seq<Bytes> := [[0]];
    assert h.DigestLength("zero") == 1 && BlockCount(1, 1) == 1;
    assert BlockList(h, "zero", [], [], 2, 1) == blocks;
    assert Concat(blocks) == [0] by {
      assert blocks[..0] == [];
    }
    assert Substr([0], 0, Some(1)) == [0];
  }

  /** The discrepancy end to end: on the `ZeroHasher` input the source as
      written fails, where the corrected derivation returns the key [0]. */
  method CompareOnZeroHasher() returns (asWritten: Result<Bytes>, corrected: Result<Bytes>)
    ensures asWritten == Err(HmacAlgorithmRejected)
    ensures corrected == Ok([0])
  {
    AsWrittenCounterexample();
    asWritten := Pbkdf2AsWritten(ZeroHasher(), "zero", [], [], 2, 1);
    ghost var hmacCalls;
    corrected, hmacCalls := Pbkdf2(ZeroHasher(), "zero", [], [], 2, 1);
  }
}
