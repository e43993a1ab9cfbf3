/** The 31-bit string hash that drives the directory and the buckets. */
module StringHash {
  import opened Base

  const HASH_LIMIT := 0x8000_0000

  function HashFrom(key: Bytes, index: nat, value: nat): nat
    requires index <= |key|
    decreases |key| - index
  {
    if index == |key| then value
    else HashFrom(key, index + 1, (value + key[index] * Pow2(index * 5 % 24)) % HASH_LIMIT)
  }

  /** Masking an unsigned sum with 0x7FFFFFFF is reduction modulo 2^31. */
  function Hash(key: Bytes): (h: nat)
    ensures h < HASH_LIMIT
  {
    (1103515243 * HashFrom(key, 0, 0x238F13AF * |key|) + 12345) % HASH_LIMIT
  }
}
