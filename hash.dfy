/** The FNV-1a string hashes of `hash.rs`, at 32 and 64 bits, as given by the
    Internet-Draft "The FNV Non-Cryptographic Hash Algorithm" (draft-eastlake-fnv),
    section 2 (the FNV-1a step) and sections 2.1 and 2.2 (primes and offset bases).

    Each width has a specification, a left fold of the per-byte step over the
    input's bytes starting from the offset basis, and a method with the source's
    loop proved equal to it. `bv32` and `bv64` arithmetic is modulo 2^32 and 2^64,
    which is exactly Rust's `wrapping_mul` on `u32` and `u64`. */
module Fnv {
  import opened Text

  const FNV1A32_PRIME: bv32 := 0x0100_0193
  const FNV1A32_SEED: bv32 := 0x811c_9dc5

  const FNV1A64_PRIME: bv64 := 0x0000_0100_0000_01B3
  const FNV1A64_SEED: bv64 := 0xcbf2_9ce4_8422_2325

  // ---------------------------------------------------------------- 32 bits

  /** One FNV-1a step: xor in the zero-extended byte, then multiply by the prime. */
  function Step32(hash: bv32, byte: Byte): bv32 {
    (hash ^ byte as bv32) * FNV1A32_PRIME
  }

  /** Left fold of `Step32` over `bytes`, from `hash`. */
  function Fold32(hash: bv32, bytes: seq<Byte>): bv32
    decreases |bytes|
  {
    if |bytes| == 0 then hash else Fold32(Step32(hash, bytes[0]), bytes[1..])
  }

  /** The 32-bit FNV-1a hash of a string's bytes. */
  function Fnv1a32(s: Str): bv32 {
    Fold32(FNV1A32_SEED, s)
  }

  /** Hashing two pieces in turn is hashing their concatenation. */
  lemma {:induction false} Fold32Concat(hash: bv32, a: seq<Byte>, b: seq<Byte>)
    ensures Fold32(hash, a + b) == Fold32(Fold32(hash, a), b)
    decreases |a|
  {
    if |a| == 0 {
      assert a + b == b;
    } else {
      assert (a + b)[1..] == a[1..] + b;
      Fold32Concat(Step32(hash, a[0]), a[1..], b);
    }
  }

  /** Appending one byte applies one more step to the previous hash. */
  lemma Fnv1a32Append(s: Str, b: Byte)
    ensures Fnv1a32(s + [b]) == Step32(Fnv1a32(s), b)
  {
    Fold32Concat(FNV1A32_SEED, s, [b]);
  }

  /** The hash of the empty string is the offset basis. */
  lemma Fnv1a32Empty()
    ensures Fnv1a32([]) == 0x811c_9dc5
  {
  }

  /** The published test vectors for "a" and "foo". */
  lemma Fnv1a32Vectors()
    ensures Fnv1a32([0x61]) == 0xe40c_292c
    ensures Fnv1a32([0x66, 0x6f, 0x6f]) == 0xa9f3_7ed7
  {
  }

  /** A step changes only the low byte before the multiply, and there it is the
      xor of the hash's low byte with the input byte. */
  lemma Step32XorLowByte(hash: bv32, byte: Byte)
    ensures (hash ^ byte as bv32) >> 8 == hash >> 8
    ensures (hash ^ byte as bv32) & 0xff == (hash & 0xff) ^ byte as bv32
  {
  }

  /** `str_hash_fnv1a`. */
  method StrHashFnv1a(s: Str) returns (hash: bv32)
    ensures hash == Fnv1a32(s)
  {
    hash := FNV1A32_SEED;
    for i := 0 to |s|
      invariant hash == Fnv1a32(s[..i])
    {
      Fnv1a32Append(s[..i], s[i]);
      assert s[..i + 1] == s[..i] + [s[i]];
      hash := Step32(hash, s[i]);
    }
    assert s[..|s|] == s;
  }

  // ---------------------------------------------------------------- 64 bits

  /** One FNV-1a step at 64 bits. */
  function Step64(hash: bv64, byte: Byte): bv64 {
    (hash ^ byte as bv64) * FNV1A64_PRIME
  }

  /** Left fold of `Step64` over `bytes`, from `hash`. */
  function Fold64(hash: bv64, bytes: seq<Byte>): bv64
    decreases |bytes|
  {
    if |bytes| == 0 then hash else Fold64(Step64(hash, bytes[0]), bytes[1..])
  }

  /** The 64-bit FNV-1a hash of a string's bytes. */
  function Fnv1a64(s: Str): bv64 {
    Fold64(FNV1A64_SEED, s)
  }

  /** Hashing two pieces in turn is hashing their concatenation. */
  lemma {:induction false} Fold64Concat(hash: bv64, a: seq<Byte>, b: seq<Byte>)
    ensures Fold64(hash, a + b) == Fold64(Fold64(hash, a), b)
    decreases |a|
  {
    if |a| == 0 {
      assert a + b == b;
    } else {
      assert (a + b)[1..] == a[1..] + b;
      Fold64Concat(Step64(hash, a[0]), a[1..], b);
    }
  }

  /** Appending one byte applies one more step to the previous hash. */
  lemma Fnv1a64Append(s: Str, b: Byte)
    ensures Fnv1a64(s + [b]) == Step64(Fnv1a64(s), b)
  {
    Fold64Concat(FNV1A64_SEED, s, [b]);
  }

  /** The hash of the empty string is the offset basis. */
  lemma Fnv1a64Empty()
    ensures Fnv1a64([]) == 0xcbf2_9ce4_8422_2325
  {
  }

  /** The published test vectors for "a" and "foo". */
  lemma Fnv1a64Vectors()
    ensures Fnv1a64([0x61]) == 0xaf63_dc4c_8601_ec8c
    ensures Fnv1a64([0x66, 0x6f, 0x6f]) == 0xdcb2_7518_fed9_d577
  {
  }

  /** A step changes only the low byte before the multiply. */
  lemma Step64XorLowByte(hash: bv64, byte: Byte)
    ensures (hash ^ byte as bv64) >> 8 == hash >> 8
    ensures (hash ^ byte as bv64) & 0xff == (hash & 0xff) ^ byte as bv64
  {
  }

  /** `str_hash_fnv1a_64`. */
  method StrHashFnv1a64(s: Str) returns (hash: bv64)
    ensures hash == Fnv1a64(s)
  {
    hash := FNV1A64_SEED;
    for i := 0 to |s|
      invariant hash == Fnv1a64(s[..i])
    {
      Fnv1a64Append(s[..i], s[i]);
      assert s[..i + 1] == s[..i] + [s[i]];
      hash := Step64(hash, s[i]);
    }
    assert s[..|s|] == s;
  }
}
