/** The provider's cryptography as abstract deterministic functions (src/backends.rs): every
    theorem holds for every suite that obeys the four laws of `Lawful`. */
module CipherSuites {
  import opened ByteStrings
  import opened Failures
  import opened ParameterSets

  type Nonce = b: Bytes | |b| == AEAD_IV_LENGTH witness Zeros(AEAD_IV_LENGTH)

  /** The nonce an encryptor uses at each position. */
  type Nonces = nat -> Nonce

  datatype RawSuite = RawSuite(
    // HKDF-Expand of a key and an info string to a number of bytes
    expand: (Bytes, Bytes, nat) -> Bytes,
    // whether the backend takes these 32 bytes as an AEAD key
    accepts: Bytes -> bool,
    // key, nonce, AAD, plaintext to ciphertext and tag
    seal: (Bytes, Bytes, Bytes, Bytes) -> Bytes,
    // key, nonce, AAD, ciphertext and tag to plaintext
    open: (Bytes, Bytes, Bytes, Bytes) -> Option<Bytes>)
  {
    ghost predicate Lawful() {
      && (forall k, i, n: nat :: |expand(k, i, n)| == n)
      && (forall k, n, a, p :: |seal(k, n, a, p)| == |p| + AEAD_TAG_LENGTH)
      && (forall k, n, a, p :: open(k, n, a, seal(k, n, a, p)) == Some(p))
      && (forall k, n, a, c :: open(k, n, a, c).Some? ==> |c| == |open(k, n, a, c).value| + AEAD_TAG_LENGTH)
    }
  }

  /** A suite without secrecy, which shows that the laws can be met together. */
  const Transparent := RawSuite(
    (k: Bytes, i: Bytes, n: nat) => Zeros(n),
    (k: Bytes) => true,
    (k: Bytes, n: Bytes, a: Bytes, p: Bytes) => p + Zeros(AEAD_TAG_LENGTH),
    (k: Bytes, n: Bytes, a: Bytes, c: Bytes) =>
      if |c| >= AEAD_TAG_LENGTH then Some(c[..|c| - AEAD_TAG_LENGTH]) else None)

  lemma TransparentIsLawful()
    ensures Transparent.Lawful()
  {
    forall k: Bytes, n: Bytes, a: Bytes, p: Bytes
      ensures Transparent.open(k, n, a, Transparent.seal(k, n, a, p)) == Some(p)
    {
      assert (p + Zeros(AEAD_TAG_LENGTH))[..|p|] == p;
    }
  }

  type CipherSuite = s: RawSuite | s.Lawful()
    ghost witness (TransparentIsLawful(); Transparent)
}
