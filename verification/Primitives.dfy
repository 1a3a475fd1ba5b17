/** The foreign calls of the codec: AES-GCM (sections 7.1 and 7.2 of NIST SP 800-38D), scrypt
    (section 6 of RFC 7914), SHA-256 and NumPy's generator, with the laws the codec relies on. */
module Primitives {
  import opened Prelude

  const KEY_BYTES := 32
  const GCM_TAG_BYTES := 16
  /** The longest plaintext the library encrypts; a longer one raises OverflowError. */
  const MAX_PLAINTEXT := 0x7FFF_FFFF

  datatype Suite = Suite(
    /** passphrase, salt, n, r, p; None where the library raises ValueError. */
    deriveKey: (string, Bytes, nat, nat, nat) -> Option<Bytes>,
    /** key, nonce, plaintext; the tag is part of the result; None where the library raises. */
    encrypt: (Bytes, Bytes, Bytes) -> Option<Bytes>,
    /** key, nonce, ciphertext with tag; None where authentication fails. */
    decrypt: (Bytes, Bytes, Bytes) -> Option<Bytes>,
    sha256: Bytes -> Bytes,
    /** seed, number of positions, step; the number drawn at that step of a shuffle. */
    draw: (nat, nat, nat) -> nat)

  /** What the codec needs of AES-GCM and scrypt. Nothing is asked of the hash and the
      generator beyond being functions of their arguments. */
  ghost predicate Lawful(suite: Suite) {
    && (forall passphrase, salt, n, r, p ::
          suite.deriveKey(passphrase, salt, n, r, p).Some?
          ==> |suite.deriveKey(passphrase, salt, n, r, p).value| == KEY_BYTES)
    && (forall key, nonce, plaintext | |key| == KEY_BYTES ::
          && (suite.encrypt(key, nonce, plaintext).Some? <==> |plaintext| <= MAX_PLAINTEXT)
          && (suite.encrypt(key, nonce, plaintext).Some? ==>
                var ciphertext := suite.encrypt(key, nonce, plaintext).value;
                && |ciphertext| == |plaintext| + GCM_TAG_BYTES
                && suite.decrypt(key, nonce, ciphertext) == Some(plaintext)))
  }

  /** The laws at one derived key. */
  lemma DerivedKeyOpens(
    suite: Suite, passphrase: string, salt: Bytes, n: nat, r: nat, p: nat, nonce: Bytes, plaintext: Bytes)
    requires Lawful(suite) && suite.deriveKey(passphrase, salt, n, r, p).Some?
    ensures var key := suite.deriveKey(passphrase, salt, n, r, p).value;
            var sealed := suite.encrypt(key, nonce, plaintext);
            && (sealed.Some? <==> |plaintext| <= MAX_PLAINTEXT)
            && (sealed.Some? ==> |sealed.value| == |plaintext| + GCM_TAG_BYTES)
            && (sealed.Some? ==> suite.decrypt(key, nonce, sealed.value) == Some(plaintext))
  {
  }
}
