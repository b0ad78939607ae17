/**
  The OpenSSL primitives as unknown functions. Only the laws below are assumed of them, and
  `Trivial` shows that the laws can be met.
*/
module Primitives {
  import opened Base

  datatype Suite = Suite(
    // AES-256-GCM split as in sections 7.1 and 7.2 of NIST SP 800-38D: GCTR is its own inverse,
    // and the tag covers iv, associated data (the 32-bit counter) and ciphertext.
    gctr: (Bytes, Bytes, Bytes) -> Bytes,
    gmac: (Bytes, Bytes, uint32, Bytes) -> Bytes,
    // X25519 and HKDF
    pub: Bytes -> Bytes,
    derive: (Bytes, Bytes) -> Option<Bytes>,
    kdf: (Bytes, Bytes) -> Bytes,
    // Ed25519
    verKey: Bytes -> Bytes,
    sign: (Bytes, Bytes) -> Bytes,
    verify: (Bytes, Bytes, Bytes) -> bool,
    // SHA-256
    sha: Bytes -> Bytes)
  {
    ghost predicate GcmLaws() {
      && (forall k: Bytes, iv: Bytes, d: Bytes :: |gctr(k, iv, d)| == |d|)
      && (forall k: Bytes, iv: Bytes, d: Bytes {:trigger gctr(k, iv, gctr(k, iv, d))} ::
            gctr(k, iv, gctr(k, iv, d)) == d)
      && (forall k: Bytes, iv: Bytes, n: uint32, c: Bytes :: |gmac(k, iv, n, c)| == TAG_SIZE)
    }

    /** Diffie-Hellman commutes, and fails at both ends or at neither. */
    ghost predicate ExchangeLaws() {
      && (forall a: Bytes :: |pub(a)| == KEY_SIZE)
      && (forall a: Bytes, b: Bytes :: derive(a, b).Some? ==> |derive(a, b).value| == KEY_SIZE)
      && (forall a: Bytes, b: Bytes {:trigger derive(a, pub(b))} :: derive(a, pub(b)) == derive(b, pub(a)))
    }

    ghost predicate SignatureLaws() {
      && (forall sk: Bytes, m: Bytes :: |sign(sk, m)| == SIGNATURE_SIZE)
      && (forall sk: Bytes, m: Bytes {:trigger sign(sk, m), verKey(sk)} :: verify(verKey(sk), m, sign(sk, m)))
    }

    ghost predicate DigestLaws() {
      forall m: Bytes :: |sha(m)| == HASH_SIZE
    }

    ghost predicate Lawful() {
      GcmLaws() && ExchangeLaws() && SignatureLaws() && DigestLaws()
    }
  }

  function Trivial(): Suite {
    Suite((k, iv, d) => d,
          (k, iv, n, c) => seq(TAG_SIZE, _ => 0),
          a => seq(KEY_SIZE, _ => 0),
          (a, b) => Some(seq(KEY_SIZE, _ => 0)),
          (s, n) => seq(KEY_SIZE, _ => 0),
          sk => sk,
          (sk, m) => seq(SIGNATURE_SIZE, _ => 0),
          (pk, m, s) => true,
          m => seq(HASH_SIZE, _ => 0))
  }

  type Crypto = s: Suite | s.Lawful() ghost witness Trivial()
}
