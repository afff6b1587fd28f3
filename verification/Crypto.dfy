/** Key agreement and the tunnel cipher (client/encryption.py) over abstract primitives. */
module Crypto {
  import opened Bytes

  const KEY_LENGTH := 32
  const NONCE_LENGTH := 12
  const TAG_LENGTH := 16

  /** The primitives the client imports: X25519, HKDF-SHA256 with a fixed info string, AES-256-GCM. */
  datatype Suite = Suite(
    publicKey: bytes -> bytes,
    exchange: (bytes, bytes) -> bytes,
    hkdf: bytes -> bytes,
    seal: (bytes, bytes, bytes) -> bytes,
    open: (bytes, bytes, bytes) -> Option<bytes>)
  {
    /** Diffie-Hellman agreement as in section 6.1 of RFC 7748, and an authenticated cipher
        that appends a 16-byte tag, undoes its own sealing and opens nothing of another length. Keys come first,
        then nonces. */
    ghost predicate Lawful() {
      && (forall a :: |publicKey(a)| == KEY_LENGTH)
      && (forall a, b :: exchange(a, publicKey(b)) == exchange(b, publicKey(a)))
      && (forall x :: |hkdf(x)| == KEY_LENGTH)
      && (forall k, n, p :: |seal(k, n, p)| == |p| + TAG_LENGTH)
      && (forall k, n, p :: open(k, n, seal(k, n, p)) == Some(p))
      && (forall k, n, c :: open(k, n, c).Some? ==> |c| == |open(k, n, c).value| + TAG_LENGTH)
    }
  }

  /** `derive_session_key_from_bytes`: None is the EncryptionError for a key that is not 32 bytes. */
  function SessionKey(suite: Suite, ourPrivate: bytes, peerPublic: bytes): (k: Option<bytes>)
    ensures k.Some? <==> |peerPublic| == KEY_LENGTH
  {
    if |peerPublic| != KEY_LENGTH then None
    else Some(suite.hkdf(suite.exchange(ourPrivate, peerPublic)))
  }

  /** Keys tell shared secrets apart: ends whose exchanges derive different keys have different session keys. */
  lemma {:induction false} SessionKeysDiffer(suite: Suite, a: bytes, p: bytes, b: bytes, q: bytes)
    requires |p| == KEY_LENGTH && |q| == KEY_LENGTH
    requires suite.hkdf(suite.exchange(a, p)) != suite.hkdf(suite.exchange(b, q))
    ensures SessionKey(suite, a, p) != SessionKey(suite, b, q)
  {
  }

  lemma {:induction false} SessionKeysAgree(suite: Suite, a: bytes, b: bytes)
    requires suite.Lawful()
    ensures SessionKey(suite, a, suite.publicKey(b)) == SessionKey(suite, b, suite.publicKey(a))
    ensures SessionKey(suite, a, suite.publicKey(b)).Some?
    ensures |SessionKey(suite, a, suite.publicKey(b)).value| == KEY_LENGTH
  {
    assert suite.exchange(a, suite.publicKey(b)) == suite.exchange(b, suite.publicKey(a));
  }

  /** `CipherContext.encrypt`: (nonce || ciphertext, tag). */
  function Encrypt(suite: Suite, key: bytes, nonce: bytes, plaintext: bytes): (r: (bytes, bytes))
    requires |suite.seal(key, nonce, plaintext)| >= TAG_LENGTH
  {
    var sealed := suite.seal(key, nonce, plaintext);
    var cut := |sealed| - TAG_LENGTH;
    (nonce + sealed[..cut], sealed[cut..])
  }

  /** `CipherContext.decrypt`: None is the DecryptionError. */
  function Decrypt(suite: Suite, key: bytes, ciphertext: bytes, tag: bytes): (r: Option<bytes>)
  {
    if |ciphertext| < NONCE_LENGTH then None
    else suite.open(key, ciphertext[..NONCE_LENGTH], ciphertext[NONCE_LENGTH..] + tag)
  }

  /** What goes on the wire is the nonce and then the sealed plaintext, cut before its tag; and it is opened under
      exactly that nonce. */
  lemma {:induction false} EncryptsExactly(suite: Suite, key: bytes, nonce: bytes, plaintext: bytes)
    requires suite.Lawful()
    ensures var (ct, tag) := Encrypt(suite, key, nonce, plaintext);
      ct + tag == nonce + suite.seal(key, nonce, plaintext) && |tag| == 16
  {
    var sealed := suite.seal(key, nonce, plaintext);
    assert sealed[..|sealed| - 16] + sealed[|sealed| - 16..] == sealed;
  }

  lemma {:induction false} DecryptsExactly(suite: Suite, key: bytes, nonce: bytes, sealed: bytes, tag: bytes)
    requires |nonce| <= 12
    ensures Decrypt(suite, key, nonce + sealed, tag)
         == if |nonce + sealed| < 12 then None
            else suite.open(key, (nonce + sealed)[..12], (nonce + sealed)[12..] + tag)
    ensures |nonce| == 12 ==> Decrypt(suite, key, nonce + sealed, tag) == suite.open(key, nonce, sealed + tag)
  {
    if |nonce| == 12 { assert (nonce + sealed)[..12] == nonce && (nonce + sealed)[12..] == sealed; }
  }

  lemma {:induction false} DecryptEncrypted(suite: Suite, key: bytes, nonce: bytes, plaintext: bytes)
    requires suite.Lawful() && |nonce| == NONCE_LENGTH
    ensures var (ct, tag) := Encrypt(suite, key, nonce, plaintext);
      && |ct| == NONCE_LENGTH + |plaintext|
      && |tag| == TAG_LENGTH
      && Decrypt(suite, key, ct, tag) == Some(plaintext)
  {
    var sealed := suite.seal(key, nonce, plaintext);
    var (ct, tag) := Encrypt(suite, key, nonce, plaintext);
    assert ct[..NONCE_LENGTH] == nonce;
    assert ct[NONCE_LENGTH..] + tag == sealed;
  }
}
