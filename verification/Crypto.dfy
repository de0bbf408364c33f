/**
 The cryptographic functions, as free terms over symbolic octets.

 Idealisations, all made by the definitions below:
 - the output of a function on given arguments equals no other output (no collisions);
 - X25519 depends only on the unordered pair of public keys;
 - an AEAD ciphertext opens under exactly the key, nonce and additional data it was sealed with;
 - an ML-KEM ciphertext decapsulates to the encapsulated secret under the matching key, and to an unrelated
   secret (implicit rejection) otherwise;
 - a signature verifies under exactly the key and message it was made with.
 Randomness is a parameter wherever the source draws it.
 */
module Crypto {
  import opened Octets

  const KEY_LEN := 32
  const NONCE_LEN := 24
  const TAG_LEN := 16
  const MLKEM_ENCAPS_KEY_LEN := 1184
  const MLKEM_CIPHERTEXT_LEN := 1088
  const MLKEM_SECRET_LEN := 64
  const IDENTITY_PUBLIC_LEN := 1952
  const SIGNATURE_LEN := 3309

  /** Outputs of one length are equal only for the same function and arguments. */
  lemma DeriveInjective(o: Op, a: seq<Octet>, p: Op, b: seq<Octet>, len: nat)
    requires len > 0 && Derive(o, a, len) == Derive(p, b, len)
    ensures o == p && a == b
  {
    assert Derive(o, a, len)[0] == Derive(p, b, len)[0];
  }

  // ---------- X25519 ----------

  function PublicKey(sk: Bytes): (pk: Bytes)
    ensures |pk| == KEY_LEN
  {
    Derive(X25519Public, [Box(sk)], KEY_LEN)
  }

  lemma PublicKeyInjective(a: Bytes, b: Bytes)
    requires PublicKey(a) == PublicKey(b)
    ensures a == b
  {
    DeriveInjective(X25519Public, [Box(a)], X25519Public, [Box(b)], KEY_LEN);
    assert [Box(a)][0] == [Box(b)][0];
  }

  function DiffieHellman(sk: Bytes, pk: Bytes): (r: Bytes)
    ensures |r| == KEY_LEN
  {
    var own := PublicKey(sk);
    Derive(X25519Shared, if Less(own, pk) then [Box(own), Box(pk)] else [Box(pk), Box(own)], KEY_LEN)
  }

  lemma DiffieHellmanSymmetric(a: Bytes, b: Bytes)
    ensures DiffieHellman(a, PublicKey(b)) == DiffieHellman(b, PublicKey(a))
  {
    LessConnected(PublicKey(a), PublicKey(b));
    LessConnected(PublicKey(b), PublicKey(a));
  }

  // ---------- The ratchet's key derivation ----------

  /** The next root key and a new chain key. */
  function KdfRk(rk: Bytes, dh: Bytes): (r: (Bytes, Bytes))
    ensures |r.0| == KEY_LEN && |r.1| == KEY_LEN
  {
    (Derive(RootStep, [Box(rk), Box(dh)], KEY_LEN), Derive(ChainStart, [Box(rk), Box(dh)], KEY_LEN))
  }

  /** The next chain key and this step's message key. */
  function KdfCk(ck: Bytes): (r: (Bytes, Bytes))
    ensures |r.0| == KEY_LEN && |r.1| == KEY_LEN
  {
    (Derive(NextChain, [Box(ck)], KEY_LEN), Derive(MessageKey, [Box(ck)], KEY_LEN))
  }

  /** The AEAD key and nonce of a message key. */
  function MessageKeys(mk: Bytes): (Bytes, Bytes) {
    (Derive(SealKey, [Box(mk)], KEY_LEN), Derive(SealNonce, [Box(mk)], NONCE_LEN))
  }

  // ---------- AEAD ----------

  function SealArgs(key: Bytes, nonce: Bytes, aad: Bytes, plain: Bytes): seq<Octet> {
    [Box(key), Box(nonce), Box(aad), Box(plain)]
  }

  function Seal(key: Bytes, nonce: Bytes, aad: Bytes, plain: Bytes): Bytes {
    Derive(Sealed, SealArgs(key, nonce, aad, plain), |plain| + TAG_LEN)
  }

  function Open(key: Bytes, nonce: Bytes, aad: Bytes, cipher: Bytes): Result<Bytes> {
    if && cipher != [] && cipher[0].Of? && |cipher[0].args| == 4 && cipher[0].args[3].Of?
       && cipher == Seal(key, nonce, aad, cipher[0].args[3].args)
    then Ok(cipher[0].args[3].args)
    else Err(Aead)
  }

  /** Opening succeeds with a plaintext exactly on the ciphertext that sealing it gives. */
  lemma OpenExact(key: Bytes, nonce: Bytes, aad: Bytes, cipher: Bytes, plain: Bytes)
    ensures Open(key, nonce, aad, cipher) == Ok(plain) <==> cipher == Seal(key, nonce, aad, plain)
  {
    if cipher == Seal(key, nonce, aad, plain) {
      assert cipher[0] == Of(Sealed, SealArgs(key, nonce, aad, plain), 0);
      assert cipher[0].args[3] == Box(plain);
    }
  }

  lemma SealInjective(k: Bytes, n: Bytes, a: Bytes, p: Bytes, k': Bytes, n': Bytes, a': Bytes, p': Bytes)
    requires Seal(k, n, a, p) == Seal(k', n', a', p')
    ensures k == k' && n == n' && a == a' && p == p'
  {
    var x, y := SealArgs(k, n, a, p), SealArgs(k', n', a', p');
    assert Seal(k, n, a, p)[0] == Seal(k', n', a', p')[0];
    assert x[0] == y[0] && x[1] == y[1] && x[2] == y[2] && x[3] == y[3];
  }

  // ---------- ML-KEM-768 ----------

  function EncapsKey(dk: Bytes): (ek: Bytes)
    ensures |ek| == MLKEM_ENCAPS_KEY_LEN
  {
    Derive(KemPublic, [Box(dk)], MLKEM_ENCAPS_KEY_LEN)
  }

  /** A ciphertext and a shared secret, from the randomness `rnd`. */
  function Encapsulate(ek: Bytes, rnd: Bytes): (r: (Bytes, Bytes))
    ensures |r.0| == MLKEM_CIPHERTEXT_LEN
  {
    (Derive(KemCiphertext, [Box(ek), Box(rnd)], MLKEM_CIPHERTEXT_LEN), Derive(KemShared, [Box(ek), Box(rnd)], KEY_LEN))
  }

  function Decapsulate(dk: Bytes, cipher: Bytes): Result<Bytes> {
    if |cipher| != MLKEM_CIPHERTEXT_LEN then Err(Malformed("ml-kem ciphertext"))
    else if
      && cipher[0].Of? && |cipher[0].args| == 2 && cipher[0].args[1].Of?
      && cipher == Encapsulate(EncapsKey(dk), cipher[0].args[1].args).0
    then Ok(Encapsulate(EncapsKey(dk), cipher[0].args[1].args).1)
    else Ok(Derive(KemReject, [Box(dk), Box(cipher)], KEY_LEN))
  }

  lemma DecapsulateCorrect(dk: Bytes, rnd: Bytes)
    ensures var (ct, ss) := Encapsulate(EncapsKey(dk), rnd); Decapsulate(dk, ct) == Ok(ss)
  {
    var ct := Encapsulate(EncapsKey(dk), rnd).0;
    assert ct[0] == Of(KemCiphertext, [Box(EncapsKey(dk)), Box(rnd)], 0);
    assert ct[0].args[1] == Box(rnd);
  }

  // ---------- ML-DSA-65 ----------

  function IdentityKey(seed: Bytes): (pk: Bytes)
    ensures |pk| == IDENTITY_PUBLIC_LEN
  {
    Derive(IdentityPublic, [Box(seed)], IDENTITY_PUBLIC_LEN)
  }

  /** A hedged signature: the randomness is part of the term. */
  function Sign(seed: Bytes, msg: Bytes, rnd: Bytes): (sig: Bytes)
    ensures |sig| == SIGNATURE_LEN
  {
    Derive(Signed, [Box(seed), Box(msg), Box(rnd)], SIGNATURE_LEN)
  }

  predicate Verify(pk: Bytes, msg: Bytes, sig: Bytes) {
    && |sig| == SIGNATURE_LEN && sig[0].Of? && |sig[0].args| == 3 && sig[0].args[0].Of? && sig[0].args[2].Of?
    && pk == IdentityKey(sig[0].args[0].args)
    && sig == Sign(sig[0].args[0].args, msg, sig[0].args[2].args)
  }

  lemma VerifyCorrect(seed: Bytes, msg: Bytes, rnd: Bytes)
    ensures Verify(IdentityKey(seed), msg, Sign(seed, msg, rnd))
  {
    var sig := Sign(seed, msg, rnd);
    assert sig[0] == Of(Signed, [Box(seed), Box(msg), Box(rnd)], 0);
    assert sig[0].args[0] == Box(seed) && sig[0].args[2] == Box(rnd);
  }
}
