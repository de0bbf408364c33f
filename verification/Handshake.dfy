/**
 The PQXDH handshake: sections 3.3 and 3.4 of Signal's "The PQXDH Key Agreement Protocol", with a signature over the
 transcript in place of the identity Diffie-Hellman.
 */
module Handshake {
  import opened Octets
  import opened Crypto
  import opened Frames
  import opened Ratchet
  import opened Prekeys
  import opened SessionBlob
  import opened Facade

  function TranscriptContext(): (b: Bytes)
    ensures |b| == 23
  {
    Label("buh-pqxdh-transcript-v1")
  }

  /** The initiator's side of the transcript. */
  datatype Hello = Hello(identity: Bytes, ephemeral: Bytes, kemCiphertext: Bytes)

  datatype InitialMessage = InitialMessage(hello: Hello, signature: Bytes)

  function HelloFields(h: Hello): seq<Field> {
    [ Field(TAG_IDENTITY_PUB, h.identity),
      Field(TAG_EPHEMERAL_X25519, h.ephemeral),
      Field(TAG_KEM_CT, h.kemCiphertext) ]
  }

  function ResponderFields(o: Offer): seq<Field> {
    [ Field(TAG_CONTEXT, TranscriptContext()),
      Field(TAG_IDENTITY_PUB, o.identity),
      Field(TAG_PREKEY_X25519, o.signedPrekey),
      Field(TAG_MLKEM_EK, o.kemKey) ] + OneTimeField(o)
  }

  /** Every public value of the handshake, both sides. */
  function Transcript(o: Offer, h: Hello): Bytes {
    EncodeFrame(Frame(0, ResponderFields(o) + HelloFields(h)))
  }

  function DeriveRoot(ikm: Bytes, transcript: Bytes): (root: Bytes)
    ensures |root| == KEY_LEN
  {
    Derive(HandshakeRoot, [Box(ikm), Box(transcript)], KEY_LEN)
  }

  /** What the initiator draws: an ephemeral key, randomness to encapsulate and to sign with. */
  datatype Draw = Draw(ephemeral: Bytes, kem: Bytes, sign: Bytes)

  function Initiate(seed: Bytes, o: Offer, d: Draw): (InitialMessage, Bytes) {
    var (cipher, shared) := Encapsulate(o.kemKey, d.kem);
    var onetime := if o.oneTimePrekey.Some? then DiffieHellman(d.ephemeral, o.oneTimePrekey.value) else [];
    var ikm := DiffieHellman(d.ephemeral, o.signedPrekey) + onetime + shared;
    var hello := Hello(IdentityKey(seed), PublicKey(d.ephemeral), cipher);
    var script := Transcript(o, hello);
    (InitialMessage(hello, Sign(seed, script, d.sign)), DeriveRoot(ikm, script))
  }

  function Respond(o: Offer, s: Secrets, m: InitialMessage): Result<Bytes> {
    var script := Transcript(o, m.hello);
    if !Verify(m.hello.identity, script, m.signature) then Err(BadSignature)
    else
      var shared :- Decapsulate(s.kemSecret, m.hello.kemCiphertext);
      var onetime := if s.oneTimePrekey.Some? then DiffieHellman(s.oneTimePrekey.value, m.hello.ephemeral) else [];
      Ok(DeriveRoot(DiffieHellman(s.signedPrekey, m.hello.ephemeral) + onetime + shared, script))
  }

  function InitialFields(m: InitialMessage): seq<Field> {
    [Field(TAG_CONTEXT, TranscriptContext())] + HelloFields(m.hello) + [Field(TAG_SIGNATURE, m.signature)]
  }

  function EncodeInitial(m: InitialMessage): Bytes {
    EncodeFrame(Frame(0, InitialFields(m)))
  }

  function DecodeInitial(bytes: Bytes): Result<InitialMessage> {
    var frame :- DecodeFrame(bytes);
    if Get(frame.fields, TAG_CONTEXT) != Some(TranscriptContext()) then Err(Malformed("handshake context"))
    else
      var identityBytes :- Require(frame.fields, TAG_IDENTITY_PUB);
      var identity :- FixedLength(identityBytes, IDENTITY_PUBLIC_LEN, "identity public key");
      var ephemeralBytes :- Require(frame.fields, TAG_EPHEMERAL_X25519);
      var ephemeral :- X25519FromSlice(ephemeralBytes);
      var cipher :- Require(frame.fields, TAG_KEM_CT);
      var signatureBytes :- Require(frame.fields, TAG_SIGNATURE);
      var signature :- FixedLength(signatureBytes, SIGNATURE_LEN, "signature");
      Ok(InitialMessage(Hello(identity, ephemeral, cipher), signature))
  }

  // ---------- The first flight ----------

  ghost predicate HelloFormed(h: Hello) {
    |h.identity| == IDENTITY_PUBLIC_LEN && |h.ephemeral| == KEY_LEN && |h.kemCiphertext| < U64_END
  }

  lemma InitialRoundTrip(m: InitialMessage)
    requires HelloFormed(m.hello) && |m.signature| == SIGNATURE_LEN
    ensures DecodeInitial(EncodeInitial(m)) == Ok(m)
  {
    hide EncodeFrame, DecodeFrame, Get, TranscriptContext;
    var fs := InitialFields(m);
    FrameRoundTrip(Frame(0, fs));
    GetAt(fs, 0);
    GetAt(fs, 1);
    GetAt(fs, 2);
    GetAt(fs, 3);
    GetAt(fs, 4);
  }

  /** The fields of a first flight. */
  ghost predicate InitialIn(fs: seq<Field>, m: InitialMessage) {
    && Carries(fs, TAG_CONTEXT, TranscriptContext())
    && Carries(fs, TAG_IDENTITY_PUB, m.hello.identity) && |m.hello.identity| == IDENTITY_PUBLIC_LEN
    && Carries(fs, TAG_EPHEMERAL_X25519, m.hello.ephemeral) && |m.hello.ephemeral| == KEY_LEN
    && Carries(fs, TAG_KEM_CT, m.hello.kemCiphertext)
    && Carries(fs, TAG_SIGNATURE, m.signature) && |m.signature| == SIGNATURE_LEN
  }

  ghost predicate IsInitial(bytes: Bytes, m: InitialMessage) {
    exists f :: IsFrame(bytes, f) && InitialIn(f.fields, m)
  }

  /** A first flight is decoded exactly from the frames that carry its fields under the context label. */
  lemma InitialExact(bytes: Bytes, m: InitialMessage)
    ensures DecodeInitial(bytes) == Ok(m) <==> IsInitial(bytes, m)
  {
    hide DecodeFrame, IsFrame, Get, Carries, TranscriptContext;
    if DecodeFrame(bytes).Ok? {
      var f := DecodeFrame(bytes).value;
      FrameDecodeExact(bytes, f);
      GetExact(f.fields, TAG_CONTEXT);
      GetExact(f.fields, TAG_IDENTITY_PUB);
      GetExact(f.fields, TAG_EPHEMERAL_X25519);
      GetExact(f.fields, TAG_KEM_CT);
      GetExact(f.fields, TAG_SIGNATURE);
    }
    forall f | IsFrame(bytes, f)
      ensures DecodeFrame(bytes) == Ok(f)
    {
      FrameDecodeExact(bytes, f);
    }
  }

  // ---------- Agreement ----------

  /** Whatever is drawn on either side, with or without a one-time prekey: what the responder decodes is what was sent, names
      the initiator's identity and ephemeral key and is signed by it over the transcript, and from it the responder
      derives the initiator's root. */
  lemma Agreement(responderSeed: Bytes, secrets: Secrets, bundleRnd: Bytes, initiatorSeed: Bytes, d: Draw)
    ensures var bundle := Generate(responderSeed, secrets, bundleRnd);
            var (m, root) := Initiate(initiatorSeed, bundle.offer, d);
            && DecodeInitial(EncodeInitial(m)) == Ok(m)
            && Respond(bundle.offer, secrets, m) == Ok(root)
            && m.hello.identity == IdentityKey(initiatorSeed) && m.hello.ephemeral == PublicKey(d.ephemeral)
            && m.signature == Sign(initiatorSeed, Transcript(bundle.offer, m.hello), d.sign)
  {
    hide EncodeFrame, DecodeInitial, EncodeInitial, Verify, Sign, SigningBody, Transcript;
    var o := Generate(responderSeed, secrets, bundleRnd).offer;
    var m := Initiate(initiatorSeed, o, d).0;
    InitialRoundTrip(m);
    VerifyCorrect(initiatorSeed, Transcript(o, m.hello), d.sign);
    DecapsulateCorrect(secrets.kemSecret, d.kem);
    DiffieHellmanSymmetric(d.ephemeral, secrets.signedPrekey);
    if secrets.oneTimePrekey.Some? {
      DiffieHellmanSymmetric(d.ephemeral, secrets.oneTimePrekey.value);
    }
  }

  // ---------- Binding ----------

  lemma TranscriptSized(o: Offer, h: Hello)
    requires OfferFormed(o) && HelloFormed(h)
    ensures Sized(ResponderFields(o) + HelloFields(h))
  {
  }

  /** The transcript determines every value of both sides: the presence of a one-time prekey, and which of the two
      identities sharing one tag is whose. */
  lemma TranscriptInjective(o: Offer, h: Hello, p: Offer, g: Hello)
    requires OfferFormed(o) && HelloFormed(h) && OfferFormed(p) && HelloFormed(g)
    requires Transcript(o, h) == Transcript(p, g)
    ensures o == p && h == g
  {
    hide EncodeFrame, TranscriptContext;
    TranscriptSized(o, h);
    TranscriptSized(p, g);
    var x, y := ResponderFields(o) + HelloFields(h), ResponderFields(p) + HelloFields(g);
    EncodeInjective(Frame(0, x), Frame(0, y));
    assert x[1] == y[1] && x[2] == y[2] && x[3] == y[3] && x[4] == y[4] && x[5] == y[5] && x[6] == y[6];
    assert |x| == 8 ==> x[7] == y[7];
  }

  /** A transcript is never a prekey body. */
  lemma TranscriptApart(o: Offer, h: Hello, p: Offer)
    requires OfferFormed(o) && HelloFormed(h) && OfferFormed(p)
    ensures Transcript(o, h) != SigningBody(p)
  {
    hide EncodeFrame;
    TranscriptSized(o, h);
    OfferSized(p);
    FirstLengthApart(ResponderFields(o) + HelloFields(h), OfferFields(p));
  }

  /** A signature verifies for exactly the message it was made on. */
  lemma SignedMessage(pk: Bytes, msg: Bytes, seed: Bytes, signed: Bytes, rnd: Bytes)
    requires Verify(pk, msg, Sign(seed, signed, rnd))
    ensures msg == signed && pk == IdentityKey(seed)
  {
    var sig := Sign(seed, signed, rnd);
    assert sig[0] == Of(Signed, [Box(seed), Box(signed), Box(rnd)], 0);
    assert sig[0].args[0] == Box(seed) && sig[0].args[1] == Box(signed) && sig[0].args[2] == Box(rnd);
    assert Sign(seed, msg, rnd)[0].args[1] == Box(msg);
  }

  /** An initiator's signature is accepted only together with the very values it was made for: the same bundle, the same
      identity, the same ephemeral key and the same ciphertext. */
  lemma SignatureBinds(seed: Bytes, o: Offer, d: Draw, mine: Offer, secrets: Secrets, m: InitialMessage)
    requires OfferFormed(o) && OfferFormed(mine) && HelloFormed(m.hello)
    requires m.signature == Initiate(seed, o, d).0.signature && Respond(mine, secrets, m).Ok?
    ensures mine == o && m == Initiate(seed, o, d).0
  {
    hide Transcript, Verify, Sign, DiffieHellman, Encapsulate, Decapsulate;
    var sent := Initiate(seed, o, d).0;
    SignedMessage(m.hello.identity, Transcript(mine, m.hello), seed, Transcript(o, sent.hello), d.sign);
    CiphertextLength(o.kemKey, d.kem);
    TranscriptInjective(o, sent.hello, mine, m.hello);
  }

  lemma CiphertextLength(ek: Bytes, rnd: Bytes)
    ensures |Encapsulate(ek, rnd).0| < U64_END
  {
  }

  /** A responder derives a root exactly for a ciphertext of the right length in a transcript signed by the identity the first
      flight names. */
  lemma RespondExact(o: Offer, s: Secrets, m: InitialMessage)
    ensures Respond(o, s, m).Ok? <==>
            Verify(m.hello.identity, Transcript(o, m.hello), m.signature) && |m.hello.kemCiphertext| == MLKEM_CIPHERTEXT_LEN
    ensures !Verify(m.hello.identity, Transcript(o, m.hello), m.signature) ==> Respond(o, s, m) == Err(BadSignature)
  {
    hide Verify, Transcript, DiffieHellman, EncapsKey, Encapsulate;
  }

  /** Two sides that hold one root have seen one transcript: the same bundle, identities, ephemeral key and ciphertext. */
  lemma RootBindsTranscript(seed: Bytes, o: Offer, d: Draw, mine: Offer, secrets: Secrets, m: InitialMessage)
    requires OfferFormed(o) && OfferFormed(mine) && HelloFormed(m.hello)
    requires Respond(mine, secrets, m) == Ok(Initiate(seed, o, d).1)
    ensures mine == o && m.hello == Initiate(seed, o, d).0.hello
  {
    hide Transcript, Verify, Sign, DiffieHellman, Encapsulate, Decapsulate, DeriveRoot;
    var sent := Initiate(seed, o, d).0;
    var x, y := InitiatorMaterial(o, d), ResponderMaterial(secrets, m);
    CiphertextLength(o.kemKey, d.kem);
    RootInjective(x, Transcript(o, sent.hello), y, Transcript(mine, m.hello));
    TranscriptInjective(o, sent.hello, mine, m.hello);
  }

  function InitiatorMaterial(o: Offer, d: Draw): Bytes {
    DiffieHellman(d.ephemeral, o.signedPrekey)
    + (if o.oneTimePrekey.Some? then DiffieHellman(d.ephemeral, o.oneTimePrekey.value) else [])
    + Encapsulate(o.kemKey, d.kem).1
  }

  function ResponderMaterial(s: Secrets, m: InitialMessage): Bytes {
    var shared := Decapsulate(s.kemSecret, m.hello.kemCiphertext);
    DiffieHellman(s.signedPrekey, m.hello.ephemeral)
    + (if s.oneTimePrekey.Some? then DiffieHellman(s.oneTimePrekey.value, m.hello.ephemeral) else [])
    + (if shared.Ok? then shared.value else [])
  }

  lemma RootInjective(ikm: Bytes, script: Bytes, ikm': Bytes, script': Bytes)
    requires DeriveRoot(ikm, script) == DeriveRoot(ikm', script')
    ensures ikm == ikm' && script == script'
  {
    var x, y := [Box(ikm), Box(script)], [Box(ikm'), Box(script')];
    DeriveInjective(HandshakeRoot, x, HandshakeRoot, y, KEY_LEN);
    assert x[0] == y[0] && x[1] == y[1];
  }

  /** The transcript, field by field: the responder's side, then the initiator's. */
  lemma TranscriptLayout(o: Offer, h: Hello)
    requires OfferFormed(o) && HelloFormed(h)
    ensures var opk := if o.oneTimePrekey.Some? then [Field(0x0a, o.oneTimePrekey.value)] else [];
            DecodeFrame(Transcript(o, h)) == Ok(Frame(0,
              [Field(0x07, TranscriptContext()), Field(0x01, o.identity), Field(0x08, o.signedPrekey), Field(0x09, o.kemKey)] + opk
              + [Field(0x01, h.identity), Field(0x0b, h.ephemeral), Field(0x0c, h.kemCiphertext)]))
  {
    hide DecodeFrame, EncodeFrame, TranscriptContext;
    TranscriptSized(o, h);
    FrameRoundTrip(Frame(0, ResponderFields(o) + HelloFields(h)));
  }

  // ---------- Sessions ----------

  const SEED_LEN := 32

  /** Starts a session as the initiator: the session blob and the first flight. */
  ghost function InitiateSession(identity: Bytes, bundle: Bytes, d: Draw, ratchetKey: Bytes): Result<(Bytes, Bytes)> {
    var seed :- FixedLength(identity, SEED_LEN, "identity");
    var b :- DecodeBundle(bundle);
    var (m, root) := Initiate(seed, b.offer, d);
    Ok((ToBytes(Initiator(root, b.offer.signedPrekey, ratchetKey)), EncodeInitial(m)))
  }

  /** Completes a session as the responder. */
  ghost function AcceptSession(secrets: Bytes, bundle: Bytes, initial: Bytes): Result<Bytes> {
    var s :- SecretsFromBytes(secrets);
    var b :- DecodeBundle(bundle);
    var m :- DecodeInitial(initial);
    var root :- Respond(b.offer, s, m);
    Ok(ToBytes(Responder(root, s.signedPrekey)))
  }

  /** From published bundle and kept secrets, all passed as octets, to two sessions in the ratchet's joint invariant; the
      initiator gets one exactly if its identity seed has the right length. */
  lemma HandOff(responderSeed: Bytes, secrets: Secrets, bundleRnd: Bytes, initiatorSeed: Bytes, d: Draw, ratchetKey: Bytes)
    requires SecretsFormed(secrets) && |ratchetKey| == KEY_LEN && ratchetKey != secrets.signedPrekey
    ensures var bundle := EncodeBundle(Generate(responderSeed, secrets, bundleRnd));
            var started := InitiateSession(initiatorSeed, bundle, d, ratchetKey);
            && (started.Ok? <==> |initiatorSeed| == SEED_LEN)
            && (started.Ok? ==>
                  var accepted := AcceptSession(SecretsToBytes(secrets), bundle, started.value.1);
                  && accepted.Ok?
                  && exists root :: Inv(World(InitialEpochs(root, secrets.signedPrekey, ratchetKey), {},
                                              started.value.0, accepted.value)))
  {
    hide EncodeBundle, DecodeBundle, EncodeInitial, DecodeInitial, Respond, Inv, ToBytes, SecretsToBytes, SecretsFromBytes;
    hide SigningBody, Sign, Initiator, Responder, InitialEpochs, PublicKey, EncapsKey, Initiate;
    var b := Generate(responderSeed, secrets, bundleRnd);
    GeneratedRoundTrip(responderSeed, secrets, bundleRnd);
    Agreement(responderSeed, secrets, bundleRnd, initiatorSeed, d);
    SecretsRoundTrip(secrets);
    var (m, root) := Initiate(initiatorSeed, b.offer, d);
    RootLength(initiatorSeed, b.offer, d);
    InitialInv(root, secrets.signedPrekey, ratchetKey);
  }

  lemma RootLength(seed: Bytes, o: Offer, d: Draw)
    ensures |Initiate(seed, o, d).1| == KEY_LEN
  {
  }

  /** For all octets: a session is started exactly with an identity seed of 32 octets and a bundle that is well formed and signed
      over its keys by the identity it names. */
  lemma InitiateExact(identity: Bytes, bundle: Bytes, d: Draw, ratchetKey: Bytes)
    ensures InitiateSession(identity, bundle, d, ratchetKey).Ok? <==> |identity| == 32 && exists b :: IsBundle(bundle, b)
  {
    hide DecodeBundle, IsBundle, Initiate, ToBytes, EncodeInitial, Initiator;
    BundleChecked(bundle);
  }

  lemma BundleChecked(bundle: Bytes)
    ensures DecodeBundle(bundle).Ok? <==> exists b :: IsBundle(bundle, b)
  {
    hide DecodeBundle, IsBundle;
    if DecodeBundle(bundle).Ok? {
      BundleExact(bundle, DecodeBundle(bundle).value);
    }
    if b :| IsBundle(bundle, b) {
      BundleExact(bundle, b);
    }
  }

  /** The session started: it sends to the prekey of the bundle with a chain of the root agreed on, and the first flight carries
      the initiator's identity and ephemeral key, signed over the transcript with that bundle. */
  lemma InitiatedSession(identity: Bytes, bundle: Bytes, d: Draw, ratchetKey: Bytes, b: Bundle)
    requires |identity| == 32 && |ratchetKey| == KEY_LEN && IsBundle(bundle, b)
    ensures var started := InitiateSession(identity, bundle, d, ratchetKey);
            && started.Ok?
            && var (session, flight) := started.value;
            && var m := DecodeInitial(flight);
            && m.Ok? && m.value.hello.identity == IdentityKey(identity) && m.value.hello.ephemeral == PublicKey(d.ephemeral)
            && Verify(IdentityKey(identity), Transcript(b.offer, m.value.hello), m.value.signature)
            && FromBytes(session) ==
               Ok(Initiator(DeriveRoot(InitiatorMaterial(b.offer, d), Transcript(b.offer, m.value.hello)), b.offer.signedPrekey, ratchetKey))
  {
    hide DecodeBundle, IsBundle, ToBytes, FromBytes, EncodeInitial, DecodeInitial, Initiator, Transcript, Verify, Sign;
    hide DiffieHellman, Encapsulate, PublicKey, IdentityKey, DeriveRoot, BundleIn;
    BundleExact(bundle, b);
    BundleKeyLength(bundle, b);
    var (m, root) := Initiate(identity, b.offer, d);
    InitiatedFormed(identity, b.offer, d);
    InitialRoundTrip(m);
    VerifyCorrect(identity, Transcript(b.offer, m.hello), d.sign);
    RootLength(identity, b.offer, d);
    InitialFormed(root, b.offer.signedPrekey, ratchetKey);
    SessionRoundTrip(Initiator(root, b.offer.signedPrekey, ratchetKey));
  }

  lemma BundleKeyLength(bundle: Bytes, b: Bundle)
    requires IsBundle(bundle, b)
    ensures |b.offer.signedPrekey| == KEY_LEN
  {
    hide IsFrame, Verify, SigningBody, Carries, Lacks;
  }

  lemma InitiatedFormed(seed: Bytes, o: Offer, d: Draw)
    ensures var m := Initiate(seed, o, d).0; HelloFormed(m.hello) && |m.signature| == SIGNATURE_LEN
  {
    hide Transcript, DiffieHellman, DeriveRoot;
  }

  /** For all octets: a session is accepted exactly with secrets that can be restored, a verified bundle, and a first flight
      whose signature verifies over the transcript with that bundle, its ciphertext of the right length. */
  lemma AcceptExact(secrets: Bytes, bundle: Bytes, initial: Bytes)
    ensures AcceptSession(secrets, bundle, initial).Ok? <==>
            exists s, b, m :: Acceptance(secrets, bundle, initial, s, b, m)
  {
    hide SecretsFromBytes, DecodeBundle, DecodeInitial, Respond, ToBytes, Responder, Verify, Transcript;
    hide IsSecrets, IsBundle, IsInitial;
    if AcceptSession(secrets, bundle, initial).Ok? {
      var s, b, m := SecretsFromBytes(secrets).value, DecodeBundle(bundle).value, DecodeInitial(initial).value;
      SecretsExact(secrets, s);
      BundleExact(bundle, b);
      InitialExact(initial, m);
      RespondExact(b.offer, s, m);
      assert Acceptance(secrets, bundle, initial, s, b, m);
    }
    if s, b, m :| Acceptance(secrets, bundle, initial, s, b, m) {
      SecretsExact(secrets, s);
      BundleExact(bundle, b);
      InitialExact(initial, m);
      RespondExact(b.offer, s, m);
    }
  }

  ghost predicate Acceptance(secrets: Bytes, bundle: Bytes, initial: Bytes, s: Secrets, b: Bundle, m: InitialMessage) {
    && IsSecrets(secrets, s) && IsBundle(bundle, b) && IsInitial(initial, m)
    && Verify(m.hello.identity, Transcript(b.offer, m.hello), m.signature)
    && |m.hello.kemCiphertext| == MLKEM_CIPHERTEXT_LEN
  }

  /** The session accepted: it waits under the prekey of its secrets, at the root made of the shared secrets and the transcript. */
  lemma AcceptedSession(secrets: Bytes, bundle: Bytes, initial: Bytes, s: Secrets, b: Bundle, m: InitialMessage)
    requires Acceptance(secrets, bundle, initial, s, b, m)
    ensures var accepted := AcceptSession(secrets, bundle, initial);
            && accepted.Ok?
            && FromBytes(accepted.value) ==
               Ok(Responder(DeriveRoot(ResponderMaterial(s, m), Transcript(b.offer, m.hello)), s.signedPrekey))
  {
    hide SecretsFromBytes, DecodeBundle, DecodeInitial, ToBytes, FromBytes, Responder, Verify, Transcript, IsSecrets, IsBundle;
    hide IsInitial, DeriveRoot, Decapsulate, DiffieHellman;
    SecretsExact(secrets, s);
    BundleExact(bundle, b);
    InitialExact(initial, m);
    RespondExact(b.offer, s, m);
    SecretsKeyLength(secrets, s);
    var root := Respond(b.offer, s, m).value;
    DerivedLength(ResponderMaterial(s, m), Transcript(b.offer, m.hello));
    InitialFormed(root, s.signedPrekey, s.signedPrekey);
    SessionRoundTrip(Responder(root, s.signedPrekey));
  }

  lemma SecretsKeyLength(b: Bytes, s: Secrets)
    requires IsSecrets(b, s)
    ensures |s.signedPrekey| == KEY_LEN
  {
  }

  lemma DerivedLength(ikm: Bytes, script: Bytes)
    ensures |DeriveRoot(ikm, script)| == KEY_LEN
  {
  }
}
