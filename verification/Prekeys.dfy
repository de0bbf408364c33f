/**
 Prekey bundles: the signed key material a contact opens a session with, and the secret halves its owner keeps.
 */
module Prekeys {
  import opened Octets
  import opened Crypto
  import opened Frames
  import opened Ratchet
  import opened SessionBlob

  const SECRETS_VERSION: u8 := 1

  const U64_END: nat := 0x1_0000_0000_0000_0000

  /** The octets of an ASCII label. */
  function Label(s: string): (b: Bytes)
    ensures |b| == |s|
  {
    seq(|s|, i requires 0 <= i < |s| => Byte(s[i] as int % 0x100))
  }

  function PrekeyContext(): (b: Bytes)
    ensures |b| == 20
  {
    Label("buh-prekey-bundle-v1")
  }

  datatype Secrets = Secrets(signedPrekey: Bytes, kemSecret: Bytes, oneTimePrekey: Option<Bytes>)

  /** What a bundle offers. */
  datatype Offer = Offer(identity: Bytes, signedPrekey: Bytes, kemKey: Bytes, oneTimePrekey: Option<Bytes>)

  datatype Bundle = Bundle(offer: Offer, signature: Bytes)

  ghost predicate OfferFormed(o: Offer) {
    && |o.identity| == IDENTITY_PUBLIC_LEN && |o.signedPrekey| == KEY_LEN && |o.kemKey| == MLKEM_ENCAPS_KEY_LEN
    && KeyOrNone(o.oneTimePrekey)
  }

  function OneTimeField(o: Offer): seq<Field> {
    if o.oneTimePrekey.Some? then [Field(TAG_ONETIME_PREKEY, o.oneTimePrekey.value)] else []
  }

  function OfferFields(o: Offer): seq<Field> {
    [ Field(TAG_CONTEXT, PrekeyContext()),
      Field(TAG_IDENTITY_PUB, o.identity),
      Field(TAG_PREKEY_X25519, o.signedPrekey),
      Field(TAG_MLKEM_EK, o.kemKey) ] + OneTimeField(o)
  }

  /** The octets the identity signs. */
  function SigningBody(o: Offer): Bytes {
    EncodeFrame(Frame(0, OfferFields(o)))
  }

  /** A fresh prekey set, from the secrets and randomness drawn for it. */
  function Generate(seed: Bytes, secrets: Secrets, rnd: Bytes): Bundle {
    var opk := if secrets.oneTimePrekey.Some? then Some(PublicKey(secrets.oneTimePrekey.value)) else None;
    var offer := Offer(IdentityKey(seed), PublicKey(secrets.signedPrekey), EncapsKey(secrets.kemSecret), opk);
    Bundle(offer, Sign(seed, SigningBody(offer), rnd))
  }

  function BundleFields(b: Bundle): seq<Field> {
    OfferFields(b.offer) + [Field(TAG_SIGNATURE, b.signature)]
  }

  function EncodeBundle(b: Bundle): Bytes {
    EncodeFrame(Frame(0, BundleFields(b)))
  }

  function FixedLength(b: Bytes, len: nat, what: string): (r: Result<Bytes>)
    ensures r.Ok? <==> |b| == len
    ensures r.Ok? ==> r.value == b
  {
    if |b| == len then Ok(b) else Err(Malformed(what))
  }

  /** The bundle a list of fields carries, not yet verified. */
  function ReadBundle(fs: seq<Field>): Result<Bundle> {
    if Get(fs, TAG_CONTEXT) != Some(PrekeyContext()) then Err(Malformed("prekey bundle context"))
    else
      var identityBytes :- Require(fs, TAG_IDENTITY_PUB);
      var identity :- FixedLength(identityBytes, IDENTITY_PUBLIC_LEN, "identity public key");
      var spkBytes :- Require(fs, TAG_PREKEY_X25519);
      var spk :- X25519FromSlice(spkBytes);
      var kemBytes :- Require(fs, TAG_MLKEM_EK);
      var kem :- FixedLength(kemBytes, MLKEM_ENCAPS_KEY_LEN, "ml-kem public key");
      var opk :- ReadOneTime(Get(fs, TAG_ONETIME_PREKEY));
      var signatureBytes :- Require(fs, TAG_SIGNATURE);
      var signature :- FixedLength(signatureBytes, SIGNATURE_LEN, "signature");
      Ok(Bundle(Offer(identity, spk, kem, opk), signature))
  }

  function ReadOneTime(field: Option<Bytes>): Result<Option<Bytes>> {
    match field
    case None => Ok(None)
    case Some(b) =>
      var key :- X25519FromSlice(b);
      Ok(Some(key))
  }

  predicate Authentic(b: Bundle) {
    Verify(b.offer.identity, SigningBody(b.offer), b.signature)
  }

  /** Parses and verifies a bundle. */
  function DecodeBundle(bytes: Bytes): Result<Bundle> {
    var frame :- DecodeFrame(bytes);
    var b :- ReadBundle(frame.fields);
    if Authentic(b) then Ok(b) else Err(BadSignature)
  }

  // ---------- Properties ----------

  lemma OfferSized(o: Offer)
    requires OfferFormed(o)
    ensures Sized(OfferFields(o))
  {
  }

  /** The signed octets determine everything they stand for, the presence of a one-time prekey included. */
  lemma SigningBodyInjective(o: Offer, p: Offer)
    requires OfferFormed(o) && OfferFormed(p) && SigningBody(o) == SigningBody(p)
    ensures o == p
  {
    hide EncodeFrame, PrekeyContext;
    OfferSized(o);
    OfferSized(p);
    EncodeInjective(Frame(0, OfferFields(o)), Frame(0, OfferFields(p)));
    var x, y := OfferFields(o), OfferFields(p);
    assert x[1] == y[1] && x[2] == y[2] && x[3] == y[3];
    assert |x| == 5 ==> x[4] == y[4];
  }

  /** Fields that begin with those of a bundle, whatever unknown fields follow, read as that bundle. */
  lemma BundleFieldsRead(b: Bundle, more: seq<Field>)
    requires OfferFormed(b.offer) && |b.signature| == SIGNATURE_LEN
    requires forall i :: 0 <= i < |more| ==> more[i].tag != TAG_ONETIME_PREKEY
    ensures ReadBundle(BundleFields(b) + more) == Ok(b)
  {
    var fs := BundleFields(b) + more;
    hide PrekeyContext, Get;
    GetAt(fs, 0);
    GetAt(fs, 1);
    GetAt(fs, 2);
    GetAt(fs, 3);
    if b.offer.oneTimePrekey.Some? {
      GetAt(fs, 4);
      GetAt(fs, 5);
    } else {
      GetAt(fs, 4);
      GetNone(fs, TAG_ONETIME_PREKEY);
    }
  }

  lemma BundleSized(b: Bundle)
    requires OfferFormed(b.offer) && |b.signature| == SIGNATURE_LEN
    ensures Sized(BundleFields(b))
  {
  }

  /** A well-formed bundle decodes back to itself exactly when its signature covers its keys. */
  lemma BundleRoundTrip(b: Bundle)
    requires OfferFormed(b.offer) && |b.signature| == SIGNATURE_LEN
    ensures DecodeBundle(EncodeBundle(b)) == if Authentic(b) then Ok(b) else Err(BadSignature)
  {
    hide EncodeFrame, DecodeFrame, Authentic, ReadBundle, BundleFields;
    BundleSized(b);
    FrameRoundTrip(Frame(0, BundleFields(b)));
    BundleFieldsRead(b, []);
    assert BundleFields(b) + [] == BundleFields(b);
  }

  /** Whatever decodes is well formed, and signed by the identity it names over exactly the keys it carries. */
  lemma DecodedAuthentic(bytes: Bytes)
    requires DecodeBundle(bytes).Ok?
    ensures var b := DecodeBundle(bytes).value;
            OfferFormed(b.offer) && |b.signature| == SIGNATURE_LEN && Authentic(b)
  {
    hide DecodeFrame, Authentic, Get, PrekeyContext;
  }

  /** The fields of a bundle: the context label, keys of the right lengths, a one-time prekey or none, and a signature. */
  ghost predicate BundleIn(fs: seq<Field>, b: Bundle) {
    && Carries(fs, TAG_CONTEXT, PrekeyContext())
    && Carries(fs, TAG_IDENTITY_PUB, b.offer.identity) && |b.offer.identity| == IDENTITY_PUBLIC_LEN
    && Carries(fs, TAG_PREKEY_X25519, b.offer.signedPrekey) && |b.offer.signedPrekey| == KEY_LEN
    && Carries(fs, TAG_MLKEM_EK, b.offer.kemKey) && |b.offer.kemKey| == MLKEM_ENCAPS_KEY_LEN
    && (match b.offer.oneTimePrekey
        case Some(opk) => Carries(fs, TAG_ONETIME_PREKEY, opk) && |opk| == KEY_LEN
        case None => Lacks(fs, TAG_ONETIME_PREKEY))
    && Carries(fs, TAG_SIGNATURE, b.signature) && |b.signature| == SIGNATURE_LEN
  }

  /** The octet strings that are bundle `b`: frames with its fields, signed over its keys by the identity it names. */
  ghost predicate IsBundle(bytes: Bytes, b: Bundle) {
    && (exists f :: IsFrame(bytes, f) && BundleIn(f.fields, b))
    && Verify(b.offer.identity, SigningBody(b.offer), b.signature)
  }

  lemma ReadBundleExact(fs: seq<Field>, b: Bundle)
    ensures ReadBundle(fs) == Ok(b) <==> BundleIn(fs, b)
  {
    hide Get, Carries, Lacks, PrekeyContext;
    GetExact(fs, TAG_CONTEXT);
    GetExact(fs, TAG_IDENTITY_PUB);
    GetExact(fs, TAG_PREKEY_X25519);
    GetExact(fs, TAG_MLKEM_EK);
    GetExact(fs, TAG_ONETIME_PREKEY);
    GetExact(fs, TAG_SIGNATURE);
  }

  /** A bundle is decoded exactly from the octet strings that are it: nothing unsigned, mislabelled or misshapen passes. */
  lemma BundleExact(bytes: Bytes, b: Bundle)
    ensures DecodeBundle(bytes) == Ok(b) <==> IsBundle(bytes, b)
  {
    hide DecodeFrame, IsFrame, ReadBundle, BundleIn, Verify, SigningBody;
    if DecodeFrame(bytes).Ok? {
      var f := DecodeFrame(bytes).value;
      FrameDecodeExact(bytes, f);
      ReadBundleExact(f.fields, b);
    }
    forall f | IsFrame(bytes, f)
      ensures DecodeFrame(bytes) == Ok(f)
    {
      FrameDecodeExact(bytes, f);
    }
  }

  /** What is signed, field by field. */
  lemma SigningBodyLayout(o: Offer)
    requires OfferFormed(o)
    ensures var opk := if o.oneTimePrekey.Some? then [Field(0x0a, o.oneTimePrekey.value)] else [];
            DecodeFrame(SigningBody(o)) == Ok(Frame(0,
              [Field(0x07, PrekeyContext()), Field(0x01, o.identity), Field(0x08, o.signedPrekey), Field(0x09, o.kemKey)] + opk))
  {
    hide DecodeFrame, EncodeFrame, PrekeyContext;
    OfferSized(o);
    FrameRoundTrip(Frame(0, OfferFields(o)));
  }

  /** Every decoded bundle re-decodes to itself. */
  lemma DecodedRedecodes(bytes: Bytes)
    requires DecodeBundle(bytes).Ok?
    ensures DecodeBundle(EncodeBundle(DecodeBundle(bytes).value)) == DecodeBundle(bytes)
  {
    hide DecodeBundle, EncodeBundle, Authentic;
    DecodedAuthentic(bytes);
    BundleRoundTrip(DecodeBundle(bytes).value);
  }

  /** A generated bundle decodes back to itself: it names the identity of the seed it was signed with, and offers the public
      halves of the secrets kept. */
  lemma GeneratedRoundTrip(seed: Bytes, secrets: Secrets, rnd: Bytes)
    ensures var b := Generate(seed, secrets, rnd);
            && OfferFormed(b.offer) && |b.signature| == SIGNATURE_LEN && Authentic(b)
            && DecodeBundle(EncodeBundle(b)) == Ok(b)
            && b.offer.identity == IdentityKey(seed)
            && b.offer.signedPrekey == PublicKey(secrets.signedPrekey)
            && b.offer.kemKey == EncapsKey(secrets.kemSecret)
            && b.offer.oneTimePrekey.Some? == secrets.oneTimePrekey.Some?
            && (secrets.oneTimePrekey.Some? ==> b.offer.oneTimePrekey.value == PublicKey(secrets.oneTimePrekey.value))
            && b.signature == Sign(seed, SigningBody(b.offer), rnd)
  {
    hide DecodeBundle, EncodeBundle, SigningBody, Verify, Sign;
    var b := Generate(seed, secrets, rnd);
    VerifyCorrect(seed, SigningBody(b.offer), rnd);
    BundleRoundTrip(b);
  }

  // ---------- The secret halves ----------

  ghost predicate SecretsFormed(s: Secrets) {
    |s.signedPrekey| == KEY_LEN && |s.kemSecret| == MLKEM_SECRET_LEN && KeyOrNone(s.oneTimePrekey)
  }

  function SecretsToBytes(s: Secrets): Bytes {
    [Byte(SECRETS_VERSION)] + (s.signedPrekey + (s.kemSecret
      + ([Byte(if s.oneTimePrekey.Some? then 1 else 0)] + Optional(s.oneTimePrekey))))
  }

  function SecretsFromBytes(b: Bytes): Result<Secrets> {
    var (version, b1) :- Take(b, 1);
    if version[0] != Byte(SECRETS_VERSION) then Err(Malformed("prekey secrets version"))
    else
      var (spk, b2) :- Take(b1, KEY_LEN);
      var (kem, b3) :- Take(b2, MLKEM_SECRET_LEN);
      var (flag, b4) :- Take(b3, 1);
      if flag[0] == Byte(0) then Ok(Secrets(spk, kem, None))
      else if flag[0] == Byte(1) then
        var (opk, b5) :- Take(b4, KEY_LEN);
        Ok(Secrets(spk, kem, Some(opk)))
      else Err(Malformed("prekey secrets opk flag"))
  }

  lemma SecretsRoundTrip(s: Secrets)
    requires SecretsFormed(s)
    ensures SecretsFromBytes(SecretsToBytes(s)) == Ok(s)
  {
    hide Take;
    var flag := [Byte(if s.oneTimePrekey.Some? then 1 else 0)];
    var b4 := Optional(s.oneTimePrekey);
    var b3 := flag + b4;
    var b2 := s.kemSecret + b3;
    var b1 := s.signedPrekey + b2;
    TakeAppended([Byte(SECRETS_VERSION)], b1);
    TakeAppended(s.signedPrekey, b2);
    TakeAppended(s.kemSecret, b3);
    TakeAppended(flag, b4);
    if s.oneTimePrekey.Some? {
      TakeAppended(s.oneTimePrekey.value, []);
      assert b4 + [] == b4;
    }
  }

  /** The octet strings that are secrets `s`, by position; whatever follows is ignored. */
  ghost predicate IsSecrets(b: Bytes, s: Secrets) {
    && SecretsFormed(s)
    && |b| >= 98 && b[0] == Byte(1) && b[1..33] == s.signedPrekey && b[33..97] == s.kemSecret
    && (match s.oneTimePrekey
        case None => b[97] == Byte(0)
        case Some(opk) => b[97] == Byte(1) && |b| >= 130 && b[98..130] == opk)
  }

  /** Secrets are restored exactly from the octet strings that are them. */
  lemma SecretsExact(b: Bytes, s: Secrets)
    ensures SecretsFromBytes(b) == Ok(s) <==> IsSecrets(b, s)
  {
    if |b| >= 98 {
      assert b[1..][..32] == b[1..33] && b[1..][32..] == b[33..];
      assert b[33..][..64] == b[33..97] && b[33..][64..] == b[97..];
      assert b[97..][..1] == [b[97]] && b[97..][1..] == b[98..];
      assert |b| >= 130 ==> b[98..][..32] == b[98..130];
    }
  }

  /** What is written is one of these strings, with nothing after it. */
  lemma SecretsLayout(s: Secrets)
    requires SecretsFormed(s)
    ensures IsSecrets(SecretsToBytes(s), s) && |SecretsToBytes(s)| == if s.oneTimePrekey.Some? then 130 else 98
  {
    hide SecretsFromBytes;
    SecretsRoundTrip(s);
    SecretsExact(SecretsToBytes(s), s);
  }
}
