/**
 One-time signed invites: where to reach the inviter, a prekey bundle to encrypt to them, a nonce and an expiry, all
 signed by the inviter's identity.
 */
module Invites {
  import opened Octets
  import opened Varint
  import opened Crypto
  import opened Frames
  import opened Ratchet
  import opened Prekeys
  import opened Handshake

  const INVITE_NONCE_LEN := 16
  const CA_FINGERPRINT_LEN := 32
  const QUEUE_ID_LEN := 32

  /** No buffer is longer than this. */
  const MAX_BUFFER: nat := 0x7fff_ffff_ffff_ffff

  function InviteContext(): (b: Bytes)
    ensures |b| == 13
  {
    Label("buh-invite-v1")
  }

  // ---------- Relay addresses are UTF-8 ----------

  predicate Within(b: Octet, low: u8, high: u8) {
    b.Byte? && low <= b.value <= high
  }

  /** The number of octets of the well-formed UTF-8 sequence `s` starts with, zero if there is none. */
  function Utf8Head(s: Bytes): (n: nat)
    ensures n <= |s|
  {
    if |s| >= 1 && Within(s[0], 0, 0x7f) then 1
    else if |s| >= 2 && Within(s[0], 0xc2, 0xdf) && Within(s[1], 0x80, 0xbf) then 2
    else if |s| >= 3 && Within(s[2], 0x80, 0xbf) && (
              || (s[0] == Byte(0xe0) && Within(s[1], 0xa0, 0xbf))
              || (s[0] == Byte(0xed) && Within(s[1], 0x80, 0x9f))
              || (Within(s[0], 0xe1, 0xef) && s[0] != Byte(0xed) && Within(s[1], 0x80, 0xbf))) then 3
    else if |s| >= 4 && Within(s[2], 0x80, 0xbf) && Within(s[3], 0x80, 0xbf) && (
              || (s[0] == Byte(0xf0) && Within(s[1], 0x90, 0xbf))
              || (s[0] == Byte(0xf4) && Within(s[1], 0x80, 0x8f))
              || (Within(s[0], 0xf1, 0xf3) && Within(s[1], 0x80, 0xbf))) then 4
    else 0
  }

  predicate IsUtf8(s: Bytes) {
    s == [] || (Utf8Head(s) > 0 && IsUtf8(s[Utf8Head(s)..]))
  }

  // ---------- Queue descriptors ----------

  datatype Queue = Queue(id: Bytes, relay: Bytes, fingerprint: Bytes)

  ghost predicate QueueFormed(q: Queue) {
    |q.id| == QUEUE_ID_LEN && IsUtf8(q.relay) && |q.relay| <= MAX_BUFFER && |q.fingerprint| == CA_FINGERPRINT_LEN
  }

  function QueueFields(q: Queue): seq<Field> {
    [Field(TAG_QUEUE_ID, q.id), Field(TAG_RELAY_URL, q.relay), Field(TAG_CA_FINGERPRINT, q.fingerprint)]
  }

  function EncodeQueue(q: Queue): Bytes {
    EncodeFrame(Frame(0, QueueFields(q)))
  }

  function DecodeQueue(bytes: Bytes): Result<Queue> {
    var frame :- DecodeFrame(bytes);
    var idBytes :- Require(frame.fields, TAG_QUEUE_ID);
    var id :- FixedLength(idBytes, QUEUE_ID_LEN, "queue id");
    var relay :- Require(frame.fields, TAG_RELAY_URL);
    if !IsUtf8(relay) then Err(Malformed("relay url"))
    else
      var fingerprintBytes :- Require(frame.fields, TAG_CA_FINGERPRINT);
      var fingerprint :- FixedLength(fingerprintBytes, CA_FINGERPRINT_LEN, "ca fingerprint");
      Ok(Queue(id, relay, fingerprint))
  }

  // ---------- Invites ----------

  /** What an invite claims; the prekey bundle as the octets it arrived in. */
  datatype Claim = Claim(queue: Queue, identity: Bytes, bundle: Bytes, nonce: Bytes, expiry: u64)

  datatype Invite = Invite(queue: Queue, bundle: Bundle, nonce: Bytes, expiry: u64, signature: Bytes)

  /** Eight octets, most significant first. */
  function U64Bytes(n: u64): (b: Bytes)
    ensures |b| == 8
  {
    U32Bytes(n / 0x1_0000_0000) + U32Bytes(n % 0x1_0000_0000)
  }

  function ReadU64(b: Bytes): Result<u64> {
    if |b| != 8 then Err(Malformed("invite expiry"))
    else
      var upper :- ReadU32(b[..4]);
      var lower :- ReadU32(b[4..]);
      Ok(upper * 0x1_0000_0000 + lower)
  }

  function ClaimFields(c: Claim): seq<Field> {
    [ Field(TAG_CONTEXT, InviteContext()),
      Field(TAG_QUEUE_URI, EncodeQueue(c.queue)),
      Field(TAG_IDENTITY_PUB, c.identity),
      Field(TAG_PREKEY_BUNDLE, c.bundle),
      Field(TAG_INVITE_NONCE, c.nonce),
      Field(TAG_EXPIRY, U64Bytes(c.expiry)) ]
  }

  /** The octets the inviter signs. */
  function InviteBody(c: Claim): Bytes {
    EncodeFrame(Frame(0, ClaimFields(c)))
  }

  /** The octets of a claim with a signature. */
  function SignedClaim(c: Claim, signature: Bytes): Bytes {
    EncodeFrame(Frame(0, ClaimFields(c) + [Field(TAG_SIGNATURE, signature)]))
  }

  function Create(seed: Bytes, queue: Queue, bundle: Bundle, nonce: Bytes, expiry: u64, rnd: Bytes): Invite {
    var body := InviteBody(Claim(queue, IdentityKey(seed), EncodeBundle(bundle), nonce, expiry));
    Invite(queue, bundle, nonce, expiry, Sign(seed, body, rnd))
  }

  /** What an invite claims when it is sent on: its bundle encoded anew, and that bundle's identity. */
  function ClaimOf(i: Invite): Claim {
    Claim(i.queue, i.bundle.offer.identity, EncodeBundle(i.bundle), i.nonce, i.expiry)
  }

  function EncodeInvite(i: Invite): Bytes {
    SignedClaim(ClaimOf(i), i.signature)
  }

  /** The claim and signature a list of fields carries. */
  function ReadInvite(fs: seq<Field>): Result<(Claim, Bytes)> {
    if Get(fs, TAG_CONTEXT) != Some(InviteContext()) then Err(Malformed("invite context"))
    else
      var queueBytes :- Require(fs, TAG_QUEUE_URI);
      var queue :- DecodeQueue(queueBytes);
      var identityBytes :- Require(fs, TAG_IDENTITY_PUB);
      var identity :- FixedLength(identityBytes, IDENTITY_PUBLIC_LEN, "identity public key");
      var bundle :- Require(fs, TAG_PREKEY_BUNDLE);
      var nonceBytes :- Require(fs, TAG_INVITE_NONCE);
      var nonce :- FixedLength(nonceBytes, INVITE_NONCE_LEN, "invite nonce");
      var expiryBytes :- Require(fs, TAG_EXPIRY);
      var expiry :- ReadU64(expiryBytes);
      var signatureBytes :- Require(fs, TAG_SIGNATURE);
      var signature :- FixedLength(signatureBytes, SIGNATURE_LEN, "signature");
      Ok((Claim(queue, identity, bundle, nonce, expiry), signature))
  }

  /** Verifies the bundle, that it names the inviter, and the inviter's signature over the claim as it arrived. */
  function VerifyClaim(c: Claim, signature: Bytes): Result<Invite> {
    var bundle :- DecodeBundle(c.bundle);
    if bundle.offer.identity != c.identity then Err(Malformed("invite identity mismatch"))
    else if !Verify(c.identity, InviteBody(c), signature) then Err(BadSignature)
    else Ok(Invite(c.queue, bundle, c.nonce, c.expiry, signature))
  }

  function DecodeInvite(bytes: Bytes): Result<Invite> {
    var frame :- DecodeFrame(bytes);
    var (claim, signature) :- ReadInvite(frame.fields);
    VerifyClaim(claim, signature)
  }

  // ---------- Sizes ----------

  lemma FieldLength(f: Field)
    requires |f.value| < U64_END
    ensures |f.value| <= |EncodeField(f)| <= |f.value| + 20
  {
    EncodedIsVarint(f.tag);
    EncodedIsVarint(|f.value|);
  }

  function Total(fs: seq<Field>): nat {
    if fs == [] then 0 else |fs[0].value| + 20 + Total(fs[1..])
  }

  lemma {:induction false} FieldsLength(fs: seq<Field>)
    requires Sized(fs)
    ensures |EncodeFields(fs)| <= Total(fs)
  {
    if fs != [] {
      FieldLength(fs[0]);
      FieldsLength(fs[1..]);
    }
  }

  lemma FrameLength(fs: seq<Field>)
    requires Sized(fs)
    ensures |EncodeFrame(Frame(0, fs))| <= Total(fs) + 12
  {
    EncodedIsVarint(0);
    FieldsLength(fs);
  }

  lemma {:induction false} GetShorter(fs: seq<Field>, tag: u64)
    requires Sized(fs) && Get(fs, tag).Some?
    ensures |Get(fs, tag).value| <= |EncodeFields(fs)|
  {
    FieldLength(fs[0]);
    if fs[0].tag != tag {
      GetShorter(fs[1..], tag);
    }
  }

  /** A field is never longer than the frame it was decoded from. */
  lemma DecodedFieldShorter(bytes: Bytes, tag: u64)
    requires DecodeFrame(bytes).Ok? && Get(DecodeFrame(bytes).value.fields, tag).Some?
    ensures |Get(DecodeFrame(bytes).value.fields, tag).value| <= |bytes|
  {
    hide DecodeFrame, EncodeFields, Get;
    FrameReencode(bytes);
    GetShorter(DecodeFrame(bytes).value.fields, tag);
  }

  lemma QueueLength(q: Queue)
    requires QueueFormed(q)
    ensures Sized(QueueFields(q)) && |EncodeQueue(q)| < U64_END
  {
    hide EncodeFrame, IsUtf8;
    var fs := QueueFields(q);
    FrameLength(fs);
    TotalOfThree(fs);
  }

  lemma TotalOfThree(fs: seq<Field>)
    requires |fs| >= 3
    ensures Total(fs) == |fs[0].value| + |fs[1].value| + |fs[2].value| + 60 + Total(fs[3..])
  {
    assert fs[1..][1..] == fs[2..] && fs[2..][1..] == fs[3..];
    assert Total(fs[2..]) == |fs[2].value| + 20 + Total(fs[3..]);
  }

  lemma {:induction false} TotalAppend(fs: seq<Field>, f: Field)
    ensures Total(fs + [f]) == Total(fs) + |f.value| + 20
  {
    if fs != [] {
      assert (fs + [f])[1..] == fs[1..] + [f];
      TotalAppend(fs[1..], f);
    }
  }

  lemma BundleTotal(b: Bundle)
    requires OfferFormed(b.offer) && |b.signature| == SIGNATURE_LEN
    ensures Total(BundleFields(b)) <= 0x1_0000
  {
    hide PrekeyContext;
    var o := OfferFields(b.offer);
    TotalAppend(o, Field(TAG_SIGNATURE, b.signature));
    TotalOfThree(o);
    assert o[3..][1..] == o[4..];
    assert Total(o[3..]) == |o[3].value| + 20 + Total(o[4..]);
    if |o| == 5 {
      assert o[4..] == [o[4]] && o[4..][1..] == [];
      assert Total(o[4..]) == KEY_LEN + 20;
    } else {
      assert o[4..] == [];
    }
  }

  lemma BundleLength(b: Bundle)
    requires OfferFormed(b.offer) && |b.signature| == SIGNATURE_LEN
    ensures |EncodeBundle(b)| < U64_END
  {
    hide EncodeFrame, BundleFields, Total;
    BundleSized(b);
    FrameLength(BundleFields(b));
    BundleTotal(b);
  }

  // ---------- Round trips ----------

  lemma U64RoundTrip(n: u64)
    ensures ReadU64(U64Bytes(n)) == Ok(n)
  {
    hide U32Bytes, ReadU32;
    var upper, lower := n / 0x1_0000_0000, n % 0x1_0000_0000;
    U32RoundTrip(upper);
    U32RoundTrip(lower);
    assert U64Bytes(n)[..4] == U32Bytes(upper) && U64Bytes(n)[4..] == U32Bytes(lower);
  }

  /** Eight octets are read as `n` exactly if they are the octets of `n`. */
  lemma U64Exact(b: Bytes, n: u64)
    ensures ReadU64(b) == Ok(n) <==> b == U64Bytes(n)
  {
    hide U32Bytes, ReadU32;
    U64RoundTrip(n);
    if ReadU64(b) == Ok(n) {
      var upper, lower := ReadU32(b[..4]).value, ReadU32(b[4..]).value;
      U32Exact(b[..4], upper);
      U32Exact(b[4..], lower);
      assert n / 0x1_0000_0000 == upper && n % 0x1_0000_0000 == lower;
      assert b == b[..4] + b[4..];
    }
  }

  /** Most significant half first. */
  lemma U64BigEndian(n: u64)
    ensures var b := U64Bytes(n);
            exists upper: u32, lower: u32 ::
              b[..4] == U32Bytes(upper) && b[4..] == U32Bytes(lower) && upper * 0x1_0000_0000 + lower == n
  {
    hide U32Bytes;
    var upper: u32, lower: u32 := n / 0x1_0000_0000, n % 0x1_0000_0000;
    assert U64Bytes(n)[..4] == U32Bytes(upper) && U64Bytes(n)[4..] == U32Bytes(lower);
  }

  lemma QueueRoundTrip(q: Queue)
    requires QueueFormed(q)
    ensures DecodeQueue(EncodeQueue(q)) == Ok(q)
  {
    hide EncodeFrame, DecodeFrame, Get, IsUtf8;
    var fs := QueueFields(q);
    FrameRoundTrip(Frame(0, fs));
    GetAt(fs, 0);
    GetAt(fs, 1);
    GetAt(fs, 2);
  }

  lemma DecodedQueueFormed(bytes: Bytes)
    requires DecodeQueue(bytes).Ok? && |bytes| <= MAX_BUFFER
    ensures QueueFormed(DecodeQueue(bytes).value)
  {
    hide DecodeFrame, Get, IsUtf8;
    DecodedFieldShorter(bytes, TAG_RELAY_URL);
  }

  /** The octet strings that are queue descriptor `q`. */
  ghost predicate IsQueue(bytes: Bytes, q: Queue) {
    && |q.id| == QUEUE_ID_LEN && IsUtf8(q.relay) && |q.fingerprint| == CA_FINGERPRINT_LEN
    && exists f :: IsFrame(bytes, f) && QueueIn(f.fields, q)
  }

  ghost predicate QueueIn(fs: seq<Field>, q: Queue) {
    Carries(fs, TAG_QUEUE_ID, q.id) && Carries(fs, TAG_RELAY_URL, q.relay) && Carries(fs, TAG_CA_FINGERPRINT, q.fingerprint)
  }

  lemma QueueExact(bytes: Bytes, q: Queue)
    ensures DecodeQueue(bytes) == Ok(q) <==> IsQueue(bytes, q)
  {
    hide DecodeFrame, IsFrame, Get, Carries, IsUtf8;
    if DecodeFrame(bytes).Ok? {
      var f := DecodeFrame(bytes).value;
      FrameDecodeExact(bytes, f);
      GetExact(f.fields, TAG_QUEUE_ID);
      GetExact(f.fields, TAG_RELAY_URL);
      GetExact(f.fields, TAG_CA_FINGERPRINT);
    }
    forall f | IsFrame(bytes, f)
      ensures DecodeFrame(bytes) == Ok(f)
    {
      FrameDecodeExact(bytes, f);
    }
  }

  /** The fields of an invite that claims `c`. */
  ghost predicate ClaimIn(fs: seq<Field>, c: Claim, signature: Bytes) {
    && Carries(fs, TAG_CONTEXT, InviteContext())
    && (exists queue :: Carries(fs, TAG_QUEUE_URI, queue) && IsQueue(queue, c.queue))
    && Carries(fs, TAG_IDENTITY_PUB, c.identity) && |c.identity| == IDENTITY_PUBLIC_LEN
    && Carries(fs, TAG_PREKEY_BUNDLE, c.bundle)
    && Carries(fs, TAG_INVITE_NONCE, c.nonce) && |c.nonce| == INVITE_NONCE_LEN
    && Carries(fs, TAG_EXPIRY, U64Bytes(c.expiry))
    && Carries(fs, TAG_SIGNATURE, signature) && |signature| == SIGNATURE_LEN
  }

  lemma ReadInviteExact(fs: seq<Field>, c: Claim, signature: Bytes)
    ensures ReadInvite(fs) == Ok((c, signature)) <==> ClaimIn(fs, c, signature)
  {
    hide Get, Carries, InviteContext, DecodeQueue, IsQueue, ReadU64, U64Bytes;
    GetExact(fs, TAG_CONTEXT);
    GetExact(fs, TAG_QUEUE_URI);
    GetExact(fs, TAG_IDENTITY_PUB);
    GetExact(fs, TAG_PREKEY_BUNDLE);
    GetExact(fs, TAG_INVITE_NONCE);
    GetExact(fs, TAG_EXPIRY);
    GetExact(fs, TAG_SIGNATURE);
    if Get(fs, TAG_QUEUE_URI).Some? {
      QueueExact(Get(fs, TAG_QUEUE_URI).value, c.queue);
    }
    if Get(fs, TAG_EXPIRY).Some? {
      U64Exact(Get(fs, TAG_EXPIRY).value, c.expiry);
    }
  }

  /** The octet strings that are invite `i`, claiming `c`: the bundle inside is signed, names the identity of the invite, and
      that identity signed everything, the bundle in the octets it came in. */
  ghost predicate IsInvite(bytes: Bytes, i: Invite, c: Claim) {
    && (exists f :: IsFrame(bytes, f) && ClaimIn(f.fields, c, i.signature))
    && c.queue == i.queue && c.nonce == i.nonce && c.expiry == i.expiry && c.identity == i.bundle.offer.identity
    && IsBundle(c.bundle, i.bundle)
    && Verify(c.identity, InviteBody(c), i.signature)
  }

  /** An invite is decoded exactly from the octet strings that are it. */
  lemma InviteExact(bytes: Bytes, i: Invite)
    ensures DecodeInvite(bytes) == Ok(i) <==> exists c :: IsInvite(bytes, i, c)
  {
    hide DecodeFrame, IsFrame, ReadInvite, ClaimIn, DecodeBundle, IsBundle, Verify, InviteBody;
    if DecodeInvite(bytes) == Ok(i) {
      var f := DecodeFrame(bytes).value;
      var (c, signature) := ReadInvite(f.fields).value;
      FrameDecodeExact(bytes, f);
      ReadInviteExact(f.fields, c, signature);
      BundleExact(c.bundle, i.bundle);
      assert IsInvite(bytes, i, c);
    }
    if c :| IsInvite(bytes, i, c) {
      var f :| IsFrame(bytes, f) && ClaimIn(f.fields, c, i.signature);
      FrameDecodeExact(bytes, f);
      ReadInviteExact(f.fields, c, i.signature);
      BundleExact(c.bundle, i.bundle);
    }
  }

  ghost predicate ClaimFormed(c: Claim) {
    && QueueFormed(c.queue) && |c.identity| == IDENTITY_PUBLIC_LEN && |c.bundle| < U64_END
    && |c.nonce| == INVITE_NONCE_LEN
  }

  ghost predicate InviteFormed(i: Invite) {
    && QueueFormed(i.queue) && OfferFormed(i.bundle.offer) && |i.bundle.signature| == SIGNATURE_LEN
    && |i.nonce| == INVITE_NONCE_LEN && |i.signature| == SIGNATURE_LEN
  }

  lemma ClaimSized(c: Claim)
    requires ClaimFormed(c)
    ensures Sized(ClaimFields(c))
  {
    hide EncodeQueue, U64Bytes;
    QueueLength(c.queue);
  }

  lemma ClaimFieldsRead(c: Claim, signature: Bytes)
    requires ClaimFormed(c) && |signature| == SIGNATURE_LEN
    ensures ReadInvite(ClaimFields(c) + [Field(TAG_SIGNATURE, signature)]) == Ok((c, signature))
  {
    hide EncodeQueue, DecodeQueue, U64Bytes, ReadU64, Get, InviteContext;
    var fs := ClaimFields(c) + [Field(TAG_SIGNATURE, signature)];
    QueueRoundTrip(c.queue);
    U64RoundTrip(c.expiry);
    GetAt(fs, 0);
    GetAt(fs, 1);
    GetAt(fs, 2);
    GetAt(fs, 3);
    GetAt(fs, 4);
    GetAt(fs, 5);
    GetAt(fs, 6);
  }

  /** A signed claim is decoded by verifying exactly that claim. */
  lemma SignedClaimDecodes(c: Claim, signature: Bytes)
    requires ClaimFormed(c) && |signature| == SIGNATURE_LEN
    ensures DecodeInvite(SignedClaim(c, signature)) == VerifyClaim(c, signature)
  {
    hide EncodeFrame, DecodeFrame, ClaimFields, ReadInvite, VerifyClaim;
    var fs := ClaimFields(c) + [Field(TAG_SIGNATURE, signature)];
    ClaimSized(c);
    FrameRoundTrip(Frame(0, fs));
    ClaimFieldsRead(c, signature);
  }

  lemma ClaimOfFormed(i: Invite)
    requires InviteFormed(i)
    ensures ClaimFormed(ClaimOf(i))
  {
    hide EncodeBundle;
    BundleLength(i.bundle);
  }

  /** A well-formed invite decodes back to itself exactly when its bundle is signed and its own signature covers the
      claim it encodes to. */
  lemma InviteRoundTrip(i: Invite)
    requires InviteFormed(i)
    ensures DecodeInvite(EncodeInvite(i)) ==
            if Authentic(i.bundle) && Verify(i.bundle.offer.identity, InviteBody(ClaimOf(i)), i.signature)
            then Ok(i) else Err(BadSignature)
  {
    hide EncodeBundle, DecodeBundle, SignedClaim, DecodeInvite, Authentic, Verify, InviteBody;
    ClaimOfFormed(i);
    SignedClaimDecodes(ClaimOf(i), i.signature);
    BundleRoundTrip(i.bundle);
  }

  /** A created invite decodes, exactly when its bundle is signed and names the identity that signs, to an invite with the queue,
      the bundle, the nonce and the expiry it was created with, signed by that identity. */
  lemma CreatedRoundTrip(seed: Bytes, queue: Queue, bundle: Bundle, nonce: Bytes, expiry: u64, rnd: Bytes)
    requires QueueFormed(queue) && OfferFormed(bundle.offer) && |bundle.signature| == SIGNATURE_LEN
    requires |nonce| == INVITE_NONCE_LEN
    ensures var r := DecodeInvite(EncodeInvite(Create(seed, queue, bundle, nonce, expiry, rnd)));
            if Authentic(bundle) && bundle.offer.identity == IdentityKey(seed)
            then
              && r.Ok? && r.value.queue == queue && r.value.bundle == bundle && r.value.nonce == nonce && r.value.expiry == expiry
              && r.value.signature == Sign(seed, InviteBody(Claim(queue, IdentityKey(seed), EncodeBundle(bundle), nonce, expiry)), rnd)
            else r == Err(BadSignature)
  {
    hide EncodeBundle, EncodeInvite, DecodeInvite, Authentic, Verify, InviteBody, Sign, QueueFormed;
    var i := Create(seed, queue, bundle, nonce, expiry, rnd);
    InviteRoundTrip(i);
    var signed := InviteBody(Claim(queue, IdentityKey(seed), EncodeBundle(bundle), nonce, expiry));
    VerifyCorrect(seed, signed, rnd);
    if Verify(bundle.offer.identity, InviteBody(ClaimOf(i)), i.signature) {
      SignedMessage(bundle.offer.identity, InviteBody(ClaimOf(i)), seed, signed, rnd);
    }
  }

  // ---------- Binding ----------

  /** The signed octets determine the queue, the identity, the bundle octets, the nonce and the expiry. */
  lemma InviteBodyInjective(c: Claim, d: Claim)
    requires ClaimFormed(c) && ClaimFormed(d) && InviteBody(c) == InviteBody(d)
    ensures c == d
  {
    hide EncodeFrame, InviteContext, EncodeQueue, DecodeQueue, U64Bytes, ReadU64;
    ClaimSized(c);
    ClaimSized(d);
    var x, y := ClaimFields(c), ClaimFields(d);
    EncodeInjective(Frame(0, x), Frame(0, y));
    assert x[1] == y[1] && x[2] == y[2] && x[3] == y[3] && x[4] == y[4] && x[5] == y[5];
    QueueRoundTrip(c.queue);
    QueueRoundTrip(d.queue);
    U64RoundTrip(c.expiry);
    U64RoundTrip(d.expiry);
  }

  /** What is signed, field by field. */
  lemma InviteBodyLayout(c: Claim)
    requires ClaimFormed(c)
    ensures DecodeFrame(InviteBody(c)) == Ok(Frame(0,
              [ Field(0x07, InviteContext()), Field(0x03, EncodeQueue(c.queue)), Field(0x01, c.identity),
                Field(0x02, c.bundle), Field(0x04, c.nonce), Field(0x05, U64Bytes(c.expiry)) ]))
  {
    hide DecodeFrame, EncodeFrame, InviteContext, EncodeQueue, U64Bytes;
    ClaimSized(c);
    FrameRoundTrip(Frame(0, ClaimFields(c)));
  }

  /** An invite body is neither a prekey body nor a handshake transcript. */
  lemma InviteBodyApart(c: Claim, o: Offer, p: Offer, h: Hello)
    requires ClaimFormed(c) && OfferFormed(o) && OfferFormed(p) && HelloFormed(h)
    ensures InviteBody(c) != SigningBody(o) && InviteBody(c) != Transcript(p, h)
  {
    hide EncodeFrame, EncodeQueue, U64Bytes;
    ClaimSized(c);
    OfferSized(o);
    TranscriptSized(p, h);
    FirstLengthApart(ClaimFields(c), OfferFields(o));
    FirstLengthApart(ClaimFields(c), ResponderFields(p) + HelloFields(h));
  }

  /** The claim a decoded invite arrived as. */
  ghost function Arrived(bytes: Bytes): Claim
    requires DecodeInvite(bytes).Ok?
  {
    ReadInvite(DecodeFrame(bytes).value.fields).value.0
  }

  lemma ArrivedFormed(bytes: Bytes)
    requires DecodeInvite(bytes).Ok? && |bytes| <= MAX_BUFFER
    ensures ClaimFormed(Arrived(bytes))
  {
    hide DecodeFrame, Get, DecodeQueue, ReadU64, QueueFormed, VerifyClaim, InviteContext;
    var fs := DecodeFrame(bytes).value.fields;
    DecodedFieldShorter(bytes, TAG_QUEUE_URI);
    DecodedFieldShorter(bytes, TAG_PREKEY_BUNDLE);
    DecodedQueueFormed(Get(fs, TAG_QUEUE_URI).value);
  }

  /** Whatever decodes is authentic: its bundle is signed by the identity it names, and so is every other part of it,
      the bundle in the octets it arrived in. */
  lemma DecodedInviteAuthentic(bytes: Bytes)
    requires DecodeInvite(bytes).Ok? && |bytes| <= MAX_BUFFER
    ensures var i := DecodeInvite(bytes).value;
            && InviteFormed(i) && Authentic(i.bundle)
            && DecodeBundle(Arrived(bytes).bundle) == Ok(i.bundle)
            && Arrived(bytes) == ClaimOf(i).(bundle := Arrived(bytes).bundle)
            && Verify(i.bundle.offer.identity, InviteBody(Arrived(bytes)), i.signature)
  {
    hide DecodeFrame, ReadInvite, DecodeBundle, InviteBody, Verify, QueueFormed, Authentic, OfferFormed;
    ArrivedFormed(bytes);
    DecodedAuthentic(Arrived(bytes).bundle);
    VerifiedLength(Arrived(bytes).identity, InviteBody(Arrived(bytes)), DecodeInvite(bytes).value.signature);
  }

  lemma VerifiedLength(pk: Bytes, msg: Bytes, signature: Bytes)
    requires Verify(pk, msg, signature)
    ensures |signature| == SIGNATURE_LEN
  {
  }

  /** One signature verifies for one message only. */
  lemma VerifiedOnce(pk: Bytes, msg: Bytes, other: Bytes, signature: Bytes)
    requires Verify(pk, msg, signature) && Verify(pk, other, signature)
    ensures msg == other
  {
    SignedMessage(pk, other, signature[0].args[0].args, msg, signature[0].args[2].args);
  }

  /** A decoded invite, sent on, decodes to itself exactly when its bundle arrived in the bundle's own encoding; in every
      other case its signature no longer fits. */
  lemma DecodedInviteRedecodes(bytes: Bytes)
    requires DecodeInvite(bytes).Ok? && |bytes| <= MAX_BUFFER
    ensures var i := DecodeInvite(bytes).value;
            DecodeInvite(EncodeInvite(i)) ==
            if Arrived(bytes).bundle == EncodeBundle(i.bundle) then Ok(i) else Err(BadSignature)
  {
    hide DecodeInvite, EncodeInvite, EncodeBundle, DecodeBundle, InviteBody, Verify, Arrived, Authentic, InviteFormed, ClaimFormed;
    var i := DecodeInvite(bytes).value;
    DecodedInviteAuthentic(bytes);
    InviteRoundTrip(i);
    ArrivedFormed(bytes);
    ClaimOfFormed(i);
    if Verify(i.bundle.offer.identity, InviteBody(ClaimOf(i)), i.signature) {
      VerifiedOnce(i.bundle.offer.identity, InviteBody(Arrived(bytes)), InviteBody(ClaimOf(i)), i.signature);
      InviteBodyInjective(Arrived(bytes), ClaimOf(i));
    }
  }

  /** The signature of a created invite is accepted only with the queue, bundle, nonce and expiry it was created with. */
  lemma InviteSignatureBinds(seed: Bytes, queue: Queue, bundle: Bundle, nonce: Bytes, expiry: u64, rnd: Bytes, bytes: Bytes)
    requires QueueFormed(queue) && OfferFormed(bundle.offer) && |bundle.signature| == SIGNATURE_LEN
    requires |nonce| == INVITE_NONCE_LEN && |bytes| <= MAX_BUFFER
    requires DecodeInvite(bytes).Ok?
    requires DecodeInvite(bytes).value.signature == Create(seed, queue, bundle, nonce, expiry, rnd).signature
    ensures var i := DecodeInvite(bytes).value;
            && i.queue == queue && i.bundle == bundle && i.nonce == nonce && i.expiry == expiry
            && i.bundle.offer.identity == IdentityKey(seed)
  {
    hide DecodeInvite, EncodeBundle, DecodeBundle, InviteBody, Verify, Arrived, Authentic, QueueFormed, Sign;
    var i := DecodeInvite(bytes).value;
    var signed := Claim(queue, IdentityKey(seed), EncodeBundle(bundle), nonce, expiry);
    DecodedInviteAuthentic(bytes);
    SignedMessage(i.bundle.offer.identity, InviteBody(Arrived(bytes)), seed, InviteBody(signed), rnd);
    ArrivedFormed(bytes);
    BundleLength(bundle);
    InviteBodyInjective(Arrived(bytes), signed);
    BundleRoundTrip(bundle);
  }

  // ---------- An invite that does not survive being sent on ----------

  /** A bundle followed by a field no version 1 reader looks at. */
  function Extended(b: Bundle): Bytes {
    EncodeFrame(Frame(0, BundleFields(b) + [Field(TAG_CIPHERTEXT, [])]))
  }

  lemma ExtendedDecodes(b: Bundle)
    requires OfferFormed(b.offer) && |b.signature| == SIGNATURE_LEN && Authentic(b)
    ensures DecodeBundle(Extended(b)) == Ok(b) && Extended(b) != EncodeBundle(b) && |Extended(b)| < U64_END
  {
    hide EncodeFrame, DecodeFrame, Authentic, ReadBundle, BundleFields;
    var fs := BundleFields(b) + [Field(TAG_CIPHERTEXT, [])];
    BundleSized(b);
    FrameRoundTrip(Frame(0, fs));
    FrameRoundTrip(Frame(0, BundleFields(b)));
    BundleFieldsRead(b, [Field(TAG_CIPHERTEXT, [])]);
    ExtendedLength(b);
  }

  lemma ExtendedLength(b: Bundle)
    requires OfferFormed(b.offer) && |b.signature| == SIGNATURE_LEN
    ensures |Extended(b)| < U64_END
  {
    hide EncodeFrame, BundleFields;
    BundleSized(b);
    FrameLength(BundleFields(b) + [Field(TAG_CIPHERTEXT, [])]);
    TotalAppend(BundleFields(b), Field(TAG_CIPHERTEXT, []));
    BundleTotal(b);
  }

  /** For every inviter, an invite signed over an extended bundle is accepted, and rejected once sent on. */
  lemma ExtendedInviteLost(seed: Bytes, queue: Queue, secrets: Secrets, nonce: Bytes, expiry: u64, rnd: Bytes)
    requires QueueFormed(queue) && |nonce| == INVITE_NONCE_LEN
    ensures var b := Generate(seed, secrets, rnd);
            var c := Claim(queue, IdentityKey(seed), Extended(b), nonce, expiry);
            var i := Invite(queue, b, nonce, expiry, Sign(seed, InviteBody(c), rnd));
            DecodeInvite(SignedClaim(c, i.signature)) == Ok(i) && DecodeInvite(EncodeInvite(i)) == Err(BadSignature)
  {
    hide DecodeInvite, EncodeInvite, SignedClaim, EncodeBundle, DecodeBundle, InviteBody, Verify, Authentic, QueueFormed, Sign, Extended;
    hide SigningBody;
    var b := Generate(seed, secrets, rnd);
    GeneratedRoundTrip(seed, secrets, rnd);
    ExtendedDecodes(b);
    var c := Claim(queue, IdentityKey(seed), Extended(b), nonce, expiry);
    var i := Invite(queue, b, nonce, expiry, Sign(seed, InviteBody(c), rnd));
    SignedClaimDecodes(c, i.signature);
    VerifyCorrect(seed, InviteBody(c), rnd);
    InviteRoundTrip(i);
    ClaimOfFormed(i);
    if Verify(IdentityKey(seed), InviteBody(ClaimOf(i)), i.signature) {
      VerifiedOnce(IdentityKey(seed), InviteBody(c), InviteBody(ClaimOf(i)), i.signature);
      InviteBodyInjective(c, ClaimOf(i));
      assert false;
    }
  }
}
