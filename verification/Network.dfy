/**
 What a network can put together: unforgeability, derived.

 The network knows some octets, and builds others by applying functions to what it knows or has built. Two functions ask
 for more than their arguments: a shared X25519 or ML-KEM secret also needs one of the secrets behind it. Randomness is
 not built, only known. What can be opened with keys from outside the session counts as known from outside.
 */
module Network {
  import opened Octets
  import opened Varint
  import opened Crypto
  import opened Chains
  import opened Frames
  import opened Ratchet
  import opened Joint
  import opened Delivery
  import opened Soundness
  import opened Facade
  import opened Runs
  import opened RawRuns
  import opened Prekeys
  import opened Handshake

  ghost predicate Composable(known: iset<Octet>, o: Octet)
    decreases o
  {
    o in known || match o
                  case Byte(_) => true
                  case Of(op, args, _) =>
                    match op
                    case Drawn => false
                    case X25519Shared =>
                      |args| == 2 && (HasSecret(known, args[0], X25519Public) || HasSecret(known, args[1], X25519Public))
                    case KemShared =>
                      AllComposable(known, args) || (args != [] && HasSecret(known, args[0], KemPublic))
                    case _ => AllComposable(known, args)
  }

  ghost predicate AllComposable(known: iset<Octet>, s: Bytes)
    decreases s
  {
    forall i :: 0 <= i < |s| ==> Composable(known, s[i])
  }

  /** The argument is a public key, and the secret behind it can be composed. */
  ghost predicate HasSecret(known: iset<Octet>, arg: Octet, half: Op)
    decreases arg
  {
    arg.Of? && IsTerm(arg.args, half) && AllComposable(known, arg.args[0].args[0].args)
  }

  // ---------- The secrets of a session ----------

  /** The root keys, chain keys, message keys and AEAD keys of a session. */
  ghost predicate SessionSecret(root: Bytes, s: Bytes) {
    OnRootChain(root, s) || OnChain(root, s) || Descends(root, s) || IsSealKey(root, s)
  }

  ghost predicate IsSealKey(root: Bytes, s: Bytes) {
    IsTerm(s, SealKey) && Descends(root, s[0].args[0].args)
  }

  /** An octet of a secret of the session, or a whole secret as an argument. */
  ghost predicate Leaks(root: Bytes, o: Octet) {
    o.Of? && (SessionSecret(root, [o]) || (o.op == Boxed && SessionSecret(root, o.args)))
  }

  /** An octet sealed under a key of the session. */
  ghost predicate SealedHere(root: Bytes, o: Octet) {
    o.Of? && o.op == Sealed && |o.args| == 4 && o.args[0].Of? && o.args[0].op == Boxed && IsSealKey(root, o.args[0].args)
  }

  /** A secret other than the session root is an output, of a function that wants another secret. */
  lemma SecretStep(root: Bytes, s: Bytes)
    requires SessionSecret(root, s) && s != root
    ensures IsTerm(s, s[0].op) && s[0].op in {RootStep, ChainStart, NextChain, MessageKey, SealKey}
    ensures SessionSecret(root, s[0].args[0].args) && SessionSecret(root, [s[0]])
  {
  }

  /** Without the session root, and with no secret of the session known, none can be composed. */
  lemma {:induction false} SecretsHidden(known: iset<Octet>, root: Bytes, s: Bytes)
    requires SessionSecret(root, s) && !AllComposable(known, root)
    requires forall o :: o in known ==> !Leaks(root, o)
    ensures !AllComposable(known, s)
    decreases s
  {
    hide SessionSecret;
    if s != root {
      SecretStep(root, s);
      var inner := s[0].args[0];
      SecretsHidden(known, root, inner.args);
      assert Leaks(root, s[0]) && Leaks(root, inner);
      assert !Composable(known, inner);
      assert !AllComposable(known, s[0].args);
    }
  }

  /** What is sealed under a key of the session can be had only by having seen it. */
  lemma SealedSeen(known: iset<Octet>, root: Bytes, o: Octet)
    requires SealedHere(root, o) && Composable(known, o) && !AllComposable(known, root)
    requires forall o :: o in known ==> !Leaks(root, o)
    ensures o in known
  {
    hide OnRootChain, OnChain, Descends;
    var key := o.args[0];
    SecretsHidden(known, root, key.args);
    assert Leaks(root, key);
    assert !Composable(known, key);
  }

  // ---------- Octets on the wire ----------

  lemma {:induction false} VarintOctets(v: nat, o: Octet)
    requires o in EncodeVarint(v)
    ensures o.Byte?
  {
    if v >= 0x80 && o != EncodeVarint(v)[0] {
      VarintOctets(v / 0x80, o);
    }
  }

  lemma {:induction false} FieldsOctets(fs: seq<Field>, o: Octet)
    requires o in EncodeFields(fs)
    ensures o.Byte? || exists i :: 0 <= i < |fs| && o in fs[i].value
  {
    hide EncodeVarint;
    if o in EncodeVarint(fs[0].tag) {
      VarintOctets(fs[0].tag, o);
    } else if o in EncodeVarint(|fs[0].value|) {
      VarintOctets(|fs[0].value|, o);
    } else if o !in fs[0].value {
      FieldsOctets(fs[1..], o);
    }
  }

  /** Nothing but literal bytes, the header's key and the ciphertext goes on the wire. */
  lemma WireOctets(h: Header, cipher: Bytes, o: Octet)
    requires o in WireMessage(h, cipher)
    ensures o.Byte? || o in h.dh || o in cipher
  {
    hide EncodeVarint, EncodeFields;
    var fs := HeaderFields(h) + [Field(TAG_CIPHERTEXT, cipher)];
    if o in EncodeVarint(0) {
      VarintOctets(0, o);
    } else if o in EncodeFields(fs) {
      FieldsOctets(fs, o);
    }
  }

  lemma {:induction false} ParsedOctets(s: Bytes, tag: u64, o: Octet)
    requires ParseFields(s).Ok? && Get(ParseFields(s).value, tag).Some? && o in Get(ParseFields(s).value, tag).value
    ensures o in s
  {
    hide TakeVarint;
    var (f, n) := TakeField(s).value;
    var rest := ParseFields(s[n..]).value;
    assert ([f] + rest)[1..] == rest;
    if f.tag != tag {
      ParsedOctets(s[n..], tag, o);
    }
  }

  /** The ciphertext of a message is made of octets of the message. */
  lemma CipherOctets(message: Bytes, o: Octet)
    requires ParseMessage(message).Ok? && o in ParseMessage(message).value.1
    ensures o in message
  {
    hide ParseFields, TakeVarint, Get;
    var n := TakeVarint(message[2..]).value.1;
    ParsedOctets(message[2 + n..], TAG_CIPHERTEXT, o);
  }

  // ---------- Unforgeability ----------

  /** An octet that is a literal byte, part of an X25519 public key or part of a ciphertext. */
  predicate WireOctet(o: Octet) {
    o.Byte? || o.op == X25519Public || o.op == Sealed
  }

  /** Everything that has gone on the wire in a session. */
  ghost function Wires(es: seq<Epoch>): iset<Octet>
    requires Linked(es)
  {
    iset j: nat, n: nat, o | Sent(es, j, n) && o in WireOf(es, j, n) :: o
  }

  /** What the network knows: something from outside, and everything that has gone on the wire. */
  ghost function Knowledge(outside: iset<Octet>, es: seq<Epoch>): iset<Octet>
    requires Linked(es)
  {
    outside + Wires(es)
  }

  /** From outside the session come none of its secrets, and nothing sealed under them. */
  ghost predicate Outside(root: Bytes, outside: iset<Octet>) {
    forall o :: o in outside ==> !Leaks(root, o) && !SealedHere(root, o)
  }

  lemma WiresHarmless(es: seq<Epoch>, root: Bytes, o: Octet)
    requires Linked(es) && o in Wires(es) && |root| > 1
    ensures WireOctet(o) && !Leaks(root, o)
    ensures o.Of? && o.op == Sealed ==> exists j: nat, n: nat :: Sent(es, j, n) && o in CipherOf(es, j, n)
  {
    hide WireMessage, CipherOf, PublicKey, Linked;
    var j: nat, n: nat :| Sent(es, j, n) && o in WireOf(es, j, n);
    WireOctets(HeaderOf(es, j, n), CipherOf(es, j, n), o);
    if o in HeaderOf(es, j, n).dh {
      PublicOctet(es[j].key, o);
    } else if o in CipherOf(es, j, n) {
      CipherOctet(es, j, n, o);
    }
  }

  lemma CipherOctet(es: seq<Epoch>, j: nat, n: nat, o: Octet)
    requires Linked(es) && Sent(es, j, n) && o in CipherOf(es, j, n)
    ensures o.Of? && o.op == Sealed
  {
    hide Linked, SealWith, HeaderOf;
    SealedOctet(MessageKeyAt(es[j].chain, n), HeaderOf(es, j, n), es[j].sent[n], o);
  }

  lemma PublicOctet(sk: Bytes, o: Octet)
    requires o in PublicKey(sk)
    ensures o.Of? && o.op == X25519Public
  {
  }

  lemma SealedOctet(mk: Bytes, h: Header, plain: Bytes, o: Octet)
    requires o in SealWith(mk, h, plain)
    ensures o.Of? && o.op == Sealed
    ensures var (key, nonce) := MessageKeys(mk); o.args == SealArgs(key, nonce, ToAad(h), plain)
  {
    hide ToAad, MessageKeys;
  }

  lemma SealIsHere(root: Bytes, mk: Bytes, aad: Bytes, plain: Bytes)
    requires Descends(root, mk)
    ensures var cipher := Seal(MessageKeys(mk).0, MessageKeys(mk).1, aad, plain);
            |cipher| > 0 && SealedHere(root, cipher[0])
  {
    hide Descends;
    var (key, nonce) := MessageKeys(mk);
    var cipher := Seal(key, nonce, aad, plain);
    assert cipher[0] == Of(Sealed, SealArgs(key, nonce, aad, plain), 0);
    assert cipher[0].args[0] == Box(key);
    assert key[0] == Of(SealKey, [Box(mk)], 0) && key[0].args[0] == Box(mk);
  }

  /** A seal is determined by any of its octets. */
  lemma SealFromOctet(k: Bytes, n: Bytes, a: Bytes, p: Bytes, k': Bytes, n': Bytes, a': Bytes, p': Bytes, o: Octet)
    requires o in Seal(k, n, a, p) && o in Seal(k', n', a', p')
    ensures Seal(k, n, a, p) == Seal(k', n', a', p')
  {
    var x, y := SealArgs(k, n, a, p), SealArgs(k', n', a', p');
    assert o.args == x && o.args == y;
    assert x[0] == y[0] && x[1] == y[1] && x[2] == y[2] && x[3] == y[3];
  }

  /** Whatever ciphertext the network puts together, without the session root, is no forgery: what is sealed under a key of
      the session was sent by one of its ends. */
  lemma ComposedUnforged(outside: iset<Octet>, es: seq<Epoch>, cipher: Bytes)
    requires Linked(es) && |es[0].root| > 1 && Outside(es[0].root, outside)
    requires !AllComposable(Knowledge(outside, es), es[0].root) && AllComposable(Knowledge(outside, es), cipher)
    ensures Unforged(es, cipher)
  {
    hide LinkedAt, KeysDiffer, Counted, CipherOf, Descends, Leaks, SealedHere, Wires, Seal;
    var root, known := es[0].root, Knowledge(outside, es);
    forall o | o in known
      ensures !Leaks(root, o)
    {
      if o in Wires(es) {
        WiresHarmless(es, root, o);
      }
    }
    forall mk, aad, plain | SealedUnder(cipher, mk, aad, plain) && Descends(root, mk)
      ensures exists j: nat, n: nat :: Sent(es, j, n) && cipher == CipherOf(es, j, n)
    {
      SealIsHere(root, mk, aad, plain);
      SealedSeen(known, root, cipher[0]);
      SealedOp(root, cipher[0]);
      WiresHarmless(es, root, cipher[0]);
      var j: nat, n: nat :| Sent(es, j, n) && cipher[0] in CipherOf(es, j, n);
      SealSent(es, cipher, mk, aad, plain, j, n);
    }
  }

  lemma SealedOp(root: Bytes, o: Octet)
    requires SealedHere(root, o)
    ensures o.Of? && o.op == Sealed
  {
  }

  lemma SealSent(es: seq<Epoch>, cipher: Bytes, mk: Bytes, aad: Bytes, plain: Bytes, j: nat, n: nat)
    requires Linked(es) && Sent(es, j, n) && SealedUnder(cipher, mk, aad, plain) && cipher != [] && cipher[0] in CipherOf(es, j, n)
    ensures cipher == CipherOf(es, j, n)
  {
    hide Linked, Seal, MessageKeys, ToAad, HeaderOf;
    var (key, nonce) := MessageKeys(mk);
    var (key', nonce') := MessageKeys(MessageKeyAt(es[j].chain, n));
    SealFromOctet(key, nonce, aad, plain, key', nonce', ToAad(HeaderOf(es, j, n)), es[j].sent[n], cipher[0]);
  }

  // ---------- The handshake root ----------

  /** A string of fresh randomness of which something has not come out. */
  ghost predicate Fresh(known: iset<Octet>, s: Bytes) {
    exists i :: 0 <= i < |s| && s[i].Of? && s[i].op == Drawn && s[i] !in known
  }

  lemma FreshHidden(known: iset<Octet>, s: Bytes)
    requires Fresh(known, s)
    ensures !AllComposable(known, s)
  {
    var i :| 0 <= i < |s| && s[i].Of? && s[i].op == Drawn && s[i] !in known;
    assert !Composable(known, s[i]);
  }

  /** A shared X25519 secret, not known itself, can be composed only with one of the two secrets behind it. */
  lemma SharedHidden(known: iset<Octet>, a: Bytes, b: Bytes)
    requires AllComposable(known, DiffieHellman(a, PublicKey(b)))
    requires forall o :: o in DiffieHellman(a, PublicKey(b)) ==> o !in known
    ensures AllComposable(known, a) || AllComposable(known, b)
  {
    var shared, p, q := DiffieHellman(a, PublicKey(b)), PublicKey(a), PublicKey(b);
    assert shared[0] in shared && Composable(known, shared[0]);
    assert p[0] == Of(X25519Public, [Box(a)], 0) && q[0] == Of(X25519Public, [Box(b)], 0);
    assert p[0].args[0] == Box(a) && q[0].args[0] == Box(b);
    var args := shared[0].args;
    assert args == [Box(p), Box(q)] || args == [Box(q), Box(p)];
    assert HasSecret(known, args[0], X25519Public) || HasSecret(known, args[1], X25519Public);
  }

  /** An encapsulated secret, not known itself, can be composed only with the randomness drawn for it or the KEM secret. */
  lemma EncapsulatedHidden(known: iset<Octet>, dk: Bytes, rnd: Bytes)
    requires AllComposable(known, Encapsulate(EncapsKey(dk), rnd).1)
    requires forall o :: o in Encapsulate(EncapsKey(dk), rnd).1 ==> o !in known
    requires Box(rnd) !in known
    ensures AllComposable(known, rnd) || AllComposable(known, dk)
  {
    var ek, shared := EncapsKey(dk), Encapsulate(EncapsKey(dk), rnd).1;
    assert shared[0] == Of(KemShared, [Box(ek), Box(rnd)], 0);
    assert shared[0] in shared && Composable(known, shared[0]);
    assert ek[0] == Of(KemPublic, [Box(dk)], 0) && ek[0].args[0] == Box(dk);
    var args := shared[0].args;
    assert args[0] == Box(ek) && args[1] == Box(rnd);
    if AllComposable(known, args) {
      assert Composable(known, args[1]);
    } else {
      assert HasSecret(known, args[0], KemPublic);
    }
  }

  /** What the initiator feeds into the root key. */
  function KeyMaterial(secrets: Secrets, d: Draw): Bytes {
    var onetime := if secrets.oneTimePrekey.Some? then DiffieHellman(d.ephemeral, PublicKey(secrets.oneTimePrekey.value)) else [];
    DiffieHellman(d.ephemeral, PublicKey(secrets.signedPrekey)) + onetime + Encapsulate(EncapsKey(secrets.kemSecret), d.kem).1
  }

  /** The root key agreed on, and what it is made of, are not known as such. */
  ghost predicate RootUnseen(known: iset<Octet>, ikm: Bytes, root: Bytes, rnd: Bytes) {
    && Box(ikm) !in known && Box(rnd) !in known
    && (forall o :: o in ikm ==> o !in known)
    && (forall o :: o in root ==> o !in known)
  }

  lemma RootIsDerived(responderSeed: Bytes, secrets: Secrets, bundleRnd: Bytes, initiatorSeed: Bytes, d: Draw)
    returns (script: Bytes)
    ensures Initiate(initiatorSeed, Generate(responderSeed, secrets, bundleRnd).offer, d).1 ==
            DeriveRoot(KeyMaterial(secrets, d), script)
  {
    hide Transcript, Sign, SigningBody, DiffieHellman, PublicKey;
    var o := Generate(responderSeed, secrets, bundleRnd).offer;
    script := Transcript(o, Initiate(initiatorSeed, o, d).0.hello);
  }

  /** Hybrid secrecy: whoever composes the root key of a handshake holds an X25519 secret, the initiator's ephemeral one or the
      responder's prekey, and a KEM secret, the randomness of the encapsulation or the responder's decapsulation key. */
  lemma RootNeedsBoth(known: iset<Octet>, responderSeed: Bytes, secrets: Secrets, bundleRnd: Bytes, initiatorSeed: Bytes, d: Draw)
    requires var root := Initiate(initiatorSeed, Generate(responderSeed, secrets, bundleRnd).offer, d).1;
             RootUnseen(known, KeyMaterial(secrets, d), root, d.kem) && AllComposable(known, root)
    ensures AllComposable(known, d.ephemeral) || AllComposable(known, secrets.signedPrekey)
    ensures AllComposable(known, d.kem) || AllComposable(known, secrets.kemSecret)
  {
    hide Initiate, Generate, DiffieHellman, Encapsulate, EncapsKey, PublicKey;
    var script := RootIsDerived(responderSeed, secrets, bundleRnd, initiatorSeed, d);
    var ikm := KeyMaterial(secrets, d);
    RootMaterial(known, ikm, script);
    var dh, kem := DiffieHellman(d.ephemeral, PublicKey(secrets.signedPrekey)), Encapsulate(EncapsKey(secrets.kemSecret), d.kem).1;
    PartComposable(known, [], dh, ikm[|dh|..]);
    PartComposable(known, ikm[..|ikm| - |kem|], kem, []);
    assert ikm == [] + dh + ikm[|dh|..] && ikm == ikm[..|ikm| - |kem|] + kem + [];
    SharedHidden(known, d.ephemeral, secrets.signedPrekey);
    EncapsulatedHidden(known, secrets.kemSecret, d.kem);
  }

  lemma RootMaterial(known: iset<Octet>, ikm: Bytes, script: Bytes)
    requires AllComposable(known, DeriveRoot(ikm, script)) && Box(ikm) !in known
    requires forall o :: o in DeriveRoot(ikm, script) ==> o !in known
    ensures AllComposable(known, ikm)
  {
    var root := DeriveRoot(ikm, script);
    assert root[0] in root && Composable(known, root[0]);
    assert root[0] == Of(HandshakeRoot, [Box(ikm), Box(script)], 0);
    var args := root[0].args;
    assert AllComposable(known, args);
    assert args[0] == Box(ikm) && Composable(known, args[0]);
  }

  lemma PartComposable(known: iset<Octet>, a: Bytes, b: Bytes, c: Bytes)
    ensures AllComposable(known, a + b + c) ==> AllComposable(known, b)
  {
    if AllComposable(known, a + b + c) {
      forall i | 0 <= i < |b|
        ensures Composable(known, b[i])
      {
        assert (a + b + c)[|a| + i] == b[i];
      }
    }
  }

  // ---------- Runs ----------

  /** However much goes on the wire, the root cannot be composed. */
  ghost predicate Unreachable(outside: iset<Octet>, root: Bytes) {
    forall wires: iset<Octet> :: (forall o :: o in wires ==> WireOctet(o)) ==> !AllComposable(outside + wires, root)
  }

  /** The root of a handshake is out of reach if the X25519 secrets, or else the KEM secrets, were drawn and have not come
      out: one half of the hybrid is enough. */
  lemma HandshakeRootUnreachable(outside: iset<Octet>, responderSeed: Bytes, secrets: Secrets, bundleRnd: Bytes,
                                 initiatorSeed: Bytes, d: Draw)
    requires || (Fresh(outside, d.ephemeral) && Fresh(outside, secrets.signedPrekey))
             || (Fresh(outside, d.kem) && Fresh(outside, secrets.kemSecret))
    requires RootUnseen(outside, KeyMaterial(secrets, d),
                        Initiate(initiatorSeed, Generate(responderSeed, secrets, bundleRnd).offer, d).1, d.kem)
    ensures Unreachable(outside, Initiate(initiatorSeed, Generate(responderSeed, secrets, bundleRnd).offer, d).1)
  {
    hide Initiate, Generate, KeyMaterial, AllComposable, Fresh, DeriveRoot;
    var ikm, root := KeyMaterial(secrets, d), Initiate(initiatorSeed, Generate(responderSeed, secrets, bundleRnd).offer, d).1;
    var script := RootIsDerived(responderSeed, secrets, bundleRnd, initiatorSeed, d);
    forall wires: iset<Octet> | forall o :: o in wires ==> WireOctet(o)
      ensures !AllComposable(outside + wires, root)
    {
      var known := outside + wires;
      forall o | o in ikm
        ensures o !in known
      {
        MaterialOctet(secrets, d, o);
      }
      forall o | o in root
        ensures o !in known
      {
        RootOctet(ikm, script, o);
      }
      if AllComposable(known, root) {
        RootNeedsBoth(known, responderSeed, secrets, bundleRnd, initiatorSeed, d);
      }
      StillFresh(outside, wires, d.ephemeral);
      StillFresh(outside, wires, secrets.signedPrekey);
      StillFresh(outside, wires, d.kem);
      StillFresh(outside, wires, secrets.kemSecret);
    }
  }

  lemma MaterialOctet(secrets: Secrets, d: Draw, o: Octet)
    requires o in KeyMaterial(secrets, d)
    ensures !WireOctet(o)
  {
    hide PublicKey, EncapsKey, Less;
  }

  lemma RootOctet(ikm: Bytes, script: Bytes, o: Octet)
    requires o in DeriveRoot(ikm, script)
    ensures !WireOctet(o)
  {
  }

  lemma StillFresh(outside: iset<Octet>, wires: iset<Octet>, s: Bytes)
    requires forall o :: o in wires ==> WireOctet(o)
    ensures Fresh(outside, s) ==> !AllComposable(outside + wires, s)
  {
    hide AllComposable;
    if Fresh(outside, s) {
      var i :| 0 <= i < |s| && s[i].Of? && s[i].op == Drawn && s[i] !in outside;
      assert Fresh(outside + wires, s);
      FreshHidden(outside + wires, s);
    }
  }

  /** What the environment may do, with the network delivering whatever it can put together. */
  ghost predicate NetworkMay(outside: iset<Octet>, w: World, ev: Event)
    requires Linked(w.es)
  {
    match ev
    case Send(_, _) => Allowed(w, ev)
    case Deliver(_, message, newKey) =>
      |newKey| == KEY_LEN && NewKey(w.es, newKey) && AllComposable(Knowledge(outside, w.es), message)
  }

  ghost predicate NetworkRun(outside: iset<Octet>, w: World, evs: seq<Event>)
    decreases |evs|
  {
    Linked(w.es) && (evs == [] || (NetworkMay(outside, w, evs[0]) && NetworkRun(outside, Next(w, evs[0]), evs[1..])))
  }

  /** Whatever the network puts together may be delivered in the theorems about runs. */
  lemma ComposedAllowed(outside: iset<Octet>, w: World, ev: Event)
    requires Linked(w.es) && |w.es[0].root| > 1 && Outside(w.es[0].root, outside) && Unreachable(outside, w.es[0].root)
    requires NetworkMay(outside, w, ev)
    ensures Allowed(w, ev)
  {
    hide LinkedAt, KeysDiffer, Counted, ParseMessage, Unforged, Outside, Wires, AllComposable;
    if ev.Deliver? && ParseMessage(ev.message).Ok? {
      var cipher := ParseMessage(ev.message).value.1;
      var root := w.es[0].root;
      forall o | o in Wires(w.es)
        ensures WireOctet(o)
      {
        WiresHarmless(w.es, root, o);
      }
      CipherComposable(Knowledge(outside, w.es), ev.message);
      ComposedUnforged(outside, w.es, cipher);
    }
  }

  lemma CipherComposable(known: iset<Octet>, message: Bytes)
    requires AllComposable(known, message) && ParseMessage(message).Ok?
    ensures AllComposable(known, ParseMessage(message).value.1)
  {
    hide ParseMessage, Composable;
    var cipher := ParseMessage(message).value.1;
    forall i | 0 <= i < |cipher|
      ensures Composable(known, cipher[i])
    {
      CipherOctets(message, cipher[i]);
    }
  }

  lemma RootStays(w: World, ev: Event)
    requires Inv(w) && Allowed(w, ev)
    ensures Linked(Next(w, ev).es) && Next(w, ev).es[0].root == w.es[0].root
  {
    hide EndAligned, InMemory, LinkedAt, KeysDiffer, Counted, Allowed, EncryptMessage, DecryptMessage, ChainNamed, NextEpoch;
    StepKeepsInv(w, ev);
  }

  /** A network that has not got hold of the root, or of anything derived from it, delivers what it likes and the run is one
      of those the theorems speak about: unforgeability is no assumption on what is delivered. */
  lemma {:induction false} NetworkRunAllowed(outside: iset<Octet>, w: World, evs: seq<Event>)
    requires Inv(w) && |w.es[0].root| > 1 && Outside(w.es[0].root, outside) && Unreachable(outside, w.es[0].root)
    requires NetworkRun(outside, w, evs)
    ensures AllowedRun(w, evs)
    decreases |evs|
  {
    hide EndAligned, InMemory, LinkedAt, KeysDiffer, Counted, Allowed, Next, NetworkMay, Outside, Unreachable;
    if evs != [] {
      ComposedAllowed(outside, w, evs[0]);
      StepKeepsInv(w, evs[0]);
      RootStays(w, evs[0]);
      NetworkRunAllowed(outside, Next(w, evs[0]), evs[1..]);
    }
  }

  /** From handshake to plaintext: over a network that delivers whatever it can put together, and holds neither half of the
      hybrid, every plaintext an end gets is that of a different message its peer sent. */
  lemma SessionExactlyOnce(outside: iset<Octet>, responderSeed: Bytes, secrets: Secrets, bundleRnd: Bytes, initiatorSeed: Bytes,
                           d: Draw, ratchetKey: Bytes, evs: seq<Event>, p: Party)
    returns (from: seq<Place>)
    requires SecretsFormed(secrets) && |ratchetKey| == KEY_LEN && ratchetKey != secrets.signedPrekey
    requires || (Fresh(outside, d.ephemeral) && Fresh(outside, secrets.signedPrekey))
             || (Fresh(outside, d.kem) && Fresh(outside, secrets.kemSecret))
    requires var root := Initiate(initiatorSeed, Generate(responderSeed, secrets, bundleRnd).offer, d).1;
             && RootUnseen(outside, KeyMaterial(secrets, d), root, d.kem) && Outside(root, outside)
             && NetworkRun(outside, NewSession(root, secrets.signedPrekey, ratchetKey), evs)
    ensures var root := Initiate(initiatorSeed, Generate(responderSeed, secrets, bundleRnd).offer, d).1;
            var w := NewSession(root, secrets.signedPrekey, ratchetKey);
            && AllowedRun(w, evs)
            && |from| == |Received(w, evs, p)|
            && (forall k :: 0 <= k < |from| ==> FromPeer(Run(w, evs).es, p, from[k], Received(w, evs, p)[k]))
            && (forall k, l :: 0 <= k < l < |from| ==> from[k] != from[l])
  {
    hide Initiate, Generate, KeyMaterial, Fresh, RootUnseen, Outside, Unreachable, NetworkRun, AllowedRun, Received, Run, FromPeer;
    hide Inv;
    var root := Initiate(initiatorSeed, Generate(responderSeed, secrets, bundleRnd).offer, d).1;
    var w := NewSession(root, secrets.signedPrekey, ratchetKey);
    RootLength(initiatorSeed, Generate(responderSeed, secrets, bundleRnd).offer, d);
    InitialInv(root, secrets.signedPrekey, ratchetKey);
    HandshakeRootUnreachable(outside, responderSeed, secrets, bundleRnd, initiatorSeed, d);
    NetworkRunAllowed(outside, w, evs);
    from := ExactlyOnce(w, evs, p);
  }

  /** Every message of the session is among what the network can deliver. */
  lemma SentComposable(outside: iset<Octet>, es: seq<Epoch>, j: nat, n: nat)
    requires Linked(es) && Sent(es, j, n)
    ensures AllComposable(Knowledge(outside, es), WireOf(es, j, n))
  {
    hide WireOf, Linked;
    var known, message := Knowledge(outside, es), WireOf(es, j, n);
    forall i | 0 <= i < |message|
      ensures Composable(known, message[i])
    {
      assert message[i] in message;
      assert message[i] in Wires(es);
    }
  }

  // ---------- Runs in memory ----------

  ghost function LoggedWire(entry: Sealing): Bytes {
    WireMessage(entry.header, SealWith(entry.mk, entry.header, entry.plain))
  }

  ghost function RawWires(log: seq<Sealing>): iset<Octet> {
    iset i: nat, o | i < |log| && o in LoggedWire(log[i]) :: o
  }

  /** Octets of an X25519 public key. */
  ghost predicate Public(s: Bytes) {
    forall o :: o in s ==> o.Of? && o.op == X25519Public
  }

  ghost predicate RawPublic(w: RawWorld) {
    && Public(w.initiator.dhsPub) && Public(w.responder.dhsPub)
    && forall i :: 0 <= i < |w.log| ==> Public(w.log[i].header.dh)
  }

  lemma NewRawPublic(root: Bytes, spk: Bytes, key: Bytes)
    ensures RawPublic(RawWorld(Initiator(root, PublicKey(spk), key), Responder(root, spk), []))
  {
    hide KdfRk, DiffieHellman;
  }

  lemma RawWiresHarmless(log: seq<Sealing>, root: Bytes, o: Octet)
    requires o in RawWires(log) && |root| > 1 && forall i :: 0 <= i < |log| ==> Public(log[i].header.dh)
    ensures WireOctet(o) && !Leaks(root, o)
    ensures o.Of? && o.op == Sealed ==>
              exists i :: 0 <= i < |log| && o in SealWith(log[i].mk, log[i].header, log[i].plain)
  {
    hide WireMessage, SealWith;
    var i: nat :| i < |log| && o in LoggedWire(log[i]);
    var cipher := SealWith(log[i].mk, log[i].header, log[i].plain);
    WireOctets(log[i].header, cipher, o);
    if o in cipher {
      SealedOctet(log[i].mk, log[i].header, log[i].plain, o);
    }
  }

  lemma RawComposedUnforged(outside: iset<Octet>, root: Bytes, log: seq<Sealing>, cipher: Bytes)
    requires |root| > 1 && Outside(root, outside) && forall i :: 0 <= i < |log| ==> Public(log[i].header.dh)
    requires var known := outside + RawWires(log); !AllComposable(known, root) && AllComposable(known, cipher)
    ensures RawUnforged(root, log, cipher)
  {
    hide Descends, Leaks, SealedHere, RawWires, Seal, SealWith, Public;
    var known := outside + RawWires(log);
    forall o | o in known
      ensures !Leaks(root, o)
    {
      if o in RawWires(log) {
        RawWiresHarmless(log, root, o);
      }
    }
    forall mk, aad, plain | SealedUnder(cipher, mk, aad, plain) && Descends(root, mk)
      ensures exists i :: 0 <= i < |log| && cipher == SealWith(log[i].mk, log[i].header, log[i].plain)
    {
      SealIsHere(root, mk, aad, plain);
      SealedSeen(known, root, cipher[0]);
      SealedOp(root, cipher[0]);
      RawWiresHarmless(log, root, cipher[0]);
      var i :| 0 <= i < |log| && cipher[0] in SealWith(log[i].mk, log[i].header, log[i].plain);
      SealLogged(cipher, mk, aad, plain, log[i]);
    }
  }

  lemma SealLogged(cipher: Bytes, mk: Bytes, aad: Bytes, plain: Bytes, entry: Sealing)
    requires SealedUnder(cipher, mk, aad, plain) && cipher != []
    requires cipher[0] in SealWith(entry.mk, entry.header, entry.plain)
    ensures cipher == SealWith(entry.mk, entry.header, entry.plain)
  {
    hide Seal, MessageKeys, ToAad;
    var (key, nonce) := MessageKeys(mk);
    var (key', nonce') := MessageKeys(entry.mk);
    SealFromOctet(key, nonce, aad, plain, key', nonce', ToAad(entry.header), entry.plain, cipher[0]);
  }

  lemma DecryptPublic(s: State, message: Bytes, newKey: Bytes)
    requires Public(s.dhsPub)
    ensures Public(Decrypt(s, message, newKey).state.dhsPub)
  {
    hide SkipMessageKeys, OpenWith, ParseMessage, KdfCk, KdfRk, DiffieHellman;
    match ParseMessage(message)
    case Err(_) =>
    case Ok((h, cipher)) =>
      SkipFrame(s, h.pn);
      SkipFrame(Turn(s, h, newKey).state, h.n);
  }

  lemma RawStepPublic(w: RawWorld, ev: Event)
    requires RawPublic(w)
    ensures RawPublic(RawNext(w, ev))
  {
    hide Decrypt, KdfCk, WireMessage, SealWith, Public;
    if ev.Deliver? {
      DecryptPublic(w.End(ev.receiver), ev.message, ev.newKey);
    }
  }

  /** The network delivers, in memory, what it can put together of what it has seen. */
  ghost predicate RawNetworkRun(outside: iset<Octet>, w: RawWorld, evs: seq<Event>)
    decreases |evs|
  {
    evs == [] || (
      && (evs[0].Deliver? ==> AllComposable(outside + RawWires(w.log), evs[0].message))
      && RawNetworkRun(outside, RawNext(w, evs[0]), evs[1..]))
  }

  /** In memory too unforgeability is no assumption on what is delivered. */
  lemma {:induction false} RawNetworkRunAllowed(outside: iset<Octet>, root: Bytes, w: RawWorld, evs: seq<Event>)
    requires |root| > 1 && Outside(root, outside) && Unreachable(outside, root) && RawPublic(w)
    requires RawNetworkRun(outside, w, evs)
    ensures RawAllowedRun(root, w, evs)
    decreases |evs|
  {
    hide RawNext, Outside, AllComposable, RawUnforged, ParseMessage, RawWires, Public;
    if evs != [] {
      var known := outside + RawWires(w.log);
      if evs[0].Deliver? && ParseMessage(evs[0].message).Ok? {
        forall o | o in RawWires(w.log)
          ensures WireOctet(o)
        {
          RawWiresHarmless(w.log, root, o);
        }
        CipherComposable(known, evs[0].message);
        RawComposedUnforged(outside, root, w.log, ParseMessage(evs[0].message).value.1);
      }
      RawStepPublic(w, evs[0]);
      RawNetworkRunAllowed(outside, root, RawNext(w, evs[0]), evs[1..]);
    }
  }
}
