/**
 Sessions kept as blobs against sessions kept in memory: the same as long as nothing fails, and safer when something does.
 */
module Refinement {
  import opened Octets
  import opened Crypto
  import opened Chains
  import opened Ratchet
  import opened Joint
  import opened Delivery
  import opened Soundness
  import opened SessionBlob
  import opened Facade
  import opened Runs
  import opened RawRuns

  /** The in-memory ends hold what the blobs stand for. */
  ghost predicate Mirrors(r: RawWorld, w: World)
    requires Inv(w)
  {
    r.initiator == StateOf(w, TheInitiator) && r.responder == StateOf(w, TheResponder)
  }

  /** A call that succeeds does to the blob what it does to the session in memory. */
  lemma StepMirrors(r: RawWorld, w: World, ev: Event)
    requires Inv(w) && Mirrors(r, w) && Allowed(w, ev) && Succeeds(w, ev)
    ensures Inv(Next(w, ev)) && Mirrors(RawNext(r, ev), Next(w, ev))
  {
    hide ToBytes, FromBytes, Encrypt, Decrypt, Aligned, KdfCk, Linked, InMemory, ChainNamed, Turned, HistoryAfterSend, ParseMessage;
    StepKeepsInv(w, ev);
    match ev
    case Send(p, plain) =>
      RestoredFormed(w.Blob(p));
      EncryptFormed(StateOf(w, p), plain);
      SessionRoundTrip(Encrypt(StateOf(w, p), plain).state);
      SendsOnChain(StateOf(w, p), plain);
    case Deliver(p, message, newKey) =>
      RestoredFormed(w.Blob(p));
      DecryptFormed(StateOf(w, p), message, newKey);
      SessionRoundTrip(Decrypt(StateOf(w, p), message, newKey).state);
  }

  lemma SendsOnChain(s: State, plain: Bytes)
    ensures Encrypt(s, plain).result.Ok? <==> s.cks.Some?
  {
  }

  /** Whatever is delivered, the blobs end up standing for the sessions that only the successful calls, made in memory,
      would have led to. */
  lemma {:induction false} FacadeRefines(r: RawWorld, w: World, evs: seq<Event>)
    requires Inv(w) && Mirrors(r, w) && AllowedRun(w, evs)
    ensures Inv(Run(w, evs)) && Mirrors(RawRun(r, Successes(w, evs)), Run(w, evs))
    decreases |evs|
  {
    hide Inv, Next, RawNext, Mirrors, Succeeds, Allowed, Linked;
    if evs != [] {
      var w1 := Next(w, evs[0]);
      StepKeepsInv(w, evs[0]);
      var rest := Successes(w1, evs[1..]);
      if Succeeds(w, evs[0]) {
        StepMirrors(r, w, evs[0]);
        FacadeRefines(RawNext(r, evs[0]), w1, evs[1..]);
        assert ([evs[0]] + rest)[1..] == rest;
      } else {
        FailureKeeps(w, evs[0]);
        FacadeRefines(r, w1, evs[1..]);
      }
    }
  }

  // ---------- Why the facade drops the state of a failing call ----------

  /** A message under a key nobody uses, whatever its ciphertext. */
  function Junk(dh: Bytes, cipher: Bytes): Bytes {
    WireMessage(Header(dh, 0, 0), cipher)
  }

  /** The responder after a first message under ratchet key `dh`: two root steps further. */
  lemma AfterFirst(root: Bytes, spk: Bytes, dh: Bytes, cipher: Bytes, newKey: Bytes)
    requires |dh| == KEY_LEN && |cipher| < 0x1_0000_0000_0000_0000
    ensures var t := Decrypt(Responder(root, spk), WireMessage(Header(dh, 0, 0), cipher), newKey);
            var chain := KdfRk(root, DiffieHellman(spk, dh)).1;
            && RootDepth(t.state.rk) == RootDepth(root) + 2
            && t.state.dhr == Some(dh) && t.state.ckr.Some? && t.state.nr == 1 && t.state.skipped == map[]
            && t.result == OpenWith(MessageKeyAt(chain, 0), Header(dh, 0, 0), cipher)
  {
    hide ParseMessage, WireMessage, KdfCk, KdfRk, DiffieHellman, OpenWith, RootDepth, PublicKey;
    MessageRoundTrip(Header(dh, 0, 0), cipher);
    var d1, d2 := DiffieHellman(spk, dh), DiffieHellman(newKey, dh);
    RootStepTerm(root, d1);
    RootStepTerm(KdfRk(root, d1).0, d2);
  }

  /** The same message at a responder that an earlier message under another key has led astray. */
  lemma AfterSecond(s: State, dh: Bytes, cipher: Bytes, newKey: Bytes)
    requires |dh| == KEY_LEN && |cipher| < 0x1_0000_0000_0000_0000
    requires s.dhr.Some? && s.dhr != Some(dh) && s.ckr.Some? && s.nr == 1 && s.skipped == map[]
    ensures var t := Decrypt(s, WireMessage(Header(dh, 0, 0), cipher), newKey);
            var chain := KdfRk(s.rk, DiffieHellman(s.dhs, dh)).1;
            t.result == OpenWith(MessageKeyAt(chain, 0), Header(dh, 0, 0), cipher)
  {
    hide ParseMessage, WireMessage, KdfCk, KdfRk, DiffieHellman, OpenWith, PublicKey;
    MessageRoundTrip(Header(dh, 0, 0), cipher);
  }

  lemma OtherKeyFails(mk: Bytes, other: Bytes, h: Header, plain: Bytes)
    requires mk != other
    ensures OpenWith(mk, h, SealWith(mk, h, plain)) == Ok(plain)
    ensures OpenWith(other, h, SealWith(mk, h, plain)) == Err(Aead)
  {
    hide ToAad, MessageKeys;
    var cipher, aad := SealWith(mk, h, plain), ToAad(h);
    var (k, n) := MessageKeys(mk);
    var (k', n') := MessageKeys(other);
    OpenExact(k, n, aad, cipher, plain);
    if Open(k', n', aad, cipher).Ok? {
      var p' := Open(k', n', aad, cipher).value;
      OpenExact(k', n', aad, cipher, p');
      SealInjective(k, n, aad, plain, k', n', aad, p');
      SealKeyInjective(mk, other);
      assert false;
    }
  }

  /** In memory, one junk message ahead of an honest first message makes the honest one fail, which on its own opens:
      delivery after failures is a property of the facade, not of the session. */
  lemma JunkBreaksMemory(root: Bytes, spk: Bytes, key: Bytes, plain: Bytes, dh: Bytes, cipher: Bytes, k1: Bytes, k2: Bytes)
    requires |dh| == KEY_LEN && dh != PublicKey(key) && |cipher| < 0x1_0000_0000_0000_0000
    requires |plain| + TAG_LEN < 0x1_0000_0000_0000_0000
    ensures var first := Encrypt(Initiator(root, PublicKey(spk), key), plain).result;
            && first.Ok?
            && Decrypt(Responder(root, spk), first.value, k2).result == Ok(plain)
            && Decrypt(Decrypt(Responder(root, spk), Junk(dh, cipher), k1).state, first.value, k2).result == Err(Aead)
  {
    hide Decrypt, KdfCk, KdfRk, WireMessage, SealWith, OpenWith, DiffieHellman, RootDepth, PublicKey;
    var h := Header(PublicKey(key), 0, 0);
    var chain := KdfRk(root, DiffieHellman(spk, PublicKey(key))).1;
    var mk := MessageKeyAt(chain, 0);
    var sealed := SealWith(mk, h, plain);
    DiffieHellmanSymmetric(key, spk);
    assert Encrypt(Initiator(root, PublicKey(spk), key), plain).result == Ok(WireMessage(h, sealed));
    SealedLength(mk, h, plain);
    AfterFirst(root, spk, PublicKey(key), sealed, k2);
    AfterFirst(root, spk, dh, cipher, k1);
    var astray := Decrypt(Responder(root, spk), Junk(dh, cipher), k1).state;
    AfterSecond(astray, PublicKey(key), sealed, k2);
    var wrong := KdfRk(astray.rk, DiffieHellman(astray.dhs, PublicKey(key))).1;
    DeeperApart(root, DiffieHellman(spk, PublicKey(key)), astray.rk, DiffieHellman(astray.dhs, PublicKey(key)));
    OtherKeyFails(mk, MessageKeyAt(wrong, 0), h, plain);
  }

  lemma SealedLength(mk: Bytes, h: Header, plain: Bytes)
    ensures |SealWith(mk, h, plain)| == |plain| + TAG_LEN
  {
  }

  /** Chains that hang on roots of different depth have different message keys. */
  lemma DeeperApart(rk: Bytes, dh: Bytes, rk': Bytes, dh': Bytes)
    requires RootDepth(rk) != RootDepth(rk')
    ensures MessageKeyAt(KdfRk(rk, dh).1, 0) != MessageKeyAt(KdfRk(rk', dh').1, 0)
  {
    hide KdfRk, RootDepth, MessageKeyAt, ChainDepth, Position;
    RootStepTerm(rk, dh);
    RootStepTerm(rk', dh');
    var c, d := KdfRk(rk, dh).1, KdfRk(rk', dh').1;
    if MessageKeyAt(c, 0) == MessageKeyAt(d, 0) {
      MessageKeyPlace(c, 0, d, 0);
      assert false;
    }
  }
}
