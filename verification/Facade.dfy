/**
 The state-returning facade, and whole runs of a session through it.

 Both ends keep their session as a blob. A network that may drop, repeat, reorder, alter and invent octets
 delivers anything to either end; an end whose call fails keeps the blob it had.
 */
module Facade {
  import opened Octets
  import opened Crypto
  import opened Chains
  import opened Ratchet
  import opened Joint
  import opened Delivery
  import opened Soundness
  import opened SessionBlob

  // ---------- Blob to blob ----------

  ghost function EncryptMessage(session: Bytes, plain: Bytes): Result<(Bytes, Bytes)> {
    var s :- FromBytes(session);
    var step := Encrypt(s, plain);
    var message :- step.result;
    Ok((ToBytes(step.state), message))
  }

  ghost function DecryptMessage(session: Bytes, message: Bytes, newKey: Bytes): Result<(Bytes, Bytes)> {
    var s :- FromBytes(session);
    var step := Decrypt(s, message, newKey);
    var plain :- step.result;
    Ok((ToBytes(step.state), plain))
  }

  /** Loads a session, encrypts in it, and saves it. */
  method RunEncrypt(session: Bytes, plain: Bytes) returns (r: Result<(Bytes, Bytes)>)
    ensures r == EncryptMessage(session, plain)
  {
    hide Encrypt, FromBytes, ToBytes;
    var s :- Load(session);
    RestoredFormed(session);
    EncryptFormed(s, plain);
    var state := new RatchetSession.Restored(s);
    var message :- state.EncryptMessage(plain);
    var saved := Save(state);
    return Ok((saved, message));
  }

  /** Loads a session, decrypts in it, and saves it; on an error the changed session is dropped. */
  method RunDecrypt(session: Bytes, message: Bytes, newKey: Bytes) returns (r: Result<(Bytes, Bytes)>)
    requires |newKey| == KEY_LEN
    ensures r == DecryptMessage(session, message, newKey)
  {
    hide Decrypt, FromBytes, ToBytes;
    var s :- Load(session);
    RestoredFormed(session);
    DecryptFormed(s, message, newKey);
    var state := new RatchetSession.Restored(s);
    var outcome, steps := state.DecryptMessage(message, newKey);
    var plain :- outcome;
    var saved := Save(state);
    return Ok((saved, plain));
  }

  // ---------- Runs ----------

  datatype Party = TheInitiator | TheResponder {
    function Peer(): Party {
      if this == TheInitiator then TheResponder else TheInitiator
    }
  }

  /** The blobs of the two ends, and the history: the epochs so far and the messages read so far. */
  datatype World = World(es: seq<Epoch>, read: set<Place>, initiator: Bytes, responder: Bytes) {
    function Blob(p: Party): Bytes {
      if p == TheInitiator then initiator else responder
    }

    function WithBlob(p: Party, blob: Bytes): World {
      if p == TheInitiator then this.(initiator := blob) else this.(responder := blob)
    }

    /** The epoch an end is at: the last epoch or the one before, the initiator's being odd. */
    function EpochOf(p: Party): nat
      requires |es| >= 2
    {
      var last := |es| - 1;
      if (last % 2 == 1) == (p == TheInitiator) then last else last - 1
    }
  }

  datatype Event =
    | Send(sender: Party, plain: Bytes)
    | Deliver(receiver: Party, message: Bytes, newKey: Bytes)

  /** The chain whose ratchet key is `dh`. */
  ghost function ChainNamed(es: seq<Epoch>, dh: Bytes): nat {
    if exists j: nat :: j < |es| && PublicKey(es[j].key) == dh
    then var j: nat :| j < |es| && PublicKey(es[j].key) == dh; j
    else 0
  }

  /** What the environment may do: plaintexts fit in memory and counters have not run out; generated keys are new;
      nobody else seals under keys of the session. The delivered octets are otherwise arbitrary. */
  ghost predicate Allowed(w: World, ev: Event)
    requires Linked(w.es)
  {
    match ev
    case Send(p, plain) => |w.es[w.EpochOf(p)].sent| < U32_MAX && |plain| + TAG_LEN < 0x1_0000_0000_0000_0000
    case Deliver(p, message, newKey) =>
      && |newKey| == KEY_LEN && NewKey(w.es, newKey)
      && (ParseMessage(message).Ok? ==> Unforged(w.es, ParseMessage(message).value.1))
  }

  ghost function Succeeds(w: World, ev: Event): bool {
    match ev
    case Send(p, plain) => EncryptMessage(w.Blob(p), plain).Ok?
    case Deliver(p, message, newKey) => DecryptMessage(w.Blob(p), message, newKey).Ok?
  }

  /** One event: the call is made, and its blob kept if it succeeds. The history records a message sent, or read. */
  ghost function Next(w: World, ev: Event): World
    requires Linked(w.es)
  {
    if !Succeeds(w, ev) then w
    else
      match ev
      case Send(p, plain) =>
        var (blob, _) := EncryptMessage(w.Blob(p), plain).value;
        w.WithBlob(p, blob).(es := HistoryAfterSend(w.es, w.EpochOf(p), plain))
      case Deliver(p, message, newKey) =>
        var (blob, _) := DecryptMessage(w.Blob(p), message, newKey).value;
        var h := ParseMessage(message).value.0;
        var j := ChainNamed(w.es, h.dh);
        var turned := j == w.EpochOf(p) + 1 && w.EpochOf(p) + 2 == |w.es|;
        w.WithBlob(p, blob).(es := if turned then Turned(w.es, w.EpochOf(p), newKey) else w.es,
                             read := w.read + {At(j, h.n)})
  }

  // ---------- The joint invariant ----------

  ghost predicate EndAligned(w: World, p: Party)
    requires |w.es| >= 2
  {
    && FromBytes(w.Blob(p)).Ok?
    && Aligned(w.es, w.read, FromBytes(w.Blob(p)).value, w.EpochOf(p))
  }

  ghost predicate InMemory(es: seq<Epoch>) {
    forall j: nat, n: nat :: Sent(es, j, n) ==> |es[j].sent[n]| + TAG_LEN < 0x1_0000_0000_0000_0000
  }

  ghost predicate Inv(w: World) {
    Linked(w.es) && InMemory(w.es) && EndAligned(w, TheInitiator) && EndAligned(w, TheResponder)
  }

  /** The history of a session that has just been agreed on: root, signed prekey, the initiator's first key. */
  function InitialEpochs(root: Bytes, spk: Bytes, key: Bytes): seq<Epoch> {
    var first := Epoch(spk, root, [], []);
    [first, NextEpoch(first, key)]
  }

  lemma InitialAligned(root: Bytes, spk: Bytes, key: Bytes)
    requires spk != key
    ensures var es := InitialEpochs(root, spk, key);
            && Linked(es) && InMemory(es)
            && Aligned(es, {}, Initiator(root, PublicKey(spk), key), 1) && Aligned(es, {}, Responder(root, spk), 0)
  {
    hide KdfRk;
    var es := InitialEpochs(root, spk, key);
    DiffieHellmanSymmetric(spk, key);
    assert es[1] == NextEpoch(es[0], key);
  }

  /** Ends that share a root and the responder's prekey start in the joint invariant. */
  lemma InitialInv(root: Bytes, spk: Bytes, key: Bytes)
    requires |root| == KEY_LEN && |spk| == KEY_LEN && |key| == KEY_LEN && spk != key
    ensures Inv(World(InitialEpochs(root, spk, key), {},
                      ToBytes(Initiator(root, PublicKey(spk), key)), ToBytes(Responder(root, spk))))
  {
    hide ToBytes, FromBytes, Initiator, Responder, Linked, InMemory, Aligned, NextEpoch, PublicKey;
    InitialAligned(root, spk, key);
    PublicKeyLength(spk);
    InitialFormed(root, PublicKey(spk), key);
    InitialFormed(root, PublicKey(spk), spk);
    SessionRoundTrip(Initiator(root, PublicKey(spk), key));
    SessionRoundTrip(Responder(root, spk));
  }

  lemma PublicKeyLength(sk: Bytes)
    ensures |PublicKey(sk)| == KEY_LEN
  {
  }

  // ---------- One event ----------

  ghost function WireOf(es: seq<Epoch>, j: nat, n: nat): Bytes
    requires Linked(es) && Sent(es, j, n)
  {
    WireMessage(HeaderOf(es, j, n), CipherOf(es, j, n))
  }

  ghost function StateOf(w: World, p: Party): State
    requires Inv(w)
  {
    FromBytes(w.Blob(p)).value
  }

  /** An end without a sending chain cannot send; any other sends the next message of its chain. */
  lemma SendStep(w: World, p: Party, plain: Bytes)
    requires Inv(w) && Allowed(w, Send(p, plain))
    ensures Succeeds(w, Send(p, plain)) <==> w.EpochOf(p) >= 1
    ensures Inv(Next(w, Send(p, plain)))
    ensures w.EpochOf(p) >= 1 ==>
              var w' := Next(w, Send(p, plain));
              var n := |w.es[w.EpochOf(p)].sent|;
              && Sent(w'.es, w.EpochOf(p), n) && w'.es[w.EpochOf(p)].sent[n] == plain
              && EncryptMessage(w.Blob(p), plain).value.1 == WireOf(w'.es, w.EpochOf(p), n)
  {
    hide FromBytes, ToBytes, BankExact, WireMessage, SealWith, ChainAt, PublicKey, NextEpoch, LinkedAt, KeysDiffer;
    hide DecryptMessage, InMemory;
    var s, e, q := StateOf(w, p), w.EpochOf(p), p.Peer();
    if e >= 1 {
      var es' := HistoryAfterSend(w.es, e, plain);
      SendAligned(w.es, w.read, s, e, plain);
      RestoredFormed(w.Blob(p));
      EncryptFormed(s, plain);
      SessionRoundTrip(Encrypt(s, plain).state);
      SendKeepsPeer(w.es, w.read, StateOf(w, q), w.EpochOf(q), e, plain);
      SendInMemory(w.es, e, plain);
      var w' := Next(w, Send(p, plain));
      assert w'.Blob(p) == ToBytes(Encrypt(s, plain).state) && w'.Blob(q) == w.Blob(q);
      assert w'.EpochOf(p) == e && w'.EpochOf(q) == w.EpochOf(q);
    }
  }

  lemma SendInMemory(es: seq<Epoch>, e: nat, plain: Bytes)
    requires InMemory(es) && 1 <= e < |es| && |plain| + TAG_LEN < 0x1_0000_0000_0000_0000
    ensures InMemory(HistoryAfterSend(es, e, plain))
  {
    var es' := HistoryAfterSend(es, e, plain);
    forall j: nat, n: nat | Sent(es', j, n)
      ensures |es'[j].sent[n]| + TAG_LEN < 0x1_0000_0000_0000_0000
    {
      assert Sent(es, j, n) || (j == e && n == |es[e].sent|);
    }
  }

  lemma ChainNamedExact(es: seq<Epoch>, j: nat)
    requires Linked(es) && j < |es|
    ensures ChainNamed(es, PublicKey(es[j].key)) == j
  {
    var dh := PublicKey(es[j].key);
    var i: nat :| i == ChainNamed(es, dh);
    SameKeySameEpoch(es, ChainNamed(es, dh), j);
  }

  /** The history records the message whose header was accepted. */
  lemma NextAfterOpen(w: World, p: Party, message: Bytes, newKey: Bytes, j: nat)
    requires Linked(w.es) && Succeeds(w, Deliver(p, message, newKey)) && j < |w.es|
    requires ParseMessage(message).Ok? && ParseMessage(message).value.0.dh == PublicKey(w.es[j].key)
    requires j == w.EpochOf(p) + 1 ==> w.EpochOf(p) + 2 == |w.es|
    ensures Next(w, Deliver(p, message, newKey)) ==
            w.WithBlob(p, DecryptMessage(w.Blob(p), message, newKey).value.0)
             .(es := HistoryAfter(w.es, w.EpochOf(p), j, newKey),
               read := w.read + {At(j, ParseMessage(message).value.0.n)})
  {
    hide DecryptMessage, ParseMessage, PublicKey, Turned, Linked, ChainNamed;
    ChainNamedExact(w.es, j);
  }

  /** Both ends are aligned again after one of them has opened message `n` of chain `j`. */
  lemma AlignedAfterOpen(w: World, p: Party, s': State, j: nat, n: nat, newKey: Bytes)
    requires Inv(w) && Awaited(w.es, w.read, w.EpochOf(p), j, n)
    requires j <= w.EpochOf(p) + 1 && (j == w.EpochOf(p) + 1 ==> w.EpochOf(p) + 2 == |w.es|)
    requires WellFormed(s') && Linked(HistoryAfter(w.es, w.EpochOf(p), j, newKey))
    requires Aligned(HistoryAfter(w.es, w.EpochOf(p), j, newKey), w.read + {At(j, n)}, s', EpochAfter(w.EpochOf(p), j))
    ensures Inv(w.WithBlob(p, ToBytes(s')).(es := HistoryAfter(w.es, w.EpochOf(p), j, newKey),
                                            read := w.read + {At(j, n)}))
  {
    hide FromBytes, ToBytes, Aligned, NextEpoch, WellFormed, KeysDiffer, LinkedAt, Counted, Sent;
    var e, q := w.EpochOf(p), p.Peer();
    SessionRoundTrip(s');
    OpenKeepsPeer(w.es, w.read, StateOf(w, q), w.EpochOf(q), j, n, e, newKey);
    TurnInMemory(w.es, e, j, newKey);
    var w' := w.WithBlob(p, ToBytes(s')).(es := HistoryAfter(w.es, e, j, newKey), read := w.read + {At(j, n)});
    assert w'.Blob(p) == ToBytes(s') && w'.Blob(q) == w.Blob(q);
    assert w'.EpochOf(p) == EpochAfter(e, j) && w'.EpochOf(q) == w.EpochOf(q);
  }

  /** Whatever is delivered, what opens is a message the peer sent that this end has not read, and it opens to its
      plaintext; the message then counts as read. */
  lemma DeliverStep(w: World, p: Party, message: Bytes, newKey: Bytes) returns (j: nat, n: nat)
    requires Inv(w) && Allowed(w, Deliver(p, message, newKey)) && Succeeds(w, Deliver(p, message, newKey))
    ensures Awaited(w.es, w.read, w.EpochOf(p), j, n)
    ensures DecryptMessage(w.Blob(p), message, newKey).value.1 == w.es[j].sent[n]
    ensures j == w.EpochOf(p) + 1 ==> w.EpochOf(p) + 2 == |w.es|
    ensures var w' := Next(w, Deliver(p, message, newKey));
            && Inv(w')
            && w'.read == w.read + {At(j, n)}
            && w'.es == HistoryAfter(w.es, w.EpochOf(p), j, newKey)
  {
    hide FromBytes, ToBytes, Aligned, DecryptParsed, ParseMessage, Unforged, CipherOf, PublicKey, HistoryAfter, WellFormed;
    hide KeysDiffer, LinkedAt, Counted, Next, NewKey, Fits;
    var s, e := StateOf(w, p), w.EpochOf(p);
    var (h, cipher) := ParseMessage(message).value;
    j := OkIsHonest(w.es, w.read, s, e, h, cipher, newKey);
    n := h.n;
    HonestDelivery(w.es, w.read, s, e, j, n, newKey);
    RestoredFormed(w.Blob(p));
    DecryptFormed(s, message, newKey);
    AlignedAfterOpen(w, p, Decrypt(s, message, newKey).state, j, n, newKey);
    NextAfterOpen(w, p, message, newKey, j);
  }

  lemma TurnInMemory(es: seq<Epoch>, e: nat, j: nat, newKey: Bytes)
    requires InMemory(es) && (j == e + 1 ==> e + 2 == |es|)
    ensures InMemory(HistoryAfter(es, e, j, newKey))
  {
    var es' := HistoryAfter(es, e, j, newKey);
    forall i: nat, n: nat | Sent(es', i, n)
      ensures |es'[i].sent[n]| + TAG_LEN < 0x1_0000_0000_0000_0000
    {
      assert Sent(es, i, n) && es'[i] == es[i];
    }
  }

  /** Every event keeps the joint invariant. */
  lemma StepKeepsInv(w: World, ev: Event)
    requires Inv(w) && Allowed(w, ev)
    ensures Inv(Next(w, ev))
  {
    hide EndAligned, InMemory, Allowed, Next, LinkedAt, KeysDiffer, Counted;
    if Succeeds(w, ev) {
      match ev
      case Send(p, plain) => SendStep(w, p, plain);
      case Deliver(p, message, newKey) =>
        var j, n := DeliverStep(w, p, message, newKey);
    } else {
      FailureKeeps(w, ev);
    }
  }

  lemma FailureKeeps(w: World, ev: Event)
    requires Linked(w.es) && !Succeeds(w, ev)
    ensures Next(w, ev) == w
  {
  }

  /** A message that the peer sent and this end has not read opens to its plaintext exactly when it fits. */
  lemma AwaitedOpens(w: World, p: Party, j: nat, n: nat, newKey: Bytes)
    requires Inv(w) && Awaited(w.es, w.read, w.EpochOf(p), j, n) && NewKey(w.es, newKey)
    ensures var r := DecryptMessage(w.Blob(p), WireOf(w.es, j, n), newKey);
            && (r.Ok? <==> Fits(StateOf(w, p), HeaderOf(w.es, j, n)))
            && (r.Ok? ==> r.value.1 == w.es[j].sent[n])
  {
    hide FromBytes, ToBytes, Aligned, DecryptParsed, Fits, ParseMessage, WireMessage, CipherOf, PublicKey, NextEpoch;
    var h := HeaderOf(w.es, j, n);
    HonestDelivery(w.es, w.read, StateOf(w, p), w.EpochOf(p), j, n, newKey);
    CipherLength(w.es, j, n);
    MessageRoundTrip(h, CipherOf(w.es, j, n));
  }

  lemma CipherLength(es: seq<Epoch>, j: nat, n: nat)
    requires Linked(es) && Sent(es, j, n)
    ensures |CipherOf(es, j, n)| == |es[j].sent[n]| + TAG_LEN && |HeaderOf(es, j, n).dh| == KEY_LEN
  {
    hide ToAad, MessageKeyAt;
  }
}
