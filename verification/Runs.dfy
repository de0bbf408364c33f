/**
 Whole runs of a session through the facade, against a network that delivers anything.
 */
module Runs {
  import opened Octets
  import opened Crypto
  import opened Chains
  import opened Ratchet
  import opened Joint
  import opened Delivery
  import opened Soundness
  import opened SessionBlob
  import opened Facade

  ghost predicate AllowedRun(w: World, evs: seq<Event>)
    decreases |evs|
  {
    Linked(w.es) && (evs == [] || (Allowed(w, evs[0]) && AllowedRun(Next(w, evs[0]), evs[1..])))
  }

  ghost function Run(w: World, evs: seq<Event>): World
    requires AllowedRun(w, evs)
    decreases |evs|
  {
    if evs == [] then w else Run(Next(w, evs[0]), evs[1..])
  }

  /** The joint invariant holds after every run. */
  lemma {:induction false} RunKeepsInv(w: World, evs: seq<Event>)
    requires Inv(w) && AllowedRun(w, evs)
    ensures Inv(Run(w, evs))
    decreases |evs|
  {
    hide Inv, Next, Allowed, Linked;
    if evs != [] {
      StepKeepsInv(w, evs[0]);
      RunKeepsInv(Next(w, evs[0]), evs[1..]);
    }
  }

  // ---------- The history only grows ----------

  /** A message once sent stays what it was: plaintext, and octets on the wire. */
  ghost predicate Kept(es: seq<Epoch>, es': seq<Epoch>, j: nat, n: nat)
    requires Linked(es) && Linked(es') && Sent(es, j, n)
  {
    Sent(es', j, n) && es'[j].sent[n] == es[j].sent[n] && WireOf(es', j, n) == WireOf(es, j, n)
  }

  lemma SendKept(es: seq<Epoch>, e: nat, plain: Bytes, j: nat, n: nat)
    requires e < |es| <= e + 2 && Linked(es) && Linked(HistoryAfterSend(es, e, plain)) && Sent(es, j, n)
    ensures Kept(es, HistoryAfterSend(es, e, plain), j, n)
  {
    hide SealWith, WireMessage, PublicKey, LinkedAt, KeysDiffer;
    var es' := HistoryAfterSend(es, e, plain);
    assert es'[j].key == es[j].key && es'[j].chain == es[j].chain && es'[j].sent[n] == es[j].sent[n];
    assert PrevCount(es', j) == PrevCount(es, j);
    assert HeaderOf(es', j, n) == HeaderOf(es, j, n);
  }

  lemma StepKept(w: World, ev: Event, j: nat, n: nat)
    requires Inv(w) && Allowed(w, ev) && Sent(w.es, j, n)
    ensures Linked(Next(w, ev).es) && Kept(w.es, Next(w, ev).es, j, n)
  {
    hide WireOf, EndAligned, InMemory, LinkedAt, KeysDiffer, Counted, Allowed, EncryptMessage, DecryptMessage;
    hide ChainNamed, Turned, HistoryAfterSend;
    StepKeepsInv(w, ev);
    if !Succeeds(w, ev) {
    } else if ev.Send? {
      SendStep(w, ev.sender, ev.plain);
      SendKept(w.es, w.EpochOf(ev.sender), ev.plain, j, n);
    } else {
      var i, m := DeliverStep(w, ev.receiver, ev.message, ev.newKey);
      if i == w.EpochOf(ev.receiver) + 1 {
        TurnKept(w.es, w.EpochOf(ev.receiver), ev.newKey, j, n);
      }
    }
  }

  lemma TurnKept(es: seq<Epoch>, e: nat, newKey: Bytes, j: nat, n: nat)
    requires Linked(es) && e + 2 == |es| && Sent(es, j, n) && Linked(Turned(es, e, newKey))
    ensures Kept(es, Turned(es, e, newKey), j, n)
  {
    hide NextEpoch, SealWith, PublicKey, WireMessage, LinkedAt, KeysDiffer;
    var es' := Turned(es, e, newKey);
    assert es'[j] == es[j] && (j >= 2 ==> es'[j - 2] == es[j - 2]);
  }

  lemma {:induction false} RunKept(w: World, evs: seq<Event>, j: nat, n: nat)
    requires Inv(w) && AllowedRun(w, evs) && Sent(w.es, j, n)
    ensures Linked(Run(w, evs).es) && Kept(w.es, Run(w, evs).es, j, n)
    decreases |evs|
  {
    hide Inv, Next, Allowed, WireOf, Linked;
    assert Linked(w.es);
    if evs != [] {
      StepKeepsInv(w, evs[0]);
      StepKept(w, evs[0], j, n);
      RunKept(Next(w, evs[0]), evs[1..], j, n);
    }
  }

  // ---------- Delivery ----------

  /** Octets that went on the wire as message `at` open at `p` to `plain` exactly when they fit. */
  ghost predicate OpensIfFits(w: World, p: Party, message: Bytes, plain: Bytes, newKey: Bytes)
    requires Inv(w)
  {
    && ParseMessage(message).Ok?
    && var r := DecryptMessage(w.Blob(p), message, newKey);
    && (r.Ok? <==> Fits(StateOf(w, p), ParseMessage(message).value.0))
    && (r.Ok? ==> r.value.1 == plain)
  }

  lemma WireOpens(w: World, p: Party, j: nat, n: nat, newKey: Bytes)
    requires Inv(w) && Awaited(w.es, w.read, w.EpochOf(p), j, n) && NewKey(w.es, newKey)
    ensures OpensIfFits(w, p, WireOf(w.es, j, n), w.es[j].sent[n], newKey)
  {
    hide DecryptMessage, Fits, ParseMessage, WireOf, CipherOf, EndAligned, LinkedAt, KeysDiffer;
    WireParses(w, j, n);
    AwaitedOpens(w, p, j, n, newKey);
  }

  /** Send a message, then let anything happen. As long as the peer has not read it, delivering the octets that went
      on the wire opens it to what was sent, exactly when it fits the gap limit and the peer's bank. */
  lemma SentOpensLater(w: World, p: Party, plain: Bytes, evs: seq<Event>, newKey: Bytes)
    requires Inv(w) && Allowed(w, Send(p, plain)) && w.EpochOf(p) >= 1 && AllowedRun(Next(w, Send(p, plain)), evs)
    ensures var sent := EncryptMessage(w.Blob(p), plain);
            var later := Run(Next(w, Send(p, plain)), evs);
            && sent.Ok? && Inv(later)
            && (At(w.EpochOf(p), |w.es[w.EpochOf(p)].sent|) !in later.read && NewKey(later.es, newKey) ==>
                  OpensIfFits(later, p.Peer(), sent.value.1, plain, newKey))
  {
    hide Next, Run, EncryptMessage, OpensIfFits, WireOf, EndAligned, InMemory, LinkedAt, KeysDiffer, Counted, NewKey, AllowedRun;
    var q, e, n := p.Peer(), w.EpochOf(p), |w.es[w.EpochOf(p)].sent|;
    SendStep(w, p, plain);
    SendSucceeds(w, p, plain);
    var w1 := Next(w, Send(p, plain));
    RunKeepsInv(w1, evs);
    RunKept(w1, evs, e, n);
    var w2 := Run(w1, evs);
    assert (w2.EpochOf(q) - e) % 2 == 1;
    if At(e, n) !in w2.read && NewKey(w2.es, newKey) {
      WireOpens(w2, q, e, n, newKey);
    }
  }

  lemma SendSucceeds(w: World, p: Party, plain: Bytes)
    ensures Succeeds(w, Send(p, plain)) <==> EncryptMessage(w.Blob(p), plain).Ok?
  {
  }

  lemma WireParses(w: World, j: nat, n: nat)
    requires Inv(w) && Sent(w.es, j, n)
    ensures ParseMessage(WireOf(w.es, j, n)) == Ok((HeaderOf(w.es, j, n), CipherOf(w.es, j, n)))
  {
    CipherLength(w.es, j, n);
    MessageRoundTrip(HeaderOf(w.es, j, n), CipherOf(w.es, j, n));
  }

  /** The messages of the session may be delivered, at any time and any number of times. */
  lemma HonestAllowed(w: World, p: Party, j: nat, n: nat, newKey: Bytes)
    requires Inv(w) && Sent(w.es, j, n) && |newKey| == KEY_LEN && NewKey(w.es, newKey)
    ensures Allowed(w, Deliver(p, WireOf(w.es, j, n), newKey))
  {
    WireParses(w, j, n);
  }

  // ---------- Exactly once ----------

  /** The plaintexts `p` gets out of a run, in order. */
  ghost function Received(w: World, evs: seq<Event>, p: Party): seq<Bytes>
    requires AllowedRun(w, evs)
    decreases |evs|
  {
    if evs == [] then []
    else
      var rest := Received(Next(w, evs[0]), evs[1..], p);
      if evs[0].Deliver? && evs[0].receiver == p && Succeeds(w, evs[0])
      then [DecryptMessage(w.Blob(p), evs[0].message, evs[0].newKey).value.1] + rest
      else rest
  }

  /** Whatever the network does, each plaintext an end gets is that of a message its peer sent, and no message is
      got twice: `from` names a different message of the peer for each of them. */
  lemma {:induction false} ExactlyOnce(w: World, evs: seq<Event>, p: Party) returns (from: seq<Place>)
    requires Inv(w) && AllowedRun(w, evs)
    ensures |from| == |Received(w, evs, p)|
    ensures forall k :: 0 <= k < |from| ==> FromPeer(Run(w, evs).es, p, from[k], Received(w, evs, p)[k])
    ensures forall k :: 0 <= k < |from| ==> from[k] !in w.read
    ensures forall k, l :: 0 <= k < l < |from| ==> from[k] != from[l]
    decreases |evs|
  {
    hide Next, Succeeds, DecryptMessage, FromPeer, Inv, Allowed, Linked;
    if evs == [] {
      from := [];
    } else {
      var w1, ev := Next(w, evs[0]), evs[0];
      StepKeepsInv(w, ev);
      var rest := ExactlyOnce(w1, evs[1..], p);
      ReadGrowsBy(w, ev);
      if ev.Deliver? && ev.receiver == p && Succeeds(w, ev) {
        var place := OneReceived(w, evs, p);
        from := [place] + rest;
      } else {
        from := rest;
      }
    }
  }

  /** The plaintext is that of message `at`, which the peer of `p` sent. */
  ghost predicate FromPeer(es: seq<Epoch>, p: Party, at: Place, plain: Bytes) {
    && Sent(es, at.chain, at.number) && es[at.chain].sent[at.number] == plain
    && (at.chain % 2 == 1 <==> p == TheResponder)
  }

  lemma ReadGrowsBy(w: World, ev: Event)
    requires Inv(w) && Allowed(w, ev)
    ensures w.read <= Next(w, ev).read
  {
    hide EncryptMessage, DecryptMessage, Inv, Allowed;
  }

  lemma OneReceived(w: World, evs: seq<Event>, p: Party) returns (place: Place)
    requires Inv(w) && AllowedRun(w, evs) && evs != []
    requires evs[0].Deliver? && evs[0].receiver == p && Succeeds(w, evs[0])
    ensures place !in w.read && place in Next(w, evs[0]).read
    ensures FromPeer(Run(w, evs).es, p, place, DecryptMessage(w.Blob(p), evs[0].message, evs[0].newKey).value.1)
  {
    hide DecryptMessage, Next, Inv, Linked, WireOf, Succeeds, Run, Allowed;
    place := StepReceived(w, evs[0]);
    RunKept(w, evs, place.chain, place.number);
  }

  /** What one delivery yields is the plaintext of a message sent before, and not read before. */
  lemma StepReceived(w: World, ev: Event) returns (place: Place)
    requires Inv(w) && Allowed(w, ev) && ev.Deliver? && Succeeds(w, ev)
    ensures place !in w.read && place in Next(w, ev).read && DecryptMessage(w.Blob(ev.receiver), ev.message, ev.newKey).Ok?
    ensures FromPeer(w.es, ev.receiver, place, DecryptMessage(w.Blob(ev.receiver), ev.message, ev.newKey).value.1)
  {
    hide DecryptMessage, Next, EndAligned, InMemory, LinkedAt, KeysDiffer, Counted, HistoryAfter, Allowed;
    var j, n := DeliverStep(w, ev.receiver, ev.message, ev.newKey);
    place := At(j, n);
  }

  // ---------- Failures leave no trace ----------

  /** The events of a run that succeed. */
  ghost function Successes(w: World, evs: seq<Event>): seq<Event>
    requires AllowedRun(w, evs)
    decreases |evs|
  {
    if evs == [] then []
    else
      var rest := Successes(Next(w, evs[0]), evs[1..]);
      if Succeeds(w, evs[0]) then [evs[0]] + rest else rest
  }

  /** Leaving out every failing call, whatever was delivered in it, gives the same run. */
  lemma {:induction false} FailuresInvisible(w: World, evs: seq<Event>)
    requires AllowedRun(w, evs)
    ensures AllowedRun(w, Successes(w, evs)) && Run(w, Successes(w, evs)) == Run(w, evs)
    decreases |evs|
  {
    hide Next, Succeeds, Allowed, Linked;
    if evs != [] {
      FailuresInvisible(Next(w, evs[0]), evs[1..]);
      var rest := Successes(Next(w, evs[0]), evs[1..]);
      if Succeeds(w, evs[0]) {
        assert ([evs[0]] + rest)[1..] == rest;
      } else {
        FailureKeeps(w, evs[0]);
      }
    }
  }

  // ---------- Alignment, seen from the two states ----------

  /** In terms of the two states alone: the end behind is one root step behind, the step leads to the other's
      sending chain, and the other receives in exactly the chain this one sends in. */
  ghost predicate InStep(ahead: State, behind: State) {
    && ahead.dhr == Some(behind.dhsPub)
    && (var (rk, chain) := KdfRk(behind.rk, DiffieHellman(behind.dhs, ahead.dhsPub));
        ahead.rk == rk && ahead.cks == Some(ChainAt(chain, ahead.ns)))
    && (if behind.cks.None? then ahead.ckr.None?
        else
          && ahead.ckr.Some? && ahead.nr <= behind.ns
          && exists c :: ahead.ckr == Some(ChainAt(c, ahead.nr)) && behind.cks == Some(ChainAt(c, behind.ns)))
  }

  /** How many times an end has turned the ratchet, read off its root key: the initiator starts one root step below the
      session root, the responder at it, and a turn is two steps. */
  ghost predicate HasTurned(root: Bytes, s: State, p: Party, turns: int) {
    OnRootChain(root, s.rk) && RootDepth(s.rk) == RootDepth(root) + 2 * turns + (if p == TheInitiator then 1 else 0)
  }

  /** After every run the ends are in step, one or the other ahead by a single root step, both root keys on the root chain
      of the session; so the turns counted off the root keys satisfy initiator <= responder <= initiator + 1, and no
      chain is ever skipped. */
  lemma EndsInStep(w: World)
    requires Inv(w)
    ensures InStep(StateOf(w, TheInitiator), StateOf(w, TheResponder))
         || InStep(StateOf(w, TheResponder), StateOf(w, TheInitiator))
    ensures exists turnsI: nat, turnsR: nat ::
              && HasTurned(w.es[0].root, StateOf(w, TheInitiator), TheInitiator, turnsI)
              && HasTurned(w.es[0].root, StateOf(w, TheResponder), TheResponder, turnsR)
              && turnsI <= turnsR <= turnsI + 1
  {
    hide InStep, BankExact, FromBytes, LinkedAt, KeysDiffer, Counted, OnRootChain, RootDepth, ChainAt, PublicKey;
    var e, f := w.EpochOf(TheInitiator), w.EpochOf(TheResponder);
    RootsOnChain(w.es, e);
    RootsOnChain(w.es, f);
    assert HasTurned(w.es[0].root, StateOf(w, TheInitiator), TheInitiator, (e - 1) / 2);
    assert HasTurned(w.es[0].root, StateOf(w, TheResponder), TheResponder, f / 2);
    if (|w.es| - 1) % 2 == 1 {
      StatesInStep(w.es, StateOf(w, TheInitiator), StateOf(w, TheResponder));
    } else {
      StatesInStep(w.es, StateOf(w, TheResponder), StateOf(w, TheInitiator));
    }
  }

  /** The count is the root key's own: no end has turned two different numbers of times. */
  lemma TurnsUnique(root: Bytes, s: State, p: Party, a: int, b: int)
    requires HasTurned(root, s, p, a) && HasTurned(root, s, p, b)
    ensures a == b
  {
  }

  lemma StatesInStep(es: seq<Epoch>, ahead: State, behind: State)
    requires Linked(es) && KeysAligned(es, ahead, |es| - 1) && KeysAligned(es, behind, |es| - 2)
    ensures InStep(ahead, behind)
  {
    hide PublicKey, DiffieHellman, KdfRk, ChainAt;
    assert LinkedAt(es, |es| - 1);
    var c := es[|es| - 2].chain;
    assert |es| >= 3 ==>
      ahead.ckr == Some(ChainAt(c, ahead.nr)) && behind.cks == Some(ChainAt(c, behind.ns));
  }

  // ---------- An exchange ----------

  /** The number of the next message of a chain has not been read. */
  lemma NextUnread(w: World, p: Party)
    requires Inv(w) && w.EpochOf(p) >= 1
    ensures At(w.EpochOf(p), |w.es[w.EpochOf(p)].sent|) !in w.read
  {
    hide FromBytes, BankCovers, BankOnly, LinkedAt, KeysDiffer, Counted, ChainAt, PublicKey;
    var e, q := w.EpochOf(p), p.Peer();
    var s, n := StateOf(w, q), |w.es[e].sent|;
    assert Aligned(w.es, w.read, s, w.EpochOf(q));
    assert !Passed(w.es, w.EpochOf(q), s.nr, e, n);
    assert (w.EpochOf(q) - e) % 2 == 1;
  }

  /** A message delivered right after it was sent is what every run may contain, and the peer reads it if it fits. */
  lemma Exchange(w: World, p: Party, plain: Bytes, newKey: Bytes)
    requires Inv(w) && Allowed(w, Send(p, plain)) && w.EpochOf(p) >= 1
    requires |newKey| == KEY_LEN && NewKey(Next(w, Send(p, plain)).es, newKey)
    ensures var sent := EncryptMessage(w.Blob(p), plain);
            && sent.Ok?
            && var w1 := Next(w, Send(p, plain));
            && Inv(w1) && OpensIfFits(w1, p.Peer(), sent.value.1, plain, newKey)
            && AllowedRun(w, [Send(p, plain), Deliver(p.Peer(), sent.value.1, newKey)])
            && (DecryptMessage(w1.Blob(p.Peer()), sent.value.1, newKey).Ok? ==>
                  Received(w, [Send(p, plain), Deliver(p.Peer(), sent.value.1, newKey)], p.Peer()) == [plain])
  {
    hide Next, EncryptMessage, DecryptMessage, ParseMessage, Fits, WireOf, NewKey, Allowed, EndAligned, InMemory;
    hide LinkedAt, KeysDiffer, Counted;
    SendStep(w, p, plain);
    SendSucceeds(w, p, plain);
    var q, e, n := p.Peer(), w.EpochOf(p), |w.es[w.EpochOf(p)].sent|;
    var w1, m := Next(w, Send(p, plain)), EncryptMessage(w.Blob(p), plain).value.1;
    SentAwaited(w, p, plain);
    WireOpens(w1, q, e, n, newKey);
    HonestAllowed(w1, q, e, n, newKey);
    StepKeepsInv(w1, Deliver(q, m, newKey));
    TwoEvents(w, Send(p, plain), Deliver(q, m, newKey));
  }

  lemma SentAwaited(w: World, p: Party, plain: Bytes)
    requires Inv(w) && Allowed(w, Send(p, plain)) && w.EpochOf(p) >= 1
    ensures var w1 := Next(w, Send(p, plain));
            Linked(w1.es) && Awaited(w1.es, w1.read, w1.EpochOf(p.Peer()), w.EpochOf(p), |w.es[w.EpochOf(p)].sent|)
  {
    hide EncryptMessage, Next, EndAligned, LinkedAt, KeysDiffer, Counted, InMemory, WireOf, Allowed;
    SendStep(w, p, plain);
    SendHistory(w, p, plain);
    NextUnread(w, p);
  }

  lemma SendHistory(w: World, p: Party, plain: Bytes)
    requires Linked(w.es)
    ensures Next(w, Send(p, plain)).read == w.read && |Next(w, Send(p, plain)).es| == |w.es|
  {
    hide EncryptMessage, DecryptMessage, LinkedAt, KeysDiffer, Counted;
  }

  lemma TwoEvents(w: World, a: Event, b: Event)
    requires Inv(w) && Allowed(w, a) && Inv(Next(w, a)) && Allowed(Next(w, a), b) && Inv(Next(Next(w, a), b))
    requires a.Send? && b.Deliver?
    ensures AllowedRun(w, [a, b])
    ensures DecryptMessage(Next(w, a).Blob(b.receiver), b.message, b.newKey).Ok? ==>
              Received(w, [a, b], b.receiver) == [DecryptMessage(Next(w, a).Blob(b.receiver), b.message, b.newKey).value.1]
  {
    hide Next, Allowed, DecryptMessage, EncryptMessage, EndAligned, InMemory, LinkedAt, KeysDiffer, Counted;
    var w1, w2 := Next(w, a), Next(Next(w, a), b);
    assert [a, b][1..] == [b] && [b][1..] == [];
    assert AllowedRun(w2, []);
    assert AllowedRun(w1, [b]);
    assert Received(w2, [], b.receiver) == [];
  }

  /** The two ends of a session that has just been agreed on. */
  ghost function NewSession(root: Bytes, spk: Bytes, key: Bytes): World {
    World(InitialEpochs(root, spk, key), {}, ToBytes(Initiator(root, PublicKey(spk), key)), ToBytes(Responder(root, spk)))
  }

  lemma FirstFits(root: Bytes, spk: Bytes, key: Bytes, plain: Bytes, newKey: Bytes)
    requires |root| == KEY_LEN && |spk| == KEY_LEN && |key| == KEY_LEN && spk != key && newKey != spk && newKey != key
    requires |plain| + TAG_LEN < 0x1_0000_0000_0000_0000
    ensures var w := NewSession(root, spk, key);
            var w1 := Next(w, Send(TheInitiator, plain));
            var sent := EncryptMessage(w.initiator, plain);
            && Inv(w) && Allowed(w, Send(TheInitiator, plain)) && w.EpochOf(TheInitiator) == 1
            && sent.Ok? && Inv(w1) && NewKey(w1.es, newKey)
            && ParseMessage(sent.value.1).Ok? && Fits(StateOf(w1, TheResponder), ParseMessage(sent.value.1).value.0)
  {
    hide ToBytes, FromBytes, ParseMessage, WireOf, CipherOf, KdfRk, DiffieHellman, PublicKey, Aligned, LinkedAt, KeysDiffer, Encrypt;
    var w := NewSession(root, spk, key);
    InitialInv(root, spk, key);
    SendStep(w, TheInitiator, plain);
    SendSucceeds(w, TheInitiator, plain);
    var w1 := Next(w, Send(TheInitiator, plain));
    WireParses(w1, 1, 0);
    InitialFormed(root, PublicKey(spk), spk);
    SessionRoundTrip(Responder(root, spk));
  }

  /** The first message of a session, from a root and a prekey to a plaintext read. */
  lemma FirstMessageRead(root: Bytes, spk: Bytes, key: Bytes, plain: Bytes, newKey: Bytes)
    requires |root| == KEY_LEN && |spk| == KEY_LEN && |key| == KEY_LEN && |newKey| == KEY_LEN
    requires spk != key && newKey != spk && newKey != key && |plain| + TAG_LEN < 0x1_0000_0000_0000_0000
    ensures var w := NewSession(root, spk, key);
            var sent := EncryptMessage(w.initiator, plain);
            && sent.Ok?
            && var evs := [Send(TheInitiator, plain), Deliver(TheResponder, sent.value.1, newKey)];
            && AllowedRun(w, evs) && Received(w, evs, TheResponder) == [plain]
  {
    hide NewSession, EncryptMessage, DecryptMessage, Received, AllowedRun, Inv, Next, Allowed, NewKey, Fits, ParseMessage;
    FirstFits(root, spk, key, plain, newKey);
    Exchange(NewSession(root, spk, key), TheInitiator, plain, newKey);
  }
}
