/**
 Sessions used in memory, where a failing decrypt leaves its changes behind.

 Nothing is assumed here about the keys generated, about counters or about the two ends being in step: an end may be led
 off the common root chain, lose keys, or wrap its counters. Depth and position still place every message key, and that
 is enough: no key is used to seal twice, whatever is delivered, and none to open twice. That what opens was sealed by
 the peer assumes in addition that nobody else seals under keys of the session.
 */
module RawRuns {
  import opened Octets
  import opened Crypto
  import opened Chains
  import opened Ratchet
  import opened Joint
  import opened Facade

  /** Where a message key sits. */
  datatype Coord = Coord(depth: nat, pos: nat)

  function CoordOf(mk: Bytes): Coord {
    Coord(ChainDepth(ChainOf(mk)), Position(ChainOf(mk)))
  }

  lemma CoordOfStep(root: Bytes, ck: Bytes)
    ensures var (next, mk) := KdfCk(ck);
            && CoordOf(mk) == Coord(ChainDepth(ck), Position(ck))
            && Position(next) == Position(ck) + 1 && ChainDepth(next) == ChainDepth(ck)
            && (OnChain(root, ck) ==> OnChain(root, next) && Descends(root, mk))
  {
    ChainStepTerm(ck);
  }

  // ---------- Receiving ----------

  /** The receiver has moved past coordinate `c`: it lies in an earlier chain, or before the current position. */
  predicate Behind(s: State, c: Coord) {
    var depth := RootDepth(s.rk);
    && (depth - c.depth) % 2 == 0
    && (c.depth + 2 < depth || (c.depth + 2 == depth && s.ckr.Some? && c.pos < Position(s.ckr.value)))
  }

  /** Keys read, banked and still derivable are pairwise different: read and banked coordinates lie behind, banked
      ones are not read, and no two slots hold the same one. */
  ghost predicate RecvOk(root: Bytes, s: State, read: set<Coord>) {
    && OnRootChain(root, s.rk)
    && (s.ckr.Some? ==> OnChain(root, s.ckr.value) && ChainDepth(s.ckr.value) + 2 == RootDepth(s.rk))
    && (forall c :: c in read ==> Behind(s, c))
    && (forall k :: k in s.skipped ==> BankedOk(root, s, read, k))
    && (forall k, l :: k in s.skipped && l in s.skipped && k != l ==> CoordsDiffer(s.skipped, k, l))
  }

  ghost predicate BankedOk(root: Bytes, s: State, read: set<Coord>, k: Slot)
    requires k in s.skipped
  {
    var mk := s.skipped[k];
    Descends(root, mk) && CoordOf(mk) !in read && Behind(s, CoordOf(mk))
  }

  ghost predicate CoordsDiffer(bank: map<Slot, Bytes>, k: Slot, l: Slot)
    requires k in bank && l in bank
  {
    CoordOf(bank[k]) != CoordOf(bank[l])
  }

  /** Moving the receiving chain on by one step, banking the key or losing it. */
  lemma AdvanceOk(root: Bytes, s: State, read: set<Coord>)
    requires RecvOk(root, s, read) && s.ckr.Some?
    ensures var (next, mk) := KdfCk(s.ckr.value);
            var t := s.(ckr := Some(next));
            && RecvOk(root, t, read)
            && Descends(root, mk) && CoordOf(mk) !in read && Behind(t, CoordOf(mk)) && !Behind(s, CoordOf(mk))
  {
    hide KdfCk, OnRootChain, OnChain, Descends, CoordOf, RootDepth, ChainDepth, Position;
    CoordOfStep(root, s.ckr.value);
    var t := s.(ckr := Some(KdfCk(s.ckr.value).0));
    assert forall c :: Behind(s, c) ==> Behind(t, c);
    forall k | k in t.skipped
      ensures BankedOk(root, t, read, k)
    {
      assert BankedOk(root, s, read, k);
    }
    forall k, l | k in t.skipped && l in t.skipped && k != l
      ensures CoordsDiffer(t.skipped, k, l)
    {
      assert CoordsDiffer(s.skipped, k, l);
    }
  }

  /** Banking a key that lies behind and is in no slot yet. */
  lemma StoreOk(root: Bytes, s: State, read: set<Coord>, slot: Slot, mk: Bytes, nr: u32)
    requires RecvOk(root, s, read) && Descends(root, mk) && CoordOf(mk) !in read && Behind(s, CoordOf(mk))
    requires forall k :: k in s.skipped ==> CoordOf(s.skipped[k]) != CoordOf(mk)
    ensures RecvOk(root, s.(skipped := s.skipped[slot := mk], nr := nr), read)
  {
    hide OnRootChain, OnChain, Descends, CoordOf, RootDepth, ChainDepth, Position;
    var t := s.(skipped := s.skipped[slot := mk], nr := nr);
    assert forall c :: Behind(s, c) ==> Behind(t, c);
    forall k | k in t.skipped
      ensures BankedOk(root, t, read, k)
    {
      assert k != slot ==> BankedOk(root, s, read, k);
    }
    forall k, l | k in t.skipped && l in t.skipped && k != l
      ensures CoordsDiffer(t.skipped, k, l)
    {
      assert k != slot && l != slot ==> CoordsDiffer(s.skipped, k, l);
    }
  }

  /** What sending uses is left alone, and the key received under. */
  predicate SendSame(s: State, t: State) {
    && t.rk == s.rk && t.cks == s.cks && t.dhs == s.dhs && t.dhsPub == s.dhsPub
    && t.dhr == s.dhr && t.ns == s.ns && t.pn == s.pn
  }

  /** Skipping keeps keys apart on every path, a full store included. */
  lemma {:induction false} BankUntilOk(root: Bytes, s: State, read: set<Coord>, dh: Bytes, upTo: u32)
    requires RecvOk(root, s, read) && s.ckr.Some?
    ensures var t := BankUntil(s, dh, upTo).state; RecvOk(root, t, read) && SendSame(s, t)
    decreases upTo - s.nr
  {
    hide KdfCk, RecvOk, Descends, CoordOf, Behind, BankUntil;
    if s.nr >= upTo {
      BankUntilDone(s, dh, upTo);
    } else {
      var (next, mk) := KdfCk(s.ckr.value);
      var moved := s.(ckr := Some(next));
      var stored := moved.(skipped := s.skipped[Slot(dh, s.nr) := mk], nr := s.nr + 1);
      BankUntilUnfold(s, dh, upTo, moved, stored);
      AdvanceOk(root, s, read);
      if |s.skipped| < MAX_STORED_SKIPPED {
        BankedElsewhere(root, s, read, CoordOf(mk));
        StoreOk(root, moved, read, Slot(dh, s.nr), mk, s.nr + 1);
        BankUntilOk(root, stored, read, dh, upTo);
      }
    }
  }

  lemma BankedElsewhere(root: Bytes, s: State, read: set<Coord>, c: Coord)
    requires RecvOk(root, s, read) && !Behind(s, c)
    ensures forall k :: k in s.skipped ==> CoordOf(s.skipped[k]) != c
  {
    hide CoordOf, Descends, Behind;
    assert forall k :: k in s.skipped ==> BankedOk(root, s, read, k);
  }

  lemma SkipOk(root: Bytes, s: State, read: set<Coord>, upTo: u32)
    requires RecvOk(root, s, read)
    ensures var t := SkipMessageKeys(s, upTo).state; RecvOk(root, t, read) && SendSame(s, t)
  {
    hide RecvOk, BankUntil;
    if s.dhr.Some? && s.ckr.Some? {
      BankUntilOk(root, s, read, s.dhr.value, upTo);
    }
  }

  /** Turning the ratchet on any key moves two roots down, past everything. */
  lemma RatchetOk(root: Bytes, s: State, read: set<Coord>, dh: Bytes, newKey: Bytes)
    requires RecvOk(root, s, read)
    ensures var t := DhRatchet(s, dh, newKey);
            && RecvOk(root, t, read) && RootDepth(t.rk) == RootDepth(s.rk) + 2
            && t.cks.Some? && OnChain(root, t.cks.value)
            && ChainDepth(t.cks.value) == RootDepth(s.rk) + 1 && Position(t.cks.value) == 0
            && t.ns == 0 && t.pn == s.ns
  {
    var d1, d2 := DiffieHellman(s.dhs, dh), DiffieHellman(newKey, dh);
    var (rk1, ckr) := KdfRk(s.rk, d1);
    RootStepTerm(s.rk, d1);
    RootStepTerm(rk1, d2);
    hide KdfRk, DiffieHellman, PublicKey, OnRootChain, OnChain, Descends, CoordOf, RootDepth, ChainDepth, Position;
    var t := DhRatchet(s, dh, newKey);
    assert forall c :: Behind(s, c) ==> Behind(t, c);
    forall k | k in t.skipped
      ensures BankedOk(root, t, read, k)
    {
      assert BankedOk(root, s, read, k);
    }
    forall k, l | k in t.skipped && l in t.skipped && k != l
      ensures CoordsDiffer(t.skipped, k, l)
    {
      assert CoordsDiffer(s.skipped, k, l);
    }
  }

  /** Taking a key out of the bank, it counts as read. */
  lemma RemoveOk(root: Bytes, s: State, read: set<Coord>, slot: Slot)
    requires RecvOk(root, s, read) && slot in s.skipped
    ensures var c := CoordOf(s.skipped[slot]);
            && c !in read && Descends(root, s.skipped[slot]) && (RootDepth(s.rk) - c.depth) % 2 == 0
            && RecvOk(root, s.(skipped := s.skipped - {slot}), read + {c})
            && RecvOk(root, s.(skipped := s.skipped - {slot}), read)
  {
    hide OnRootChain, OnChain, Descends, CoordOf, RootDepth, ChainDepth, Position;
    assert BankedOk(root, s, read, slot);
    var c, t := CoordOf(s.skipped[slot]), s.(skipped := s.skipped - {slot});
    assert forall d :: Behind(s, d) ==> Behind(t, d);
    forall k | k in t.skipped
      ensures BankedOk(root, t, read + {c}, k) && BankedOk(root, t, read, k)
    {
      assert BankedOk(root, s, read, k) && CoordsDiffer(s.skipped, k, slot);
    }
    forall k, l | k in t.skipped && l in t.skipped && k != l
      ensures CoordsDiffer(t.skipped, k, l)
    {
      assert CoordsDiffer(s.skipped, k, l);
    }
  }

  /** Reading with the next key of the chain. */
  lemma ReadNextOk(root: Bytes, s: State, read: set<Coord>, nr: u32)
    requires RecvOk(root, s, read) && s.ckr.Some?
    ensures var (next, mk) := KdfCk(s.ckr.value);
            var t := s.(ckr := Some(next), nr := nr);
            && CoordOf(mk) !in read && Descends(root, mk) && (RootDepth(s.rk) - CoordOf(mk).depth) % 2 == 0
            && RecvOk(root, t, read + {CoordOf(mk)}) && RecvOk(root, t, read)
  {
    hide KdfCk, OnRootChain, OnChain, Descends, CoordOf, RootDepth, ChainDepth, Position;
    AdvanceOk(root, s, read);
    var (next, mk) := KdfCk(s.ckr.value);
    BankedElsewhere(root, s, read, CoordOf(mk));
    var u, t := s.(ckr := Some(next)), s.(ckr := Some(next), nr := nr);
    assert forall c :: Behind(u, c) ==> Behind(t, c);
    forall k | k in t.skipped
      ensures BankedOk(root, t, read + {CoordOf(mk)}, k) && BankedOk(root, t, read, k)
    {
      assert BankedOk(root, u, read, k);
    }
    forall k, l | k in t.skipped && l in t.skipped && k != l
      ensures CoordsDiffer(t.skipped, k, l)
    {
      assert CoordsDiffer(s.skipped, k, l);
    }
  }

  // ---------- One decrypt, on every path ----------

  /** An end after a decrypt: the sending side is untouched, or starts anew two roots down. */
  ghost predicate SendMoved(root: Bytes, s: State, t: State) {
    || SendSame(s, t)
    || (&& RootDepth(t.rk) == RootDepth(s.rk) + 2
        && t.cks.Some? && OnChain(root, t.cks.value)
        && ChainDepth(t.cks.value) + 1 == RootDepth(t.rk) && Position(t.cks.value) == 0
        && t.ns == 0 && t.pn == s.ns)
  }

  /** Whatever is decrypted, with success or not, keys stay apart; if something opens, it does so with a key never
      read with before. */
  lemma DecryptOk(root: Bytes, s: State, read: set<Coord>, h: Header, cipher: Bytes, newKey: Bytes) returns (mk: Bytes)
    requires RecvOk(root, s, read)
    ensures var r := DecryptParsed(s, h, cipher, newKey);
            && RecvOk(root, r.state, read) && SendMoved(root, s, r.state)
            && (r.result.Ok? ==>
                  && OpenWith(mk, h, cipher) == r.result && Descends(root, mk) && CoordOf(mk) !in read
                  && (RootDepth(r.state.rk) - CoordOf(mk).depth) % 2 == 0
                  && RecvOk(root, r.state, read + {CoordOf(mk)}))
  {
    hide OpenWith, RecvOk, Descends, CoordOf, OnChain, RootDepth, ChainDepth, Position, KdfCk, SkipMessageKeys, Turn;
    var slot := Slot(h.dh, h.n);
    if slot in s.skipped {
      mk := s.skipped[slot];
      RemoveOk(root, s, read, slot);
    } else {
      var turned := Turn(s, h, newKey);
      TurnOk(root, s, read, h, newKey);
      mk := [];
      if turned.result.Ok? {
        var forward := SkipMessageKeys(turned.state, h.n);
        SkipOk(root, turned.state, read, h.n);
        if forward.result.Ok? && forward.state.ckr.Some? {
          mk := KdfCk(forward.state.ckr.value).1;
          ReadNextOk(root, forward.state, read, Successor(forward.state.nr));
        }
      }
    }
  }

  lemma TurnOk(root: Bytes, s: State, read: set<Coord>, h: Header, newKey: Bytes)
    requires RecvOk(root, s, read)
    ensures var t := Turn(s, h, newKey).state; RecvOk(root, t, read) && SendMoved(root, s, t)
  {
    hide RecvOk, OnChain, RootDepth, ChainDepth, Position, SkipMessageKeys, DhRatchet;
    if s.dhr != Some(h.dh) {
      SkipOk(root, s, read, h.pn);
      RatchetOk(root, SkipMessageKeys(s, h.pn).state, read, h.dh, newKey);
    }
  }

  // ---------- Sending ----------

  /** The sender has moved past coordinate `c`. */
  predicate SentBefore(s: State, c: Coord) {
    var depth := RootDepth(s.rk);
    && (depth - c.depth) % 2 == 1
    && (c.depth + 1 < depth || (c.depth + 1 == depth && s.cks.Some? && c.pos < Position(s.cks.value)))
  }

  ghost predicate SendOk(root: Bytes, s: State) {
    s.cks.Some? ==> OnChain(root, s.cks.value) && ChainDepth(s.cks.value) + 1 == RootDepth(s.rk)
  }

  lemma SendMovedOk(root: Bytes, s: State, t: State)
    requires SendOk(root, s) && SendMoved(root, s, t)
    ensures SendOk(root, t) && (forall c :: SentBefore(s, c) ==> SentBefore(t, c))
    ensures (RootDepth(t.rk) - RootDepth(s.rk)) % 2 == 0
  {
    hide OnChain, RootDepth, ChainDepth, Position;
  }

  /** Encrypting seals under a key at the sender's own coordinate, and moves past it. */
  lemma EncryptOk(root: Bytes, s: State, plain: Bytes)
    requires SendOk(root, s) && s.cks.Some?
    ensures var mk := KdfCk(s.cks.value).1;
            var t := Encrypt(s, plain).state;
            && Descends(root, mk) && !SentBefore(s, CoordOf(mk)) && SentBefore(t, CoordOf(mk))
            && SendOk(root, t) && (forall c :: SentBefore(s, c) ==> SentBefore(t, c))
            && t == s.(cks := t.cks, ns := t.ns)
  {
    hide OnChain, RootDepth, ChainDepth, Position, KdfCk, WireMessage, SealWith, CoordOf, Descends;
    CoordOfStep(root, s.cks.value);
  }

  lemma EncryptKeepsRecv(root: Bytes, s: State, t: State, read: set<Coord>)
    requires RecvOk(root, s, read) && t == s.(cks := t.cks, ns := t.ns)
    ensures RecvOk(root, t, read)
  {
    hide OnRootChain, OnChain, Descends, CoordOf, RootDepth, ChainDepth, Position;
    assert forall c :: Behind(s, c) ==> Behind(t, c);
    forall k | k in t.skipped
      ensures BankedOk(root, t, read, k)
    {
      assert BankedOk(root, s, read, k);
    }
    forall k, l | k in t.skipped && l in t.skipped && k != l
      ensures CoordsDiffer(t.skipped, k, l)
    {
      assert CoordsDiffer(s.skipped, k, l);
    }
  }

  // ---------- Two ends ----------

  /** One encrypt call: who made it, the message key it used, and what it sealed. */
  datatype Sealing = Sealing(sender: Party, mk: Bytes, header: Header, plain: Bytes)

  /** The two ends, and every encrypt call so far. */
  datatype RawWorld = RawWorld(initiator: State, responder: State, log: seq<Sealing>) {
    function End(p: Party): State {
      if p == TheInitiator then initiator else responder
    }

    function WithEnd(p: Party, s: State): RawWorld {
      if p == TheInitiator then this.(initiator := s) else this.(responder := s)
    }
  }

  /** One event: the end keeps whatever state the call leaves, on errors too. */
  function RawNext(w: RawWorld, ev: Event): RawWorld {
    match ev
    case Send(p, plain) =>
      var s := w.End(p);
      var step := Encrypt(s, plain);
      if s.cks.None? then w
      else
        w.WithEnd(p, step.state)
         .(log := w.log + [Sealing(p, KdfCk(s.cks.value).1, Header(s.dhsPub, s.pn, s.ns), plain)])
    case Deliver(p, message, newKey) =>
      w.WithEnd(p, Decrypt(w.End(p), message, newKey).state)
  }

  /** Nobody but the two ends seals under message keys that descend from the session root. */
  ghost predicate RawUnforged(root: Bytes, log: seq<Sealing>, cipher: Bytes) {
    forall mk, aad, plain :: SealedUnder(cipher, mk, aad, plain) && Descends(root, mk) ==>
      exists i :: 0 <= i < |log| && cipher == SealWith(log[i].mk, log[i].header, log[i].plain)
  }

  ghost predicate RawAllowed(root: Bytes, w: RawWorld, ev: Event) {
    ev.Deliver? && ParseMessage(ev.message).Ok? ==> RawUnforged(root, w.log, ParseMessage(ev.message).value.1)
  }

  ghost predicate LogOk(w: RawWorld) {
    && (forall i :: 0 <= i < |w.log| ==> SentBefore(w.End(w.log[i].sender), CoordOf(w.log[i].mk)))
    && (forall i, j :: 0 <= i < j < |w.log| ==> CoordOf(w.log[i].mk) != CoordOf(w.log[j].mk))
  }

  ghost predicate EndOk(root: Bytes, s: State, read: set<Coord>) {
    RecvOk(root, s, read) && SendOk(root, s)
  }

  ghost predicate RawInv(root: Bytes, w: RawWorld, readI: set<Coord>, readR: set<Coord>) {
    && EndOk(root, w.initiator, readI) && EndOk(root, w.responder, readR)
    && (RootDepth(w.initiator.rk) - RootDepth(w.responder.rk)) % 2 == 1
    && LogOk(w)
  }

  lemma RawInitial(root: Bytes, spk: Bytes, key: Bytes)
    ensures RawInv(root, RawWorld(Initiator(root, PublicKey(spk), key), Responder(root, spk), []), {}, {})
  {
    RootStepTerm(root, DiffieHellman(key, PublicKey(spk)));
  }

  lemma RawSend(root: Bytes, w: RawWorld, readI: set<Coord>, readR: set<Coord>, p: Party, plain: Bytes)
    requires RawInv(root, w, readI, readR)
    ensures RawInv(root, RawNext(w, Send(p, plain)), readI, readR)
    ensures w.End(p).cks.Some? ==>
              var log := RawNext(w, Send(p, plain)).log;
              var last := log[|log| - 1];
              Encrypt(w.End(p), plain).result == Ok(WireMessage(last.header, SealWith(last.mk, last.header, last.plain)))
  {
    hide RecvOk, OnChain, RootDepth, ChainDepth, Position, KdfCk, CoordOf, WireMessage, SealWith, Descends, SentBefore;
    var s := w.End(p);
    if s.cks.Some? {
      var t := Encrypt(s, plain).state;
      EncryptOk(root, s, plain);
      EncryptKeepsRecv(root, s, t, ReadBy(readI, readR, p));
      var w' := RawNext(w, Send(p, plain));
      assert w'.End(p) == t && w'.End(p.Peer()) == w.End(p.Peer()) && t.rk == s.rk;
      LogGrows(w, w', p);
    }
  }

  /** A new sealing is at a coordinate nothing was sealed at before: not by this end, which has not been there, and
      not by the other, whose depths have the other parity. */
  lemma LogGrows(w: RawWorld, w': RawWorld, p: Party)
    requires LogOk(w) && |w'.log| == |w.log| + 1 && w'.log[..|w.log|] == w.log && w'.log[|w.log|].sender == p
    requires (RootDepth(w.initiator.rk) - RootDepth(w.responder.rk)) % 2 == 1
    requires w'.End(p).rk == w.End(p).rk && w'.End(p.Peer()) == w.End(p.Peer())
    requires forall c :: SentBefore(w.End(p), c) ==> SentBefore(w'.End(p), c)
    requires var c := CoordOf(w'.log[|w.log|].mk); !SentBefore(w.End(p), c) && SentBefore(w'.End(p), c)
    ensures LogOk(w')
  {
    hide CoordOf, RootDepth, Position;
    var n := |w.log|;
    assert forall i :: 0 <= i < n ==> w'.log[i] == w.log[i];
    forall i | 0 <= i < n
      ensures CoordOf(w'.log[i].mk) != CoordOf(w'.log[n].mk) && SentBefore(w'.End(w'.log[i].sender), CoordOf(w'.log[i].mk))
    {
      assert SentBefore(w.End(w.log[i].sender), CoordOf(w.log[i].mk));
    }
  }

  function ReadBy(readI: set<Coord>, readR: set<Coord>, p: Party): set<Coord> {
    if p == TheInitiator then readI else readR
  }

  /** What opens was sealed by the peer: it was sealed by somebody, and depths of the end's own sealings have the
      other parity. */
  lemma OpenedByPeer(root: Bytes, w: RawWorld, p: Party, mk: Bytes, h: Header, cipher: Bytes) returns (i: nat)
    requires LogOk(w) && RawUnforged(root, w.log, cipher) && Descends(root, mk) && OpenWith(mk, h, cipher).Ok?
    requires (RootDepth(w.End(p).rk) - CoordOf(mk).depth) % 2 == 0
    ensures i < |w.log| && w.log[i].sender == p.Peer() && w.log[i].mk == mk
    ensures w.log[i].plain == OpenWith(mk, h, cipher).value
  {
    hide CoordOf, RootDepth, Position, Descends, ToAad;
    var plain := OpenWith(mk, h, cipher).value;
    var (key, nonce) := MessageKeys(mk);
    OpenExact(key, nonce, ToAad(h), cipher, plain);
    assert SealedUnder(cipher, mk, ToAad(h), plain);
    i :| 0 <= i < |w.log| && cipher == SealWith(w.log[i].mk, w.log[i].header, w.log[i].plain);
    var (key', nonce') := MessageKeys(w.log[i].mk);
    SealInjective(key, nonce, ToAad(h), plain, key', nonce', ToAad(w.log[i].header), w.log[i].plain);
    SealKeyInjective(mk, w.log[i].mk);
    assert SentBefore(w.End(w.log[i].sender), CoordOf(mk));
  }

  /** One decrypt keeps both ends' keys apart; a success names an encrypt of the peer, with a key not read before. */
  lemma RawDeliver(root: Bytes, w: RawWorld, readI: set<Coord>, readR: set<Coord>, p: Party, message: Bytes, newKey: Bytes)
    returns (readI': set<Coord>, readR': set<Coord>, i: nat)
    requires RawInv(root, w, readI, readR) && RawAllowed(root, w, Deliver(p, message, newKey))
    ensures RawInv(root, RawNext(w, Deliver(p, message, newKey)), readI', readR')
    ensures var r := Decrypt(w.End(p), message, newKey).result;
            if r.Ok? then
              && i < |w.log| && w.log[i].sender == p.Peer() && w.log[i].plain == r.value
              && CoordOf(w.log[i].mk) !in ReadBy(readI, readR, p)
              && ReadBy(readI', readR', p) == ReadBy(readI, readR, p) + {CoordOf(w.log[i].mk)}
              && ReadBy(readI', readR', p.Peer()) == ReadBy(readI, readR, p.Peer())
            else readI' == readI && readR' == readR
  {
    hide RecvOk, OnChain, RootDepth, ChainDepth, Position, CoordOf, Descends, OpenWith, ParseMessage, DecryptParsed;
    hide RawUnforged, SentBefore;
    readI', readR', i := readI, readR, 0;
    var s, read := w.End(p), ReadBy(readI, readR, p);
    var w' := RawNext(w, Deliver(p, message, newKey));
    if ParseMessage(message).Ok? {
      var (h, cipher) := ParseMessage(message).value;
      var r := DecryptParsed(s, h, cipher, newKey);
      var mk := DecryptOk(root, s, read, h, cipher, newKey);
      SendMovedOk(root, s, r.state);
      LogKept(w, w', p);
      if r.result.Ok? {
        i := OpenedByPeer(root, w, p, mk, h, cipher);
        if p == TheInitiator {
          readI' := readI + {CoordOf(mk)};
        } else {
          readR' := readR + {CoordOf(mk)};
        }
      }
    } else {
      assert w' == w;
    }
  }

  lemma LogKept(w: RawWorld, w': RawWorld, p: Party)
    requires LogOk(w) && w'.log == w.log && w'.End(p.Peer()) == w.End(p.Peer())
    requires forall c :: SentBefore(w.End(p), c) ==> SentBefore(w'.End(p), c)
    ensures LogOk(w')
  {
    hide CoordOf, SentBefore;
    forall i | 0 <= i < |w'.log|
      ensures SentBefore(w'.End(w'.log[i].sender), CoordOf(w'.log[i].mk))
    {
      assert SentBefore(w.End(w.log[i].sender), CoordOf(w.log[i].mk));
      assert w'.log[i].sender == p || w'.log[i].sender == p.Peer();
    }
  }

  // ---------- Runs ----------

  ghost predicate RawAllowedRun(root: Bytes, w: RawWorld, evs: seq<Event>)
    decreases |evs|
  {
    evs == [] || (RawAllowed(root, w, evs[0]) && RawAllowedRun(root, RawNext(w, evs[0]), evs[1..]))
  }

  function RawRun(w: RawWorld, evs: seq<Event>): RawWorld
    decreases |evs|
  {
    if evs == [] then w else RawRun(RawNext(w, evs[0]), evs[1..])
  }

  /** The plaintexts `p` gets out of a run, in order. */
  function RawReceived(w: RawWorld, evs: seq<Event>, p: Party): seq<Bytes>
    decreases |evs|
  {
    if evs == [] then []
    else
      var rest := RawReceived(RawNext(w, evs[0]), evs[1..], p);
      match evs[0]
      case Send(_, _) => rest
      case Deliver(q, message, newKey) =>
        var r := Decrypt(w.End(q), message, newKey).result;
        if q == p && r.Ok? then [r.value] + rest else rest
  }

  lemma {:induction false} LogPrefix(w: RawWorld, evs: seq<Event>)
    ensures |w.log| <= |RawRun(w, evs).log| && RawRun(w, evs).log[..|w.log|] == w.log
    decreases |evs|
  {
    hide Decrypt, Encrypt, KdfCk;
    if evs != [] {
      LogPrefix(RawNext(w, evs[0]), evs[1..]);
      assert RawNext(w, evs[0]).log[..|w.log|] == w.log;
    }
  }

  /** With any octets delivered, any failures kept and any counters wrapped, each plaintext an end gets is that of an
      encrypt call of its peer, and no two are of the same call: `from` gives the calls. */
  lemma {:induction false} RawExactlyOnce(root: Bytes, w: RawWorld, evs: seq<Event>, p: Party,
                                          readI: set<Coord>, readR: set<Coord>)
    returns (from: seq<nat>)
    requires RawInv(root, w, readI, readR) && RawAllowedRun(root, w, evs)
    ensures |from| == |RawReceived(w, evs, p)|
    ensures forall k :: 0 <= k < |from| ==>
              SealedByPeer(RawRun(w, evs).log, p, from[k], RawReceived(w, evs, p)[k], ReadBy(readI, readR, p))
    ensures forall k, l :: 0 <= k < l < |from| ==> from[k] != from[l]
    decreases |evs|
  {
    hide RawInv, RawAllowed, RawNext, Decrypt, SealedByPeer;
    if evs == [] {
      from := [];
    } else {
      var w1, read := RawNext(w, evs[0]), ReadBy(readI, readR, p);
      match evs[0]
      case Send(q, plain) =>
        RawSend(root, w, readI, readR, q, plain);
        from := RawExactlyOnce(root, w1, evs[1..], p, readI, readR);
      case Deliver(q, message, newKey) =>
        var readI', readR', i := RawDeliver(root, w, readI, readR, q, message, newKey);
        var rest := RawExactlyOnce(root, w1, evs[1..], p, readI', readR');
        from := rest;
        forall k | 0 <= k < |rest|
          ensures SealedByPeer(RawRun(w, evs).log, p, rest[k], RawReceived(w1, evs[1..], p)[k], read)
        {
          StillUnread(RawRun(w, evs).log, p, rest[k], RawReceived(w1, evs[1..], p)[k], ReadBy(readI', readR', p), read);
        }
        if q == p && Decrypt(w.End(q), message, newKey).result.Ok? {
          from := [i] + rest;
          LogPrefix(w, evs);
          assert RawRun(w, evs).log[i] == w.log[i];
          FirstReceived(RawRun(w, evs).log, p, i, w.log[i].plain, read);
          forall k | 0 <= k < |rest|
            ensures rest[k] != i
          {
            ReadApart(RawRun(w, evs).log, p, rest[k], RawReceived(w1, evs[1..], p)[k], ReadBy(readI', readR', p), i);
          }
        }
    }
  }

  /** The plaintext is that of encrypt call `i`, made by the peer of `p`, with a key outside `read`. */
  ghost predicate SealedByPeer(log: seq<Sealing>, p: Party, i: nat, plain: Bytes, read: set<Coord>) {
    i < |log| && log[i].sender == p.Peer() && log[i].plain == plain && CoordOf(log[i].mk) !in read
  }

  lemma StillUnread(log: seq<Sealing>, p: Party, i: nat, plain: Bytes, read: set<Coord>, before: set<Coord>)
    requires SealedByPeer(log, p, i, plain, read) && before <= read
    ensures SealedByPeer(log, p, i, plain, before)
  {
  }

  lemma FirstReceived(log: seq<Sealing>, p: Party, i: nat, plain: Bytes, read: set<Coord>)
    requires i < |log| && log[i].sender == p.Peer() && log[i].plain == plain && CoordOf(log[i].mk) !in read
    ensures SealedByPeer(log, p, i, plain, read)
  {
  }

  lemma ReadApart(log: seq<Sealing>, p: Party, k: nat, plain: Bytes, read: set<Coord>, i: nat)
    requires SealedByPeer(log, p, k, plain, read) && i < |log| && CoordOf(log[i].mk) in read
    ensures k != i
  {
  }

  /** Decrypting anything, forged octets included, keeps the invariant as it stood. */
  lemma RawDeliverKeepsInv(root: Bytes, w: RawWorld, readI: set<Coord>, readR: set<Coord>, p: Party, message: Bytes, newKey: Bytes)
    requires RawInv(root, w, readI, readR)
    ensures RawInv(root, RawNext(w, Deliver(p, message, newKey)), readI, readR)
  {
    hide RecvOk, OnChain, RootDepth, ChainDepth, Position, CoordOf, Descends, OpenWith, ParseMessage, DecryptParsed;
    hide SentBefore;
    var s := w.End(p);
    var w' := RawNext(w, Deliver(p, message, newKey));
    if ParseMessage(message).Ok? {
      var (h, cipher) := ParseMessage(message).value;
      var mk := DecryptOk(root, s, ReadBy(readI, readR, p), h, cipher, newKey);
      SendMovedOk(root, s, DecryptParsed(s, h, cipher, newKey).state);
      LogKept(w, w', p);
    } else {
      assert w' == w;
    }
  }

  /** No two encrypt calls of a session, by either end, at any time and whatever was delivered in between, use the same
      AEAD key, nor the same nonce. */
  lemma {:induction false} NoKeyReuse(root: Bytes, w: RawWorld, evs: seq<Event>, readI: set<Coord>, readR: set<Coord>)
    requires RawInv(root, w, readI, readR)
    ensures AllApart(RawRun(w, evs).log)
    decreases |evs|
  {
    hide RawInv, RawNext, AllApart;
    if evs == [] {
      LogApart(root, w, readI, readR);
    } else {
      match evs[0] {
        case Send(q, plain) => RawSend(root, w, readI, readR, q, plain);
        case Deliver(q, message, newKey) => RawDeliverKeepsInv(root, w, readI, readR, q, message, newKey);
      }
      NoKeyReuse(root, RawNext(w, evs[0]), evs[1..], readI, readR);
    }
  }

  lemma LogApart(root: Bytes, w: RawWorld, readI: set<Coord>, readR: set<Coord>)
    requires RawInv(root, w, readI, readR)
    ensures AllApart(w.log)
  {
    hide EndOk, KeysApart, RootDepth, CoordOf;
    forall i, j | 0 <= i < j < |w.log|
      ensures KeysApart(w.log[i].mk, w.log[j].mk)
    {
      ApartByCoord(w.log[i].mk, w.log[j].mk);
    }
  }

  /** Every two sealings used different AEAD keys, and different nonces. */
  ghost predicate AllApart(log: seq<Sealing>) {
    forall i, j :: 0 <= i < j < |log| ==> KeysApart(log[i].mk, log[j].mk)
  }

  ghost predicate KeysApart(mk: Bytes, mk': Bytes) {
    MessageKeys(mk).0 != MessageKeys(mk').0 && MessageKeys(mk).1 != MessageKeys(mk').1
  }

  lemma ApartByCoord(mk: Bytes, mk': Bytes)
    requires CoordOf(mk) != CoordOf(mk')
    ensures KeysApart(mk, mk')
  {
    if MessageKeys(mk).0 == MessageKeys(mk').0 {
      SealKeyInjective(mk, mk');
    }
    if MessageKeys(mk).1 == MessageKeys(mk').1 {
      SealNonceInjective(mk, mk');
    }
  }
}
