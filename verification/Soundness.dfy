/**
 What opens at an aligned end, whoever delivered it: only messages of the peer, each at most once.
 */
module Soundness {
  import opened Octets
  import opened Crypto
  import opened Chains
  import opened Ratchet
  import opened Joint
  import opened Delivery

  function Later(a: nat, b: nat): nat {
    if a < b then b else a
  }

  /** Whatever the header asks for and the bank holds, a skip that succeeds only moves the chain forward. */
  lemma {:induction false} BankUntilChain(s: State, dh: Bytes, upTo: u32, c: Bytes)
    requires s.ckr == Some(ChainAt(c, s.nr)) && BankUntil(s, dh, upTo).result.Ok?
    ensures var t := BankUntil(s, dh, upTo).state;
            t == s.(ckr := Some(ChainAt(c, Later(s.nr, upTo))), nr := Later(s.nr, upTo), skipped := t.skipped)
    decreases upTo - s.nr
  {
    if s.nr < upTo {
      BankUntilStep(s, dh, upTo, c);
      hide ChainAt, MessageKeyAt, BankUntil;
      BankUntilChain(s.(ckr := Some(ChainAt(c, s.nr + 1)),
                        skipped := s.skipped[Slot(dh, s.nr) := MessageKeyAt(c, s.nr)],
                        nr := s.nr + 1), dh, upTo, c);
    }
  }

  /** A skip changes the receiving chain, its counter and the bank, and nothing else. */
  lemma {:induction false} BankUntilFrame(s: State, dh: Bytes, upTo: u32)
    requires s.ckr.Some?
    ensures var t := BankUntil(s, dh, upTo).state;
            t.ckr.Some? && t == s.(ckr := t.ckr, nr := t.nr, skipped := t.skipped)
    decreases upTo - s.nr
  {
    if s.nr < upTo && |s.skipped| < MAX_STORED_SKIPPED {
      hide KdfCk;
      var (next, mk) := KdfCk(s.ckr.value);
      BankUntilFrame(s.(ckr := Some(next), skipped := s.skipped[Slot(dh, s.nr) := mk], nr := s.nr + 1), dh, upTo);
    }
  }

  lemma SkipFrame(s: State, upTo: u32)
    ensures var t := SkipMessageKeys(s, upTo).state; t == s.(ckr := t.ckr, nr := t.nr, skipped := t.skipped)
  {
    if s.ckr.Some? && s.dhr.Some? {
      BankUntilFrame(s, s.dhr.value, upTo);
    }
  }

  /** If skipping to a header's number and opening succeeds, the key was the chain's at that number or, for a number
      already passed, at `nr`. */
  lemma OpenedFromChain(s: State, h: Header, cipher: Bytes, c: Bytes)
    requires s.dhr.Some? && s.ckr == Some(ChainAt(c, s.nr)) && ForwardAndOpen(s, h, cipher).result.Ok?
    ensures OpenWith(MessageKeyAt(c, Later(s.nr, h.n)), h, cipher) == ForwardAndOpen(s, h, cipher).result
  {
    hide OpenWith, KdfCk;
    BankUntilChain(s, s.dhr.value, h.n, c);
  }

  lemma OkBanked(es: seq<Epoch>, read: set<Place>, s: State, e: nat, h: Header, cipher: Bytes) returns (j: nat)
    requires Linked(es) && Aligned(es, read, s, e) && Unforged(es, cipher) && |h.dh| == KEY_LEN
    requires Slot(h.dh, h.n) in s.skipped && OpenWith(s.skipped[Slot(h.dh, h.n)], h, cipher).Ok?
    ensures Awaited(es, read, e, j, h.n) && h == HeaderOf(es, j, h.n) && cipher == CipherOf(es, j, h.n)
  {
    hide OpenWith, CipherOf, PublicKey, ChainAt, MessageKeyAt, Descends;
    var slot := Slot(h.dh, h.n);
    var i: nat :| Passed(es, e, s.nr, i, slot.n) && At(i, slot.n) !in read && slot.dh == PublicKey(es[i].key);
    BankBelow(es, read, s, e, i, slot);
    RootsOnChain(es, i);
    MessageKeyTerm(es[i].chain, h.n);
    j := OpenedWasSent(es, s.skipped[slot], h, cipher);
    SameKeySameEpoch(es, i, j);
  }

  lemma OpenedOnChain(s: State, h: Header, cipher: Bytes)
    requires ForwardAndOpen(s, h, cipher).result.Ok?
    ensures s.ckr.Some?
  {
    hide OpenWith, BankUntil;
  }

  lemma OkCurrent(es: seq<Epoch>, read: set<Place>, s: State, e: nat, h: Header, cipher: Bytes) returns (j: nat)
    requires Linked(es) && Aligned(es, read, s, e) && Unforged(es, cipher) && |h.dh| == KEY_LEN
    requires s.dhr == Some(h.dh) && ForwardAndOpen(s, h, cipher).result.Ok?
    ensures Awaited(es, read, e, j, h.n) && h == HeaderOf(es, j, h.n) && cipher == CipherOf(es, j, h.n)
  {
    hide OpenWith, CipherOf, PublicKey, ChainAt, MessageKeyAt, Descends, ForwardAndOpen;
    OpenedOnChain(s, h, cipher);
    var c, m := es[e - 1].chain, Later(s.nr, h.n);
    OpenedFromChain(s, h, cipher, c);
    RootsOnChain(es, e - 1);
    MessageKeyTerm(c, m);
    j := OpenedWasSent(es, MessageKeyAt(c, m), h, cipher);
    SameKeySameEpoch(es, e - 1, j);
    MessageKeyPlace(c, m, es[j].chain, h.n);
    assert !Passed(es, e, s.nr, j, h.n);
  }

  lemma OkTurned(es: seq<Epoch>, read: set<Place>, s: State, e: nat, h: Header, cipher: Bytes, newKey: Bytes)
    returns (j: nat)
    requires Linked(es) && Aligned(es, read, s, e) && Unforged(es, cipher) && |h.dh| == KEY_LEN
    requires s.dhr != Some(h.dh) && Turn(s, h, newKey).result.Ok?
    requires ForwardAndOpen(Turn(s, h, newKey).state, h, cipher).result.Ok?
    ensures Awaited(es, read, e, j, h.n) && h == HeaderOf(es, j, h.n) && cipher == CipherOf(es, j, h.n)
  {
    hide OpenWith, CipherOf, PublicKey, MessageKeyAt, Descends, ForwardAndOpen, SkipMessageKeys;
    var t := Turn(s, h, newKey).state;
    SkipFrame(s, h.pn);
    var dh := DiffieHellman(es[e].key, h.dh);
    var c := KdfRk(es[e].root, dh).1;
    assert t.dhr == Some(h.dh) && t.nr == 0 && t.ckr == Some(ChainAt(c, 0));
    OpenedFromChain(t, h, cipher, c);
    RootsOnChain(es, e);
    RootStepTerm(es[e].root, dh);
    MessageKeyTerm(c, h.n);
    j := OpenedWasSent(es, MessageKeyAt(c, h.n), h, cipher);
    ChainOfRoot(es, e, dh, h.n, j, h.n);
    assert !Passed(es, e, s.nr, j, h.n);
  }

  /** Under unforgeability alone, with any header and any ciphertext: what opens is a message the peer sent and this
      end has not read, and header and ciphertext are that message's own. */
  lemma OkIsHonest(es: seq<Epoch>, read: set<Place>, s: State, e: nat, h: Header, cipher: Bytes, newKey: Bytes)
    returns (j: nat)
    requires Linked(es) && Aligned(es, read, s, e) && Unforged(es, cipher) && |h.dh| == KEY_LEN
    requires DecryptParsed(s, h, cipher, newKey).result.Ok?
    ensures Awaited(es, read, e, j, h.n) && h == HeaderOf(es, j, h.n) && cipher == CipherOf(es, j, h.n)
  {
    hide OpenWith, CipherOf, Aligned, Unforged, SkipMessageKeys, DhRatchet, Linked;
    if Slot(h.dh, h.n) in s.skipped {
      j := OkBanked(es, read, s, e, h, cipher);
    } else if s.dhr == Some(h.dh) {
      j := OkCurrent(es, read, s, e, h, cipher);
    } else {
      j := OkTurned(es, read, s, e, h, cipher, newKey);
    }
  }

  // ---------- Sending ----------

  /** The history after the end at epoch `e` has sent `plain`. */
  function HistoryAfterSend(es: seq<Epoch>, e: nat, plain: Bytes): seq<Epoch>
    requires e < |es|
  {
    es[e := es[e].(sent := es[e].sent + [plain])]
  }

  /** Sending puts the next message of the end's chain on the wire and keeps the end aligned. */
  lemma SendAligned(es: seq<Epoch>, read: set<Place>, s: State, e: nat, plain: Bytes)
    requires Linked(es) && Aligned(es, read, s, e) && e >= 1 && s.ns < U32_MAX
    ensures var es' := HistoryAfterSend(es, e, plain);
            var r := Encrypt(s, plain);
            && Linked(es') && Sent(es', e, s.ns) && es'[e].sent[s.ns] == plain
            && r.result == Ok(WireMessage(HeaderOf(es', e, s.ns), CipherOf(es', e, s.ns)))
            && Aligned(es', read, r.state, e)
  {
    hide WireMessage, SealWith, PublicKey, NextEpoch, BankExact;
    var es' := HistoryAfterSend(es, e, plain);
    SendLinked(es, e, plain);
    BankAfterSend(es, read, s.skipped, s.nr, e, e, plain);
    assert ChainAt(es[e].chain, s.ns + 1) == KdfCk(ChainAt(es[e].chain, s.ns)).0;
  }

  lemma SendLinked(es: seq<Epoch>, e: nat, plain: Bytes)
    requires Linked(es) && 1 <= e < |es| && |es[e].sent| < U32_MAX
    ensures Linked(HistoryAfterSend(es, e, plain))
  {
    var es' := HistoryAfterSend(es, e, plain);
    forall j | 1 <= j < |es'|
      ensures LinkedAt(es', j)
    {
      hide KdfRk, DiffieHellman, PublicKey;
      assert LinkedAt(es, j);
      assert es'[j].key == es[j].key && es'[j - 1].key == es[j - 1].key && es'[j - 1].root == es[j - 1].root;
    }
    forall i, j | 0 <= i < j < |es'|
      ensures KeysDiffer(es', i, j)
    {
      assert KeysDiffer(es, i, j);
    }
    forall j | 0 <= j < |es'|
      ensures Counted(es', j)
    {
      assert Counted(es, j);
    }
  }

  /** The bank of an end at epoch `e` does not see a message sent at epoch `f`, its own or its neighbour's. */
  lemma BankAfterSend(es: seq<Epoch>, read: set<Place>, bank: map<Slot, Bytes>, nr: nat, e: nat, f: nat, plain: Bytes)
    requires e < |es| && f < |es| && BankExact(es, read, bank, nr, e) && f + 1 >= e
    ensures BankExact(HistoryAfterSend(es, f, plain), read, bank, nr, e)
  {
    hide MessageKeyAt, PublicKey;
    var es' := HistoryAfterSend(es, f, plain);
    assert forall j :: 0 <= j < |es| ==> es'[j].key == es[j].key && es'[j].chain == es[j].chain;
    assert forall j: nat, n: nat :: Passed(es', e, nr, j, n) <==> Passed(es, e, nr, j, n);
  }

  /** The other end stays aligned when its peer sends. */
  lemma SendKeepsPeer(es: seq<Epoch>, read: set<Place>, s: State, e: nat, f: nat, plain: Bytes)
    requires Aligned(es, read, s, e) && f < |es| && (f == e + 1 || f + 1 == e)
    ensures Aligned(HistoryAfterSend(es, f, plain), read, s, e)
  {
    BankAfterSend(es, read, s.skipped, s.nr, e, f, plain);
    hide BankExact, PublicKey, ChainAt;
  }

  /** The other end stays aligned when its peer opens one of its messages. */
  lemma OpenKeepsPeer(es: seq<Epoch>, read: set<Place>, s: State, e: nat, j: nat, n: nat, f: nat, newKey: Bytes)
    requires Aligned(es, read, s, e) && (e - j) % 2 == 0 && (j == f + 1 ==> f + 2 == |es| && e == f + 1)
    ensures Aligned(HistoryAfter(es, f, j, newKey), read + {At(j, n)}, s, e)
  {
    hide PublicKey, ChainAt, NextEpoch, BankExact;
    var es' := HistoryAfter(es, f, j, newKey);
    assert forall i :: 0 <= i < |es| ==> es'[i] == es[i];
    BankIgnoresOwn(es, es', read, s.skipped, s.nr, e, At(j, n));
  }

  /** The other end stays aligned when its peer only turns the ratchet. */
  lemma TurnKeepsPeer(es: seq<Epoch>, read: set<Place>, s: State, e: nat, newKey: Bytes)
    requires Aligned(es, read, s, e) && 1 <= e && e + 1 == |es|
    ensures Aligned(Turned(es, e - 1, newKey), read, s, e)
  {
    hide PublicKey, ChainAt, MessageKeyAt, NextEpoch;
    var es' := Turned(es, e - 1, newKey);
    assert forall i :: 0 <= i < |es| ==> es'[i] == es[i];
    assert forall i: nat, m: nat :: Passed(es', e, s.nr, i, m) <==> Passed(es, e, s.nr, i, m);
  }

  /** The bank does not see epochs after the current one, nor messages of the end's own chains being read. */
  lemma BankIgnoresOwn(es: seq<Epoch>, es': seq<Epoch>, read: set<Place>, bank: map<Slot, Bytes>, nr: nat, e: nat, p: Place)
    requires e < |es| <= |es'| && (forall i :: 0 <= i < |es| ==> es'[i] == es[i])
    requires BankExact(es, read, bank, nr, e) && (e - p.chain) % 2 == 0
    ensures BankExact(es', read + {p}, bank, nr, e)
  {
    hide MessageKeyAt, PublicKey;
    assert forall i: nat, m: nat :: Passed(es', e, nr, i, m) <==> Passed(es, e, nr, i, m);
  }
}
