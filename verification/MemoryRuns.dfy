/**
 Honest runs in memory: unaltered messages, each read at most once, delivered in any order or not at all. A message may be
 refused for skipping too far, and an end that has turned the ratchet by then stays turned.
 */
module MemoryRuns {
  import opened Octets
  import opened Crypto
  import opened Chains
  import opened Ratchet
  import opened Joint
  import opened Delivery
  import opened Soundness
  import opened Facade
  import opened Runs
  import opened Failures

  // ---------- One refusal ----------

  /** In the current chain an awaited message that does not open and does not fill the store is refused for the gap, and
      nothing changes. */
  lemma RefusedInChain(es: seq<Epoch>, read: set<Place>, s: State, e: nat, n: u32, h: Header, cipher: Bytes)
    requires Linked(es) && Aligned(es, read, s, e) && e >= 2 && s.nr <= n && Sent(es, e - 1, n)
    requires h == HeaderOf(es, e - 1, n) && cipher == CipherOf(es, e - 1, n)
    requires var r := ForwardAndOpen(s, h, cipher).result; r.Err? && r != Err(Ratchet(StoreFull))
    ensures ForwardAndOpen(s, h, cipher) == Step(s, Err(Ratchet(TooManySkipped)))
  {
    hide CipherOf, OpenWith, BankUntil, BankExact, ChainAt, PublicKey;
    OpenCurrent(es, read, s, e, n, h, cipher);
    SkipExact(es, read, s, e, n);
    SkipErrors(s, n);
  }

  lemma SkipErrors(s: State, upTo: u32)
    ensures var r := SkipMessageKeys(s, upTo);
            r.result.Ok? || r.result == Err(Ratchet(StoreFull)) || r == Step(s, Err(Ratchet(TooManySkipped)))
  {
    hide BankUntil, KdfCk;
    if s.dhr.Some? && s.ckr.Some? && upTo <= s.nr + MAX_SKIP {
      BankErrors(s, s.dhr.value, upTo);
    }
  }

  lemma {:induction false} BankErrors(s: State, dh: Bytes, upTo: u32)
    requires s.ckr.Some?
    ensures BankUntil(s, dh, upTo).result.Ok? || BankUntil(s, dh, upTo).result == Err(Ratchet(StoreFull))
    decreases upTo - s.nr
  {
    hide KdfCk, BankUntil;
    if s.nr >= upTo {
      BankUntilDone(s, dh, upTo);
    } else {
      var (next, mk) := KdfCk(s.ckr.value);
      var moved := s.(ckr := Some(next));
      var stored := moved.(skipped := s.skipped[Slot(dh, s.nr) := mk], nr := s.nr + 1);
      BankUntilUnfold(s, dh, upTo, moved, stored);
      if |s.skipped| < MAX_STORED_SKIPPED {
        BankErrors(stored, dh, upTo);
      }
    }
  }

  /** An awaited message that neither opens nor fills the store is refused for the gap. The session is then as it was or, if
      the message opens a chain whose predecessor could be banked, stands two epochs on, aligned, with the message unread. */
  lemma RefusedAligned(es: seq<Epoch>, read: set<Place>, s: State, e: nat, j: nat, n: u32, newKey: Bytes)
    requires Linked(es) && Aligned(es, read, s, e) && Awaited(es, read, e, j, n) && NewKey(es, newKey)
    requires var r := DecryptParsed(s, HeaderOf(es, j, n), CipherOf(es, j, n), newKey).result;
             r.Err? && r != Err(Ratchet(StoreFull))
    ensures var h := HeaderOf(es, j, n);
            var r := DecryptParsed(s, h, CipherOf(es, j, n), newKey);
            && r.result == Err(Ratchet(TooManySkipped))
            && if LeavesAlone(s, h) then r.state == s
               else j == e + 1 && e + 2 == |es| && Linked(Turned(es, e, newKey))
                    && Aligned(Turned(es, e, newKey), read, r.state, e + 2)
  {
    hide Turn, SkipMessageKeys, OpenNext, OpenWith, CipherOf, BankExact, ChainAt, PublicKey, Room, Turned, LeavesAlone;
    HonestDelivery(es, read, s, e, j, n, newKey);
    var h, cipher := HeaderOf(es, j, n), CipherOf(es, j, n);
    FailureUnchanged(s, h, cipher, newKey);
    if Slot(h.dh, h.n) in s.skipped {
      BankBelow(es, read, s, e, j, Slot(h.dh, h.n));
      OpenBanked(es, read, s, e, j, n);
      assert false;
    } else if j == e + 1 {
      RefusedNextChain(es, read, s, e, n, newKey);
    } else {
      RefusedCurrentCase(es, read, s, e, j, n, newKey);
    }
  }

  lemma RefusedCurrentCase(es: seq<Epoch>, read: set<Place>, s: State, e: nat, j: nat, n: u32, newKey: Bytes)
    requires Linked(es) && Aligned(es, read, s, e) && Awaited(es, read, e, j, n) && j <= e
    requires Slot(PublicKey(es[j].key), n) !in s.skipped
    requires var r := DecryptParsed(s, HeaderOf(es, j, n), CipherOf(es, j, n), newKey).result;
             r.Err? && r != Err(Ratchet(StoreFull))
    ensures DecryptParsed(s, HeaderOf(es, j, n), CipherOf(es, j, n), newKey) == Step(s, Err(Ratchet(TooManySkipped)))
  {
    hide SkipMessageKeys, OpenNext, OpenWith, CipherOf, ChainAt, PublicKey, MessageKeyAt;
    var h, cipher := HeaderOf(es, j, n), CipherOf(es, j, n);
    assert !Passed(es, e, s.nr, j, n);
    assert Counted(es, j);
    assert DecryptParsed(s, h, cipher, newKey) == ForwardAndOpen(s, h, cipher);
    RefusedInChain(es, read, s, e, n, h, cipher);
  }

  lemma RefusedNextChain(es: seq<Epoch>, read: set<Place>, s: State, e: nat, n: u32, newKey: Bytes)
    requires Linked(es) && Aligned(es, read, s, e) && Awaited(es, read, e, e + 1, n) && NewKey(es, newKey)
    requires Slot(PublicKey(es[e + 1].key), n) !in s.skipped && e + 2 == |es|
    requires var r := DecryptParsed(s, HeaderOf(es, e + 1, n), CipherOf(es, e + 1, n), newKey).result;
             r.Err? && r != Err(Ratchet(StoreFull))
    ensures var r := DecryptParsed(s, HeaderOf(es, e + 1, n), CipherOf(es, e + 1, n), newKey);
            && r.result == Err(Ratchet(TooManySkipped))
            && (r.state == s ||
                (Linked(Turned(es, e, newKey)) && Aligned(Turned(es, e, newKey), read, r.state, e + 2)))
  {
    hide SkipMessageKeys, OpenNext, OpenWith, CipherOf, BankExact, ChainAt, PublicKey, Room, NextEpoch, LinkedAt, DhRatchet;
    var h, cipher := HeaderOf(es, e + 1, n), CipherOf(es, e + 1, n);
    var turned := Turn(s, h, newKey);
    TurnAligned(es, read, s, e, n, newKey);
    TurnedSame(es, e, newKey, e + 1, n);
    if turned.result.Ok? {
      var es' := Turned(es, e, newKey);
      assert es'[e + 1] == es[e + 1];
      assert DecryptParsed(s, h, cipher, newKey) == ForwardAndOpen(turned.state, h, cipher);
      RefusedInChain(es', read, turned.state, e + 2, n, h, cipher);
    } else {
      SkipErrors(s, h.pn);
    }
  }

  // ---------- Runs ----------

  /** The two ends in memory, and the history. */
  datatype Memory = Memory(es: seq<Epoch>, read: set<Place>, initiator: State, responder: State) {
    function End(p: Party): State {
      if p == TheInitiator then initiator else responder
    }

    function WithEnd(p: Party, s: State): Memory {
      if p == TheInitiator then this.(initiator := s) else this.(responder := s)
    }

    function EpochOf(p: Party): nat
      requires |es| >= 2
    {
      var last := |es| - 1;
      if (last % 2 == 1) == (p == TheInitiator) then last else last - 1
    }
  }

  /** An end sends; or it is handed message `number` of `chain` as it went on the wire. */
  datatype Act = Sends(end: Party, plain: Bytes) | Reads(end: Party, chain: nat, number: nat, newKey: Bytes)

  ghost predicate Honest(m: Memory, a: Act)
    requires Linked(m.es)
  {
    match a
    case Sends(p, plain) => |m.es[m.EpochOf(p)].sent| < U32_MAX && |plain| + TAG_LEN < 0x1_0000_0000_0000_0000
    case Reads(p, j, n, newKey) => Awaited(m.es, m.read, m.EpochOf(p), j, n) && NewKey(m.es, newKey)
  }

  /** What handing over the message does. */
  ghost function Handed(m: Memory, a: Act): Step<Bytes>
    requires Linked(m.es) && Honest(m, a) && a.Reads?
  {
    Decrypt(m.End(a.end), WireOf(m.es, a.chain, a.number), a.newKey)
  }

  /** One act: the end keeps whatever state the call leaves. The history records a message sent or read, and a turn. */
  ghost function NextMemory(m: Memory, a: Act): Memory
    requires Linked(m.es) && Honest(m, a)
  {
    var p, e, s := a.end, m.EpochOf(a.end), m.End(a.end);
    match a
    case Sends(_, plain) =>
      var m' := m.WithEnd(p, Encrypt(s, plain).state);
      if s.cks.None? then m' else m'.(es := HistoryAfterSend(m.es, e, plain))
    case Reads(_, j, n, newKey) =>
      var r := Handed(m, a);
      var turned := e + 2 == |m.es| && r.state.rk != s.rk;
      m.WithEnd(p, r.state).(es := if turned then Turned(m.es, e, newKey) else m.es,
                             read := if r.result.Ok? then m.read + {At(j, n)} else m.read)
  }

  ghost predicate MemoryInv(m: Memory) {
    && Linked(m.es) && InMemory(m.es)
    && Aligned(m.es, m.read, m.initiator, m.EpochOf(TheInitiator))
    && Aligned(m.es, m.read, m.responder, m.EpochOf(TheResponder))
  }

  /** No skip runs into a full store. */
  ghost predicate Unfilled(m: Memory, a: Act)
    requires Linked(m.es) && Honest(m, a)
  {
    a.Reads? ==> Handed(m, a).result != Err(Ratchet(StoreFull))
  }

  lemma NewMemory(root: Bytes, spk: Bytes, key: Bytes)
    requires spk != key
    ensures MemoryInv(Memory(InitialEpochs(root, spk, key), {}, Initiator(root, PublicKey(spk), key), Responder(root, spk)))
  {
    hide Linked, InMemory, Aligned, NextEpoch, Initiator, Responder;
    InitialAligned(root, spk, key);
  }

  lemma SendMemory(m: Memory, a: Act)
    requires MemoryInv(m) && Honest(m, a) && a.Sends?
    ensures MemoryInv(NextMemory(m, a))
  {
    hide BankExact, WireMessage, SealWith, ChainAt, PublicKey, NextEpoch, LinkedAt, KeysDiffer, InMemory;
    var p, e, q := a.end, m.EpochOf(a.end), a.end.Peer();
    var s := m.End(p);
    if s.cks.Some? {
      SendAligned(m.es, m.read, s, e, a.plain);
      SendKeepsPeer(m.es, m.read, m.End(q), m.EpochOf(q), e, a.plain);
      SendInMemory(m.es, e, a.plain);
      var m' := NextMemory(m, a);
      assert m'.EpochOf(p) == e && m'.EpochOf(q) == m.EpochOf(q);
      assert m'.End(p) == Encrypt(s, a.plain).state && m'.End(q) == m.End(q);
    } else {
      assert NextMemory(m, a) == m;
    }
  }

  /** What is handed over is what decrypting the message of the history does. */
  lemma HandedParsed(m: Memory, a: Act)
    requires Linked(m.es) && InMemory(m.es) && Honest(m, a) && a.Reads?
    ensures Counted(m.es, a.chain)
    ensures Handed(m, a) == DecryptParsed(m.End(a.end), HeaderOf(m.es, a.chain, a.number), CipherOf(m.es, a.chain, a.number), a.newKey)
  {
    hide DecryptParsed, CipherOf, ParseMessage, WireMessage, PublicKey, LinkedAt, KeysDiffer;
    CipherLength(m.es, a.chain, a.number);
    MessageRoundTrip(HeaderOf(m.es, a.chain, a.number), CipherOf(m.es, a.chain, a.number));
  }

  /** Both ends are aligned with the history after one of them stands at a later one. */
  lemma EndsAligned(m: Memory, p: Party, s': State, es': seq<Epoch>, read': set<Place>, e': nat)
    requires MemoryInv(m) && Linked(es') && InMemory(es') && Aligned(es', read', s', e')
    requires Aligned(es', read', m.End(p.Peer()), m.EpochOf(p.Peer()))
    requires if e' == m.EpochOf(p) then |es'| == |m.es|
             else e' == m.EpochOf(p) + 2 && m.EpochOf(p) + 2 == |m.es| && |es'| == |m.es| + 1
    ensures MemoryInv(m.WithEnd(p, s').(es := es', read := read'))
  {
    hide Linked, InMemory, Aligned;
    assert |m.es| >= 2 by {
      LinkedLength(m.es);
    }
    LinkedLength(es');
    var m' := m.WithEnd(p, s').(es := es', read := read');
    assert m'.EpochOf(p) == e' && m'.EpochOf(p.Peer()) == m.EpochOf(p.Peer());
    assert m'.End(p) == s' && m'.End(p.Peer()) == m.End(p.Peer());
  }

  lemma LinkedLength(es: seq<Epoch>)
    requires Linked(es)
    ensures |es| >= 2
  {
  }

  lemma TurnedRoot(es: seq<Epoch>, read: set<Place>, s: State, s': State, e: nat, newKey: Bytes)
    requires Linked(es) && e + 2 == |es| && Linked(Turned(es, e, newKey))
    requires KeysAligned(es, s, e) && KeysAligned(Turned(es, e, newKey), s', e + 2)
    ensures s'.rk != s.rk
  {
    hide LinkedAt, KeysDiffer, Counted, ChainAt, PublicKey, NextEpoch, RootDepth;
    var es' := Turned(es, e, newKey);
    assert es'[e] == es[e];
    RootsOnChain(es', e);
    RootsOnChain(es', e + 2);
  }

  lemma SameRoot(es: seq<Epoch>, s: State, s': State, e: nat)
    requires KeysAligned(es, s, e) && KeysAligned(es, s', e)
    ensures s'.rk == s.rk
  {
  }

  /** A message handed over that opens: to its plaintext, and both ends are aligned with it read. */
  lemma ReadMemory(m: Memory, a: Act)
    requires MemoryInv(m) && Honest(m, a) && a.Reads? && Handed(m, a).result.Ok?
    ensures MemoryInv(NextMemory(m, a)) && Handed(m, a).result.value == m.es[a.chain].sent[a.number]
  {
    hide Aligned, DecryptParsed, Handed, CipherOf, HeaderOf, Fits, NextEpoch, LinkedAt, KeysDiffer, Counted, InMemory;
    var p, e, q, j, n := a.end, m.EpochOf(a.end), a.end.Peer(), a.chain, a.number;
    HandedParsed(m, a);
    NumberFits(m.es, j, n);
    HonestDelivery(m.es, m.read, m.End(p), e, j, n, a.newKey);
    var es', r, read' := HistoryAfter(m.es, e, j, a.newKey), Handed(m, a), m.read + {At(j, n)};
    OpenKeepsPeer(m.es, m.read, m.End(q), m.EpochOf(q), j, n, e, a.newKey);
    TurnInMemory(m.es, e, j, a.newKey);
    EndsAligned(m, p, r.state, es', read', EpochAfter(e, j));
    if j == e + 1 {
      AlignedKeys(m.es, m.read, m.End(p), e);
      AlignedKeys(es', read', r.state, e + 2);
      TurnedRoot(m.es, m.read, m.End(p), r.state, e, a.newKey);
    } else {
      AlignedKeys(m.es, m.read, m.End(p), e);
      AlignedKeys(es', read', r.state, e);
      SameRoot(m.es, m.End(p), r.state, e);
    }
  }

  lemma NumberFits(es: seq<Epoch>, j: nat, n: nat)
    requires Linked(es) && Sent(es, j, n)
    ensures n < U32_MAX
  {
    assert Counted(es, j);
  }

  lemma AlignedKeys(es: seq<Epoch>, read: set<Place>, s: State, e: nat)
    requires Aligned(es, read, s, e)
    ensures KeysAligned(es, s, e)
  {
  }

  /** A message handed over that is refused, without filling the store: for the gap, and both ends are aligned with it still
      unread. */
  lemma RefuseMemory(m: Memory, a: Act)
    requires MemoryInv(m) && Honest(m, a) && a.Reads? && Handed(m, a).result.Err? && Unfilled(m, a)
    ensures MemoryInv(NextMemory(m, a)) && Handed(m, a).result == Err(Ratchet(TooManySkipped))
  {
    hide Aligned, DecryptParsed, Handed, CipherOf, HeaderOf, Fits, NextEpoch, LinkedAt, KeysDiffer, Counted, InMemory, LeavesAlone;
    var p, e, q, j, n := a.end, m.EpochOf(a.end), a.end.Peer(), a.chain, a.number;
    var s, r := m.End(p), Handed(m, a);
    HandedParsed(m, a);
    NumberFits(m.es, j, n);
    RefusedAligned(m.es, m.read, s, e, j, n, a.newKey);
    if r.state == s {
      assert NextMemory(m, a) == m;
    } else {
      var es' := Turned(m.es, e, a.newKey);
      TurnKeepsPeer(m.es, m.read, m.End(q), m.EpochOf(q), a.newKey);
      TurnInMemory(m.es, e, j, a.newKey);
      EndsAligned(m, p, r.state, es', m.read, e + 2);
      AlignedKeys(m.es, m.read, s, e);
      AlignedKeys(es', m.read, r.state, e + 2);
      TurnedRoot(m.es, m.read, s, r.state, e, a.newKey);
    }
  }

  /** A message handed over opens exactly if it fits. */
  lemma HandedFits(m: Memory, a: Act)
    requires MemoryInv(m) && Honest(m, a) && a.Reads?
    ensures Handed(m, a).result.Ok? <==> Fits(m.End(a.end), HeaderOf(m.es, a.chain, a.number))
  {
    hide Aligned, DecryptParsed, Handed, CipherOf, HeaderOf, Fits, NextEpoch, LinkedAt, KeysDiffer, Counted, InMemory;
    HandedParsed(m, a);
    NumberFits(m.es, a.chain, a.number);
    HonestDelivery(m.es, m.read, m.End(a.end), m.EpochOf(a.end), a.chain, a.number, a.newKey);
  }

  ghost predicate HonestRun(m: Memory, acts: seq<Act>)
    decreases |acts|
  {
    && Linked(m.es)
    && (acts == [] || (Honest(m, acts[0]) && Unfilled(m, acts[0]) && HonestRun(NextMemory(m, acts[0]), acts[1..])))
  }

  ghost function RunMemory(m: Memory, acts: seq<Act>): Memory
    requires HonestRun(m, acts)
    decreases |acts|
  {
    if acts == [] then m else RunMemory(NextMemory(m, acts[0]), acts[1..])
  }

  /** Every honest run in memory that does not fill the store keeps both ends aligned, refusals and turns made on the way to
      a refusal included. */
  lemma {:induction false} HonestRunAligned(m: Memory, acts: seq<Act>)
    requires MemoryInv(m) && HonestRun(m, acts)
    ensures MemoryInv(RunMemory(m, acts))
    decreases |acts|
  {
    hide MemoryInv, NextMemory, Honest, Unfilled, Handed, Linked;
    if acts != [] {
      if acts[0].Sends? {
        SendMemory(m, acts[0]);
      } else if Handed(m, acts[0]).result.Ok? {
        ReadMemory(m, acts[0]);
      } else {
        RefuseMemory(m, acts[0]);
      }
      HonestRunAligned(NextMemory(m, acts[0]), acts[1..]);
    }
  }

  /** A banked key is the message key of its number in the chain its ratchet key heads. */
  ghost predicate InPlace(es: seq<Epoch>, bank: map<Slot, Bytes>, slot: Slot)
    requires slot in bank
  {
    exists j: nat :: 1 <= j < |es| && slot.dh == PublicKey(es[j].key) && bank[slot] == MessageKeyAt(es[j].chain, slot.n)
  }

  /** Message `n` of the receiving chain of epoch `e` is read, or its key is banked, and not both. */
  ghost predicate ReadOrBanked(es: seq<Epoch>, read: set<Place>, bank: map<Slot, Bytes>, e: nat, n: u32)
    requires 1 <= e < |es|
  {
    At(e - 1, n) in read <==> Slot(PublicKey(es[e - 1].key), n) !in bank
  }

  lemma BankInPlace(es: seq<Epoch>, read: set<Place>, s: State, e: nat, slot: Slot)
    requires Linked(es) && Aligned(es, read, s, e) && slot in s.skipped
    ensures InPlace(es, s.skipped, slot)
  {
    hide ChainAt, MessageKeyAt, PublicKey, LinkedAt, KeysDiffer, Counted, KeysAligned;
    var j: nat :| Passed(es, e, s.nr, j, slot.n) && At(j, slot.n) !in read && slot.dh == PublicKey(es[j].key);
    BankBelow(es, read, s, e, j, slot);
  }

  lemma PassedReadOrBanked(es: seq<Epoch>, read: set<Place>, s: State, e: nat, n: u32)
    requires Linked(es) && Aligned(es, read, s, e) && e >= 2 && n < s.nr
    ensures ReadOrBanked(es, read, s.skipped, e, n)
  {
    hide ChainAt, MessageKeyAt, PublicKey, LinkedAt, KeysDiffer, Counted;
    assert Passed(es, e, s.nr, e - 1, n);
    var slot := Slot(PublicKey(es[e - 1].key), n);
    if slot in s.skipped {
      BankBelow(es, read, s, e, e - 1, slot);
    }
  }

  /** Positions, in every state such a run reaches: the sending chain is `ns` steps and the receiving chain `nr` steps from its
      start, each banked key is in its place, and of the messages of the receiving chain below `nr` each is read or banked. */
  lemma Positions(m: Memory, p: Party)
    requires MemoryInv(m)
    ensures var s, e := m.End(p), m.EpochOf(p);
            && (e >= 1 ==> s.cks == Some(ChainAt(m.es[e].chain, s.ns)) && s.ns == |m.es[e].sent|)
            && (e >= 2 ==> s.ckr == Some(ChainAt(m.es[e - 1].chain, s.nr)) && s.nr <= |m.es[e - 1].sent|)
            && (forall slot :: slot in s.skipped ==> InPlace(m.es, s.skipped, slot))
            && (forall n: u32 :: e >= 2 && n < s.nr ==> ReadOrBanked(m.es, m.read, s.skipped, e, n))
  {
    hide ChainAt, MessageKeyAt, PublicKey, LinkedAt, KeysDiffer, Counted, InMemory, BankExact, InPlace, ReadOrBanked;
    var s, e := m.End(p), m.EpochOf(p);
    forall slot | slot in s.skipped
      ensures InPlace(m.es, s.skipped, slot)
    {
      BankInPlace(m.es, m.read, s, e, slot);
    }
    forall n: u32 | e >= 2 && n < s.nr
      ensures ReadOrBanked(m.es, m.read, s.skipped, e, n)
    {
      PassedReadOrBanked(m.es, m.read, s, e, n);
    }
  }
}
