/**
 What the two ends of a session have in common.

 The ratchet keys generated in a session form one list: the responder's signed prekey, then the initiator's and
 the responder's ratchet keys in turn. With each key after the first comes a root key and a sending chain. The
 list of these epochs, with the plaintexts sent in each, is the history of the session; the end that owns the key
 of epoch `e` sends in chain `e` and receives in chain `e - 1`.
 */
module Joint {
  import opened Octets
  import opened Crypto
  import opened Chains
  import opened Ratchet

  const U32_MAX: nat := 0xFFFF_FFFF

  datatype Epoch = Epoch(key: Bytes, root: Bytes, chain: Bytes, sent: seq<Bytes>)

  /** A message of the session: its chain, and its number in it. */
  datatype Place = At(chain: nat, number: nat)

  /** The epoch that key `key` opens after epoch `prev`. */
  function NextEpoch(prev: Epoch, key: Bytes): Epoch {
    var (root, chain) := KdfRk(prev.root, DiffieHellman(prev.key, PublicKey(key)));
    Epoch(key, root, chain, [])
  }

  /** One root chain through all epochs, distinct ratchet keys, and counters that have not run out. */
  ghost predicate Linked(es: seq<Epoch>) {
    && |es| >= 2
    && es[0].sent == []
    && (forall j :: 1 <= j < |es| ==> LinkedAt(es, j))
    && (forall i, j :: 0 <= i < j < |es| ==> KeysDiffer(es, i, j))
    && (forall j :: 0 <= j < |es| ==> Counted(es, j))
  }

  ghost predicate LinkedAt(es: seq<Epoch>, j: nat)
    requires 1 <= j < |es|
  {
    es[j] == NextEpoch(es[j - 1], es[j].key).(sent := es[j].sent)
  }

  ghost predicate KeysDiffer(es: seq<Epoch>, i: nat, j: nat)
    requires i < |es| && j < |es|
  {
    es[i].key != es[j].key
  }

  ghost predicate Counted(es: seq<Epoch>, j: nat)
    requires j < |es|
  {
    |es[j].sent| <= U32_MAX
  }

  /** The length of the sender's previous chain, as headers of chain `j` announce it. */
  function PrevCount(es: seq<Epoch>, j: nat): nat
    requires j < |es|
  {
    if j >= 2 then |es[j - 2].sent| else 0
  }

  ghost predicate Sent(es: seq<Epoch>, j: nat, n: nat) {
    1 <= j < |es| && n < |es[j].sent|
  }

  ghost function HeaderOf(es: seq<Epoch>, j: nat, n: nat): Header
    requires Linked(es) && Sent(es, j, n)
  {
    assert Counted(es, j) && (j >= 2 ==> Counted(es, j - 2));
    Header(PublicKey(es[j].key), PrevCount(es, j), n)
  }

  ghost function CipherOf(es: seq<Epoch>, j: nat, n: nat): Bytes
    requires Linked(es) && Sent(es, j, n)
  {
    SealWith(MessageKeyAt(es[j].chain, n), HeaderOf(es, j, n), es[j].sent[n])
  }

  // ---------- The invariant of one end ----------

  /** Message `n` of chain `j` lies behind the receiver: in a finished chain, or before `nr` in the current one. */
  ghost predicate Passed(es: seq<Epoch>, e: nat, nr: nat, j: nat, n: nat) {
    1 <= j < e < |es| && (e - j) % 2 == 1 && n < (if j == e - 1 then nr else |es[j].sent|)
  }

  /** The end at epoch `e`: keys, chains and counters are those of epochs `e` and `e - 1`. */
  ghost predicate KeysAligned(es: seq<Epoch>, s: State, e: nat) {
    && e < |es| <= e + 2
    && s.dhs == es[e].key && s.dhsPub == PublicKey(es[e].key) && s.rk == es[e].root
    && s.dhr == (if e >= 1 then Some(PublicKey(es[e - 1].key)) else None)
    && s.cks == (if e >= 1 then Some(ChainAt(es[e].chain, s.ns)) else None)
    && s.ns == |es[e].sent| && s.pn == PrevCount(es, e)
    && s.ckr == (if e >= 2 then Some(ChainAt(es[e - 1].chain, s.nr)) else None)
    && s.nr <= (if e >= 2 then |es[e - 1].sent| else 0)
  }

  /** The bank holds the key of every message passed and not read, and nothing else; only passed messages have
      been read. */
  ghost predicate BankExact(es: seq<Epoch>, read: set<Place>, bank: map<Slot, Bytes>, nr: nat, e: nat) {
    BankCovers(es, read, bank, nr, e) && BankOnly(es, read, bank, nr, e) && ReadIsPassed(es, read, nr, e)
  }

  ghost predicate BankCovers(es: seq<Epoch>, read: set<Place>, bank: map<Slot, Bytes>, nr: nat, e: nat) {
    forall j: nat, n: nat :: Passed(es, e, nr, j, n) && At(j, n) !in read ==>
      Holds(bank, PublicKey(es[j].key), n, MessageKeyAt(es[j].chain, n))
  }

  ghost predicate BankOnly(es: seq<Epoch>, read: set<Place>, bank: map<Slot, Bytes>, nr: nat, e: nat) {
    forall slot :: slot in bank ==>
      exists j: nat :: Passed(es, e, nr, j, slot.n) && At(j, slot.n) !in read && slot.dh == PublicKey(es[j].key)
  }

  ghost predicate ReadIsPassed(es: seq<Epoch>, read: set<Place>, nr: nat, e: nat) {
    forall j: nat, n: nat :: At(j, n) in read && (e - j) % 2 == 1 ==> Passed(es, e, nr, j, n)
  }

  predicate Holds(bank: map<Slot, Bytes>, dh: Bytes, n: nat, mk: Bytes) {
    n <= U32_MAX && Slot(dh, n) in bank && bank[Slot(dh, n)] == mk
  }

  ghost predicate Aligned(es: seq<Epoch>, read: set<Place>, s: State, e: nat) {
    KeysAligned(es, s, e) && BankExact(es, read, s.skipped, s.nr, e)
  }

  // ---------- Facts about the history ----------

  lemma {:induction false} RootsOnChain(es: seq<Epoch>, j: nat)
    requires Linked(es) && j < |es|
    ensures OnRootChain(es[0].root, es[j].root) && RootDepth(es[j].root) == RootDepth(es[0].root) + j
    ensures j >= 1 ==> OnChain(es[0].root, es[j].chain) && Position(es[j].chain) == 0
  {
    if j > 0 {
      RootsOnChain(es, j - 1);
      assert LinkedAt(es, j);
      RootStepTerm(es[j - 1].root, DiffieHellman(es[j - 1].key, PublicKey(es[j].key)));
    }
  }

  lemma SameKeySameEpoch(es: seq<Epoch>, i: nat, j: nat)
    requires Linked(es) && i < |es| && j < |es| && PublicKey(es[i].key) == PublicKey(es[j].key)
    ensures i == j
  {
    PublicKeyInjective(es[i].key, es[j].key);
    assert i < j ==> KeysDiffer(es, i, j);
    assert j < i ==> KeysDiffer(es, j, i);
  }

  /** A chain that hangs on the root of epoch `e` and has a message key in common with chain `j` is chain `e + 1`. */
  lemma ChainOfRoot(es: seq<Epoch>, e: nat, dh: Bytes, n: nat, j: nat, m: nat)
    requires Linked(es) && e < |es| && 1 <= j < |es|
    requires MessageKeyAt(KdfRk(es[e].root, dh).1, n) == MessageKeyAt(es[j].chain, m)
    ensures j == e + 1 && n == m
  {
    assert LinkedAt(es, j);
    RootsOnChain(es, e);
    RootsOnChain(es, j - 1);
    RootsOnChain(es, j);
    RootStepTerm(es[e].root, dh);
    RootStepTerm(es[j - 1].root, DiffieHellman(es[j - 1].key, PublicKey(es[j].key)));
    MessageKeyPlace(KdfRk(es[e].root, dh).1, n, es[j].chain, m);
  }

  // ---------- Unforgeability ----------

  /** `cipher` is a seal under the keys of message key `mk`. */
  ghost predicate SealedUnder(cipher: Bytes, mk: Bytes, aad: Bytes, plain: Bytes) {
    cipher == Seal(MessageKeys(mk).0, MessageKeys(mk).1, aad, plain)
  }

  /** Nobody but the two ends seals under message keys of this session: such a ciphertext was sent by one of them. */
  ghost predicate Unforged(es: seq<Epoch>, cipher: Bytes)
    requires Linked(es)
  {
    forall mk, aad, plain :: SealedUnder(cipher, mk, aad, plain) && Descends(es[0].root, mk) ==>
      exists j: nat, n: nat :: Sent(es, j, n) && cipher == CipherOf(es, j, n)
  }

  /** What opens under a message key of the session is a message of the session, header included. */
  lemma OpenedWasSent(es: seq<Epoch>, mk: Bytes, h: Header, cipher: Bytes) returns (j: nat)
    requires Linked(es) && Unforged(es, cipher) && Descends(es[0].root, mk) && |h.dh| == KEY_LEN
    requires OpenWith(mk, h, cipher).Ok?
    ensures Sent(es, j, h.n) && h == HeaderOf(es, j, h.n) && mk == MessageKeyAt(es[j].chain, h.n)
    ensures cipher == CipherOf(es, j, h.n) && OpenWith(mk, h, cipher).value == es[j].sent[h.n]
  {
    var plain := OpenWith(mk, h, cipher).value;
    var (key, nonce) := MessageKeys(mk);
    OpenExact(key, nonce, ToAad(h), cipher, plain);
    assert SealedUnder(cipher, mk, ToAad(h), plain);
    var i: nat, n: nat :| Sent(es, i, n) && cipher == CipherOf(es, i, n);
    var mk' := MessageKeyAt(es[i].chain, n);
    var (key', nonce') := MessageKeys(mk');
    SealInjective(key, nonce, ToAad(h), plain, key', nonce', ToAad(HeaderOf(es, i, n)), es[i].sent[n]);
    SealKeyInjective(mk, mk');
    AadInjective(h, HeaderOf(es, i, n));
    j := i;
  }

  /** A message of the session opens under its own key to its plaintext. */
  lemma SentOpens(es: seq<Epoch>, j: nat, n: nat)
    requires Linked(es) && Sent(es, j, n)
    ensures OpenWith(MessageKeyAt(es[j].chain, n), HeaderOf(es, j, n), CipherOf(es, j, n)) == Ok(es[j].sent[n])
  {
    var (key, nonce) := MessageKeys(MessageKeyAt(es[j].chain, n));
    OpenExact(key, nonce, ToAad(HeaderOf(es, j, n)), CipherOf(es, j, n), es[j].sent[n]);
  }

  // ---------- Skipping ----------

  /** `after` is `before` plus the keys of positions `lo` to `hi` of chain `c`, under ratchet key `dh`. */
  ghost predicate Banked(before: map<Slot, Bytes>, after: map<Slot, Bytes>, dh: Bytes, c: Bytes, lo: nat, hi: nat) {
    && (forall slot :: slot in after <==> slot in before || (slot.dh == dh && lo <= slot.n < hi))
    && (forall slot :: slot in before ==> slot in after && after[slot] == before[slot])
    && (forall i :: lo <= i < hi <= U32_MAX ==> Holds(after, dh, i, MessageKeyAt(c, i)))
  }

  /** Skipping `lo` to `hi` is within the gap limit, and the bank of `count` keys has room for it. */
  predicate Room(count: nat, lo: nat, hi: nat) {
    hi <= lo || (hi <= lo + MAX_SKIP && count + (hi - lo) <= MAX_STORED_SKIPPED)
  }

  /** One more position banked, then the rest. */
  lemma BankedStep(before: map<Slot, Bytes>, after: map<Slot, Bytes>, dh: Bytes, c: Bytes, lo: nat, hi: nat)
    requires lo < hi <= U32_MAX && Slot(dh, lo) !in before
    requires Banked(before[Slot(dh, lo) := MessageKeyAt(c, lo)], after, dh, c, lo + 1, hi)
    ensures Banked(before, after, dh, c, lo, hi)
  {
    hide MessageKeyAt;
    var mid := before[Slot(dh, lo) := MessageKeyAt(c, lo)];
    assert Slot(dh, lo) in mid;
    assert forall slot :: slot in before ==> slot in mid && mid[slot] == before[slot];
    assert Holds(after, dh, lo, MessageKeyAt(c, lo));
  }

  /** One step of banking, in terms of the chain. */
  lemma BankUntilStep(s: State, dh: Bytes, upTo: u32, c: Bytes)
    requires s.nr < upTo && s.ckr == Some(ChainAt(c, s.nr))
    ensures BankUntil(s, dh, upTo) ==
            if |s.skipped| >= MAX_STORED_SKIPPED
            then Step(s.(ckr := Some(ChainAt(c, s.nr + 1))), Err(Ratchet(StoreFull)))
            else BankUntil(s.(ckr := Some(ChainAt(c, s.nr + 1)),
                              skipped := s.skipped[Slot(dh, s.nr) := MessageKeyAt(c, s.nr)],
                              nr := s.nr + 1), dh, upTo)
  {
    hide KdfCk;
  }

  lemma BankedNothing(bank: map<Slot, Bytes>, dh: Bytes, c: Bytes, n: nat)
    ensures Banked(bank, bank, dh, c, n, n)
  {
  }

  /** Banking succeeds exactly when there is room; it then adds the keys of the positions skipped, and moves the
      chain to `upTo`. */
  lemma {:induction false} BankUntilExact(s: State, dh: Bytes, upTo: u32, c: Bytes)
    requires s.nr <= upTo && s.ckr == Some(ChainAt(c, s.nr))
    requires forall slot :: slot in s.skipped && slot.dh == dh ==> slot.n < s.nr
    ensures var r := BankUntil(s, dh, upTo);
            && (r.result.Ok? <==> upTo == s.nr || |s.skipped| + (upTo - s.nr) <= MAX_STORED_SKIPPED)
            && (r.result.Ok? ==>
                  && r.state == s.(ckr := Some(ChainAt(c, upTo)), nr := upTo, skipped := r.state.skipped)
                  && Banked(s.skipped, r.state.skipped, dh, c, s.nr, upTo)
                  && |r.state.skipped| == |s.skipped| + (upTo - s.nr))
    decreases upTo - s.nr
  {
    hide ChainAt, MessageKeyAt, BankUntil, Banked;
    if s.nr == upTo {
      BankUntilDone(s, dh, upTo);
      BankedNothing(s.skipped, dh, c, upTo);
    } else {
      BankUntilStep(s, dh, upTo, c);
      if |s.skipped| < MAX_STORED_SKIPPED {
        var bank := s.skipped[Slot(dh, s.nr) := MessageKeyAt(c, s.nr)];
        var t := s.(ckr := Some(ChainAt(c, s.nr + 1)), skipped := bank, nr := s.nr + 1);
        assert Slot(dh, s.nr) !in s.skipped && |bank| == |s.skipped| + 1;
        BankUntilExact(t, dh, upTo, c);
        var r := BankUntil(s, dh, upTo);
        if r.result.Ok? {
          BankedStep(s.skipped, r.state.skipped, dh, c, s.nr, upTo);
        }
      }
    }
  }
}
