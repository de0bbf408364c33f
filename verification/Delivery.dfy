/**
 One delivery at one end of a session: what opens, when, and that the joint invariant survives it.
 */
module Delivery {
  import opened Octets
  import opened Crypto
  import opened Chains
  import opened Ratchet
  import opened Joint

  // ---------- When an honest message fits ----------

  /** Whether a message with this header fits the gap limit and the bank: its key is banked, or it is ahead in the
      current chain with room to skip to it, or it opens a new chain with room to bank the rest of the old one. */
  predicate Fits(s: State, h: Header) {
    if Slot(h.dh, h.n) in s.skipped then true
    else if s.dhr == Some(h.dh) then Room(|s.skipped|, s.nr, h.n)
    else if s.dhr.None? || s.ckr.None? then Room(|s.skipped|, 0, h.n)
    else Room(|s.skipped|, s.nr, h.pn) && Room(|s.skipped| + (if h.pn > s.nr then h.pn - s.nr else 0), 0, h.n)
  }

  // ---------- Skipping in the current chain ----------

  /** Banked keys under the ratchet key of an epoch belong to that epoch's passed messages. */
  lemma BankBelow(es: seq<Epoch>, read: set<Place>, s: State, e: nat, j: nat, slot: Slot)
    requires Linked(es) && Aligned(es, read, s, e) && j < |es|
    requires slot in s.skipped && slot.dh == PublicKey(es[j].key)
    ensures Passed(es, e, s.nr, j, slot.n) && At(j, slot.n) !in read
    ensures s.skipped[slot] == MessageKeyAt(es[j].chain, slot.n)
  {
    var i: nat :| Passed(es, e, s.nr, i, slot.n) && At(i, slot.n) !in read && slot.dh == PublicKey(es[i].key);
    SameKeySameEpoch(es, i, j);
    assert Holds(s.skipped, PublicKey(es[j].key), slot.n, MessageKeyAt(es[j].chain, slot.n));
  }

  /** The receiving chain of epoch `e`, moved to `upTo`. */
  ghost predicate SkippedTo(es: seq<Epoch>, s: State, e: nat, upTo: u32, t: State)
    requires 1 <= e < |es|
  {
    && t == s.(ckr := Some(ChainAt(es[e - 1].chain, upTo)), nr := upTo, skipped := t.skipped)
    && Banked(s.skipped, t.skipped, PublicKey(es[e - 1].key), es[e - 1].chain, s.nr, upTo)
    && |t.skipped| == |s.skipped| + (upTo - s.nr)
  }

  lemma SkipExact(es: seq<Epoch>, read: set<Place>, s: State, e: nat, upTo: u32)
    requires Linked(es) && Aligned(es, read, s, e) && e >= 2 && s.nr <= upTo
    ensures var r := SkipMessageKeys(s, upTo);
            && (r.result.Ok? <==> Room(|s.skipped|, s.nr, upTo))
            && (r.result.Ok? ==> SkippedTo(es, s, e, upTo, r.state))
  {
    hide KdfCk, Banked;
    var dh := PublicKey(es[e - 1].key);
    forall slot | slot in s.skipped && slot.dh == dh
      ensures slot.n < s.nr
    {
      BankBelow(es, read, s, e, e - 1, slot);
    }
    BankUntilExact(s, dh, upTo, es[e - 1].chain);
  }

  // ---------- How the bank grows ----------

  /** From one point of the history to a later one, the messages newly passed are positions `lo` to `hi` of chain
      `c`, which were banked, and those in `extra`, which were read. */
  ghost predicate Grows(es: seq<Epoch>, e: nat, nr: nat, es': seq<Epoch>, e': nat, nr': nat,
                        c: nat, lo: nat, hi: nat, extra: set<Place>)
  {
    && (e' - e) % 2 == 0 && e < |es| <= |es'|
    && (forall j :: 0 <= j < |es| ==> es'[j].key == es[j].key && es'[j].chain == es[j].chain)
    && (forall j: nat, m: nat :: Passed(es', e', nr', j, m) <==>
          Passed(es, e, nr, j, m) || (j == c && lo <= m < hi) || At(j, m) in extra)
    && (forall j: nat, m: nat :: Passed(es, e, nr, j, m) ==> At(j, m) !in extra && !(j == c && lo <= m < hi))
    && (forall m: nat :: At(c, m) in extra ==> !(lo <= m < hi))
    && (lo < hi <= U32_MAX ==> c < e && (e - c) % 2 == 1)
  }

  lemma CoversGrows(es: seq<Epoch>, e: nat, nr: nat, es': seq<Epoch>, e': nat, nr': nat, read: set<Place>,
                    bank: map<Slot, Bytes>, bank': map<Slot, Bytes>, c: nat, lo: nat, hi: nat, extra: set<Place>)
    requires Grows(es, e, nr, es', e', nr', c, lo, hi, extra) && BankCovers(es, read, bank, nr, e)
    requires c < |es| && hi <= U32_MAX && Banked(bank, bank', PublicKey(es[c].key), es[c].chain, lo, hi)
    ensures BankCovers(es', read + extra, bank', nr', e')
  {
    hide MessageKeyAt, PublicKey;
    forall j: nat, m: nat | Passed(es', e', nr', j, m) && At(j, m) !in read + extra
      ensures Holds(bank', PublicKey(es'[j].key), m, MessageKeyAt(es'[j].chain, m))
    {
      if Passed(es, e, nr, j, m) {
        assert Holds(bank, PublicKey(es[j].key), m, MessageKeyAt(es[j].chain, m));
      }
    }
  }

  lemma OnlyGrows(es: seq<Epoch>, e: nat, nr: nat, es': seq<Epoch>, e': nat, nr': nat, read: set<Place>,
                  bank: map<Slot, Bytes>, bank': map<Slot, Bytes>, c: nat, lo: nat, hi: nat, extra: set<Place>)
    requires Grows(es, e, nr, es', e', nr', c, lo, hi, extra)
    requires BankOnly(es, read, bank, nr, e) && ReadIsPassed(es, read, nr, e)
    requires c < |es| && hi <= U32_MAX && Banked(bank, bank', PublicKey(es[c].key), es[c].chain, lo, hi)
    ensures BankOnly(es', read + extra, bank', nr', e')
  {
    hide MessageKeyAt, PublicKey;
    forall slot | slot in bank'
      ensures exists j: nat ::
                Passed(es', e', nr', j, slot.n) && At(j, slot.n) !in read + extra && slot.dh == PublicKey(es'[j].key)
    {
      if slot in bank {
        var j: nat :| Passed(es, e, nr, j, slot.n) && At(j, slot.n) !in read && slot.dh == PublicKey(es[j].key);
        assert Passed(es', e', nr', j, slot.n);
      } else {
        assert Passed(es', e', nr', c, slot.n);
        assert !Passed(es, e, nr, c, slot.n);
      }
    }
  }

  lemma ReadGrows(es: seq<Epoch>, e: nat, nr: nat, es': seq<Epoch>, e': nat, nr': nat, read: set<Place>,
                  c: nat, lo: nat, hi: nat, extra: set<Place>)
    requires Grows(es, e, nr, es', e', nr', c, lo, hi, extra) && ReadIsPassed(es, read, nr, e)
    ensures ReadIsPassed(es', read + extra, nr', e')
  {
    forall j: nat, m: nat | At(j, m) in read + extra && (e' - j) % 2 == 1
      ensures Passed(es', e', nr', j, m)
    {
      if At(j, m) in read {
        assert Passed(es, e, nr, j, m);
      }
    }
  }

  lemma BankGrows(es: seq<Epoch>, e: nat, nr: nat, es': seq<Epoch>, e': nat, nr': nat, read: set<Place>,
                  bank: map<Slot, Bytes>, bank': map<Slot, Bytes>, c: nat, lo: nat, hi: nat, extra: set<Place>)
    requires Grows(es, e, nr, es', e', nr', c, lo, hi, extra) && BankExact(es, read, bank, nr, e)
    requires c < |es| && hi <= U32_MAX && Banked(bank, bank', PublicKey(es[c].key), es[c].chain, lo, hi)
    ensures BankExact(es', read + extra, bank', nr', e')
  {
    hide Grows, Banked, BankCovers, BankOnly, ReadIsPassed;
    CoversGrows(es, e, nr, es', e', nr', read, bank, bank', c, lo, hi, extra);
    OnlyGrows(es, e, nr, es', e', nr', read, bank, bank', c, lo, hi, extra);
    ReadGrows(es, e, nr, es', e', nr', read, c, lo, hi, extra);
  }

  // ---------- Opening in the current chain ----------

  function ForwardAndOpen(s: State, h: Header, cipher: Bytes): Step<Bytes> {
    var forward := SkipMessageKeys(s, h.n);
    if forward.result.Err? then Step(forward.state, Err(forward.result.error))
    else OpenNext(forward.state, h, cipher)
  }

  lemma BankAfterOpen(es: seq<Epoch>, read: set<Place>, s: State, e: nat, n: u32, t: State)
    requires 2 <= e < |es| && s.nr <= n < U32_MAX && SkippedTo(es, s, e, n, t)
    requires BankExact(es, read, s.skipped, s.nr, e)
    ensures BankExact(es, read + {At(e - 1, n)}, t.skipped, n + 1, e)
  {
    hide BankExact, Banked, ChainAt, PublicKey;
    assert Grows(es, e, s.nr, es, e, n + 1, e - 1, s.nr, n, {At(e - 1, n)});
    BankGrows(es, e, s.nr, es, e, n + 1, read, s.skipped, t.skipped, e - 1, s.nr, n, {At(e - 1, n)});
  }

  /** At the position of a sent message the chain opens it and moves on by one. */
  lemma OpenNextExact(es: seq<Epoch>, t: State, j: nat, n: u32)
    requires Linked(es) && Sent(es, j, n) && t.ckr == Some(ChainAt(es[j].chain, n)) && t.nr == n < U32_MAX
    ensures OpenNext(t, HeaderOf(es, j, n), CipherOf(es, j, n))
         == Step(t.(ckr := Some(ChainAt(es[j].chain, n + 1)), nr := n + 1), Ok(es[j].sent[n]))
  {
    hide Linked, OpenWith, CipherOf, HeaderOf;
    SentOpens(es, j, n);
  }

  lemma KeysAfterOpen(es: seq<Epoch>, s: State, e: nat, n: u32, t: State)
    requires KeysAligned(es, s, e) && 2 <= e && n < |es[e - 1].sent| && n < U32_MAX && SkippedTo(es, s, e, n, t)
    ensures KeysAligned(es, t.(ckr := Some(ChainAt(es[e - 1].chain, n + 1)), nr := n + 1), e)
  {
    hide Banked, ChainAt, PublicKey;
  }

  /** Message `n` of the current receiving chain, not passed yet, opens exactly when there is room to skip to it. */
  lemma OpenCurrent(es: seq<Epoch>, read: set<Place>, s: State, e: nat, n: u32, h: Header, cipher: Bytes)
    requires Linked(es) && Aligned(es, read, s, e) && e >= 2 && s.nr <= n && Sent(es, e - 1, n)
    requires h == HeaderOf(es, e - 1, n) && cipher == CipherOf(es, e - 1, n)
    ensures var r := ForwardAndOpen(s, h, cipher);
            && (r.result.Ok? <==> Room(|s.skipped|, s.nr, n))
            && (r.result.Ok? ==>
                  r.result.value == es[e - 1].sent[n] && Aligned(es, read + {At(e - 1, n)}, r.state, e))
  {
    hide CipherOf, OpenWith, BankUntil, BankExact, ChainAt, Banked, MessageKeyAt;
    assert Counted(es, e - 1);
    var forward := SkipMessageKeys(s, n);
    SkipExact(es, read, s, e, n);
    if forward.result.Ok? {
      BankAfterOpen(es, read, s, e, n, forward.state);
      KeysAfterOpen(es, s, e, n, forward.state);
      OpenNextExact(es, forward.state, e - 1, n);
    }
  }

  // ---------- Turning to the next chain ----------

  /** The history once the end at epoch `e` has turned to chain `e + 1` with the new key. */
  function Turned(es: seq<Epoch>, e: nat, newKey: Bytes): seq<Epoch>
    requires e + 2 == |es|
  {
    es + [NextEpoch(es[e + 1], newKey)]
  }

  predicate NewKey(es: seq<Epoch>, key: Bytes) {
    forall j :: 0 <= j < |es| ==> es[j].key != key
  }

  lemma TurnedLinked(es: seq<Epoch>, e: nat, newKey: Bytes)
    requires Linked(es) && e + 2 == |es| && NewKey(es, newKey)
    ensures Linked(Turned(es, e, newKey))
  {
    var es' := Turned(es, e, newKey);
    hide NextEpoch;
    assert forall j :: 0 <= j < |es| ==> es'[j] == es[j];
    NextEpochEmpty(es[e + 1], newKey);
    forall j | 1 <= j < |es'|
      ensures LinkedAt(es', j)
    {
      assert j < |es| ==> LinkedAt(es, j);
    }
    forall i, j | 0 <= i < j < |es'|
      ensures KeysDiffer(es', i, j)
    {
      assert j < |es| ==> KeysDiffer(es, i, j);
    }
    forall j | 0 <= j < |es'|
      ensures Counted(es', j)
    {
      assert j < |es| ==> Counted(es, j);
    }
  }

  lemma NextEpochEmpty(prev: Epoch, key: Bytes)
    ensures NextEpoch(prev, key).key == key && NextEpoch(prev, key).sent == []
  {
  }

  /** The rest of the old chain is banked when the ratchet turns: nothing of it is left behind. */
  lemma BankAfterTurn(es: seq<Epoch>, read: set<Place>, s: State, e: nat, newKey: Bytes, t: State)
    requires e + 2 == |es| && BankExact(es, read, s.skipped, s.nr, e)
    requires if e >= 2 then s.nr <= |es[e - 1].sent| <= U32_MAX && SkippedTo(es, s, e, |es[e - 1].sent|, t) else t == s
    requires e < 2 ==> s.nr == 0 && es[0].sent == []
    ensures BankExact(Turned(es, e, newKey), read, t.skipped, 0, e + 2)
  {
    hide BankExact, Banked, ChainAt, PublicKey, NextEpoch, Passed, Grows;
    var es' := Turned(es, e, newKey);
    var c, hi := if e >= 2 then e - 1 else 0, if e >= 2 then |es[e - 1].sent| else 0;
    TurnGrows(es, e, s.nr, newKey);
    if e < 2 {
      BankedNothing(s.skipped, PublicKey(es[c].key), es[c].chain, 0);
    }
    BankGrows(es, e, s.nr, es', e + 2, 0, read, s.skipped, t.skipped, c, s.nr, hi, {});
    assert read + {} == read;
  }

  lemma TurnGrows(es: seq<Epoch>, e: nat, nr: nat, newKey: Bytes)
    requires e + 2 == |es|
    requires if e >= 2 then nr <= |es[e - 1].sent| <= U32_MAX else nr == 0 && es[0].sent == []
    ensures Grows(es, e, nr, Turned(es, e, newKey), e + 2, 0, if e >= 2 then e - 1 else 0, nr,
                  if e >= 2 then |es[e - 1].sent| else 0, {})
  {
    hide NextEpoch;
    var es' := Turned(es, e, newKey);
    assert forall j :: 0 <= j < |es| ==> es'[j] == es[j];
  }

  /** A header of the next chain turns the ratchet exactly when the rest of the old chain fits in the bank, and the
      end then stands two epochs on. */
  lemma TurnAligned(es: seq<Epoch>, read: set<Place>, s: State, e: nat, n: nat, newKey: Bytes)
    requires Linked(es) && Aligned(es, read, s, e) && Sent(es, e + 1, n) && NewKey(es, newKey)
    ensures var h := HeaderOf(es, e + 1, n);
            var r := Turn(s, h, newKey);
            && s.dhr != Some(h.dh)
            && (s.dhr.None? || s.ckr.None? <==> e < 2)
            && (e >= 2 ==> h.pn >= s.nr)
            && (r.result.Ok? <==> (e < 2 || Room(|s.skipped|, s.nr, h.pn)))
            && (r.result.Ok? ==>
                  && Linked(Turned(es, e, newKey))
                  && Aligned(Turned(es, e, newKey), read, r.state, e + 2)
                  && r.state.nr == 0
                  && |r.state.skipped| == |s.skipped| + (if e >= 2 then h.pn - s.nr else 0))
  {
    hide BankExact, BankUntil, ChainAt, MessageKeyAt, KdfRk, DiffieHellman;
    var h := HeaderOf(es, e + 1, n);
    if e >= 1 && PublicKey(es[e - 1].key) == h.dh {
      SameKeySameEpoch(es, e - 1, e + 1);
    }
    var banked := SkipMessageKeys(s, h.pn);
    if e >= 2 {
      assert Counted(es, e - 1);
      SkipExact(es, read, s, e, h.pn);
    } else {
      assert banked == Step(s, Ok(()));
    }
    if banked.result.Ok? {
      var r := DhRatchet(banked.state, h.dh, newKey);
      TurnedLinked(es, e, newKey);
      BankAfterTurn(es, read, s, e, newKey, banked.state);
      KeysAfterTurn(es, s, e, newKey, banked.state);
    }
  }

  lemma KeysAfterTurn(es: seq<Epoch>, s: State, e: nat, newKey: Bytes, t: State)
    requires Linked(es) && KeysAligned(es, s, e) && e + 2 == |es|
    requires t == s.(ckr := t.ckr, nr := t.nr, skipped := t.skipped)
    ensures KeysAligned(Turned(es, e, newKey), DhRatchet(t, PublicKey(es[e + 1].key), newKey), e + 2)
  {
    DiffieHellmanSymmetric(es[e + 1].key, newKey);
    hide DiffieHellman, PublicKey, KdfRk;
    var es' := Turned(es, e, newKey);
    assert es'[e + 2] == NextEpoch(es[e + 1], newKey) && es'[e + 1] == es[e + 1] && es'[e] == es[e];
    assert LinkedAt(es, e + 1);
  }

  // ---------- Honest deliveries ----------

  /** The history after the end at epoch `e` has opened a message of chain `j`. */
  function HistoryAfter(es: seq<Epoch>, e: nat, j: nat, newKey: Bytes): seq<Epoch>
    requires j == e + 1 ==> e + 2 == |es|
  {
    if j == e + 1 then Turned(es, e, newKey) else es
  }

  function EpochAfter(e: nat, j: nat): nat {
    if j == e + 1 then e + 2 else e
  }

  /** A message the other end sent and this end has not read. */
  ghost predicate Awaited(es: seq<Epoch>, read: set<Place>, e: nat, j: nat, n: nat) {
    Sent(es, j, n) && (e - j) % 2 == 1 && At(j, n) !in read
  }

  /** A banked message opens with its banked key. */
  lemma OpenBanked(es: seq<Epoch>, read: set<Place>, s: State, e: nat, j: nat, n: u32)
    requires Linked(es) && Aligned(es, read, s, e) && Awaited(es, read, e, j, n) && Passed(es, e, s.nr, j, n)
    ensures var slot := Slot(PublicKey(es[j].key), n);
            && slot in s.skipped
            && OpenWith(s.skipped[slot], HeaderOf(es, j, n), CipherOf(es, j, n)) == Ok(es[j].sent[n])
            && Aligned(es, read + {At(j, n)}, s.(skipped := s.skipped - {slot}), e)
  {
    hide OpenWith, CipherOf, MessageKeyAt, ChainAt, PublicKey;
    SentOpens(es, j, n);
    assert Holds(s.skipped, PublicKey(es[j].key), n, MessageKeyAt(es[j].chain, n));
    BankAfterRemoval(es, read, s.skipped, s.nr, e, j, n);
  }

  lemma BankAfterRemoval(es: seq<Epoch>, read: set<Place>, bank: map<Slot, Bytes>, nr: nat, e: nat, j: nat, n: u32)
    requires Linked(es) && BankExact(es, read, bank, nr, e) && Passed(es, e, nr, j, n) && At(j, n) !in read
    ensures BankExact(es, read + {At(j, n)}, bank - {Slot(PublicKey(es[j].key), n)}, nr, e)
  {
    hide MessageKeyAt, PublicKey, Linked;
    var bank', read' := bank - {Slot(PublicKey(es[j].key), n)}, read + {At(j, n)};
    forall i: nat, m: nat | Passed(es, e, nr, i, m) && At(i, m) !in read'
      ensures Holds(bank', PublicKey(es[i].key), m, MessageKeyAt(es[i].chain, m))
    {
      assert Holds(bank, PublicKey(es[i].key), m, MessageKeyAt(es[i].chain, m));
      if m == n && PublicKey(es[i].key) == PublicKey(es[j].key) {
        SameKeySameEpoch(es, i, j);
      }
    }
    forall slot | slot in bank'
      ensures exists i: nat :: Passed(es, e, nr, i, slot.n) && At(i, slot.n) !in read' && slot.dh == PublicKey(es[i].key)
    {
      var i: nat :| Passed(es, e, nr, i, slot.n) && At(i, slot.n) !in read && slot.dh == PublicKey(es[i].key);
      assert At(i, slot.n) != At(j, n);
    }
  }

  /** The history grows at its end without changing messages already sent. */
  lemma TurnedSame(es: seq<Epoch>, e: nat, newKey: Bytes, j: nat, n: nat)
    requires Linked(es) && e + 2 == |es| && NewKey(es, newKey) && Sent(es, j, n)
    ensures Linked(Turned(es, e, newKey)) && Sent(Turned(es, e, newKey), j, n)
    ensures HeaderOf(Turned(es, e, newKey), j, n) == HeaderOf(es, j, n)
    ensures CipherOf(Turned(es, e, newKey), j, n) == CipherOf(es, j, n)
  {
    hide NextEpoch, SealWith, PublicKey;
    TurnedLinked(es, e, newKey);
    var es' := Turned(es, e, newKey);
    assert es'[j] == es[j] && (j >= 2 ==> es'[j - 2] == es[j - 2]);
  }

  /** Delivering a message the peer sent and this end has not read opens it to its plaintext exactly when it fits,
      whatever the order of delivery; the end is then aligned with the history again. */
  lemma HonestDelivery(es: seq<Epoch>, read: set<Place>, s: State, e: nat, j: nat, n: u32, newKey: Bytes)
    requires Linked(es) && Aligned(es, read, s, e) && Awaited(es, read, e, j, n) && NewKey(es, newKey)
    ensures j <= e + 1 && (j == e + 1 ==> e + 2 == |es|)
    ensures var h := HeaderOf(es, j, n);
            var r := DecryptParsed(s, h, CipherOf(es, j, n), newKey);
            && (r.result.Ok? <==> Fits(s, h))
            && (r.result.Ok? ==>
                  && r.result.value == es[j].sent[n]
                  && Linked(HistoryAfter(es, e, j, newKey))
                  && Aligned(HistoryAfter(es, e, j, newKey), read + {At(j, n)}, r.state, EpochAfter(e, j)))
  {
    hide Turn, SkipMessageKeys, OpenNext, OpenWith, CipherOf, BankExact, ChainAt, PublicKey, Room, Turned;
    assert Counted(es, j);
    var h, cipher := HeaderOf(es, j, n), CipherOf(es, j, n);
    if Passed(es, e, s.nr, j, n) {
      OpenBanked(es, read, s, e, j, n);
    } else {
      if Slot(h.dh, h.n) in s.skipped {
        BankBelow(es, read, s, e, j, Slot(h.dh, h.n));
        assert false;
      }
      if j == e - 1 {
        OpenCurrentCase(es, read, s, e, n, newKey);
      } else {
        assert j == e + 1;
        OpenNextChain(es, read, s, e, n, newKey);
      }
    }
  }

  lemma OpenCurrentCase(es: seq<Epoch>, read: set<Place>, s: State, e: nat, n: u32, newKey: Bytes)
    requires Linked(es) && Aligned(es, read, s, e) && e >= 2 && Awaited(es, read, e, e - 1, n) && s.nr <= n
    requires Slot(PublicKey(es[e - 1].key), n) !in s.skipped
    ensures var h := HeaderOf(es, e - 1, n);
            var r := DecryptParsed(s, h, CipherOf(es, e - 1, n), newKey);
            && (r.result.Ok? <==> Fits(s, h))
            && (r.result.Ok? ==>
                  r.result.value == es[e - 1].sent[n] && Aligned(es, read + {At(e - 1, n)}, r.state, e))
  {
    hide SkipMessageKeys, OpenNext, OpenWith, CipherOf, BankExact, ChainAt, PublicKey, Room;
    var h, cipher := HeaderOf(es, e - 1, n), CipherOf(es, e - 1, n);
    OpenCurrent(es, read, s, e, n, h, cipher);
    assert DecryptParsed(s, h, cipher, newKey) == ForwardAndOpen(s, h, cipher);
  }

  lemma OpenNextChain(es: seq<Epoch>, read: set<Place>, s: State, e: nat, n: u32, newKey: Bytes)
    requires Linked(es) && Aligned(es, read, s, e) && Awaited(es, read, e, e + 1, n) && NewKey(es, newKey)
    requires Slot(PublicKey(es[e + 1].key), n) !in s.skipped
    ensures var h := HeaderOf(es, e + 1, n);
            var r := DecryptParsed(s, h, CipherOf(es, e + 1, n), newKey);
            && (r.result.Ok? <==> Fits(s, h))
            && (r.result.Ok? ==>
                  && r.result.value == es[e + 1].sent[n]
                  && Linked(Turned(es, e, newKey))
                  && Aligned(Turned(es, e, newKey), read + {At(e + 1, n)}, r.state, e + 2))
  {
    hide Turn, SkipMessageKeys, OpenNext, OpenWith, CipherOf, BankExact, ChainAt, PublicKey, Room, NextEpoch, LinkedAt;
    var h, cipher := HeaderOf(es, e + 1, n), CipherOf(es, e + 1, n);
    var turned := Turn(s, h, newKey);
    TurnAligned(es, read, s, e, n, newKey);
    TurnedSame(es, e, newKey, e + 1, n);
    if turned.result.Ok? {
      var es' := Turned(es, e, newKey);
      assert es'[e + 1] == es[e + 1];
      OpenCurrent(es', read, turned.state, e + 2, n, h, cipher);
      assert DecryptParsed(s, h, cipher, newKey) == ForwardAndOpen(turned.state, h, cipher);
    }
  }
}
