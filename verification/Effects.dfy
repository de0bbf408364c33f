/**
 What every encrypt and decrypt does to a session, for every state and every input, told apart from how it is done: what the
 sending side keeps, what is banked, where the receiving chain ends up and which key opens.
 */
module Effects {
  import opened Octets
  import opened Crypto
  import opened Chains
  import opened Frames
  import opened Ratchet
  import opened Joint
  import opened Delivery
  import opened Soundness
  import opened Failures
  import opened SessionBlob
  import opened BlobGrammar
  import opened Facade

  // ---------- Skipping, in closed form ----------

  predicate InRange(k: Slot, dh: Bytes, lo: nat, hi: nat) {
    k.dh == dh && lo <= k.n < hi
  }

  /** `after` is `before` with the slots `lo` to `hi` under `dh` filled with the message keys of chain `c` from position `a` on. */
  ghost predicate Filled(before: map<Slot, Bytes>, after: map<Slot, Bytes>, dh: Bytes, c: Bytes, a: nat, lo: nat, hi: nat) {
    && (forall k :: k in after <==> k in before || InRange(k, dh, lo, hi))
    && (forall k :: k in before && !InRange(k, dh, lo, hi) ==> after[k] == before[k])
    && (forall k :: k in after && InRange(k, dh, lo, hi) ==> after[k] == MessageKeyAt(c, a + (k.n - lo)))
  }

  lemma FilledStep(before: map<Slot, Bytes>, after: map<Slot, Bytes>, dh: Bytes, c: Bytes, a: nat, lo: u32, hi: nat)
    requires lo < hi && Filled(before[Slot(dh, lo) := MessageKeyAt(c, a)], after, dh, c, a + 1, lo + 1, hi)
    ensures Filled(before, after, dh, c, a, lo, hi)
  {
    hide MessageKeyAt;
    var mid := before[Slot(dh, lo) := MessageKeyAt(c, a)];
    forall k
      ensures k in after <==> k in before || InRange(k, dh, lo, hi)
    {
      assert k in mid <==> k in before || k == Slot(dh, lo);
    }
    forall k | k in after && InRange(k, dh, lo, hi)
      ensures after[k] == MessageKeyAt(c, a + (k.n - lo))
    {
      assert k.n == lo ==> k == Slot(dh, lo) && k in mid;
    }
  }

  /** Skipping, for every state: the chain moves by as many steps as the counter, one more if the store is full, the keys
      passed are banked in order, and nothing else changes. */
  lemma {:induction false} BankUntilEffect(s: State, dh: Bytes, upTo: u32, c: Bytes, a: nat)
    requires s.ckr == Some(ChainAt(c, a))
    ensures var r := BankUntil(s, dh, upTo);
            var t := r.state;
            && s.nr <= t.nr
            && t == s.(ckr := Some(ChainAt(c, a + (t.nr - s.nr) + Full(r.result))), nr := t.nr, skipped := t.skipped)
            && Filled(s.skipped, t.skipped, dh, c, a, s.nr, t.nr)
            && (r.result.Ok? ==> t.nr == Later(s.nr, upTo))
            && (r.result.Err? ==> r.result == Err(Ratchet(StoreFull)) && t.nr < upTo && |t.skipped| >= MAX_STORED_SKIPPED)
    decreases upTo - s.nr
  {
    hide BankUntil, Filled, KdfCk;
    if s.nr >= upTo {
      BankUntilDone(s, dh, upTo);
      FilledNothing(s.skipped, dh, c, a, s.nr);
    } else {
      var (next, mk) := KdfCk(s.ckr.value);
      var moved := s.(ckr := Some(next));
      var stored := moved.(skipped := s.skipped[Slot(dh, s.nr) := mk], nr := s.nr + 1);
      assert next == ChainAt(c, a + 1) && mk == MessageKeyAt(c, a);
      BankUntilUnfold(s, dh, upTo, moved, stored);
      if |s.skipped| < MAX_STORED_SKIPPED {
        BankUntilEffect(stored, dh, upTo, c, a + 1);
        var t := BankUntil(stored, dh, upTo).state;
        FilledStep(s.skipped, t.skipped, dh, c, a, s.nr, t.nr);
      } else {
        FilledNothing(s.skipped, dh, c, a, s.nr);
      }
    }
  }

  lemma FilledNothing(bank: map<Slot, Bytes>, dh: Bytes, c: Bytes, a: nat, n: nat)
    ensures Filled(bank, bank, dh, c, a, n, n)
  {
  }

  // ---------- Opening in a chain ----------

  /** From `s` the receiving chain under `dh`, standing at position 0 of `c`, is moved on for a message numbered `n`: not at all
      if that is too far; up to the position where the store was full; or past the key the message is opened with. */
  ghost predicate MovedOn(s: State, dh: Bytes, c: Bytes, h: Header, cipher: Bytes, r: Step<Bytes>) {
    var t := r.state;
    if h.n > s.nr + MAX_SKIP then r == Step(s, Err(Ratchet(TooManySkipped)))
    else if r.result == Err(Ratchet(StoreFull)) then
      && s.nr <= t.nr < h.n && |t.skipped| >= MAX_STORED_SKIPPED
      && t == s.(ckr := Some(ChainAt(c, t.nr - s.nr + 1)), nr := t.nr, skipped := t.skipped)
      && Filled(s.skipped, t.skipped, dh, c, 0, s.nr, t.nr)
    else
      var at := Later(s.nr, h.n);
      && t == s.(ckr := Some(ChainAt(c, at - s.nr + 1)), nr := Successor(at), skipped := t.skipped)
      && Filled(s.skipped, t.skipped, dh, c, 0, s.nr, at)
      && r.result == OpenWith(MessageKeyAt(c, at - s.nr), h, cipher)
  }

  lemma ForwardEffect(s: State, h: Header, cipher: Bytes, dh: Bytes, c: Bytes)
    requires s.dhr == Some(dh) && s.ckr == Some(c)
    ensures MovedOn(s, dh, c, h, cipher, ForwardAndOpen(s, h, cipher))
  {
    hide BankUntil, KdfCk, OpenWith, Filled;
    if h.n <= s.nr + MAX_SKIP {
      ChainStarts(c);
      BankUntilEffect(s, dh, h.n, c, 0);
      var t := BankUntil(s, dh, h.n).state;
      OpenNeverFull(t, h, cipher);
      assert forall k: nat :: t.ckr == Some(ChainAt(c, k)) ==> KdfCk(t.ckr.value) == (ChainAt(c, k + 1), MessageKeyAt(c, k));
    }
  }

  // ---------- Decrypting ----------

  /** Everything a session sends with, and the key it receives under. */
  ghost predicate SendingKept(s: State, t: State) {
    t.dhs == s.dhs && t.dhsPub == s.dhsPub && t.dhr == s.dhr && t.rk == s.rk && t.cks == s.cks && t.ns == s.ns && t.pn == s.pn
  }

  /** The session has adopted key `dh` and generated `newKey`: two root steps, a sending chain not yet used, and the number of
      messages sent before kept for headers. */
  ghost predicate Adopted(s: State, dh: Bytes, newKey: Bytes, t: State) {
    var (rk1, ckr) := KdfRk(s.rk, DiffieHellman(s.dhs, dh));
    && t.dhs == newKey && t.dhsPub == PublicKey(newKey) && t.dhr == Some(dh)
    && (t.rk, t.cks) == (KdfRk(rk1, DiffieHellman(newKey, dh)).0, Some(KdfRk(rk1, DiffieHellman(newKey, dh)).1))
    && t.ns == 0 && t.pn == s.ns
  }

  /** A banked key is taken out and used, and nothing else changes. */
  lemma TakenEffect(s: State, h: Header, cipher: Bytes, newKey: Bytes)
    requires Slot(h.dh, h.n) in s.skipped
    ensures var r := DecryptParsed(s, h, cipher, newKey);
            && r.result == OpenWith(s.skipped[Slot(h.dh, h.n)], h, cipher)
            && SendingKept(s, r.state) && r.state.ckr == s.ckr && r.state.nr == s.nr
            && r.state.skipped == s.skipped - {Slot(h.dh, h.n)}
  {
    hide OpenWith;
  }

  /** A message of the current chain moves that chain on, and nothing else. */
  lemma CurrentEffect(s: State, h: Header, cipher: Bytes, newKey: Bytes)
    requires Slot(h.dh, h.n) !in s.skipped && s.dhr == Some(h.dh)
    ensures var r := DecryptParsed(s, h, cipher, newKey);
            && SendingKept(s, r.state)
            && if s.ckr.None? then r == Step(s, Err(Ratchet(NoReceivingChain)))
               else MovedOn(s, h.dh, s.ckr.value, h, cipher, r)
  {
    hide SkipMessageKeys, OpenNext, OpenWith, MovedOn;
    TurnNotNeeded(s, h, newKey);
    assert DecryptParsed(s, h, cipher, newKey) == ForwardAndOpen(s, h, cipher);
    if s.ckr.Some? {
      ForwardEffect(s, h, cipher, h.dh, s.ckr.value);
      MovedKeeps(s, h.dh, s.ckr.value, h, cipher, ForwardAndOpen(s, h, cipher));
    } else {
      ForwardWithout(s, h, cipher);
    }
  }

  lemma MovedKeeps(s: State, dh: Bytes, c: Bytes, h: Header, cipher: Bytes, r: Step<Bytes>)
    requires MovedOn(s, dh, c, h, cipher, r)
    ensures SendingKept(s, r.state)
  {
    hide Filled, OpenWith, ChainAt;
  }

  lemma ForwardWithout(s: State, h: Header, cipher: Bytes)
    requires s.ckr.None?
    ensures ForwardAndOpen(s, h, cipher) == Step(s, Err(Ratchet(NoReceivingChain)))
  {
  }

  /** What is left of the old chain once a new key has come: all of it banked that the header counts, or an error. */
  ghost predicate ChainClosed(s: State, h: Header, t: State, error: Option<Error>) {
    if s.dhr.None? || s.ckr.None? then t == s && error == None
    else if h.pn > s.nr + MAX_SKIP then t == s && error == Some(Ratchet(TooManySkipped))
    else
      var full := if error == Some(Ratchet(StoreFull)) then 1 else 0;
      && s.nr <= t.nr
      && t == s.(ckr := Some(ChainAt(s.ckr.value, t.nr - s.nr + full)), nr := t.nr, skipped := t.skipped)
      && Filled(s.skipped, t.skipped, s.dhr.value, s.ckr.value, 0, s.nr, t.nr)
      && (if full == 1 then t.nr < h.pn && |t.skipped| >= MAX_STORED_SKIPPED else t.nr == Later(s.nr, h.pn) && error == None)
  }

  function ErrorOf<T>(r: Result<T>): Option<Error> {
    if r.Ok? then None else Some(r.error)
  }

  lemma ClosingEffect(s: State, h: Header)
    ensures var r := SkipMessageKeys(s, h.pn); ChainClosed(s, h, r.state, ErrorOf(r.result))
  {
    hide BankUntil, KdfCk, Filled;
    if s.dhr.Some? && s.ckr.Some? && h.pn <= s.nr + MAX_SKIP {
      ChainStarts(s.ckr.value);
      BankUntilEffect(s, s.dhr.value, h.pn, s.ckr.value, 0);
    }
  }

  /** The old chain was closed as state `mid`; with an error that is the end of it, and otherwise the session has adopted the
      key, and the message has moved the new chain on from its start. */
  ghost predicate TurnedOn(s: State, h: Header, cipher: Bytes, newKey: Bytes, mid: State, r: Step<Bytes>) {
    var error := if r.state.rk == s.rk then ErrorOf(r.result) else None;
    && ChainClosed(s, h, mid, error)
    && if r.state.rk == s.rk then r.state == mid && r.result.Err? && SendingKept(s, r.state)
       else
         var c := KdfRk(s.rk, DiffieHellman(s.dhs, h.dh)).1;
         var start := State(r.state.dhs, r.state.dhsPub, Some(h.dh), r.state.rk, r.state.cks, Some(c), 0, 0, s.ns, mid.skipped);
         Adopted(s, h.dh, newKey, r.state) && MovedOn(start, h.dh, c, h, cipher, r)
  }

  /** A message under a new key closes the old chain, and unless that fails turns the ratchet and moves the new chain on. */
  lemma TurnEffect(s: State, h: Header, cipher: Bytes, newKey: Bytes) returns (mid: State)
    requires Slot(h.dh, h.n) !in s.skipped && s.dhr != Some(h.dh)
    ensures TurnedOn(s, h, cipher, newKey, mid, DecryptParsed(s, h, cipher, newKey))
  {
    hide SkipMessageKeys, OpenNext, OpenWith, MovedOn, KdfRk, DiffieHellman, PublicKey, ChainClosed, RootDepth;
    mid := SkipMessageKeys(s, h.pn).state;
    ClosingEffect(s, h);
    SkipFrame(s, h.pn);
    var r := DecryptParsed(s, h, cipher, newKey);
    if SkipMessageKeys(s, h.pn).result.Ok? {
      var t := Turn(s, h, newKey).state;
      TurnMoves(s, h, newKey);
      assert r == ForwardAndOpen(t, h, cipher);
      ForwardKeepsRoot(t, h, cipher);
      ForwardEffect(t, h, cipher, h.dh, KdfRk(s.rk, DiffieHellman(s.dhs, h.dh)).1);
      MovedKeeps(t, h.dh, KdfRk(s.rk, DiffieHellman(s.dhs, h.dh)).1, h, cipher, r);
    }
  }

  // ---------- What decrypting keeps ----------

  /** Decrypting any octets, on every path: as long as the root key stays, everything the session sends with stays, errors or
      not; and when it moves, the session has adopted the key of the message's header. */
  lemma DecryptSending(s: State, message: Bytes, newKey: Bytes)
    ensures var t := Decrypt(s, message, newKey).state;
            if t.rk == s.rk then SendingKept(s, t)
            else ParseMessage(message).Ok? && Adopted(s, ParseMessage(message).value.0.dh, newKey, t)
  {
    hide DecryptParsed, ParseMessage, MovedOn, ChainClosed, KdfRk, DiffieHellman, PublicKey, OpenWith;
    if ParseMessage(message).Ok? {
      var (h, cipher) := ParseMessage(message).value;
      if Slot(h.dh, h.n) in s.skipped {
        TakenEffect(s, h, cipher, newKey);
      } else if s.dhr == Some(h.dh) {
        CurrentEffect(s, h, cipher, newKey);
      } else {
        var mid := TurnEffect(s, h, cipher, newKey);
      }
    }
  }

  /** The slots a header has the session pass over: the rest of the current chain up to the message, or up to the count the
      header gives if it carries a new key, and then the beginning of the new chain. */
  predicate PassesOver(s: State, h: Header, k: Slot) {
    || (s.dhr == Some(k.dh) && s.nr <= k.n < (if s.dhr == Some(h.dh) then h.n else h.pn))
    || (s.dhr != Some(h.dh) && k.dh == h.dh && k.n < h.n)
  }

  /** Slot `k` is in both banks with the same key. */
  ghost predicate KeptIn(before: map<Slot, Bytes>, after: map<Slot, Bytes>, k: Slot) {
    k in before && k in after && after[k] == before[k]
  }

  /** Nothing banked is lost; only what the header passes over is banked anew. */
  ghost predicate BankKept(s: State, h: Header, t: State) {
    && (forall k :: k in s.skipped ==> k in t.skipped)
    && (forall k :: k in s.skipped && !PassesOver(s, h, k) ==> KeptIn(s.skipped, t.skipped, k))
    && (forall k :: k in t.skipped && k !in s.skipped ==> PassesOver(s, h, k))
  }

  lemma MovedBank(s: State, start: State, dh: Bytes, c: Bytes, h: Header, cipher: Bytes, r: Step<Bytes>)
    requires MovedOn(start, dh, c, h, cipher, r) && dh == h.dh && BankKept(s, h, start)
    requires if s.dhr == Some(h.dh) then start.nr == s.nr else start.nr == 0
    ensures BankKept(s, h, r.state)
  {
    hide ChainAt, MessageKeyAt, OpenWith;
    var t := r.state;
    forall k | k in s.skipped
      ensures k in t.skipped && (!PassesOver(s, h, k) ==> KeptIn(s.skipped, t.skipped, k))
    {
      assert k in start.skipped;
      assert !PassesOver(s, h, k) ==> KeptIn(s.skipped, start.skipped, k);
    }
  }

  lemma ClosedBank(s: State, h: Header, mid: State, error: Option<Error>)
    requires ChainClosed(s, h, mid, error) && s.dhr != Some(h.dh)
    ensures BankKept(s, h, mid)
  {
    hide ChainAt, MessageKeyAt;
  }

  /** A decrypt that does not take a key out of the bank loses none. */
  lemma DecryptBank(s: State, h: Header, cipher: Bytes, newKey: Bytes)
    ensures var t := DecryptParsed(s, h, cipher, newKey).state;
            if Slot(h.dh, h.n) in s.skipped then t.skipped == s.skipped - {Slot(h.dh, h.n)} else BankKept(s, h, t)
  {
    hide DecryptParsed, MovedOn, ChainClosed, KdfRk, DiffieHellman, PublicKey, OpenWith, PassesOver, BankKept, Adopted;
    var r := DecryptParsed(s, h, cipher, newKey);
    if Slot(h.dh, h.n) in s.skipped {
      TakenEffect(s, h, cipher, newKey);
    } else if s.dhr == Some(h.dh) {
      CurrentEffect(s, h, cipher, newKey);
      SameBank(s, h, s);
      if s.ckr.Some? {
        MovedBank(s, s, h.dh, s.ckr.value, h, cipher, r);
      }
    } else {
      var mid := TurnEffect(s, h, cipher, newKey);
      ClosedBank(s, h, mid, if r.state.rk == s.rk then ErrorOf(r.result) else None);
      if r.state.rk != s.rk {
        var c := KdfRk(s.rk, DiffieHellman(s.dhs, h.dh)).1;
        var start := State(r.state.dhs, r.state.dhsPub, Some(h.dh), r.state.rk, r.state.cks, Some(c), 0, 0, s.ns, mid.skipped);
        BankOnlyMatters(s, h, mid, start);
        MovedBank(s, start, h.dh, c, h, cipher, r);
      }
    }
  }

  lemma SameBank(s: State, h: Header, t: State)
    requires t.skipped == s.skipped
    ensures BankKept(s, h, t)
  {
  }

  lemma BankOnlyMatters(s: State, h: Header, t: State, u: State)
    requires BankKept(s, h, t) && u.skipped == t.skipped
    ensures BankKept(s, h, u)
  {
  }

  /** A slot that is passed over is banked anew, whatever key it held: keeping every banked key is more than the code does. */
  lemma PassedOverwritten(s: State, h: Header, cipher: Bytes, newKey: Bytes)
    requires s.dhr == Some(h.dh) && s.ckr.Some? && h.n == s.nr + 1 && |s.skipped| < MAX_STORED_SKIPPED
    requires Slot(h.dh, s.nr) in s.skipped && Slot(h.dh, h.n) !in s.skipped
    ensures var t := DecryptParsed(s, h, cipher, newKey).state;
            Slot(h.dh, s.nr) in t.skipped && t.skipped[Slot(h.dh, s.nr)] == MessageKeyAt(s.ckr.value, 0)
  {
    hide DecryptParsed, OpenWith, BankUntil;
    CurrentEffect(s, h, cipher, newKey);
    var r := DecryptParsed(s, h, cipher, newKey);
    var k := Slot(h.dh, s.nr);
    assert InRange(k, h.dh, s.nr, h.n);
    NothingFilled(s.skipped, r.state.skipped, h.dh, s.ckr.value, s.nr);
  }

  lemma NothingFilled(before: map<Slot, Bytes>, after: map<Slot, Bytes>, dh: Bytes, c: Bytes, n: nat)
    ensures Filled(before, after, dh, c, 0, n, n) ==> |after| == |before|
  {
    if Filled(before, after, dh, c, 0, n, n) {
      assert after.Keys == before.Keys;
      assert |after| == |after.Keys| && |before| == |before.Keys|;
    }
  }

  /** At an aligned end a message of the peer passes over no banked slot, so there every banked key but the one taken is kept. */
  lemma AlignedKept(es: seq<Epoch>, read: set<Place>, s: State, e: nat, j: nat, n: u32, k: Slot)
    requires Linked(es) && Aligned(es, read, s, e) && Awaited(es, read, e, j, n) && k in s.skipped
    requires j <= e + 1 && Slot(PublicKey(es[j].key), n) !in s.skipped
    ensures !PassesOver(s, HeaderOf(es, j, n), k)
  {
    hide ChainAt, MessageKeyAt, PublicKey, LinkedAt, KeysDiffer, Counted, BankExact;
    var h := HeaderOf(es, j, n);
    if s.dhr == Some(k.dh) {
      BankBelow(es, read, s, e, e - 1, k);
    }
    if k.dh == h.dh {
      BankBelow(es, read, s, e, j, k);
      if s.dhr != Some(h.dh) {
        NotPassed(es, read, s, e, j, n);
      }
    }
  }

  lemma NotPassed(es: seq<Epoch>, read: set<Place>, s: State, e: nat, j: nat, n: u32)
    requires Linked(es) && Aligned(es, read, s, e) && Awaited(es, read, e, j, n)
    requires Slot(PublicKey(es[j].key), n) !in s.skipped
    ensures !Passed(es, e, s.nr, j, n)
  {
    hide ChainAt, MessageKeyAt, PublicKey, LinkedAt, KeysDiffer, Counted;
  }

  // ---------- Encrypting ----------

  /** Encrypting, for every state: refused exactly without a sending chain, and then nothing changes; otherwise the sending
      chain moves by one step, its counter by one, and nothing else. The message carries the session's public key, the
      counters as they were, and the plaintext sealed under the key of the step. */
  lemma EncryptEffect(s: State, plain: Bytes)
    ensures var r := Encrypt(s, plain);
            if s.cks.None? then r == Step(s, Err(Ratchet(NoSendingChain)))
            else
              && r.state == s.(cks := Some(ChainAt(s.cks.value, 1)), ns := if s.ns == U32_MAX then 0 else s.ns + 1)
              && r.result.Ok?
              && (|s.dhsPub| == KEY_LEN && |plain| + TAG_LEN < 0x1_0000_0000_0000_0000 ==>
                    && ParseMessage(r.result.value).Ok?
                    && var (h, cipher) := ParseMessage(r.result.value).value;
                    && h.dh == s.dhsPub && h.pn == s.pn && h.n == s.ns
                    && OpenWith(MessageKeyAt(s.cks.value, 0), h, cipher) == Ok(plain))
  {
    hide ParseMessage, WireMessage, SealWith, OpenWith, KdfCk;
    if s.cks.Some? {
      var h, mk := Header(s.dhsPub, s.pn, s.ns), KdfCk(s.cks.value).1;
      ChainStarts(s.cks.value);
      assert ChainAt(s.cks.value, 1) == KdfCk(ChainAt(s.cks.value, 0)).0;
      SealedOpens(mk, h, plain);
      if |s.dhsPub| == KEY_LEN && |plain| + TAG_LEN < 0x1_0000_0000_0000_0000 {
        MessageRoundTrip(h, SealWith(mk, h, plain));
      }
    }
  }

  lemma SealedOpens(mk: Bytes, h: Header, plain: Bytes)
    ensures OpenWith(mk, h, SealWith(mk, h, plain)) == Ok(plain) && |SealWith(mk, h, plain)| == |plain| + TAG_LEN
  {
    hide ToAad, MessageKeys;
    var (key, nonce) := MessageKeys(mk);
    OpenExact(key, nonce, ToAad(h), SealWith(mk, h, plain), plain);
  }

  // ---------- Blob to blob ----------

  /** Encrypting in a blob yields a blob and a message exactly if the octets stand for a session that encrypts to that message,
      and the blob is that session's afterwards. */
  lemma EncryptMessageExact(session: Bytes, plain: Bytes, next: Bytes, message: Bytes)
    ensures EncryptMessage(session, plain) == Ok((next, message)) <==>
            exists s :: && IsBlob(session, s) && Encrypt(s, plain).result == Ok(message)
                        && next == ToBytes(Encrypt(s, plain).state)
  {
    hide FromBytes, IsBlob, Encrypt, ToBytes;
    if FromBytes(session).Ok? {
      BlobExact(session, FromBytes(session).value);
    }
    forall s | IsBlob(session, s)
      ensures FromBytes(session) == Ok(s)
    {
      BlobExact(session, s);
    }
  }

  /** Decrypting in a blob yields a blob and a plaintext exactly if the octets stand for a session that decrypts the message to
      it, and the blob is that session's afterwards. */
  lemma DecryptMessageExact(session: Bytes, message: Bytes, newKey: Bytes, next: Bytes, plain: Bytes)
    ensures DecryptMessage(session, message, newKey) == Ok((next, plain)) <==>
            exists s :: && IsBlob(session, s) && Decrypt(s, message, newKey).result == Ok(plain)
                        && next == ToBytes(Decrypt(s, message, newKey).state)
  {
    hide FromBytes, IsBlob, Decrypt, ToBytes;
    if FromBytes(session).Ok? {
      BlobExact(session, FromBytes(session).value);
    }
    forall s | IsBlob(session, s)
      ensures FromBytes(session) == Ok(s)
    {
      BlobExact(session, s);
    }
  }
}
