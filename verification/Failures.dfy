/**
 What a failing decrypt leaves behind in memory: when nothing, and when the receiving chain and its counter part.
 */
module Failures {
  import opened Octets
  import opened Crypto
  import opened Chains
  import opened Ratchet
  import opened Joint
  import opened Delivery
  import opened Soundness
  import opened SessionBlob
  import opened Facade
  import opened Runs
  import opened RawRuns
  import opened Refinement

  // ---------- When nothing is left behind ----------

  /** A header that is turned away before anything is changed: its key is not banked, and it either belongs to the current
      chain, which is missing or would have to skip too far, or carries a new key while the old chain would have to. */
  predicate LeavesAlone(s: State, h: Header) {
    && Slot(h.dh, h.n) !in s.skipped
    && if s.dhr == Some(h.dh) then s.ckr.None? || h.n > s.nr + MAX_SKIP
       else s.dhr.Some? && s.ckr.Some? && h.pn > s.nr + MAX_SKIP
  }

  /** Skipping moves the chain exactly if there is something to skip. */
  lemma {:induction false} BankUntilMoves(s: State, dh: Bytes, upTo: u32)
    requires s.ckr.Some?
    ensures var t := BankUntil(s, dh, upTo).state;
            && t.ckr.Some? && Position(t.ckr.value) >= Position(s.ckr.value)
            && (s.nr < upTo ==> Position(t.ckr.value) > Position(s.ckr.value))
            && (s.nr >= upTo ==> BankUntil(s, dh, upTo) == Step(s, Ok(())))
    decreases upTo - s.nr
  {
    hide KdfCk, BankUntil, Position, ChainDepth;
    if s.nr >= upTo {
      BankUntilDone(s, dh, upTo);
    } else {
      var (next, mk) := KdfCk(s.ckr.value);
      var moved := s.(ckr := Some(next));
      var stored := moved.(skipped := s.skipped[Slot(dh, s.nr) := mk], nr := s.nr + 1);
      ChainStepTerm(s.ckr.value);
      BankUntilUnfold(s, dh, upTo, moved, stored);
      if |s.skipped| < MAX_STORED_SKIPPED {
        BankUntilMoves(stored, dh, upTo);
      }
    }
  }

  /** Skipping to a number and opening there always moves the chain, if there is one and the number is in reach. */
  lemma ForwardMoves(s: State, h: Header, cipher: Bytes)
    requires s.dhr.Some?
    ensures var r := ForwardAndOpen(s, h, cipher);
            && (s.ckr.None? || h.n > s.nr + MAX_SKIP ==> r.state == s && r.result.Err?)
            && (s.ckr.Some? && h.n <= s.nr + MAX_SKIP ==> r.state != s)
  {
    hide KdfCk, BankUntil, Position, OpenWith, ChainDepth;
    if s.ckr.Some? && h.n <= s.nr + MAX_SKIP {
      BankUntilMoves(s, s.dhr.value, h.n);
      var t := BankUntil(s, s.dhr.value, h.n).state;
      ChainStepTerm(t.ckr.value);
    }
  }

  /** A turn moves the root, and whatever follows it does not move it back. */
  lemma TurnMoves(s: State, h: Header, newKey: Bytes)
    requires s.dhr != Some(h.dh) && Turn(s, h, newKey).result.Ok?
    ensures RootDepth(Turn(s, h, newKey).state.rk) == RootDepth(s.rk) + 2 && Turn(s, h, newKey).state.dhr == Some(h.dh)
  {
    hide KdfRk, DiffieHellman, PublicKey, RootDepth, SkipMessageKeys;
    SkipFrame(s, h.pn);
    RootStepTerm(s.rk, DiffieHellman(s.dhs, h.dh));
    RootStepTerm(KdfRk(s.rk, DiffieHellman(s.dhs, h.dh)).0, DiffieHellman(newKey, h.dh));
  }

  lemma ForwardKeepsRoot(s: State, h: Header, cipher: Bytes)
    ensures ForwardAndOpen(s, h, cipher).state.rk == s.rk
  {
    hide KdfCk, OpenWith, SkipMessageKeys;
    SkipFrame(s, h.n);
  }

  /** A turn that fails changes something exactly if it got as far as skipping. */
  lemma TurnRefused(s: State, h: Header, newKey: Bytes)
    requires s.dhr != Some(h.dh) && Turn(s, h, newKey).result.Err?
    ensures Turn(s, h, newKey).state == s <==> s.dhr.Some? && s.ckr.Some? && h.pn > s.nr + MAX_SKIP
  {
    hide KdfCk, BankUntil, Position, DhRatchet;
    if s.dhr.Some? && s.ckr.Some? {
      BankUntilMoves(s, s.dhr.value, h.pn);
    }
  }

  /** A failing decrypt leaves the session as it was exactly if the header is turned away by one of these guards. */
  lemma FailureUnchanged(s: State, h: Header, cipher: Bytes, newKey: Bytes)
    requires DecryptParsed(s, h, cipher, newKey).result.Err?
    ensures DecryptParsed(s, h, cipher, newKey).state == s <==> LeavesAlone(s, h)
  {
    hide SkipMessageKeys, OpenNext, OpenWith, DhRatchet, RootDepth, Turn;
    var slot := Slot(h.dh, h.n);
    if slot in s.skipped {
      assert slot !in DecryptParsed(s, h, cipher, newKey).state.skipped;
    } else if s.dhr == Some(h.dh) {
      TurnNotNeeded(s, h, newKey);
      ForwardMoves(s, h, cipher);
      assert DecryptParsed(s, h, cipher, newKey) == ForwardAndOpen(s, h, cipher);
    } else if Turn(s, h, newKey).result.Err? {
      TurnRefused(s, h, newKey);
    } else {
      var t := Turn(s, h, newKey).state;
      TurnMoves(s, h, newKey);
      ForwardKeepsRoot(t, h, cipher);
      assert DecryptParsed(s, h, cipher, newKey) == ForwardAndOpen(t, h, cipher);
      TurnReached(s, h, newKey);
    }
  }

  lemma TurnNotNeeded(s: State, h: Header, newKey: Bytes)
    requires s.dhr == Some(h.dh)
    ensures Turn(s, h, newKey) == Step(s, Ok(()))
  {
  }

  lemma TurnReached(s: State, h: Header, newKey: Bytes)
    requires s.dhr != Some(h.dh) && Turn(s, h, newKey).result.Ok?
    ensures !LeavesAlone(s, h)
  {
    hide BankUntil;
  }

  /** Octets that fail without a trace: they do not parse, or their header is turned away. */
  predicate Harmless(s: State, message: Bytes) {
    match ParseMessage(message)
    case Err(_) => true
    case Ok((h, _)) => LeavesAlone(s, h)
  }

  /** Decrypting octets that fail leaves the session as it was exactly if they are harmless. */
  lemma FailureHarmless(s: State, message: Bytes, newKey: Bytes)
    requires Decrypt(s, message, newKey).result.Err?
    ensures Decrypt(s, message, newKey).state == s <==> Harmless(s, message)
  {
    hide DecryptParsed, LeavesAlone, ParseMessage;
    match ParseMessage(message)
    case Err(_) =>
    case Ok((h, cipher)) => FailureUnchanged(s, h, cipher, newKey);
  }

  // ---------- Runs ----------

  /** Every delivery of a run that fails is harmless. */
  ghost predicate HarmlessRun(w: World, evs: seq<Event>)
    requires Inv(w) && AllowedRun(w, evs)
    decreases |evs|
  {
    evs == [] || (
      && (evs[0].Deliver? && !Succeeds(w, evs[0]) ==> Harmless(StateOf(w, evs[0].receiver), evs[0].message))
      && (StepKeepsInv(w, evs[0]); HarmlessRun(Next(w, evs[0]), evs[1..])))
  }

  /** The in-memory ends hold what the blobs stand for, at the start and after every event. */
  ghost predicate MirrorsThroughout(r: RawWorld, w: World, evs: seq<Event>)
    requires Inv(w) && AllowedRun(w, evs)
    decreases |evs|
  {
    && Mirrors(r, w)
    && (evs == [] || (StepKeepsInv(w, evs[0]); MirrorsThroughout(RawNext(r, evs[0]), Next(w, evs[0]), evs[1..])))
  }

  /** A call that fails leaves memory in step with the blobs exactly if it is harmless. */
  lemma FailureMirrors(r: RawWorld, w: World, ev: Event)
    requires Inv(w) && Mirrors(r, w) && Allowed(w, ev) && !Succeeds(w, ev)
    ensures Next(w, ev) == w
    ensures Mirrors(RawNext(r, ev), w) <==> (ev.Deliver? ==> Harmless(StateOf(w, ev.receiver), ev.message))
  {
    hide ToBytes, FromBytes, Encrypt, Decrypt, Aligned, KdfCk, Linked, InMemory, Harmless;
    FailureKeeps(w, ev);
    match ev
    case Send(p, plain) => SendsOnChain(StateOf(w, p), plain);
    case Deliver(p, message, newKey) => FailureHarmless(StateOf(w, p), message, newKey);
  }

  /** Sessions kept in memory go the same way as sessions kept as blobs for exactly as long as every delivery that fails
      is harmless. */
  lemma {:induction false} MemoryMatches(r: RawWorld, w: World, evs: seq<Event>)
    requires Inv(w) && Mirrors(r, w) && AllowedRun(w, evs)
    ensures MirrorsThroughout(r, w, evs) <==> HarmlessRun(w, evs)
    decreases |evs|
  {
    hide Inv, Next, RawNext, Mirrors, Succeeds, Allowed, Linked, Harmless;
    if evs != [] {
      var r1, w1 := RawNext(r, evs[0]), Next(w, evs[0]);
      StepKeepsInv(w, evs[0]);
      if Succeeds(w, evs[0]) {
        StepMirrors(r, w, evs[0]);
        MemoryMatches(r1, w1, evs[1..]);
      } else {
        FailureMirrors(r, w, evs[0]);
        if Mirrors(r1, w1) {
          MemoryMatches(r1, w1, evs[1..]);
        } else {
          ThroughoutStarts(r1, w1, evs[1..]);
        }
      }
    }
  }

  lemma ThroughoutStarts(r: RawWorld, w: World, evs: seq<Event>)
    requires Inv(w) && AllowedRun(w, evs) && !Mirrors(r, w)
    ensures !MirrorsThroughout(r, w, evs)
  {
  }

  lemma {:induction false} ThroughoutEnds(r: RawWorld, w: World, evs: seq<Event>)
    requires Inv(w) && AllowedRun(w, evs) && MirrorsThroughout(r, w, evs)
    ensures Inv(Run(w, evs)) && Mirrors(RawRun(r, evs), Run(w, evs))
    decreases |evs|
  {
    hide Inv, Next, RawNext, Mirrors, Succeeds, Allowed, Linked;
    if evs != [] {
      StepKeepsInv(w, evs[0]);
      ThroughoutEnds(RawNext(r, evs[0]), Next(w, evs[0]), evs[1..]);
    }
  }

  /** In memory too, then: send a message, let anything happen that fails harmlessly where it fails, and the octets that went
      on the wire open at the peer, as long as it has not read them, exactly when they fit. */
  lemma MemoryDelivers(r: RawWorld, w: World, p: Party, plain: Bytes, evs: seq<Event>, newKey: Bytes)
    requires Inv(w) && Mirrors(r, w) && Allowed(w, Send(p, plain)) && w.EpochOf(p) >= 1
    requires Inv(Next(w, Send(p, plain))) && AllowedRun(Next(w, Send(p, plain)), evs)
    requires HarmlessRun(Next(w, Send(p, plain)), evs)
    ensures var sent := Encrypt(r.End(p), plain).result;
            var later := Run(Next(w, Send(p, plain)), evs);
            var end := RawRun(RawNext(r, Send(p, plain)), evs).End(p.Peer());
            && sent.Ok?
            && (At(w.EpochOf(p), |w.es[w.EpochOf(p)].sent|) !in later.read && NewKey(later.es, newKey) ==>
                  && ParseMessage(sent.value).Ok?
                  && var got := Decrypt(end, sent.value, newKey).result;
                  && (got.Ok? <==> Fits(end, ParseMessage(sent.value).value.0))
                  && (got.Ok? ==> got.value == plain))
  {
    hide Next, RawNext, Run, RawRun, Encrypt, Decrypt, ParseMessage, Fits, NewKey, Allowed, AllowedRun, HarmlessRun;
    hide MirrorsThroughout, FromBytes, ToBytes, LinkedAt, KeysDiffer, Counted, Aligned, InMemory;
    var w1, r1 := Next(w, Send(p, plain)), RawNext(r, Send(p, plain));
    SentOpensLater(w, p, plain, evs, newKey);
    FacadeSend(w, p, plain);
    StepMirrors(r, w, Send(p, plain));
    MemoryMatches(r1, w1, evs);
    ThroughoutEnds(r1, w1, evs);
    var later := Run(w1, evs);
    BlobState(later, p.Peer());
  }

  /** What the facade sends is what the session in its blob sends. */
  lemma FacadeSend(w: World, p: Party, plain: Bytes)
    requires Inv(w) && EncryptMessage(w.Blob(p), plain).Ok?
    ensures Succeeds(w, Send(p, plain))
    ensures Encrypt(StateOf(w, p), plain).result == Ok(EncryptMessage(w.Blob(p), plain).value.1)
  {
    hide FromBytes, ToBytes, Encrypt, Linked, InMemory, Aligned;
  }

  lemma BlobState(w: World, p: Party)
    requires Inv(w)
    ensures FromBytes(w.Blob(p)) == Ok(StateOf(w, p))
  {
    hide FromBytes, Linked, InMemory, Aligned;
  }

  // ---------- A full store ----------

  /** The receiving chain is `lead` steps ahead of its counter. */
  ghost predicate Leads(s: State, c: Bytes, lead: nat) {
    s.ckr == Some(ChainAt(c, s.nr + lead))
  }

  function Full<T>(r: Result<T>): nat {
    if r == Err(Ratchet(StoreFull)) then 1 else 0
  }

  /** Skipping keeps the lead, and one that ends with a full store adds a step to it. */
  lemma {:induction false} BankUntilLeads(s: State, dh: Bytes, upTo: u32, c: Bytes, lead: nat)
    requires Leads(s, c, lead)
    ensures var r := BankUntil(s, dh, upTo);
            && Leads(r.state, c, lead + Full(r.result))
            && (r.result.Ok? ==> r.state.nr == Later(s.nr, upTo))
            && (r.result.Err? ==> r.result == Err(Ratchet(StoreFull)))
    decreases upTo - s.nr
  {
    hide KdfCk, BankUntil;
    if s.nr >= upTo {
      BankUntilDone(s, dh, upTo);
    } else {
      var (next, mk) := KdfCk(s.ckr.value);
      var moved := s.(ckr := Some(next));
      var stored := moved.(skipped := s.skipped[Slot(dh, s.nr) := mk], nr := s.nr + 1);
      assert next == ChainAt(c, s.nr + lead + 1);
      BankUntilUnfold(s, dh, upTo, moved, stored);
      if |s.skipped| < MAX_STORED_SKIPPED {
        BankUntilLeads(stored, dh, upTo, c, lead);
      }
    }
  }

  lemma SkipLeads(s: State, upTo: u32, c: Bytes, lead: nat)
    requires s.dhr.Some? && Leads(s, c, lead)
    ensures var r := SkipMessageKeys(s, upTo);
            && Leads(r.state, c, lead + Full(r.result))
            && (r.result.Ok? ==> r.state.nr == Later(s.nr, upTo))
  {
    hide BankUntil, ChainAt;
    BankUntilLeads(s, s.dhr.value, upTo, c, lead);
  }

  lemma ForwardLeads(s: State, h: Header, cipher: Bytes, c: Bytes, lead: nat)
    requires s.dhr.Some? && Leads(s, c, lead) && s.nr < U32_MAX && h.n < U32_MAX
    ensures var r := ForwardAndOpen(s, h, cipher); Leads(r.state, c, lead + Full(r.result))
  {
    hide KdfCk, OpenWith, SkipMessageKeys;
    SkipLeads(s, h.n, c, lead);
    var t := SkipMessageKeys(s, h.n).state;
    OpenNeverFull(SkipMessageKeys(s, h.n).state, h, cipher);
    assert t.ckr.Some? ==> forall k: nat :: t.ckr == Some(ChainAt(c, k)) ==> KdfCk(t.ckr.value).0 == ChainAt(c, k + 1);
  }

  lemma OpenNeverFull(s: State, h: Header, cipher: Bytes)
    ensures Full(OpenNext(s, h, cipher).result) == 0
  {
    hide KdfCk, ToAad, MessageKeys, Seal;
  }

  /** Chain and counter come apart only by a full store, a step each time, and nothing but a turn of the ratchet brings
      them together again: a new chain starts in agreement, whatever came before. */
  lemma DecryptLeads(s: State, h: Header, cipher: Bytes, newKey: Bytes, c: Bytes, lead: nat)
    requires s.dhr.Some? && Leads(s, c, lead) && s.nr < U32_MAX && h.n < U32_MAX
    ensures var r := DecryptParsed(s, h, cipher, newKey);
            if Slot(h.dh, h.n) in s.skipped then Leads(r.state, c, lead)
            else if s.dhr != Some(h.dh) && Turn(s, h, newKey).result.Ok?
            then Leads(r.state, KdfRk(s.rk, DiffieHellman(s.dhs, h.dh)).1, Full(r.result))
            else Leads(r.state, c, lead + Full(r.result))
  {
    hide SkipMessageKeys, OpenNext, OpenWith, ChainAt, KdfRk, DiffieHellman, PublicKey;
    var r := DecryptParsed(s, h, cipher, newKey);
    if Slot(h.dh, h.n) in s.skipped {
    } else if s.dhr == Some(h.dh) {
      ForwardLeads(s, h, cipher, c, lead);
      assert r == ForwardAndOpen(s, h, cipher);
    } else {
      SkipLeads(s, h.pn, c, lead);
      SkipFrame(s, h.pn);
      var t := Turn(s, h, newKey);
      if t.result.Ok? {
        var start := KdfRk(s.rk, DiffieHellman(s.dhs, h.dh)).1;
        ChainStarts(start);
        ForwardLeads(t.state, h, cipher, start, 0);
        assert r == ForwardAndOpen(t.state, h, cipher);
      }
    }
  }

  lemma ChainStarts(c: Bytes)
    ensures ChainAt(c, 0) == c
  {
  }

  /** The state a full store leaves: the bank filled up with the keys skipped, its counter at the first message that did not
      fit, and the chain one step past it. */
  lemma {:induction false} FullStore(s: State, dh: Bytes, upTo: u32, c: Bytes)
    requires s.ckr == Some(ChainAt(c, s.nr)) && |s.skipped| <= MAX_STORED_SKIPPED
    requires forall slot :: slot in s.skipped && slot.dh == dh ==> slot.n < s.nr
    requires BankUntil(s, dh, upTo).result.Err?
    ensures var t := BankUntil(s, dh, upTo).state;
            && BankUntil(s, dh, upTo).result == Err(Ratchet(StoreFull))
            && t.nr == s.nr + (MAX_STORED_SKIPPED - |s.skipped|) < upTo
            && t == s.(ckr := Some(ChainAt(c, t.nr + 1)), nr := t.nr, skipped := t.skipped)
            && |t.skipped| == MAX_STORED_SKIPPED
            && Banked(s.skipped, t.skipped, dh, c, s.nr, t.nr)
    decreases upTo - s.nr
  {
    hide ChainAt, MessageKeyAt, BankUntil, Banked;
    if s.nr >= upTo {
      BankUntilDone(s, dh, upTo);
      assert false;
    } else {
      BankUntilStep(s, dh, upTo, c);
      if |s.skipped| < MAX_STORED_SKIPPED {
        var bank := s.skipped[Slot(dh, s.nr) := MessageKeyAt(c, s.nr)];
        var t := s.(ckr := Some(ChainAt(c, s.nr + 1)), skipped := bank, nr := s.nr + 1);
        assert Slot(dh, s.nr) !in s.skipped && |bank| == |s.skipped| + 1;
        FullStore(t, dh, upTo, c);
        var u := BankUntil(s, dh, upTo).state;
        BankedStep(s.skipped, u.skipped, dh, c, s.nr, u.nr);
      } else {
        BankedNothing(s.skipped, dh, c, s.nr);
      }
    }
  }

  /** With a full store a new key turns the ratchet exactly if the old chain has nothing left to bank, and the new chain then
      agrees with its counter. */
  lemma FullTurns(s: State, h: Header, newKey: Bytes)
    requires |s.skipped| >= MAX_STORED_SKIPPED && s.dhr.Some? && s.ckr.Some? && s.dhr != Some(h.dh)
    ensures var t := Turn(s, h, newKey);
            && (t.result.Ok? <==> h.pn <= s.nr)
            && (t.result.Ok? ==> Leads(t.state, KdfRk(s.rk, DiffieHellman(s.dhs, h.dh)).1, 0) && t.state.nr == 0)
  {
    hide KdfCk, KdfRk, DiffieHellman, PublicKey;
    SkipFrame(s, h.pn);
  }
}
