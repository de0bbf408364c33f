/**
 One end of a Double Ratchet session: sections 3.3 to 3.5 of Signal's "The Double Ratchet Algorithm".

 `State` and the functions on it say what every operation does to a session, on every path; `RatchetSession`
 carries the operations out in place.
 */
module Ratchet {
  import opened Octets
  import opened Crypto
  import opened Frames

  const MAX_SKIP: nat := 1000
  const MAX_STORED_SKIPPED: nat := 2000

  // ---------- Headers and messages ----------

  /** Four octets, most significant first. */
  function U32Bytes(n: u32): (b: Bytes)
    ensures |b| == 4
  {
    var upper := n / 0x100;
    var top := upper / 0x100;
    [Byte(top / 0x100), Byte(top % 0x100), Byte(upper % 0x100), Byte(n % 0x100)]
  }

  function ReadU32(b: Bytes): Result<u32> {
    if |b| != 4 then Err(Malformed("ratchet counter"))
    else if !(b[0].Byte? && b[1].Byte? && b[2].Byte? && b[3].Byte?) then Err(Wire(OpaqueOctet))
    else Ok(((b[0].value * 0x100 + b[1].value) * 0x100 + b[2].value) * 0x100 + b[3].value)
  }

  lemma U32RoundTrip(n: u32)
    ensures ReadU32(U32Bytes(n)) == Ok(n)
  {
  }

  /** Four octets are read as `n` exactly if they are the octets of `n`. */
  lemma U32Exact(b: Bytes, n: u32)
    ensures ReadU32(b) == Ok(n) <==> b == U32Bytes(n)
  {
    U32RoundTrip(n);
    if ReadU32(b) == Ok(n) {
      assert b == [b[0], b[1], b[2], b[3]];
    }
  }

  /** Most significant octet first. */
  lemma U32BigEndian(n: u32)
    ensures var b := U32Bytes(n);
            && b[0].Byte? && b[1].Byte? && b[2].Byte? && b[3].Byte?
            && b[0].value * 0x100_0000 + b[1].value * 0x1_0000 + b[2].value * 0x100 + b[3].value == n
  {
  }

  datatype Header = Header(dh: Bytes, pn: u32, n: u32)

  function HeaderFields(h: Header): seq<Field> {
    [Field(TAG_RATCHET_DH, h.dh), Field(TAG_RATCHET_PN, U32Bytes(h.pn)), Field(TAG_RATCHET_N, U32Bytes(h.n))]
  }

  /** The header as additional authenticated data. */
  function ToAad(h: Header): Bytes {
    EncodeFrame(Frame(0, HeaderFields(h)))
  }

  lemma AadInjective(h: Header, g: Header)
    requires |h.dh| == KEY_LEN && |g.dh| == KEY_LEN && ToAad(h) == ToAad(g)
    ensures h == g
  {
    EncodeInjective(Frame(0, HeaderFields(h)), Frame(0, HeaderFields(g)));
    var x, y := HeaderFields(h), HeaderFields(g);
    assert x[0] == y[0] && x[1] == y[1] && x[2] == y[2];
    U32RoundTrip(h.pn);
    U32RoundTrip(g.pn);
    U32RoundTrip(h.n);
    U32RoundTrip(g.n);
  }

  /** The additional data, field by field. */
  lemma AadLayout(h: Header)
    requires |h.dh| == KEY_LEN
    ensures DecodeFrame(ToAad(h)) == Ok(Frame(0, [Field(0x10, h.dh), Field(0x11, U32Bytes(h.pn)), Field(0x12, U32Bytes(h.n))]))
  {
    hide DecodeFrame, EncodeFrame, U32Bytes;
    FrameRoundTrip(Frame(0, HeaderFields(h)));
  }

  function WireMessage(h: Header, cipher: Bytes): Bytes {
    EncodeFrame(Frame(0, HeaderFields(h) + [Field(TAG_CIPHERTEXT, cipher)]))
  }

  function X25519FromSlice(b: Bytes): (r: Result<Bytes>)
    ensures r.Ok? <==> |b| == KEY_LEN
    ensures r.Ok? ==> r.value == b
  {
    if |b| == KEY_LEN then Ok(b) else Err(Malformed("x25519 public key"))
  }

  /** The header and ciphertext a wire message carries. */
  function ParseMessage(message: Bytes): (r: Result<(Header, Bytes)>)
    ensures r.Ok? ==> |r.value.0.dh| == KEY_LEN
  {
    var frame :- DecodeFrame(message);
    var dhBytes :- Require(frame.fields, TAG_RATCHET_DH);
    var dh :- X25519FromSlice(dhBytes);
    var pnBytes :- Require(frame.fields, TAG_RATCHET_PN);
    var pn :- ReadU32(pnBytes);
    var nBytes :- Require(frame.fields, TAG_RATCHET_N);
    var n :- ReadU32(nBytes);
    var cipher :- Require(frame.fields, TAG_CIPHERTEXT);
    Ok((Header(dh, pn, n), cipher))
  }

  lemma MessageRoundTrip(h: Header, cipher: Bytes)
    requires |h.dh| == KEY_LEN && |cipher| < 0x1_0000_0000_0000_0000
    ensures ParseMessage(WireMessage(h, cipher)) == Ok((h, cipher))
  {
    hide DecodeFrame, EncodeFrame, Get, U32Bytes, ReadU32;
    var fs := HeaderFields(h) + [Field(TAG_CIPHERTEXT, cipher)];
    FrameRoundTrip(Frame(0, fs));
    GetAt(fs, 0);
    GetAt(fs, 1);
    GetAt(fs, 2);
    GetAt(fs, 3);
    U32RoundTrip(h.pn);
    U32RoundTrip(h.n);
  }

  /** The strings that carry header `h` and ciphertext `cipher`: frames whose first fields with the four tags are these. */
  ghost predicate IsMessage(message: Bytes, h: Header, cipher: Bytes) {
    exists f :: IsFrame(message, f) && MessageIn(f.fields, h, cipher)
  }

  ghost predicate MessageIn(fs: seq<Field>, h: Header, cipher: Bytes) {
    && |h.dh| == KEY_LEN && Carries(fs, TAG_RATCHET_DH, h.dh)
    && Carries(fs, TAG_RATCHET_PN, U32Bytes(h.pn)) && Carries(fs, TAG_RATCHET_N, U32Bytes(h.n))
    && Carries(fs, TAG_CIPHERTEXT, cipher)
  }

  /** A message parses to a header and a ciphertext exactly if it carries them. */
  lemma ParseExact(message: Bytes, h: Header, cipher: Bytes)
    ensures ParseMessage(message) == Ok((h, cipher)) <==> IsMessage(message, h, cipher)
  {
    hide DecodeFrame, IsFrame, Get, ReadU32, U32Bytes, Carries;
    if DecodeFrame(message).Ok? {
      var f := DecodeFrame(message).value;
      FrameDecodeExact(message, f);
      ParseFieldsExactly(f.fields, h, cipher);
    }
    forall f | IsFrame(message, f)
      ensures DecodeFrame(message) == Ok(f)
    {
      FrameDecodeExact(message, f);
    }
  }

  lemma ParseFieldsExactly(fs: seq<Field>, h: Header, cipher: Bytes)
    ensures MessageIn(fs, h, cipher) <==>
            && Get(fs, TAG_RATCHET_DH) == Some(h.dh) && |h.dh| == KEY_LEN
            && Get(fs, TAG_RATCHET_PN).Some? && ReadU32(Get(fs, TAG_RATCHET_PN).value) == Ok(h.pn)
            && Get(fs, TAG_RATCHET_N).Some? && ReadU32(Get(fs, TAG_RATCHET_N).value) == Ok(h.n)
            && Get(fs, TAG_CIPHERTEXT) == Some(cipher)
  {
    hide Get, ReadU32, U32Bytes, Carries;
    GetExact(fs, TAG_RATCHET_DH);
    GetExact(fs, TAG_RATCHET_PN);
    GetExact(fs, TAG_RATCHET_N);
    GetExact(fs, TAG_CIPHERTEXT);
    if Get(fs, TAG_RATCHET_PN).Some? {
      U32Exact(Get(fs, TAG_RATCHET_PN).value, h.pn);
    }
    if Get(fs, TAG_RATCHET_N).Some? {
      U32Exact(Get(fs, TAG_RATCHET_N).value, h.n);
    }
  }

  // ---------- Session state ----------

  /** A skipped message: the ratchet key of its chain, and its number. */
  datatype Slot = Slot(dh: Bytes, n: u32)

  datatype State = State(
    dhs: Bytes,
    dhsPub: Bytes,
    dhr: Option<Bytes>,
    rk: Bytes,
    cks: Option<Bytes>,
    ckr: Option<Bytes>,
    ns: u32,
    nr: u32,
    pn: u32,
    skipped: map<Slot, Bytes>)

  /** A state after an operation, and what the operation returned. */
  datatype Step<+T> = Step(state: State, result: Result<T>)

  /** `x + 1` on `u32`, wrapping. */
  function Successor(x: u32): u32 {
    (x + 1) % 0x1_0000_0000
  }

  /** The initiator, with the ratchet key `dhs` it generates. */
  function Initiator(root: Bytes, remote: Bytes, dhs: Bytes): State {
    var (rk, cks) := KdfRk(root, DiffieHellman(dhs, remote));
    State(dhs, PublicKey(dhs), Some(remote), rk, Some(cks), None, 0, 0, 0, map[])
  }

  function Responder(root: Bytes, ratchetKey: Bytes): State {
    State(ratchetKey, PublicKey(ratchetKey), None, root, None, None, 0, 0, 0, map[])
  }

  function OpenWith(mk: Bytes, h: Header, cipher: Bytes): Result<Bytes> {
    var (key, nonce) := MessageKeys(mk);
    Open(key, nonce, ToAad(h), cipher)
  }

  function SealWith(mk: Bytes, h: Header, plain: Bytes): Bytes {
    var (key, nonce) := MessageKeys(mk);
    Seal(key, nonce, ToAad(h), plain)
  }

  function Encrypt(s: State, plain: Bytes): Step<Bytes> {
    match s.cks
    case None => Step(s, Err(Ratchet(NoSendingChain)))
    case Some(ck) =>
      var (next, mk) := KdfCk(ck);
      var h := Header(s.dhsPub, s.pn, s.ns);
      Step(s.(cks := Some(next), ns := Successor(s.ns)), Ok(WireMessage(h, SealWith(mk, h, plain))))
  }

  /** Banks message keys of the receiving chain up to, not including, number `upTo`. On a full store the chain
      has moved on but `nr` has not. */
  function BankUntil(s: State, dhr: Bytes, upTo: u32): Step<()>
    requires s.ckr.Some?
    decreases upTo - s.nr
  {
    if s.nr >= upTo then Step(s, Ok(()))
    else
      var (next, mk) := KdfCk(s.ckr.value);
      var moved := s.(ckr := Some(next));
      if |s.skipped| >= MAX_STORED_SKIPPED then Step(moved, Err(Ratchet(StoreFull)))
      else BankUntil(moved.(skipped := s.skipped[Slot(dhr, s.nr) := mk], nr := s.nr + 1), dhr, upTo)
  }

  lemma BankUntilUnfold(s: State, dh: Bytes, upTo: u32, moved: State, stored: State)
    requires s.nr < upTo && s.ckr.Some? && moved == s.(ckr := Some(KdfCk(s.ckr.value).0))
    requires stored == moved.(skipped := s.skipped[Slot(dh, s.nr) := KdfCk(s.ckr.value).1], nr := s.nr + 1)
    ensures BankUntil(s, dh, upTo) ==
            if |s.skipped| >= MAX_STORED_SKIPPED then Step(moved, Err(Ratchet(StoreFull)))
            else BankUntil(stored, dh, upTo)
  {
    hide KdfCk;
  }

  lemma BankUntilDone(s: State, dh: Bytes, upTo: u32)
    requires s.nr >= upTo && s.ckr.Some?
    ensures BankUntil(s, dh, upTo) == Step(s, Ok(()))
  {
  }

  function SkipMessageKeys(s: State, upTo: u32): Step<()> {
    if s.dhr.None? || s.ckr.None? then Step(s, Ok(()))
    else if upTo > s.nr + MAX_SKIP then Step(s, Err(Ratchet(TooManySkipped)))
    else BankUntil(s, s.dhr.value, upTo)
  }

  /** Adopts the peer's ratchet key; `newKey` is the key generated on the way. */
  function DhRatchet(s: State, dh: Bytes, newKey: Bytes): State {
    var (rk1, ckr) := KdfRk(s.rk, DiffieHellman(s.dhs, dh));
    var (rk2, cks) := KdfRk(rk1, DiffieHellman(newKey, dh));
    State(newKey, PublicKey(newKey), Some(dh), rk2, Some(cks), Some(ckr), 0, 0, s.ns, s.skipped)
  }

  /** Turns the ratchet if the header carries a new key. */
  function Turn(s: State, h: Header, newKey: Bytes): Step<()> {
    if s.dhr == Some(h.dh) then Step(s, Ok(()))
    else
      var banked := SkipMessageKeys(s, h.pn);
      if banked.result.Err? then banked else Step(DhRatchet(banked.state, h.dh, newKey), Ok(()))
  }

  /** Opens with the next key of the receiving chain. */
  function OpenNext(s: State, h: Header, cipher: Bytes): Step<Bytes> {
    match s.ckr
    case None => Step(s, Err(Ratchet(NoReceivingChain)))
    case Some(ck) =>
      var (next, mk) := KdfCk(ck);
      Step(s.(ckr := Some(next), nr := Successor(s.nr)), OpenWith(mk, h, cipher))
  }

  function DecryptParsed(s: State, h: Header, cipher: Bytes, newKey: Bytes): Step<Bytes> {
    var slot := Slot(h.dh, h.n);
    if slot in s.skipped then
      Step(s.(skipped := s.skipped - {slot}), OpenWith(s.skipped[slot], h, cipher))
    else
      var turned := Turn(s, h, newKey);
      if turned.result.Err? then Step(turned.state, Err(turned.result.error))
      else
        var forward := SkipMessageKeys(turned.state, h.n);
        if forward.result.Err? then Step(forward.state, Err(forward.result.error))
        else OpenNext(forward.state, h, cipher)
  }

  function Decrypt(s: State, message: Bytes, newKey: Bytes): Step<Bytes> {
    match ParseMessage(message)
    case Err(e) => Step(s, Err(e))
    case Ok((h, cipher)) => DecryptParsed(s, h, cipher, newKey)
  }

  // ---------- The session in place ----------

  class RatchetSession {
    var dhs: Bytes
    var dhsPub: Bytes
    var dhr: Option<Bytes>
    var rk: Bytes
    var cks: Option<Bytes>
    var ckr: Option<Bytes>
    var ns: u32
    var nr: u32
    var pn: u32
    var skipped: map<Slot, Bytes>

    function Current(): State
      reads this
    {
      State(dhs, dhsPub, dhr, rk, cks, ckr, ns, nr, pn, skipped)
    }

    constructor AsInitiator(root: Bytes, remote: Bytes, generated: Bytes)
      ensures Current() == Initiator(root, remote, generated)
    {
      var (rk1, cks1) := KdfRk(root, DiffieHellman(generated, remote));
      dhs, dhsPub, dhr := generated, PublicKey(generated), Some(remote);
      rk, cks, ckr := rk1, Some(cks1), None;
      ns, nr, pn, skipped := 0, 0, 0, map[];
    }

    constructor AsResponder(root: Bytes, ratchetKey: Bytes)
      ensures Current() == Responder(root, ratchetKey)
    {
      dhs, dhsPub, dhr := ratchetKey, PublicKey(ratchetKey), None;
      rk, cks, ckr := root, None, None;
      ns, nr, pn, skipped := 0, 0, 0, map[];
    }

    constructor Restored(s: State)
      ensures Current() == s
    {
      dhs, dhsPub, dhr := s.dhs, s.dhsPub, s.dhr;
      rk, cks, ckr := s.rk, s.cks, s.ckr;
      ns, nr, pn, skipped := s.ns, s.nr, s.pn, s.skipped;
    }

    method EncryptMessage(plain: Bytes) returns (r: Result<Bytes>)
      modifies this
      ensures Step(Current(), r) == Encrypt(old(Current()), plain)
    {
      if cks.None? {
        return Err(Ratchet(NoSendingChain));
      }
      var (next, mk) := KdfCk(cks.value);
      cks := Some(next);
      var header := Header(dhsPub, pn, ns);
      ns := Successor(ns);
      var (key, nonce) := MessageKeys(mk);
      var cipher := Seal(key, nonce, ToAad(header), plain);
      return Ok(WireMessage(header, cipher));
    }

    /** Advances the receiving chain to `upTo`, banking a key at each step; `steps` counts the chain steps. */
    method SkipKeys(upTo: u32) returns (r: Result<()>, ghost steps: nat)
      modifies this
      ensures Step(Current(), r) == SkipMessageKeys(old(Current()), upTo)
      ensures steps <= MAX_SKIP
    {
      hide KdfCk, BankUntil;
      steps := 0;
      if dhr.None? || ckr.None? {
        r := Ok(());
        return;
      }
      if upTo > nr + MAX_SKIP {
        r := Err(Ratchet(TooManySkipped));
        return;
      }
      while nr < upTo
        invariant dhr == old(dhr) && dhr.Some? && ckr.Some?
        invariant nr == old(nr) + steps && (steps > 0 ==> nr <= upTo)
        invariant BankUntil(Current(), dhr.value, upTo) == BankUntil(old(Current()), dhr.value, upTo)
        decreases upTo - nr
      {
        ghost var s := Current();
        var (next, mk) := KdfCk(ckr.value);
        BankUntilUnfold(s, dhr.value, upTo, s.(ckr := Some(next)),
                        s.(ckr := Some(next), skipped := s.skipped[Slot(dhr.value, nr) := mk], nr := nr + 1));
        ckr := Some(next);
        steps := steps + 1;
        if |skipped| >= MAX_STORED_SKIPPED {
          r := Err(Ratchet(StoreFull));
          return;
        }
        skipped := skipped[Slot(dhr.value, nr) := mk];
        nr := nr + 1;
      }
      BankUntilDone(Current(), dhr.value, upTo);
      r := Ok(());
    }

    method TurnRatchet(dh: Bytes, newKey: Bytes)
      modifies this
      ensures Current() == DhRatchet(old(Current()), dh, newKey)
    {
      hide KdfRk, DiffieHellman, PublicKey;
      pn := ns;
      ns := 0;
      nr := 0;
      dhr := Some(dh);
      var (rk1, ckr1) := KdfRk(rk, DiffieHellman(dhs, dh));
      rk := rk1;
      ckr := Some(ckr1);
      dhs := newKey;
      dhsPub := PublicKey(dhs);
      var (rk2, cks2) := KdfRk(rk, DiffieHellman(dhs, dh));
      rk := rk2;
      cks := Some(cks2);
    }

    /** Decrypts any octets; whatever the header's counters, at most `2 * MAX_SKIP + 1` chain steps are taken. */
    method DecryptMessage(message: Bytes, newKey: Bytes) returns (r: Result<Bytes>, ghost steps: nat)
      modifies this
      ensures Step(Current(), r) == Decrypt(old(Current()), message, newKey)
      ensures steps <= 2 * MAX_SKIP + 1
    {
      hide ParseMessage, OpenWith, DhRatchet, SkipMessageKeys, KdfCk;
      steps := 0;
      var parsed := ParseMessage(message);
      if parsed.Err? {
        r := Err(parsed.error);
        return;
      }
      var (header, cipher) := parsed.value;
      var slot := Slot(header.dh, header.n);
      if slot in skipped {
        var mk := skipped[slot];
        skipped := skipped - {slot};
        r := OpenWith(mk, header, cipher);
        return;
      }
      if dhr != Some(header.dh) {
        var banked, first := SkipKeys(header.pn);
        steps := first;
        if banked.Err? {
          r := Err(banked.error);
          return;
        }
        TurnRatchet(header.dh, newKey);
      }
      var forward, second := SkipKeys(header.n);
      steps := steps + second;
      if forward.Err? {
        r := Err(forward.error);
        return;
      }
      if ckr.None? {
        r := Err(Ratchet(NoReceivingChain));
        return;
      }
      var (next, mk) := KdfCk(ckr.value);
      steps := steps + 1;
      ckr := Some(next);
      nr := Successor(nr);
      r := OpenWith(mk, header, cipher);
    }
  }
}
