/**
 The persisted session: a versioned blob, and that nothing is lost in it.
 */
module SessionBlob {
  import opened Octets
  import opened Crypto
  import opened Varint
  import opened Frames
  import opened Ratchet

  const STATE_VERSION: u8 := 1

  // ---------- Slots in byte order ----------

  predicate SlotLess(a: Slot, b: Slot) {
    Less(a.dh, b.dh) || (a.dh == b.dh && a.n < b.n)
  }

  lemma SlotLessTotal(a: Slot, b: Slot)
    ensures a != b ==> SlotLess(a, b) != SlotLess(b, a)
    ensures a == b ==> !SlotLess(a, b)
  {
    LessConnected(a.dh, b.dh);
  }

  lemma SlotLessTransitive(a: Slot, b: Slot, c: Slot)
    requires SlotLess(a, b) && SlotLess(b, c)
    ensures SlotLess(a, c)
  {
    if Less(a.dh, b.dh) && Less(b.dh, c.dh) {
      LessTransitive(a.dh, b.dh, c.dh);
    }
  }

  ghost predicate Ascending(q: seq<Slot>) {
    forall i, j :: 0 <= i < j < |q| ==> SlotLess(q[i], q[j])
  }

  ghost function Elements(q: seq<Slot>): set<Slot> {
    set k | k in q
  }

  /** Puts `k` in its place in an ascending list. */
  function Insert(q: seq<Slot>, k: Slot): seq<Slot> {
    if q == [] then [k]
    else if SlotLess(k, q[0]) then [k] + q
    else [q[0]] + Insert(q[1..], k)
  }

  lemma {:induction false} InsertElements(q: seq<Slot>, k: Slot)
    ensures Elements(Insert(q, k)) == Elements(q) + {k}
  {
    hide SlotLess;
    if q != [] {
      InsertElements(q[1..], k);
      assert Elements(q) == {q[0]} + Elements(q[1..]) by {
        assert q == [q[0]] + q[1..];
      }
      var r := Insert(q[1..], k);
      assert Elements([q[0]] + r) == {q[0]} + Elements(r);
      assert Elements([k] + q) == {k} + Elements(q);
    }
  }

  lemma {:induction false} InsertAscending(q: seq<Slot>, k: Slot)
    requires Ascending(q) && k !in q
    ensures Ascending(Insert(q, k))
  {
    if q != [] {
      if SlotLess(k, q[0]) {
        forall i | 0 < i < |q|
          ensures SlotLess(k, q[i])
        {
          SlotLessTransitive(k, q[0], q[i]);
        }
      } else {
        assert forall i :: 0 <= i < |q| - 1 ==> q[1..][i] == q[i + 1];
        InsertAscending(q[1..], k);
        InsertElements(q[1..], k);
        SlotLessTotal(k, q[0]);
        var r := Insert(q[1..], k);
        forall i | 0 <= i < |r|
          ensures SlotLess(q[0], r[i])
        {
          assert r[i] in Elements(r);
          if r[i] != k {
            assert r[i] in q[1..];
          }
        }
      }
    }
  }

  lemma {:induction false} AscendingExists(ks: set<Slot>)
    ensures exists q :: Ascending(q) && Elements(q) == ks
  {
    if ks == {} {
      assert Ascending([]) && Elements([]) == ks;
    } else {
      var k :| k in ks;
      AscendingExists(ks - {k});
      var q :| Ascending(q) && Elements(q) == ks - {k};
      assert k in q ==> k in Elements(q);
      InsertElements(q, k);
      InsertAscending(q, k);
      assert Ascending(Insert(q, k)) && Elements(Insert(q, k)) == ks;
    }
  }

  /** An ascending list is determined by its elements. */
  lemma {:induction false} AscendingUnique(p: seq<Slot>, q: seq<Slot>)
    requires Ascending(p) && Ascending(q) && Elements(p) == Elements(q)
    ensures p == q
  {
    assert p != [] ==> p[0] in Elements(p);
    assert q != [] ==> q[0] in Elements(q);
    if p != [] && q != [] {
      assert p[0] in Elements(q) && q[0] in Elements(p);
      var i :| 0 <= i < |q| && q[i] == p[0];
      var j :| 0 <= j < |p| && p[j] == q[0];
      SlotLessTotal(p[0], q[0]);
      assert p[0] == q[0];
      TailElements(p);
      TailElements(q);
      AscendingUnique(p[1..], q[1..]);
      assert p == [p[0]] + p[1..] && q == [q[0]] + q[1..];
    }
  }

  lemma TailElements(p: seq<Slot>)
    requires Ascending(p) && p != []
    ensures Ascending(p[1..]) && Elements(p[1..]) == Elements(p) - {p[0]}
  {
    assert forall i :: 0 <= i < |p| - 1 ==> p[1..][i] == p[i + 1];
    SlotLessTotal(p[0], p[0]);
    assert forall i :: 1 <= i < |p| ==> SlotLess(p[0], p[i]);
    assert p == [p[0]] + p[1..];
  }

  /** The slots of a bank in ascending order. */
  ghost function SortedSlots(ks: set<Slot>): (q: seq<Slot>)
    ensures Ascending(q) && Elements(q) == ks
  {
    AscendingExists(ks);
    var q :| Ascending(q) && Elements(q) == ks;
    q
  }

  // ---------- Writing ----------

  function Optional(k: Option<Bytes>): Bytes {
    if k.Some? then k.value else []
  }

  function Flags(s: State): u8 {
    (if s.dhr.Some? then 1 else 0) + (if s.cks.Some? then 2 else 0) + (if s.ckr.Some? then 4 else 0)
  }

  function EncodeEntry(k: Slot, mk: Bytes): Bytes {
    k.dh + (U32Bytes(k.n) + mk)
  }

  function EncodeEntries(q: seq<Slot>, bank: map<Slot, Bytes>): Bytes
    requires forall k <- q :: k in bank
  {
    if q == [] then [] else EncodeEntry(q[0], bank[q[0]]) + EncodeEntries(q[1..], bank)
  }

  /** The counters and the bank, its entries listed as in `q`. */
  function EncodeTail(s: State, q: seq<Slot>): Bytes
    requires forall k <- q :: k in s.skipped
  {
    U32Bytes(s.ns) + (U32Bytes(s.nr) + (U32Bytes(s.pn) + (EncodeVarint(|s.skipped|) + EncodeEntries(q, s.skipped))))
  }

  function EncodeState(s: State, q: seq<Slot>): Bytes
    requires forall k <- q :: k in s.skipped
  {
    [Byte(STATE_VERSION)] + (s.dhs + ([Byte(Flags(s))] + EncodeKeys(s, EncodeTail(s, q))))
  }

  function EncodeKeys(s: State, rest: Bytes): Bytes {
    Optional(s.dhr) + (s.rk + (Optional(s.cks) + (Optional(s.ckr) + rest)))
  }

  ghost function ToBytes(s: State): Bytes {
    var q := SortedSlots(s.skipped.Keys);
    assert forall k :: k in q ==> k in Elements(q);
    EncodeState(s, q)
  }

  // ---------- Reading ----------

  /** The first `n` octets, and the rest. */
  function Take(b: Bytes, n: nat): Result<(Bytes, Bytes)> {
    if n <= |b| then Ok((b[..n], b[n..])) else Err(Wire(UnexpectedEof))
  }

  function TakeKeyIf(b: Bytes, present: bool): Result<(Option<Bytes>, Bytes)> {
    if present then
      var (k, rest) :- Take(b, KEY_LEN);
      Ok((Some(k), rest))
    else Ok((None, b))
  }

  function TakeU32(b: Bytes): Result<(u32, Bytes)> {
    var (four, rest) :- Take(b, 4);
    var n :- ReadU32(four);
    Ok((n, rest))
  }

  function TakeEntries(b: Bytes, count: nat, bank: map<Slot, Bytes>): Result<map<Slot, Bytes>>
    decreases count
  {
    if count == 0 then Ok(bank)
    else
      var (dh, b1) :- Take(b, KEY_LEN);
      var (n, b2) :- TakeU32(b1);
      var (mk, b3) :- Take(b2, KEY_LEN);
      TakeEntries(b3, count - 1, bank[Slot(dh, n) := mk])
  }

  function DecodeTail(b: Bytes): Result<(u32, u32, u32, map<Slot, Bytes>)> {
    var (ns, b1) :- TakeU32(b);
    var (nr, b2) :- TakeU32(b1);
    var (pn, b3) :- TakeU32(b2);
    var (count, used) :- TakeVarint(b3);
    if count > MAX_STORED_SKIPPED then Err(Malformed("ratchet skipped-key count"))
    else
      var bank :- TakeEntries(b3[used..], count, map[]);
      Ok((ns, nr, pn, bank))
  }

  /** The keys the flags announce, and the rest. */
  function DecodeKeys(b: Bytes, flags: u8): Result<(Option<Bytes>, Bytes, Option<Bytes>, Option<Bytes>, Bytes)> {
    var (dhr, b1) :- TakeKeyIf(b, flags % 2 == 1);
    var (rk, b2) :- Take(b1, KEY_LEN);
    var (cks, b3) :- TakeKeyIf(b2, flags / 2 % 2 == 1);
    var (ckr, b4) :- TakeKeyIf(b3, flags / 4 % 2 == 1);
    Ok((dhr, rk, cks, ckr, b4))
  }

  /** Restores a session; the public ratchet key is recomputed, and octets after the last entry are ignored. */
  function FromBytes(b: Bytes): Result<State> {
    var (version, b1) :- Take(b, 1);
    if version[0] != Byte(STATE_VERSION) then Err(Malformed("ratchet state version"))
    else
      var (dhs, b2) :- Take(b1, KEY_LEN);
      var (flag, b3) :- Take(b2, 1);
      if !flag[0].Byte? then Err(Wire(OpaqueOctet))
      else
        var (dhr, rk, cks, ckr, b4) :- DecodeKeys(b3, flag[0].value);
        var (ns, nr, pn, bank) :- DecodeTail(b4);
        Ok(State(dhs, PublicKey(dhs), dhr, rk, cks, ckr, ns, nr, pn, bank))
  }

  // ---------- Round trip ----------

  predicate KeyOrNone(k: Option<Bytes>) {
    k.Some? ==> |k.value| == KEY_LEN
  }

  ghost predicate BankFormed(bank: map<Slot, Bytes>) {
    |bank| <= MAX_STORED_SKIPPED && forall k :: k in bank ==> |k.dh| == KEY_LEN && |bank[k]| == KEY_LEN
  }

  /** What every reachable state satisfies: keys of 32 octets, the public half kept beside its secret, and a bank
      within its cap. */
  ghost predicate WellFormed(s: State) {
    && |s.dhs| == KEY_LEN && s.dhsPub == PublicKey(s.dhs) && |s.rk| == KEY_LEN
    && KeyOrNone(s.dhr) && KeyOrNone(s.cks) && KeyOrNone(s.ckr)
    && BankFormed(s.skipped)
  }

  lemma TakeAppended(x: Bytes, y: Bytes)
    ensures Take(x + y, |x|) == Ok((x, y))
  {
    assert (x + y)[..|x|] == x && (x + y)[|x|..] == y;
  }

  lemma TakeKeyAppended(k: Option<Bytes>, y: Bytes)
    requires KeyOrNone(k)
    ensures TakeKeyIf(Optional(k) + y, k.Some?) == Ok((k, y))
  {
    if k.Some? {
      TakeAppended(k.value, y);
    } else {
      assert [] + y == y;
    }
  }

  lemma TakeU32Appended(n: u32, y: Bytes)
    ensures TakeU32(U32Bytes(n) + y) == Ok((n, y))
  {
    TakeAppended(U32Bytes(n), y);
    U32RoundTrip(n);
  }

  /** The bank that reading the entries of `q` one by one builds on `bank`. */
  function Insertions(bank: map<Slot, Bytes>, q: seq<Slot>, from: map<Slot, Bytes>): map<Slot, Bytes>
    requires forall k <- q :: k in from
    decreases |q|
  {
    if q == [] then bank else Insertions(bank[q[0] := from[q[0]]], q[1..], from)
  }

  lemma {:induction false} InsertionsExact(bank: map<Slot, Bytes>, q: seq<Slot>, from: map<Slot, Bytes>)
    requires forall k <- q :: k in from
    ensures var r := Insertions(bank, q, from);
            && (forall k :: k in r <==> k in bank || k in q)
            && (forall k :: k in r ==> r[k] == if k in q then from[k] else bank[k])
    decreases |q|
  {
    if q != [] {
      assert q == [q[0]] + q[1..];
      InsertionsExact(bank[q[0] := from[q[0]]], q[1..], from);
    }
  }

  lemma {:induction false} EntriesRoundTrip(q: seq<Slot>, from: map<Slot, Bytes>, bank: map<Slot, Bytes>)
    requires (forall k <- q :: k in from) && (forall k <- q :: |k.dh| == KEY_LEN && |from[k]| == KEY_LEN)
    ensures TakeEntries(EncodeEntries(q, from), |q|, bank) == Ok(Insertions(bank, q, from))
  {
    if q != [] {
      hide U32Bytes, TakeU32, Take;
      var k, mk, rest := q[0], from[q[0]], EncodeEntries(q[1..], from);
      assert EncodeEntries(q, from) == k.dh + (U32Bytes(k.n) + (mk + rest));
      TakeAppended(k.dh, U32Bytes(k.n) + (mk + rest));
      TakeU32Appended(k.n, mk + rest);
      TakeAppended(mk, rest);
      assert Slot(k.dh, k.n) == k;
      EntriesRoundTrip(q[1..], from, bank[k := mk]);
    }
  }

  lemma {:induction false} AscendingLength(q: seq<Slot>)
    requires Ascending(q)
    ensures |Elements(q)| == |q|
  {
    if q != [] {
      TailElements(q);
      AscendingLength(q[1..]);
      assert q[0] in Elements(q);
    }
  }

  lemma TailRoundTrip(s: State)
    requires BankFormed(s.skipped)
    ensures var q := SortedSlots(s.skipped.Keys);
            && (forall k <- q :: k in s.skipped)
            && DecodeTail(EncodeTail(s, q)) == Ok((s.ns, s.nr, s.pn, s.skipped))
  {
    var q := SortedSlots(s.skipped.Keys);
    assert forall k :: k in q <==> k in Elements(q);
    assert forall k :: k in q <==> k in s.skipped;
    AscendingLength(q);
    assert |q| == |s.skipped.Keys| == |s.skipped|;
    TailRoundTripOf(s, q);
  }

  lemma TailRoundTripOf(s: State, q: seq<Slot>)
    requires BankFormed(s.skipped) && |q| == |s.skipped| && forall k :: k in q <==> k in s.skipped
    ensures DecodeTail(EncodeTail(s, q)) == Ok((s.ns, s.nr, s.pn, s.skipped))
  {
    var entries := EncodeEntries(q, s.skipped);
    EntriesRoundTrip(q, s.skipped, map[]);
    InsertionsExact(map[], q, s.skipped);
    assert Insertions(map[], q, s.skipped) == s.skipped;
    hide U32Bytes, TakeU32, EncodeEntries, TakeEntries, Insertions, ParseVarint, EncodeVarint;
    var count := EncodeVarint(|s.skipped|);
    VarintRoundTrip(|s.skipped|, entries);
    assert (count + entries)[|count|..] == entries;
    TakeU32Appended(s.pn, count + entries);
    TakeU32Appended(s.nr, U32Bytes(s.pn) + (count + entries));
    TakeU32Appended(s.ns, U32Bytes(s.nr) + (U32Bytes(s.pn) + (count + entries)));
  }

  lemma KeysRoundTrip(s: State, rest: Bytes)
    requires |s.rk| == KEY_LEN && KeyOrNone(s.dhr) && KeyOrNone(s.cks) && KeyOrNone(s.ckr)
    ensures DecodeKeys(EncodeKeys(s, rest), Flags(s)) == Ok((s.dhr, s.rk, s.cks, s.ckr, rest))
  {
    hide Take, TakeKeyIf, Optional;
    var b3 := Optional(s.ckr) + rest;
    var b2 := Optional(s.cks) + b3;
    var b1 := s.rk + b2;
    TakeKeyAppended(s.dhr, b1);
    TakeAppended(s.rk, b2);
    TakeKeyAppended(s.cks, b3);
    TakeKeyAppended(s.ckr, rest);
  }

  /** Restoring a persisted session gives the session back, bank included. */
  lemma SessionRoundTrip(s: State)
    requires WellFormed(s)
    ensures FromBytes(ToBytes(s)) == Ok(s)
  {
    hide EncodeTail, DecodeTail, EncodeKeys, DecodeKeys, Take, Flags, BankFormed;
    var tail := EncodeTail(s, SortedSlots(s.skipped.Keys));
    TailRoundTrip(s);
    KeysRoundTrip(s, tail);
    var b2 := [Byte(Flags(s))] + EncodeKeys(s, tail);
    TakeAppended([Byte(Flags(s))], EncodeKeys(s, tail));
    TakeAppended(s.dhs, b2);
    TakeAppended([Byte(STATE_VERSION)], s.dhs + b2);
  }

  // ---------- Every reachable state is well formed ----------

  lemma InitialFormed(root: Bytes, remote: Bytes, key: Bytes)
    requires |root| == KEY_LEN && |remote| == KEY_LEN && |key| == KEY_LEN
    ensures WellFormed(Initiator(root, remote, key)) && WellFormed(Responder(root, key))
  {
  }

  lemma EncryptFormed(s: State, plain: Bytes)
    requires WellFormed(s)
    ensures WellFormed(Encrypt(s, plain).state)
  {
    hide WireMessage, SealWith;
  }

  lemma {:induction false} BankUntilFormed(s: State, dh: Bytes, upTo: u32)
    requires WellFormed(s) && s.ckr.Some? && |dh| == KEY_LEN
    ensures WellFormed(BankUntil(s, dh, upTo).state)
    decreases upTo - s.nr
  {
    hide PublicKey, KdfCk, BankUntil, BankFormed;
    if s.nr >= upTo {
      BankUntilDone(s, dh, upTo);
    } else {
      var (next, mk) := KdfCk(s.ckr.value);
      var moved := s.(ckr := Some(next));
      var stored := moved.(skipped := s.skipped[Slot(dh, s.nr) := mk], nr := s.nr + 1);
      BankUntilUnfold(s, dh, upTo, moved, stored);
      if |s.skipped| < MAX_STORED_SKIPPED {
        InsertionFormed(s.skipped, Slot(dh, s.nr), mk);
        BankUntilFormed(stored, dh, upTo);
      }
    }
  }

  lemma InsertionFormed(bank: map<Slot, Bytes>, slot: Slot, mk: Bytes)
    requires BankFormed(bank) && |bank| < MAX_STORED_SKIPPED && |slot.dh| == KEY_LEN && |mk| == KEY_LEN
    ensures BankFormed(bank[slot := mk]) && |bank[slot := mk]| <= |bank| + 1
  {
    var more := bank[slot := mk];
    assert more.Keys == bank.Keys + {slot};
    assert |more| == |more.Keys| && |bank| == |bank.Keys|;
  }

  lemma SkipFormed(s: State, upTo: u32)
    requires WellFormed(s)
    ensures WellFormed(SkipMessageKeys(s, upTo).state)
  {
    if s.dhr.Some? && s.ckr.Some? {
      BankUntilFormed(s, s.dhr.value, upTo);
    }
  }

  lemma RemovalFormed(bank: map<Slot, Bytes>, slot: Slot)
    requires BankFormed(bank) && slot in bank
    ensures BankFormed(bank - {slot})
  {
    var less := bank - {slot};
    assert less.Keys == bank.Keys - {slot};
    assert |less| == |less.Keys| && |bank| == |bank.Keys|;
  }

  /** Decrypting any octets keeps the session well formed on every path, errors included: whatever is delivered,
      the bank never exceeds its cap. */
  lemma DecryptFormed(s: State, message: Bytes, newKey: Bytes)
    requires WellFormed(s) && |newKey| == KEY_LEN
    ensures WellFormed(Decrypt(s, message, newKey).state)
  {
    hide BankFormed, SkipMessageKeys, OpenWith, ParseMessage, DiffieHellman;
    match ParseMessage(message)
    case Err(_) =>
    case Ok((h, cipher)) =>
      var slot := Slot(h.dh, h.n);
      if slot in s.skipped {
        RemovalFormed(s.skipped, slot);
      } else {
        SkipFormed(s, h.pn);
        var turned := Turn(s, h, newKey);
        assert WellFormed(turned.state);
        SkipFormed(turned.state, h.n);
      }
  }

  lemma {:induction false} TakeEntriesFormed(b: Bytes, count: nat, bank: map<Slot, Bytes>)
    requires BankFormed(bank) && |bank| + count <= MAX_STORED_SKIPPED && TakeEntries(b, count, bank).Ok?
    ensures BankFormed(TakeEntries(b, count, bank).value)
    decreases count
  {
    hide TakeU32, BankFormed;
    if count > 0 {
      var (dh, b1) := Take(b, KEY_LEN).value;
      var (n, b2) := TakeU32(b1).value;
      var (mk, b3) := Take(b2, KEY_LEN).value;
      var next := bank[Slot(dh, n) := mk];
      InsertionFormed(bank, Slot(dh, n), mk);
      TakeEntriesFormed(b3, count - 1, next);
    }
  }

  /** Whatever octets a session is restored from, the restored state is well formed. */
  lemma RestoredFormed(b: Bytes)
    requires FromBytes(b).Ok?
    ensures WellFormed(FromBytes(b).value)
  {
    hide TakeEntries, TakeU32, TakeVarint, PublicKey;
    var (version, b1) := Take(b, 1).value;
    var (dhs, b2) := Take(b1, KEY_LEN).value;
    var (flag, b3) := Take(b2, 1).value;
    var rest := DecodeKeys(b3, flag[0].value).value.4;
    TailFormed(rest);
  }

  lemma TailFormed(b: Bytes)
    requires DecodeTail(b).Ok?
    ensures BankFormed(DecodeTail(b).value.3)
  {
    hide TakeEntries, TakeU32, TakeVarint;
    var (ns, b1) := TakeU32(b).value;
    var (nr, b2) := TakeU32(b1).value;
    var (pn, b3) := TakeU32(b2).value;
    var (count, used) := TakeVarint(b3).value;
    TakeEntriesFormed(b3[used..], count, map[]);
  }

  // ---------- The blob, written and read in place ----------

  /** Serialises a session: its entries are taken from the bank in whatever order it yields them, and sorted. */
  method Save(session: RatchetSession) returns (out: Bytes)
    requires |session.skipped| < 0x1_0000_0000_0000_0000
    ensures out == ToBytes(session.Current())
  {
    ghost var s := session.Current();
    var sorted := SortSlots(session.skipped.Keys);
    out := [Byte(STATE_VERSION)];
    out := out + session.dhs;
    var flags := 0;
    if session.dhr.Some? {
      flags := flags + 1;
    }
    if session.cks.Some? {
      flags := flags + 2;
    }
    if session.ckr.Some? {
      flags := flags + 4;
    }
    out := out + [Byte(flags)];
    ghost var head := out;
    out := WriteKeys(session, out);
    out := WriteTail(session, sorted, out);
    assert head == [Byte(STATE_VERSION)] + s.dhs + [Byte(Flags(s))];
    SaveConcat([Byte(STATE_VERSION)], s.dhs, [Byte(Flags(s))], s, EncodeTail(s, sorted));
  }

  lemma SaveConcat(v: Bytes, d: Bytes, f: Bytes, s: State, tail: Bytes)
    ensures v + d + f + EncodeKeys(s, []) + tail == v + (d + (f + EncodeKeys(s, tail)))
  {
    assert EncodeKeys(s, []) + tail == EncodeKeys(s, tail);
    assert v + d + f + EncodeKeys(s, []) + tail == v + (d + (f + (EncodeKeys(s, []) + tail)));
  }

  method WriteKeys(session: RatchetSession, prefix: Bytes) returns (out: Bytes)
    ensures out == prefix + EncodeKeys(session.Current(), [])
  {
    out := prefix;
    if session.dhr.Some? {
      out := out + session.dhr.value;
    }
    out := out + session.rk;
    if session.cks.Some? {
      out := out + session.cks.value;
    }
    if session.ckr.Some? {
      out := out + session.ckr.value;
    }
    ghost var s := session.Current();
    assert out == prefix + Optional(s.dhr) + s.rk + Optional(s.cks) + Optional(s.ckr);
    KeysConcat(prefix, Optional(s.dhr), s.rk, Optional(s.cks), Optional(s.ckr));
  }

  lemma KeysConcat(p: Bytes, a: Bytes, b: Bytes, c: Bytes, d: Bytes)
    ensures p + a + b + c + d == p + (a + (b + (c + (d + []))))
  {
  }

  method WriteTail(session: RatchetSession, sorted: seq<Slot>, prefix: Bytes) returns (out: Bytes)
    requires |session.skipped| < 0x1_0000_0000_0000_0000 && forall k <- sorted :: k in session.skipped
    ensures out == prefix + EncodeTail(session.Current(), sorted)
  {
    hide U32Bytes, EncodeVarint;
    out := prefix + U32Bytes(session.ns);
    out := out + U32Bytes(session.nr);
    out := out + U32Bytes(session.pn);
    out := WriteVarint(out, |session.skipped|);
    ghost var head := out;
    for i := 0 to |sorted|
      invariant out + EncodeEntries(sorted[i..], session.skipped) == head + EncodeEntries(sorted, session.skipped)
    {
      ghost var before := out;
      var k := sorted[i];
      out := out + k.dh;
      out := out + U32Bytes(k.n);
      out := out + session.skipped[k];
      assert out == before + EncodeEntry(k, session.skipped[k]);
      assert sorted[i..][1..] == sorted[i + 1..];
      assert before + (EncodeEntry(k, session.skipped[k]) + EncodeEntries(sorted[i + 1..], session.skipped))
          == out + EncodeEntries(sorted[i + 1..], session.skipped);
    }
    assert sorted[|sorted|..] == [] && out + [] == out;
    ghost var s := session.Current();
    assert out == prefix + EncodeTail(s, sorted) by {
      assert head == prefix + U32Bytes(s.ns) + U32Bytes(s.nr) + U32Bytes(s.pn) + EncodeVarint(|s.skipped|);
    }
  }

  /** Takes the slots in any order and inserts each in its place. */
  method SortSlots(ks: set<Slot>) returns (q: seq<Slot>)
    ensures q == SortedSlots(ks)
  {
    q := [];
    var rest := ks;
    while rest != {}
      invariant rest <= ks && Ascending(q) && Elements(q) == ks - rest
      decreases rest
    {
      var k :| k in rest;
      assert k in q ==> k in Elements(q);
      InsertElements(q, k);
      InsertAscending(q, k);
      q := Insert(q, k);
      rest := rest - {k};
    }
    AscendingUnique(q, SortedSlots(ks));
  }

  /** Reads `n` octets, as `Take` does. */
  method ReadExactly(reader: Reader, n: nat) returns (r: Result<Bytes>)
    requires reader.Valid()
    modifies reader
    ensures reader.Valid()
    ensures match Take(old(reader.Rest()), n)
            case Ok((x, rest)) => r == Ok(x) && reader.Rest() == rest
            case Err(e) => r == Err(e)
  {
    r := reader.ReadBytes(n);
    assert r.Ok? ==> reader.Rest() == old(reader.Rest())[n..] && r.value == old(reader.Rest())[..n];
  }

  method ReadKeyIf(reader: Reader, present: bool) returns (r: Result<Option<Bytes>>)
    requires reader.Valid()
    modifies reader
    ensures reader.Valid()
    ensures match TakeKeyIf(old(reader.Rest()), present)
            case Ok((x, rest)) => r == Ok(x) && reader.Rest() == rest
            case Err(e) => r == Err(e)
  {
    hide Take;
    if !present {
      return Ok(None);
    }
    var key :- ReadExactly(reader, KEY_LEN);
    return Ok(Some(key));
  }

  method ReadCounter(reader: Reader) returns (r: Result<u32>)
    requires reader.Valid()
    modifies reader
    ensures reader.Valid()
    ensures match TakeU32(old(reader.Rest()))
            case Ok((x, rest)) => r == Ok(x) && reader.Rest() == rest
            case Err(e) => r == Err(e)
  {
    hide Take, ReadU32;
    var four :- ReadExactly(reader, 4);
    return ReadU32(four);
  }

  method ReadEntries(reader: Reader, count: nat) returns (r: Result<map<Slot, Bytes>>)
    requires reader.Valid()
    modifies reader
    ensures reader.Valid()
    ensures r == TakeEntries(old(reader.Rest()), count, map[])
  {
    hide Take, TakeU32;
    var bank: map<Slot, Bytes> := map[];
    for i := 0 to count
      invariant reader.Valid()
      invariant TakeEntries(reader.Rest(), count - i, bank) == TakeEntries(old(reader.Rest()), count, map[])
    {
      var dh :- ReadExactly(reader, KEY_LEN);
      var n :- ReadCounter(reader);
      var mk :- ReadExactly(reader, KEY_LEN);
      bank := bank[Slot(dh, n) := mk];
    }
    return Ok(bank);
  }

  /** Restores a session from a blob with a reader. */
  method Load(bytes: Bytes) returns (r: Result<State>)
    ensures r == FromBytes(bytes)
  {
    hide Take, TakeKeyIf, TakeU32, TakeEntries, PublicKey, ParseVarint;
    var reader := new Reader(bytes);
    var version :- ReadExactly(reader, 1);
    TakenLength(bytes, 1);
    if version[0] != Byte(STATE_VERSION) {
      return Err(Malformed("ratchet state version"));
    }
    ghost var b1 := reader.Rest();
    var dhs :- ReadExactly(reader, KEY_LEN);
    ghost var b2 := reader.Rest();
    var flag :- ReadExactly(reader, 1);
    TakenLength(b2, 1);
    if !flag[0].Byte? {
      return Err(Wire(OpaqueOctet));
    }
    var flags := flag[0].value;
    var dhr :- ReadKeyIf(reader, flags % 2 == 1);
    var rk :- ReadExactly(reader, KEY_LEN);
    var cks :- ReadKeyIf(reader, flags / 2 % 2 == 1);
    var ckr :- ReadKeyIf(reader, flags / 4 % 2 == 1);
    var tail :- ReadTail(reader);
    var (ns, nr, pn, bank) := tail;
    return Ok(State(dhs, PublicKey(dhs), dhr, rk, cks, ckr, ns, nr, pn, bank));
  }

  lemma TakenLength(b: Bytes, n: nat)
    ensures Take(b, n).Ok? ==> |Take(b, n).value.0| == n
  {
  }

  method ReadTail(reader: Reader) returns (r: Result<(u32, u32, u32, map<Slot, Bytes>)>)
    requires reader.Valid()
    modifies reader
    ensures reader.Valid()
    ensures r == DecodeTail(old(reader.Rest()))
  {
    hide TakeU32, TakeEntries, ParseVarint;
    var ns :- ReadCounter(reader);
    var nr :- ReadCounter(reader);
    var pn :- ReadCounter(reader);
    ghost var b3 := reader.Rest();
    var count :- reader.ReadVarint();
    if count > MAX_STORED_SKIPPED {
      return Err(Malformed("ratchet skipped-key count"));
    }
    assert reader.Rest() == b3[TakeVarint(b3).value.1..];
    var bank :- ReadEntries(reader, count);
    return Ok((ns, nr, pn, bank));
  }
}
