/**
 The session blob as a grammar: which octet strings stand for which session, told apart from the code that reads them.
 */
module BlobGrammar {
  import opened Octets
  import opened Varint
  import opened Crypto
  import opened Frames
  import opened Ratchet
  import opened SessionBlob

  datatype Entry = Entry(slot: Slot, key: Bytes)

  function SpelledEntries(entries: seq<Entry>): Bytes {
    if entries == [] then []
    else entries[0].slot.dh + (U32Bytes(entries[0].slot.n) + (entries[0].key + SpelledEntries(entries[1..])))
  }

  ghost predicate EntriesFormed(entries: seq<Entry>) {
    forall i :: 0 <= i < |entries| ==> |entries[i].slot.dh| == KEY_LEN && |entries[i].key| == KEY_LEN
  }

  /** The last entry for its slot. */
  ghost predicate LastAt(entries: seq<Entry>, i: nat) {
    i < |entries| && forall j :: i < j < |entries| ==> entries[j].slot != entries[i].slot
  }

  /** A bank holds exactly the slots listed, each with the key listed last. */
  ghost predicate BankListed(bank: map<Slot, Bytes>, entries: seq<Entry>) {
    && (forall k :: k in bank ==> exists i: nat :: LastAt(entries, i) && entries[i].slot == k)
    && (forall i: nat :: LastAt(entries, i) ==> Holds(bank, entries[i]))
  }

  ghost predicate Holds(bank: map<Slot, Bytes>, e: Entry) {
    e.slot in bank && bank[e.slot] == e.key
  }

  /** A key is there, with 32 octets, exactly if its flag is set. */
  ghost predicate Flagged(k: Option<Bytes>, flag: bool) {
    k.Some? == flag && KeyOrNone(k)
  }

  /** The counters, the count of entries in any accepted form, the entries, and whatever follows. */
  function SpelledTail(s: State, count: Bytes, entries: seq<Entry>, rest: Bytes): Bytes {
    U32Bytes(s.ns) + (U32Bytes(s.nr) + (U32Bytes(s.pn) + (count + (SpelledEntries(entries) + rest))))
  }

  ghost predicate TailFor(b: Bytes, s: State, count: Bytes, entries: seq<Entry>, rest: Bytes) {
    && b == SpelledTail(s, count, entries, rest)
    && IsVarint(count) && Groups(count) == |entries| <= MAX_STORED_SKIPPED
    && EntriesFormed(entries) && BankListed(s.skipped, entries)
  }

  /** Octets `b` stand for session `s`: the version, the ratchet secret, the flags, the keys flagged, and the rest. */
  ghost predicate BlobFor(b: Bytes, s: State, flags: u8, count: Bytes, entries: seq<Entry>, rest: Bytes) {
    && |s.dhs| == KEY_LEN && s.dhsPub == PublicKey(s.dhs) && |s.rk| == KEY_LEN
    && Flagged(s.dhr, flags % 2 == 1) && Flagged(s.cks, flags / 2 % 2 == 1) && Flagged(s.ckr, flags / 4 % 2 == 1)
    && exists tail ::
         && TailFor(tail, s, count, entries, rest)
         && b == [Byte(1)] + (s.dhs + ([Byte(flags)] + (Optional(s.dhr) + (s.rk + (Optional(s.cks) + (Optional(s.ckr) + tail))))))
  }

  ghost predicate IsBlob(b: Bytes, s: State) {
    exists flags: u8, count: Bytes, entries: seq<Entry>, rest: Bytes :: BlobFor(b, s, flags, count, entries, rest)
  }

  // ---------- Entries ----------

  function Inserted(bank: map<Slot, Bytes>, entries: seq<Entry>): map<Slot, Bytes>
    decreases |entries|
  {
    if entries == [] then bank else Inserted(bank[entries[0].slot := entries[0].key], entries[1..])
  }

  lemma TakeSplit(b: Bytes, n: nat)
    requires Take(b, n).Ok?
    ensures var (x, y) := Take(b, n).value; b == x + y && |x| == n
  {
  }

  lemma TakeU32Split(b: Bytes)
    requires TakeU32(b).Ok?
    ensures var (n, y) := TakeU32(b).value; b == U32Bytes(n) + y
  {
    hide ReadU32, U32Bytes;
    var (four, y) := Take(b, 4).value;
    U32Exact(four, ReadU32(four).value);
  }

  lemma {:induction false} EntriesSound(b: Bytes, count: nat, bank: map<Slot, Bytes>) returns (entries: seq<Entry>, rest: Bytes)
    requires TakeEntries(b, count, bank).Ok?
    ensures |entries| == count && EntriesFormed(entries) && b == SpelledEntries(entries) + rest
    ensures TakeEntries(b, count, bank).value == Inserted(bank, entries)
    decreases count
  {
    if count == 0 {
      entries, rest := [], b;
    } else {
      hide TakeU32, U32Bytes, Take;
      var (dh, b1) := Take(b, KEY_LEN).value;
      var (n, b2) := TakeU32(b1).value;
      var (mk, b3) := Take(b2, KEY_LEN).value;
      TakeSplit(b, KEY_LEN);
      TakeU32Split(b1);
      TakeSplit(b2, KEY_LEN);
      var e := Entry(Slot(dh, n), mk);
      var later, after := EntriesSound(b3, count - 1, bank[e.slot := mk]);
      entries, rest := [e] + later, after;
      assert entries[1..] == later;
      EntriesConcat(e, later, rest);
    }
  }

  lemma EntriesConcat(e: Entry, later: seq<Entry>, rest: Bytes)
    ensures SpelledEntries([e] + later) + rest == e.slot.dh + (U32Bytes(e.slot.n) + (e.key + (SpelledEntries(later) + rest)))
  {
    hide U32Bytes;
    assert ([e] + later)[1..] == later;
  }

  lemma {:induction false} EntriesComplete(entries: seq<Entry>, rest: Bytes, bank: map<Slot, Bytes>)
    requires EntriesFormed(entries)
    ensures TakeEntries(SpelledEntries(entries) + rest, |entries|, bank) == Ok(Inserted(bank, entries))
    decreases |entries|
  {
    if entries != [] {
      hide TakeU32, U32Bytes, Take;
      var e, later := entries[0], entries[1..];
      assert entries == [e] + later;
      EntriesConcat(e, later, rest);
      TakeAppended(e.slot.dh, U32Bytes(e.slot.n) + (e.key + (SpelledEntries(later) + rest)));
      TakeU32Appended(e.slot.n, e.key + (SpelledEntries(later) + rest));
      TakeAppended(e.key, SpelledEntries(later) + rest);
      assert Slot(e.slot.dh, e.slot.n) == e.slot;
      EntriesComplete(later, rest, bank[e.slot := e.key]);
    }
  }

  lemma {:induction false} LastIndex(entries: seq<Entry>, i: nat) returns (last: nat)
    requires i < |entries|
    ensures LastAt(entries, last) && entries[last].slot == entries[i].slot
    decreases |entries| - i
  {
    last := i;
    if j :| i < j < |entries| && entries[j].slot == entries[i].slot {
      last := LastIndex(entries, j);
    }
  }

  lemma {:induction false} InsertedExact(bank: map<Slot, Bytes>, entries: seq<Entry>)
    ensures var r := Inserted(bank, entries);
            && (forall i: nat :: LastAt(entries, i) ==> Holds(r, entries[i]))
            && (forall k :: k in r && (forall i :: 0 <= i < |entries| ==> entries[i].slot != k) ==> k in bank && r[k] == bank[k])
            && (forall k :: k in bank ==> k in r)
            && (forall k :: k in bank && (forall i :: 0 <= i < |entries| ==> entries[i].slot != k) ==> r[k] == bank[k])
    decreases |entries|
  {
    if entries != [] {
      var e, later := entries[0], entries[1..];
      var next := bank[e.slot := e.key];
      InsertedExact(next, later);
      var r := Inserted(bank, entries);
      assert forall i :: 0 <= i < |later| ==> later[i] == entries[i + 1];
      forall i: nat | LastAt(entries, i)
        ensures Holds(r, entries[i])
      {
        if i > 0 {
          assert LastAt(later, i - 1);
        } else {
          assert forall j :: 0 <= j < |later| ==> later[j].slot != e.slot;
          assert e.slot in next && next[e.slot] == e.key;
        }
      }
    }
  }

  /** The bank read from a list of entries is the one the list determines. */
  lemma ListedExact(bank: map<Slot, Bytes>, entries: seq<Entry>)
    ensures bank == Inserted(map[], entries) <==> BankListed(bank, entries)
  {
    hide Inserted;
    var r := Inserted(map[], entries);
    InsertedExact(map[], entries);
    forall k | k in r
      ensures exists i: nat :: LastAt(entries, i) && entries[i].slot == k
    {
      var i :| 0 <= i < |entries| && entries[i].slot == k;
      var last := LastIndex(entries, i);
    }
    assert BankListed(r, entries);
    if BankListed(bank, entries) {
      forall k
        ensures k in bank <==> k in r
        ensures k in bank ==> bank[k] == r[k]
      {
        if k in bank {
          var i: nat :| LastAt(entries, i) && entries[i].slot == k;
          assert Holds(bank, entries[i]) && Holds(r, entries[i]);
        }
        if k in r {
          var i: nat :| LastAt(entries, i) && entries[i].slot == k;
          assert Holds(bank, entries[i]);
        }
      }
      assert bank == r;
    }
  }

  // ---------- The tail ----------

  lemma TailSound(b: Bytes, s: State) returns (count: Bytes, entries: seq<Entry>, rest: Bytes)
    requires DecodeTail(b) == Ok((s.ns, s.nr, s.pn, s.skipped))
    ensures TailFor(b, s, count, entries, rest)
  {
    hide TakeU32, TakeEntries, U32Bytes, TakeVarint, BankListed, EntriesFormed, IsVarint, Groups;
    var (ns, b1) := TakeU32(b).value;
    var (nr, b2) := TakeU32(b1).value;
    var (pn, b3) := TakeU32(b2).value;
    TakeU32Split(b);
    TakeU32Split(b1);
    TakeU32Split(b2);
    var (n, used) := TakeVarint(b3).value;
    TakeVarintExact(b3, n, used);
    count := b3[..used];
    entries, rest := EntriesSound(b3[used..], n, map[]);
    ListedExact(s.skipped, entries);
    assert b3 == count + (SpelledEntries(entries) + rest);
  }

  lemma TailComplete(b: Bytes, s: State, count: Bytes, entries: seq<Entry>, rest: Bytes)
    requires TailFor(b, s, count, entries, rest)
    ensures DecodeTail(b) == Ok((s.ns, s.nr, s.pn, s.skipped))
  {
    hide TakeU32, TakeEntries, U32Bytes, TakeVarint, BankListed, IsVarint, Groups;
    var b3 := count + (SpelledEntries(entries) + rest);
    TakeU32Appended(s.ns, U32Bytes(s.nr) + (U32Bytes(s.pn) + b3));
    TakeU32Appended(s.nr, U32Bytes(s.pn) + b3);
    TakeU32Appended(s.pn, b3);
    assert b3[..|count|] == count && b3[|count|..] == SpelledEntries(entries) + rest;
    TakeVarintExact(b3, |entries|, |count|);
    EntriesComplete(entries, rest, map[]);
    ListedExact(s.skipped, entries);
  }

  // ---------- The keys ----------

  lemma KeyIfExact(b: Bytes, present: bool, k: Option<Bytes>, rest: Bytes)
    ensures TakeKeyIf(b, present) == Ok((k, rest)) <==> Flagged(k, present) && b == Optional(k) + rest
  {
    if Flagged(k, present) && b == Optional(k) + rest {
      TakeKeyAppended(k, rest);
    }
  }

  ghost predicate KeysFor(b: Bytes, flags: u8, s: State, rest: Bytes) {
    && |s.rk| == KEY_LEN
    && Flagged(s.dhr, flags % 2 == 1) && Flagged(s.cks, flags / 2 % 2 == 1) && Flagged(s.ckr, flags / 4 % 2 == 1)
    && b == Optional(s.dhr) + (s.rk + (Optional(s.cks) + (Optional(s.ckr) + rest)))
  }

  lemma KeysSound(b: Bytes, flags: u8, s: State, rest: Bytes)
    requires DecodeKeys(b, flags) == Ok((s.dhr, s.rk, s.cks, s.ckr, rest))
    ensures KeysFor(b, flags, s, rest)
  {
    hide TakeKeyIf, Take, Flagged, Optional;
    var (dhr, c1) := TakeKeyIf(b, flags % 2 == 1).value;
    var (rk, c2) := Take(c1, KEY_LEN).value;
    var (cks, c3) := TakeKeyIf(c2, flags / 2 % 2 == 1).value;
    var (ckr, c4) := TakeKeyIf(c3, flags / 4 % 2 == 1).value;
    KeyIfExact(b, flags % 2 == 1, dhr, c1);
    TakeSplit(c1, KEY_LEN);
    KeyIfExact(c2, flags / 2 % 2 == 1, cks, c3);
    KeyIfExact(c3, flags / 4 % 2 == 1, ckr, c4);
    assert dhr == s.dhr && rk == s.rk && cks == s.cks && ckr == s.ckr && c4 == rest;
  }

  lemma KeysComplete(b: Bytes, flags: u8, s: State, rest: Bytes)
    requires KeysFor(b, flags, s, rest)
    ensures DecodeKeys(b, flags) == Ok((s.dhr, s.rk, s.cks, s.ckr, rest))
  {
    hide TakeKeyIf, Take, Flagged, Optional;
    var b3 := Optional(s.ckr) + rest;
    var b2 := Optional(s.cks) + b3;
    KeyIfExact(b, flags % 2 == 1, s.dhr, s.rk + b2);
    TakeAppended(s.rk, b2);
    KeyIfExact(b2, flags / 2 % 2 == 1, s.cks, b3);
    KeyIfExact(b3, flags / 4 % 2 == 1, s.ckr, rest);
  }

  // ---------- The blob ----------

  lemma BlobSound(b: Bytes, s: State)
    requires FromBytes(b) == Ok(s)
    ensures IsBlob(b, s)
  {
    hide DecodeKeys, DecodeTail, Take, PublicKey, TailFor, Flagged, Optional;
    var (version, b1) := Take(b, 1).value;
    var (dhs, b2) := Take(b1, KEY_LEN).value;
    var (flag, b3) := Take(b2, 1).value;
    TakeSplit(b, 1);
    TakeSplit(b1, KEY_LEN);
    TakeSplit(b2, 1);
    var flags := flag[0].value;
    var tail := DecodeKeys(b3, flags).value.4;
    var (ns, nr, pn, bank) := DecodeTail(tail).value;
    assert s.ns == ns && s.nr == nr && s.pn == pn && s.skipped == bank;
    KeysSound(b3, flags, s, tail);
    var count, entries, rest := TailSound(tail, s);
    assert version == [Byte(1)] && flag == [Byte(flags)];
    assert BlobFor(b, s, flags, count, entries, rest);
  }

  lemma BlobComplete(b: Bytes, s: State, flags: u8, count: Bytes, entries: seq<Entry>, rest: Bytes)
    requires BlobFor(b, s, flags, count, entries, rest)
    ensures FromBytes(b) == Ok(s)
  {
    hide DecodeKeys, DecodeTail, Take, PublicKey, TailFor, Flagged, Optional;
    var tail :|
      && TailFor(tail, s, count, entries, rest)
      && b == [Byte(1)] + (s.dhs + ([Byte(flags)] + (Optional(s.dhr) + (s.rk + (Optional(s.cks) + (Optional(s.ckr) + tail))))));
    var b3 := Optional(s.dhr) + (s.rk + (Optional(s.cks) + (Optional(s.ckr) + tail)));
    TakeAppended([Byte(1)], s.dhs + ([Byte(flags)] + b3));
    TakeAppended(s.dhs, [Byte(flags)] + b3);
    TakeAppended([Byte(flags)], b3);
    KeysComplete(b3, flags, s, tail);
    TailComplete(tail, s, count, entries, rest);
  }

  /** A session is restored exactly from the octet strings that stand for it. */
  lemma BlobExact(b: Bytes, s: State)
    ensures FromBytes(b) == Ok(s) <==> IsBlob(b, s)
  {
    hide FromBytes, BlobFor;
    if FromBytes(b) == Ok(s) {
      BlobSound(b, s);
    }
    if flags: u8, count: Bytes, entries: seq<Entry>, rest: Bytes :| BlobFor(b, s, flags, count, entries, rest) {
      BlobComplete(b, s, flags, count, entries, rest);
    }
  }

  // ---------- What is written ----------

  ghost function Listed(q: seq<Slot>, bank: map<Slot, Bytes>): (entries: seq<Entry>)
    requires forall k <- q :: k in bank
    ensures |entries| == |q| && forall i :: 0 <= i < |q| ==> entries[i] == Entry(q[i], bank[q[i]])
  {
    seq(|q|, i requires 0 <= i < |q| => Entry(q[i], bank[q[i]]))
  }

  lemma {:induction false} ListedSpelled(q: seq<Slot>, bank: map<Slot, Bytes>)
    requires forall k <- q :: k in bank
    ensures SpelledEntries(Listed(q, bank)) == EncodeEntries(q, bank)
  {
    hide U32Bytes;
    if q != [] {
      ListedSpelled(q[1..], bank);
      assert Listed(q, bank)[1..] == Listed(q[1..], bank);
    }
  }

  /** A session is written as the string that stands for it with no flag bit to spare, a count that is not padded, each slot of
      the bank once and in ascending order, and nothing after. */
  lemma SavedExact(s: State) returns (entries: seq<Entry>)
    requires WellFormed(s)
    ensures BlobFor(ToBytes(s), s, Flags(s), EncodeVarint(|entries|), entries, []) && Flags(s) < 8
    ensures |entries| == |s.skipped| && forall i, j :: 0 <= i < j < |entries| ==> SlotLess(entries[i].slot, entries[j].slot)
  {
    hide Optional, EncodeTail, TailFor, PublicKey, BankFormed, EncodeVarint;
    var q := SortedSlots(s.skipped.Keys);
    assert forall k :: k in q <==> k in Elements(q);
    assert forall k :: k in q <==> k in s.skipped;
    AscendingLength(q);
    entries := Listed(q, s.skipped);
    SavedTail(s, q);
  }

  lemma SavedTail(s: State, q: seq<Slot>)
    requires BankFormed(s.skipped) && Ascending(q) && |q| == |s.skipped| && forall k :: k in q <==> k in s.skipped
    ensures TailFor(EncodeTail(s, q), s, EncodeVarint(|q|), Listed(q, s.skipped), [])
  {
    hide U32Bytes, EncodeVarint, EncodeEntries, SpelledEntries, IsVarint, Groups, BankListed;
    var entries := Listed(q, s.skipped);
    ListedSpelled(q, s.skipped);
    EncodedIsVarint(|q|);
    SortedListed(s.skipped, q);
    assert SpelledEntries(entries) + [] == SpelledEntries(entries);
  }

  lemma SortedListed(bank: map<Slot, Bytes>, q: seq<Slot>)
    requires Ascending(q) && forall k :: k in q <==> k in bank
    ensures BankListed(bank, Listed(q, bank))
  {
    var entries := Listed(q, bank);
    forall i: nat | i < |entries|
      ensures LastAt(entries, i)
    {
      forall j | i < j < |entries|
        ensures entries[j].slot != entries[i].slot
      {
        SlotLessTotal(q[i], q[j]);
      }
    }
    forall k | k in bank
      ensures exists i: nat :: LastAt(entries, i) && entries[i].slot == k
    {
      var i :| 0 <= i < |q| && q[i] == k;
      assert LastAt(entries, i);
    }
  }
}
