/**
 Unsigned LEB128 varints (section 7.6 of DWARF version 5), and the bounds-checked reader they are read with.
 */
module Varint {
  import opened Octets

  const MAX_VARINT_LEN := 10

  // ---------- 64-bit arithmetic ----------

  /** `x` shifted left by `s` bits, with no bound on the width. */
  function Shl(x: nat, s: nat): nat {
    if s == 0 then x else 2 * Shl(x, s - 1)
  }

  /** `x << s` on `u64`: bits pushed past the top are lost. */
  function ShiftLeft(x: nat, s: nat): (r: u64) {
    Shl(x, s) % 0x1_0000_0000_0000_0000
  }

  /** `a | b`, bit by bit. */
  function BitOr(a: nat, b: nat): nat {
    if a == 0 then b else if b == 0 then a
    else 2 * BitOr(a / 2, b / 2) + (if a % 2 == 1 || b % 2 == 1 then 1 else 0)
  }

  /** With no bit in common, or-ing is adding. */
  lemma {:induction false} BitOrDisjoint(a: nat, m: nat, s: nat)
    requires a < Shl(1, s)
    ensures BitOr(a, Shl(m, s)) == a + Shl(m, s)
  {
    if s > 0 && a > 0 {
      BitOrDisjoint(a / 2, m, s - 1);
    }
  }

  lemma {:induction false} ShlAdd(x: nat, y: nat, s: nat)
    ensures Shl(x + y, s) == Shl(x, s) + Shl(y, s)
  {
    if s > 0 {
      ShlAdd(x, y, s - 1);
    }
  }

  lemma {:induction false} ShlMonotone(x: nat, y: nat, s: nat)
    requires x <= y
    ensures Shl(x, s) <= Shl(y, s)
  {
    if s > 0 {
      ShlMonotone(x, y, s - 1);
    }
  }

  lemma {:induction false} ShlShl(x: nat, s: nat, t: nat)
    ensures Shl(Shl(x, s), t) == Shl(x, s + t)
  {
    if t > 0 {
      ShlShl(x, s, t - 1);
    }
  }

  /** One more group is a factor of 128, taken inside or outside the shift. */
  lemma {:induction false} ShlGroup(x: nat, s: nat)
    ensures Shl(x, s + 7) == 0x80 * Shl(x, s) == Shl(0x80 * x, s)
  {
    if s == 0 {
      assert Shl(x, 7) == 2 * Shl(x, 6) == 4 * Shl(x, 5) == 8 * Shl(x, 4) == 16 * Shl(x, 3) == 32 * Shl(x, 2);
      assert Shl(x, 2) == 4 * x;
    } else {
      ShlGroup(x, s - 1);
    }
  }

  lemma ShlValues()
    ensures Shl(1, 7) == 0x80 && Shl(1, 63) == 0x8000_0000_0000_0000
    ensures Shl(1, 70) == 0x40_0000_0000_0000_0000
  {
    ShlWidth(1, 0x80);
    ShlWidth(9, 0x8000_0000_0000_0000);
    ShlGroup(1, 63);
  }

  /** 128 to the power `k` is one shifted by `7 * k`. */
  lemma {:induction false} ShlWidth(k: nat, p: nat)
    requires p == Power128(k)
    ensures Shl(1, 7 * k) == p
  {
    if k > 0 {
      ShlWidth(k - 1, p / 0x80);
      ShlGroup(1, 7 * (k - 1));
    }
  }

  function Power128(k: nat): nat {
    if k == 0 then 1 else 0x80 * Power128(k - 1)
  }

  // ---------- What a varint is ----------

  /** The base-128 sum of the low seven bits of each octet, least significant group first. */
  function Groups(s: Bytes): nat
    requires forall o <- s :: o.Byte?
  {
    if s == [] then 0 else s[0].value % 0x80 + 0x80 * Groups(s[1..])
  }

  /** The accepted encodings: one to ten literal octets, the top bit marking all but the last, and in a tenth
      octet a payload of at most one bit. Zero-padded forms such as `80 00` are accepted. */
  predicate IsVarint(s: Bytes) {
    && 1 <= |s| <= MAX_VARINT_LEN
    && (forall i :: 0 <= i < |s| ==> s[i].Byte? && (s[i].value >= 0x80 <==> i < |s| - 1))
    && (|s| == MAX_VARINT_LEN ==> s[|s| - 1].value <= 1)
  }

  // ---------- Writing ----------

  function EncodeVarint(v: nat): (s: Bytes)
    ensures |s| >= 1
  {
    if v < 0x80 then [Byte(v)] else [Byte(v % 0x80 + 0x80)] + EncodeVarint(v / 0x80)
  }

  /** What is written marks every octet but the last, and its base-128 sum is the value. */
  lemma {:induction false} EncodedShape(v: nat)
    ensures var s := EncodeVarint(v);
            && (forall i :: 0 <= i < |s| ==> s[i].Byte? && (s[i].value >= 0x80 <==> i < |s| - 1))
            && Groups(s) == v
  {
    if v >= 0x80 {
      EncodedShape(v / 0x80);
      assert EncodeVarint(v)[1..] == EncodeVarint(v / 0x80);
    } else {
      assert EncodeVarint(v)[1..] == [];
    }
  }

  lemma TopBitSet(byte: nat)
    requires byte < 0x80
    ensures BitOr(byte, 0x80) == byte + 0x80
  {
    ShlValues();
    BitOrDisjoint(byte, 1, 7);
  }

  /** Appends a `u64` to a buffer, seven bits at a time. */
  method WriteVarint(out: Bytes, value: u64) returns (r: Bytes)
    ensures r == out + EncodeVarint(value)
  {
    hide BitOr;
    r := out;
    var rest := value;
    while true
      invariant rest >= 0
      invariant r + EncodeVarint(rest) == out + EncodeVarint(value)
      decreases rest
    {
      var byte := rest % 0x80;
      ghost var before := rest;
      rest := rest / 0x80;
      if rest != 0 {
        TopBitSet(byte);
        byte := BitOr(byte, 0x80);
      }
      ghost var prior := r;
      r := r + [Byte(byte)];
      if rest == 0 {
        assert EncodeVarint(before) == [Byte(byte)];
        break;
      }
      assert EncodeVarint(before) == [Byte(byte)] + EncodeVarint(rest);
      assert prior + ([Byte(byte)] + EncodeVarint(rest)) == r + EncodeVarint(rest);
    }
  }

  // ---------- Reading ----------

  /** The value and the number of octets of the varint `s` starts with, `k` groups having been read already. */
  function ParseVarint(s: Bytes, k: nat): (r: Result<(nat, nat)>)
    requires k <= MAX_VARINT_LEN
    ensures r.Ok? ==> 1 <= r.value.1 <= |s| && r.value.1 <= MAX_VARINT_LEN - k
    decreases MAX_VARINT_LEN - k
  {
    if k == MAX_VARINT_LEN then Err(Wire(VarintOverflow))
    else if s == [] then Err(Wire(UnexpectedEof))
    else if !s[0].Byte? then Err(Wire(OpaqueOctet))
    else
      var payload := s[0].value % 0x80;
      if k == 9 && payload > 1 then Err(Wire(VarintOverflow))
      else if s[0].value < 0x80 then Ok((payload, 1))
      else
        var (v, n) :- ParseVarint(s[1..], k + 1);
        Ok((payload + 0x80 * v, n + 1))
  }

  /** The part of an accepted encoding that follows its first `k` groups. */
  predicate IsVarintTail(s: Bytes, k: nat) {
    && 1 <= |s| <= MAX_VARINT_LEN - k
    && (forall i :: 0 <= i < |s| ==> s[i].Byte? && (s[i].value >= 0x80 <==> i < |s| - 1))
    && (|s| == MAX_VARINT_LEN - k ==> s[|s| - 1].value <= 1)
  }

  lemma {:induction false} ParseSound(s: Bytes, k: nat)
    requires k <= MAX_VARINT_LEN && ParseVarint(s, k).Ok?
    ensures var (v, n) := ParseVarint(s, k).value; IsVarintTail(s[..n], k) && v == Groups(s[..n])
    decreases MAX_VARINT_LEN - k
  {
    var (v, n) := ParseVarint(s, k).value;
    if s[0].value >= 0x80 {
      ParseSound(s[1..], k + 1);
      assert s[..n][1..] == s[1..][..n - 1];
      assert forall i :: 1 <= i < n ==> s[..n][i] == s[1..][..n - 1][i - 1];
    } else {
      assert s[..1][1..] == [];
    }
  }

  lemma {:induction false} ParseComplete(s: Bytes, k: nat, n: nat)
    requires k <= MAX_VARINT_LEN && n <= |s| && IsVarintTail(s[..n], k)
    ensures ParseVarint(s, k) == Ok((Groups(s[..n]), n))
    decreases MAX_VARINT_LEN - k
  {
    assert s[..n][0] == s[0];
    if n > 1 {
      assert s[..n][1..] == s[1..][..n - 1];
      var tail := s[1..][..n - 1];
      assert forall i :: 0 <= i < |tail| ==> tail[i] == s[..n][i + 1] && tail[i] == s[i + 1];
      ParseComplete(s[1..], k + 1, n - 1);
    } else {
      assert s[..1][1..] == [];
    }
  }

  /** The reader accepts exactly the encodings of `IsVarint`, and returns their base-128 sum: no bit is lost. */
  lemma VarintReadExact(s: Bytes, v: nat, n: nat)
    ensures ParseVarint(s, 0) == Ok((v, n)) <==> n <= |s| && IsVarint(s[..n]) && Groups(s[..n]) == v
  {
    if ParseVarint(s, 0) == Ok((v, n)) {
      ParseSound(s, 0);
    }
    if n <= |s| && IsVarint(s[..n]) && Groups(s[..n]) == v {
      assert IsVarintTail(s[..n], 0);
      ParseComplete(s, 0, n);
    }
  }

  /** The string starts with `n` literal octets that announce another. */
  predicate Continues(s: Bytes, n: nat) {
    n <= |s| && forall i :: 0 <= i < n ==> s[i].Byte? && s[i].value >= 0x80
  }

  /** Literal octets are refused as truncated exactly if they end, short of ten, where another is announced, and as too large
      exactly if nine that announce another are followed by one above 1. */
  lemma VarintRefused(s: Bytes)
    ensures ParseVarint(s, 0) == Err(Wire(UnexpectedEof)) <==> |s| < MAX_VARINT_LEN && Continues(s, |s|)
    ensures ParseVarint(s, 0) == Err(Wire(VarintOverflow)) <==>
            |s| >= MAX_VARINT_LEN && Continues(s, 9) && s[9].Byte? && s[9].value > 1
  {
    VarintRefusedTail(s, 0);
  }

  lemma {:induction false} VarintRefusedTail(s: Bytes, k: nat)
    requires k < MAX_VARINT_LEN
    ensures ParseVarint(s, k) == Err(Wire(UnexpectedEof)) <==> |s| < MAX_VARINT_LEN - k && Continues(s, |s|)
    ensures ParseVarint(s, k) == Err(Wire(VarintOverflow)) <==>
            |s| >= MAX_VARINT_LEN - k && Continues(s, 9 - k) && s[9 - k].Byte? && s[9 - k].value > 1
    decreases MAX_VARINT_LEN - k
  {
    if s != [] && s[0].Byte? && s[0].value >= 0x80 && k < 9 {
      var t := s[1..];
      VarintRefusedTail(t, k + 1);
      assert forall i :: 1 <= i < |s| ==> s[i] == t[i - 1];
      assert Continues(s, |s|) <==> Continues(t, |t|);
      assert |s| >= MAX_VARINT_LEN - k ==> (Continues(s, 9 - k) <==> Continues(t, 8 - k)) && s[9 - k] == t[8 - k];
    }
  }

  lemma {:induction false} GroupsBound(s: Bytes)
    requires forall o <- s :: o.Byte?
    ensures Groups(s) < Shl(1, 7 * |s|)
  {
    if s != [] {
      GroupsBound(s[1..]);
      ShlGroup(1, 7 * (|s| - 1));
    }
  }

  lemma {:induction false} GroupsAppend(s: Bytes, last: Octet)
    requires (forall o <- s :: o.Byte?) && last.Byte?
    ensures Groups(s + [last]) == Groups(s) + Shl(last.value % 0x80, 7 * |s|)
  {
    if s == [] {
      assert s + [last] == [last];
    } else {
      assert (s + [last])[1..] == s[1..] + [last];
      GroupsAppend(s[1..], last);
      ShlGroup(last.value % 0x80, 7 * (|s| - 1));
    }
  }

  /** Ten groups fit in a `u64` exactly when the last one holds a single bit. */
  lemma TenthGroup(s: Bytes)
    requires |s| == 10 && (forall o <- s :: o.Byte?) && s[9].value < 0x80
    ensures Groups(s) < 0x1_0000_0000_0000_0000 <==> s[9].value <= 1
  {
    hide Shl, Groups;
    var init := s[..9];
    assert s == init + [s[9]];
    assert forall o <- init :: o.Byte?;
    GroupsAppend(init, s[9]);
    GroupsBound(init);
    ShlValues();
    ShlAdd(1, 1, 63);
    if s[9].value <= 1 {
      ShlMonotone(s[9].value, 1, 63);
    } else {
      ShlMonotone(2, s[9].value, 63);
    }
  }

  /** Every accepted value fits in a `u64`. */
  lemma AcceptedFitsU64(s: Bytes)
    requires IsVarint(s)
    ensures Groups(s) < 0x1_0000_0000_0000_0000
  {
    if |s| == MAX_VARINT_LEN {
      TenthGroup(s);
    } else {
      GroupsBound(s);
      GroupWidth(|s|);
    }
  }

  /** The shifts that groups are added at stay within 64 bits. */
  lemma {:induction false} GroupWidth(k: nat)
    requires k <= 9
    ensures Shl(1, 7 * k) <= 0x8000_0000_0000_0000
    decreases 9 - k
  {
    ShlValues();
    if k < 9 {
      GroupWidth(k + 1);
      ShlGroup(1, 7 * k);
    }
  }

  lemma {:induction false} EncodedLength(v: nat, k: nat)
    requires 1 <= k && v < Shl(1, 7 * k)
    ensures |EncodeVarint(v)| <= k
  {
    if v >= 0x80 {
      ShlValues();
      ShlGroup(1, 7 * (k - 1));
      EncodedLength(v / 0x80, k - 1);
    }
  }

  /** What is written for a `u64` is an accepted encoding of one to ten octets. */
  lemma EncodedIsVarint(v: u64)
    ensures IsVarint(EncodeVarint(v)) && Groups(EncodeVarint(v)) == v
  {
    EncodedShape(v);
    ShlValues();
    EncodedLength(v, 10);
    if |EncodeVarint(v)| == 10 {
      TenthGroup(EncodeVarint(v));
    }
  }

  /** Whatever follows it, a written `u64` is read back and exactly its own octets are consumed. */
  lemma VarintRoundTrip(v: u64, rest: Bytes)
    ensures ParseVarint(EncodeVarint(v) + rest, 0) == Ok((v, |EncodeVarint(v)|))
    ensures 1 <= |EncodeVarint(v)| <= MAX_VARINT_LEN
  {
    var e := EncodeVarint(v);
    EncodedIsVarint(v);
    assert (e + rest)[..|e|] == e;
    VarintReadExact(e + rest, v, |e|);
  }

  /** `x` is shorter than `y`, or is `y`. */
  predicate ShorterOrSame(x: Bytes, y: Bytes) {
    |x| <= |y| && (|x| == |y| ==> x == y)
  }

  /** No accepted encoding of a value is shorter than the written one, and none of the same length differs. */
  lemma VarintShortest(s: Bytes, v: nat)
    requires IsVarint(s) && Groups(s) == v
    ensures ShorterOrSame(EncodeVarint(v), s)
  {
    VarintShortestTail(s);
  }

  lemma {:induction false} VarintShortestTail(s: Bytes)
    requires |s| >= 1
    requires forall i :: 0 <= i < |s| ==> s[i].Byte? && (s[i].value >= 0x80 <==> i < |s| - 1)
    ensures |EncodeVarint(Groups(s))| <= |s|
    ensures |EncodeVarint(Groups(s))| == |s| ==> EncodeVarint(Groups(s)) == s
  {
    if |s| == 1 {
      assert Groups(s) == s[0].value % 0x80 + 0x80 * Groups([]);
      assert s == [s[0]];
    } else {
      var t := s[1..];
      VarintShortestTail(t);
      assert Groups(s) / 0x80 == Groups(t) && Groups(s) % 0x80 == s[0].value % 0x80;
      assert s == [s[0]] + t;
    }
  }

  /** No padding: a varint of several groups does not end in an empty one. */
  predicate Unpadded(s: Bytes)
    requires s != []
  {
    |s| == 1 || s[|s| - 1] != Byte(0)
  }

  /** An accepted encoding is the one written for its value exactly if it is not padded. */
  lemma VarintCanonical(s: Bytes)
    requires IsVarint(s)
    ensures EncodeVarint(Groups(s)) == s <==> Unpadded(s)
  {
    VarintCanonicalTail(s);
  }

  lemma {:induction false} VarintCanonicalTail(s: Bytes)
    requires |s| >= 1
    requires forall i :: 0 <= i < |s| ==> s[i].Byte? && (s[i].value >= 0x80 <==> i < |s| - 1)
    ensures EncodeVarint(Groups(s)) == s <==> Unpadded(s)
    ensures Unpadded(s) && |s| > 1 ==> Groups(s) >= 0x80
  {
    if |s| == 1 {
      assert Groups(s) == s[0].value % 0x80 + 0x80 * Groups([]);
      assert s == [s[0]];
    } else {
      var t := s[1..];
      VarintCanonicalTail(t);
      assert s == [s[0]] + t && t[|t| - 1] == s[|s| - 1];
      assert Groups(s) / 0x80 == Groups(t) && Groups(s) % 0x80 == s[0].value % 0x80;
      if |t| == 1 {
        assert Groups(t) == t[0].value + 0x80 * Groups([]);
      }
      if Groups(s) >= 0x80 {
        assert EncodeVarint(Groups(s)) == [s[0]] + EncodeVarint(Groups(t));
        assert EncodeVarint(Groups(s))[1..] == EncodeVarint(Groups(t));
      }
    }
  }

  /** The comment on `read_varint` promises that overlong forms are refused; they are not. */
  lemma PaddedFormAccepted()
    ensures IsVarint([Byte(0x80), Byte(0)])
    ensures Groups([Byte(0x80), Byte(0)]) == 0
    ensures EncodeVarint(0) != [Byte(0x80), Byte(0)]
  {
    assert [Byte(0x80), Byte(0)][1..] == [Byte(0)];
  }

  // ---------- The reader ----------

  /** A forward-only cursor over a byte string. */
  class Reader {
    const buf: Bytes
    var pos: nat

    ghost predicate Valid()
      reads this
    {
      pos <= |buf|
    }

    ghost function Rest(): Bytes
      requires Valid()
      reads this
    {
      buf[pos..]
    }

    constructor (buf: Bytes)
      ensures Valid() && this.buf == buf && pos == 0 && Rest() == buf
    {
      this.buf := buf;
      this.pos := 0;
    }

    method IsEmpty() returns (b: bool)
      requires Valid()
      ensures b <==> Rest() == []
    {
      b := pos >= |buf|;
    }

    method Remaining() returns (n: nat)
      requires Valid()
      ensures n == |Rest()|
    {
      n := |buf| - pos;
    }

    method ReadU8() returns (r: Result<Octet>)
      requires Valid()
      modifies this
      ensures Valid() && pos >= old(pos)
      ensures r.Ok? <==> old(pos) < |buf|
      ensures r.Ok? ==> r.value == buf[old(pos)] && pos == old(pos) + 1
      ensures r.Err? ==> r.error == Wire(UnexpectedEof) && pos == old(pos)
    {
      if pos >= |buf| {
        return Err(Wire(UnexpectedEof));
      }
      var b := buf[pos];
      pos := pos + 1;
      return Ok(b);
    }

    method ReadBytes(len: nat) returns (r: Result<Bytes>)
      requires Valid()
      modifies this
      ensures Valid() && pos >= old(pos)
      ensures r.Ok? <==> len <= |buf| - old(pos)
      ensures r.Ok? ==> pos == old(pos) + len && r.value == buf[old(pos)..pos]
      ensures r.Err? ==> r.error == Wire(UnexpectedEof) && pos == old(pos)
    {
      var end := pos + len;
      if end > |buf| {
        return Err(Wire(UnexpectedEof));
      }
      var slice := buf[pos..end];
      pos := end;
      return Ok(slice);
    }

    /** Reads one varint: `ParseVarint` on what is left, computed with a 64-bit accumulator. */
    method ReadVarint() returns (r: Result<u64>)
      requires Valid()
      modifies this
      ensures Valid() && pos >= old(pos)
      ensures match ParseVarint(old(Rest()), 0)
              case Ok((v, n)) => r == Ok(v) && pos == old(pos) + n
              case Err(e) => r == Err(e)
    {
      AccumulateIsParse(Rest());
      var result: nat := 0;
      var shift: nat := 0;
      ghost var whole := Accumulate(Rest(), 0, 0, 0);
      for k := 0 to MAX_VARINT_LEN
        invariant Valid() && pos == old(pos) + k && shift == 7 * k
        invariant whole == Accumulate(Rest(), k, shift, result)
      {
        ghost var before := Rest();
        var byte :- ReadU8();
        assert before[1..] == Rest();
        if !byte.Byte? {
          return Err(Wire(OpaqueOctet));
        }
        var payload := byte.value % 0x80;
        // Nine groups fill 63 bits.
        if shift == 63 && payload > 1 {
          return Err(Wire(VarintOverflow));
        }
        result := BitOr(result, ShiftLeft(payload, shift));
        if byte.value < 0x80 {
          return Ok(result);
        }
        shift := shift + 7;
      }
      return Err(Wire(VarintOverflow));
    }
  }

  /** Reading with an accumulator: each group is shifted within 64 bits and or-ed in. */
  function Accumulate(s: Bytes, k: nat, shift: nat, result: nat): Result<(nat, nat)>
    requires k <= MAX_VARINT_LEN
    decreases MAX_VARINT_LEN - k
  {
    if k == MAX_VARINT_LEN then Err(Wire(VarintOverflow))
    else if s == [] then Err(Wire(UnexpectedEof))
    else if !s[0].Byte? then Err(Wire(OpaqueOctet))
    else
      var payload := s[0].value % 0x80;
      if shift == 63 && payload > 1 then Err(Wire(VarintOverflow))
      else
        var sum := BitOr(result, ShiftLeft(payload, shift));
        if s[0].value < 0x80 then Ok((sum, k + 1)) else Accumulate(s[1..], k + 1, shift + 7, sum)
  }

  /** What reading gives when `k` groups summing to `result` precede a string that parses as `rest`. */
  function Prefixed(result: nat, k: nat, shift: nat, rest: Result<(nat, nat)>): Result<(nat, nat)> {
    match rest
    case Ok((v, n)) => Ok((result + Shl(v, shift), n + k))
    case Err(e) => Err(e)
  }

  lemma {:induction false} AccumulateResumes(s: Bytes, k: nat, shift: nat, result: nat)
    requires k <= MAX_VARINT_LEN && shift == 7 * k && result < Shl(1, shift)
    ensures Accumulate(s, k, shift, result) == Prefixed(result, k, shift, ParseVarint(s, k))
    decreases MAX_VARINT_LEN - k
  {
    hide BitOr, ShiftLeft;
    if k < MAX_VARINT_LEN && s != [] && s[0].Byte? {
      var payload := s[0].value % 0x80;
      if k < 9 || payload <= 1 {
        var sum := BitOr(result, ShiftLeft(payload, shift));
        AddGroup(result, payload, k, shift);
        if s[0].value >= 0x80 {
          AccumulateResumes(s[1..], k + 1, shift + 7, sum);
          PrefixedStep(result, payload, k, shift, ParseVarint(s[1..], k + 1));
        }
      }
    }
  }

  lemma PrefixedStep(result: nat, payload: nat, k: nat, shift: nat, rest: Result<(nat, nat)>)
    ensures Prefixed(result + Shl(payload, shift), k + 1, shift + 7, rest)
         == Prefixed(result, k, shift,
                     if rest.Ok? then Ok((payload + 0x80 * rest.value.0, rest.value.1 + 1)) else rest)
  {
    if rest.Ok? {
      ShlAdd(payload, 0x80 * rest.value.0, shift);
      ShlGroup(rest.value.0, shift);
    }
  }

  /** The 64-bit accumulator loses no bit: it ends with the base-128 sum, below 2^64. */
  lemma AccumulateIsParse(s: Bytes)
    ensures Accumulate(s, 0, 0, 0) == ParseVarint(s, 0)
    ensures ParseVarint(s, 0).Ok? ==> ParseVarint(s, 0).value.0 < 0x1_0000_0000_0000_0000
  {
    AccumulateResumes(s, 0, 0, 0);
    if ParseVarint(s, 0).Ok? {
      var (v, n) := ParseVarint(s, 0).value;
      VarintReadExact(s, v, n);
      AcceptedFitsU64(s[..n]);
    }
  }

  /** Or-ing a shifted group into the accumulator adds it, within 64 bits. */
  lemma AddGroup(result: nat, payload: nat, k: nat, s: nat)
    requires k <= 9 && s == 7 * k && payload < 0x80 && (k == 9 ==> payload <= 1) && result < Shl(1, s)
    ensures BitOr(result, ShiftLeft(payload, s)) == result + Shl(payload, s)
    ensures result + Shl(payload, s) < 0x1_0000_0000_0000_0000
    ensures result + Shl(payload, s) < Shl(1, s + 7)
  {
    assert result + Shl(payload, s) < Shl(1, s + 7) by {
      ShlAdd(1, payload, s);
      ShlMonotone(1 + payload, 0x80, s);
      ShlGroup(1, s);
    }
    assert result + Shl(payload, s) < 0x1_0000_0000_0000_0000 by {
      if k == 9 {
        ShlValues();
        ShlMonotone(payload, 1, 63);
      } else {
        GroupWidth(k + 1);
      }
    }
    BitOrDisjoint(result, payload, s);
  }
}
