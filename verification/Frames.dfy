/**
 The version-1 frame: a two-octet prelude, a capability-flags varint, then tag-length-value fields.
 */
module Frames {
  import opened Octets
  import opened Varint

  const MAGIC: u8 := 0xB0
  const WIRE_VERSION: u8 := 0x01

  const TAG_IDENTITY_PUB: u64 := 0x01
  const TAG_PREKEY_BUNDLE: u64 := 0x02
  const TAG_QUEUE_URI: u64 := 0x03
  const TAG_INVITE_NONCE: u64 := 0x04
  const TAG_EXPIRY: u64 := 0x05
  const TAG_SIGNATURE: u64 := 0x06
  const TAG_CONTEXT: u64 := 0x07
  const TAG_PREKEY_X25519: u64 := 0x08
  const TAG_MLKEM_EK: u64 := 0x09
  const TAG_ONETIME_PREKEY: u64 := 0x0a
  const TAG_EPHEMERAL_X25519: u64 := 0x0b
  const TAG_KEM_CT: u64 := 0x0c
  const TAG_QUEUE_ID: u64 := 0x0d
  const TAG_RELAY_URL: u64 := 0x0e
  const TAG_CA_FINGERPRINT: u64 := 0x0f
  const TAG_RATCHET_DH: u64 := 0x10
  const TAG_RATCHET_PN: u64 := 0x11
  const TAG_RATCHET_N: u64 := 0x12
  const TAG_CIPHERTEXT: u64 := 0x13

  datatype Field = Field(tag: u64, value: Bytes)

  datatype Frame = Frame(flags: u64, fields: seq<Field>)

  /** Field lengths are `u64`; every buffer that fits in memory satisfies this. */
  predicate Sized(fs: seq<Field>) {
    forall i :: 0 <= i < |fs| ==> |fs[i].value| < 0x1_0000_0000_0000_0000
  }

  // ---------- Looking up fields ----------

  /** The value of the first field carrying `tag`. */
  function Get(fs: seq<Field>, tag: u64): Option<Bytes> {
    if fs == [] then None
    else if fs[0].tag == tag then Some(fs[0].value)
    else Get(fs[1..], tag)
  }

  /** A field is found by its tag when no earlier field carries that tag. */
  lemma {:induction false} GetAt(fs: seq<Field>, i: nat)
    requires i < |fs| && forall j :: 0 <= j < i ==> fs[j].tag != fs[i].tag
    ensures Get(fs, fs[i].tag) == Some(fs[i].value)
  {
    if i > 0 {
      assert fs[1..][i - 1] == fs[i];
      assert forall j :: 0 <= j < i - 1 ==> fs[1..][j] == fs[j + 1];
      GetAt(fs[1..], i - 1);
    }
  }

  /** No field is found when none carries the tag. */
  lemma {:induction false} GetNone(fs: seq<Field>, tag: u64)
    requires forall j :: 0 <= j < |fs| ==> fs[j].tag != tag
    ensures Get(fs, tag) == None
  {
    if fs != [] {
      assert forall j :: 0 <= j < |fs| - 1 ==> fs[1..][j] == fs[j + 1];
      GetNone(fs[1..], tag);
    }
  }

  /** The first field with this tag has this value. */
  ghost predicate Carries(fs: seq<Field>, tag: u64, value: Bytes) {
    exists i :: CarriesAt(fs, tag, value, i)
  }

  ghost predicate CarriesAt(fs: seq<Field>, tag: u64, value: Bytes, i: int) {
    0 <= i < |fs| && fs[i].tag == tag && fs[i].value == value && forall j :: 0 <= j < i ==> fs[j].tag != tag
  }

  /** No field has this tag. */
  ghost predicate Lacks(fs: seq<Field>, tag: u64) {
    forall j :: 0 <= j < |fs| ==> fs[j].tag != tag
  }

  /** Looking up a tag finds the value of the first field that carries it, and nothing exactly if none does. */
  lemma {:induction false} GetExact(fs: seq<Field>, tag: u64)
    ensures forall value :: Get(fs, tag) == Some(value) <==> Carries(fs, tag, value)
    ensures Get(fs, tag) == None <==> Lacks(fs, tag)
  {
    if i :| 0 <= i < |fs| && fs[i].tag == tag {
      var first := FirstWith(fs, tag, i);
      GetAt(fs, first);
      assert CarriesAt(fs, tag, fs[first].value, first);
      forall value | Carries(fs, tag, value)
        ensures value == fs[first].value
      {
        var k :| CarriesAt(fs, tag, value, k);
        assert k == first;
      }
    } else {
      GetNone(fs, tag);
    }
  }

  lemma {:induction false} FirstWith(fs: seq<Field>, tag: u64, i: nat) returns (first: nat)
    requires i < |fs| && fs[i].tag == tag
    ensures first < |fs| && fs[first].tag == tag && forall j :: 0 <= j < first ==> fs[j].tag != tag
    decreases i
  {
    first := i;
    if j :| 0 <= j < i && fs[j].tag == tag {
      first := FirstWith(fs, tag, j);
    }
  }

  function Require(fs: seq<Field>, tag: u64): Result<Bytes> {
    match Get(fs, tag)
    case Some(v) => Ok(v)
    case None => Err(Wire(MissingField(tag)))
  }

  // ---------- Encoding ----------

  function EncodeField(f: Field): Bytes {
    EncodeVarint(f.tag) + EncodeVarint(|f.value|) + f.value
  }

  function EncodeFields(fs: seq<Field>): Bytes {
    if fs == [] then [] else EncodeField(fs[0]) + EncodeFields(fs[1..])
  }

  function EncodeFrame(f: Frame): Bytes {
    [Byte(MAGIC), Byte(WIRE_VERSION)] + EncodeVarint(f.flags) + EncodeFields(f.fields)
  }

  /** Serialises a frame field by field. */
  method Encode(f: Frame) returns (out: Bytes)
    requires Sized(f.fields)
    ensures out == EncodeFrame(f)
  {
    hide EncodeVarint;
    out := [];
    out := out + [Byte(MAGIC)];
    out := out + [Byte(WIRE_VERSION)];
    out := WriteVarint(out, f.flags);
    for i := 0 to |f.fields|
      invariant out + EncodeFields(f.fields[i..]) == EncodeFrame(f)
    {
      ghost var before := out;
      out := WriteVarint(out, f.fields[i].tag);
      out := WriteVarint(out, |f.fields[i].value|);
      out := out + f.fields[i].value;
      assert out == before + EncodeField(f.fields[i]);
      assert f.fields[i..][1..] == f.fields[i + 1..];
      assert before + (EncodeField(f.fields[i]) + EncodeFields(f.fields[i + 1..])) == out + EncodeFields(f.fields[i + 1..]);
    }
    assert f.fields[|f.fields|..] == [];
    assert out + [] == out;
  }

  // ---------- Decoding ----------

  function TakeVarint(s: Bytes): (r: Result<(u64, nat)>)
    ensures r.Ok? ==> 1 <= r.value.1 <= |s|
  {
    var (v, n) :- ParseVarint(s, 0);
    VarintReadExact(s, v, n);
    AcceptedFitsU64(s[..n]);
    Ok((v, n))
  }

  /** The field `s` starts with, and the number of octets it takes. */
  function TakeField(s: Bytes): (r: Result<(Field, nat)>)
    ensures r.Ok? ==> 1 <= r.value.1 <= |s| && |r.value.0.value| < 0x1_0000_0000_0000_0000
  {
    var (tag, a) :- TakeVarint(s);
    var (len, b) :- TakeVarint(s[a..]);
    if len > |s| - a - b then Err(Wire(UnexpectedEof))
    else Ok((Field(tag, s[a + b..a + b + len]), a + b + len))
  }

  function ParseFields(s: Bytes): Result<seq<Field>> {
    if s == [] then Ok([])
    else
      var (f, n) :- TakeField(s);
      var fs :- ParseFields(s[n..]);
      Ok([f] + fs)
  }

  function DecodeFrame(s: Bytes): Result<Frame> {
    if s == [] then Err(Wire(UnexpectedEof))
    else if s[0] != Byte(MAGIC) then Err(Wire(BadMagic(s[0])))
    else if |s| == 1 then Err(Wire(UnexpectedEof))
    else if s[1] != Byte(WIRE_VERSION) then Err(Wire(UnsupportedVersion(s[1])))
    else
      var (flags, n) :- TakeVarint(s[2..]);
      var fields :- ParseFields(s[2 + n..]);
      Ok(Frame(flags, fields))
  }

  lemma SliceOfRest(buf: Bytes, pos: nat, from: nat, len: nat)
    requires pos + from + len <= |buf|
    ensures buf[pos + from..pos + from + len] == buf[pos..][from..from + len]
  {
  }

  /** Reads one field: a tag, a length checked against what is left, and that many octets. */
  method ReadField(reader: Reader) returns (r: Result<Field>)
    requires reader.Valid()
    modifies reader
    ensures reader.Valid()
    ensures match TakeField(old(reader.Rest()))
            case Ok((f, n)) => r == Ok(f) && reader.pos == old(reader.pos) + n
            case Err(e) => r == Err(e)
  {
    hide ParseVarint;
    ghost var s := reader.Rest();
    var tag :- reader.ReadVarint();
    ghost var a := TakeVarint(s).value.1;
    assert reader.Rest() == s[a..];
    var len :- reader.ReadVarint();
    ghost var b := TakeVarint(s[a..]).value.1;
    var remaining := reader.Remaining();
    if len > remaining {
      return Err(Wire(UnexpectedEof));
    }
    var bytes := reader.ReadBytes(len);
    ghost var from := old(reader.pos) + a + b;
    assert bytes.Ok? && bytes.value == reader.buf[from..from + len];
    SliceOfRest(reader.buf, old(reader.pos), a + b, len);
    return Ok(Field(tag, bytes.value));
  }

  /** Parses a frame with a reader, collecting fields until the input is used up. */
  method Decode(buf: Bytes) returns (r: Result<Frame>)
    ensures r == DecodeFrame(buf)
  {
    hide ParseVarint, ParseFields;
    var reader := new Reader(buf);
    var magic :- reader.ReadU8();
    if magic != Byte(MAGIC) {
      return Err(Wire(BadMagic(magic)));
    }
    var version :- reader.ReadU8();
    if version != Byte(WIRE_VERSION) {
      return Err(Wire(UnsupportedVersion(version)));
    }
    assert reader.Rest() == buf[2..];
    var flags :- reader.ReadVarint();
    var fields :- ReadFields(reader);
    return Ok(Frame(flags, fields));
  }

  method ReadFields(reader: Reader) returns (r: Result<seq<Field>>)
    requires reader.Valid()
    modifies reader
    ensures r == ParseFields(old(reader.Rest()))
  {
    hide TakeField;
    var fields: seq<Field> := [];
    ghost var all := ParseFields(reader.Rest());
    assert all.Ok? ==> [] + all.value == all.value;
    while true
      invariant reader.Valid()
      invariant Follows(all, fields, ParseFields(reader.Rest()))
      decreases |reader.buf| - reader.pos
    {
      var done := reader.IsEmpty();
      if done {
        assert fields + [] == fields;
        return Ok(fields);
      }
      ghost var s := reader.Rest();
      var field :- ReadField(reader);
      assert reader.Rest() == s[TakeField(s).value.1..];
      FollowsStep(all, fields, s);
      fields := fields + [field];
    }
  }

  /** With `fields` collected, parsing what is left gives `rest`, so that parsing everything gives `all`. */
  ghost predicate Follows(all: Result<seq<Field>>, fields: seq<Field>, rest: Result<seq<Field>>) {
    match rest
    case Ok(fs) => all == Ok(fields + fs)
    case Err(e) => all == Err(e)
  }

  lemma FollowsStep(all: Result<seq<Field>>, fields: seq<Field>, s: Bytes)
    requires s != [] && Follows(all, fields, ParseFields(s)) && TakeField(s).Ok?
    ensures var (f, n) := TakeField(s).value; Follows(all, fields + [f], ParseFields(s[n..]))
  {
    var (f, n) := TakeField(s).value;
    var rest := ParseFields(s[n..]);
    if rest.Ok? {
      assert fields + ([f] + rest.value) == fields + [f] + rest.value;
    }
  }

  // ---------- The grammar ----------

  ghost predicate IsField(s: Bytes, f: Field) {
    exists a: nat, b: nat :: IsFieldAt(s, f, a, b)
  }

  ghost predicate IsFieldAt(s: Bytes, f: Field, a: nat, b: nat) {
    && a <= b <= |s|
    && IsVarint(s[..a]) && Groups(s[..a]) == f.tag
    && IsVarint(s[a..b]) && Groups(s[a..b]) == |f.value|
    && s[b..] == f.value
  }

  ghost predicate IsFieldList(s: Bytes, fs: seq<Field>) {
    if fs == [] then s == []
    else exists n: nat :: n <= |s| && IsField(s[..n], fs[0]) && IsFieldList(s[n..], fs[1..])
  }

  /** The octet strings that denote frame `f`: prelude, flags, then the fields in order, each varint in any
      accepted form. */
  ghost predicate IsFrame(s: Bytes, f: Frame) {
    exists n: nat :: IsFrameAt(s, f, n)
  }

  ghost predicate IsFrameAt(s: Bytes, f: Frame, n: nat) {
    && 2 <= n <= |s| && s[0] == Byte(MAGIC) && s[1] == Byte(WIRE_VERSION)
    && IsVarint(s[2..n]) && Groups(s[2..n]) == f.flags
    && IsFieldList(s[n..], f.fields)
  }

  lemma TakeVarintExact(s: Bytes, v: u64, n: nat)
    ensures TakeVarint(s) == Ok((v, n)) <==> n <= |s| && IsVarint(s[..n]) && Groups(s[..n]) == v
  {
    VarintReadExact(s, v, n);
  }

  lemma TakeFieldSound(s: Bytes)
    requires TakeField(s).Ok?
    ensures var (f, n) := TakeField(s).value; IsField(s[..n], f)
  {
    hide TakeVarint, IsVarint, Groups;
    var (f, n) := TakeField(s).value;
    var (tag, a) := TakeVarint(s).value;
    var (len, b) := TakeVarint(s[a..]).value;
    TakeVarintExact(s, tag, a);
    TakeVarintExact(s[a..], len, b);
    var t := s[..n];
    assert t[..a] == s[..a] && t[a..a + b] == s[a..][..b] && t[a + b..] == f.value;
    assert IsFieldAt(t, f, a, a + b);
  }

  lemma TakeFieldComplete(s: Bytes, f: Field, n: nat)
    requires n <= |s| && IsField(s[..n], f)
    ensures TakeField(s) == Ok((f, n)) && n >= 1
  {
    var t := s[..n];
    var a: nat, b: nat :| IsFieldAt(t, f, a, b);
    assert s[..a] == t[..a] && s[a..][..b - a] == t[a..b] && s[b..n] == t[b..];
    TakeFieldCompleteAt(s, f, n, a, b);
  }

  lemma TakeFieldCompleteAt(s: Bytes, f: Field, n: nat, a: nat, b: nat)
    requires a <= b <= n <= |s| && s[b..n] == f.value
    requires IsVarint(s[..a]) && Groups(s[..a]) == f.tag
    requires IsVarint(s[a..][..b - a]) && Groups(s[a..][..b - a]) == |f.value|
    ensures TakeField(s) == Ok((f, n)) && n >= 1
  {
    hide IsVarint, Groups, ParseVarint;
    AcceptedFitsU64(s[a..][..b - a]);
    TakeVarintExact(s, f.tag, a);
    TakeVarintExact(s[a..], |f.value|, b - a);
  }

  lemma {:induction false} ParseFieldsExact(s: Bytes, fs: seq<Field>)
    ensures ParseFields(s) == Ok(fs) <==> IsFieldList(s, fs)
    decreases |fs|
  {
    hide TakeField, IsField;
    if fs == [] {
    } else {
      if ParseFields(s) == Ok(fs) {
        var (f, n) := TakeField(s).value;
        TakeFieldSound(s);
        var rest := ParseFields(s[n..]).value;
        assert fs == [f] + rest && fs[1..] == rest;
        ParseFieldsExact(s[n..], fs[1..]);
      }
      if IsFieldList(s, fs) {
        var n: nat :| n <= |s| && IsField(s[..n], fs[0]) && IsFieldList(s[n..], fs[1..]);
        TakeFieldComplete(s, fs[0], n);
        ParseFieldsExact(s[n..], fs[1..]);
        assert [fs[0]] + fs[1..] == fs;
      }
    }
  }

  /** The decoder accepts exactly the strings of the grammar, and yields the frame they denote. */
  lemma FrameDecodeExact(s: Bytes, f: Frame)
    ensures DecodeFrame(s) == Ok(f) <==> IsFrame(s, f)
  {
    hide Groups, ParseVarint, ParseFields, IsFieldList;
    if DecodeFrame(s) == Ok(f) {
      var (flags, n) := TakeVarint(s[2..]).value;
      TakeVarintExact(s[2..], flags, n);
      assert s[2..][..n] == s[2..2 + n];
      ParseFieldsExact(s[2 + n..], f.fields);
      assert IsFrameAt(s, f, 2 + n);
    }
    if IsFrame(s, f) {
      var n: nat :| IsFrameAt(s, f, n);
      assert s[2..][..n - 2] == s[2..n];
      TakeVarintExact(s[2..], f.flags, n - 2);
      ParseFieldsExact(s[n..], f.fields);
    }
  }

  /** What is wrong with a prelude is named: too short, a foreign first octet, or another version. */
  lemma PreludeRefused(s: Bytes)
    ensures |s| == 0 ==> DecodeFrame(s) == Err(Wire(UnexpectedEof))
    ensures |s| >= 1 && s[0] != Byte(0xB0) ==> DecodeFrame(s) == Err(Wire(BadMagic(s[0])))
    ensures |s| == 1 && s[0] == Byte(0xB0) ==> DecodeFrame(s) == Err(Wire(UnexpectedEof))
    ensures |s| >= 2 && s[0] == Byte(0xB0) && s[1] != Byte(0x01) ==> DecodeFrame(s) == Err(Wire(UnsupportedVersion(s[1])))
  {
    hide TakeVarint, ParseFields;
  }

  /** A field whose announced length exceeds what is left is refused as truncated. */
  lemma TruncatedRefused(s: Bytes)
    requires TakeVarint(s).Ok? && TakeVarint(s[TakeVarint(s).value.1..]).Ok?
    ensures var a := TakeVarint(s).value.1;
            var (len, b) := TakeVarint(s[a..]).value;
            len > |s| - a - b <==> TakeField(s) == Err(Wire(UnexpectedEof))
  {
    hide TakeVarint;
  }

  // ---------- Round trips ----------

  lemma EncodedIsField(f: Field)
    requires |f.value| < 0x1_0000_0000_0000_0000
    ensures IsField(EncodeField(f), f)
  {
    EncodedIsVarint(f.tag);
    EncodedIsVarint(|f.value|);
    var s := EncodeField(f);
    var a, b := |EncodeVarint(f.tag)|, |EncodeVarint(f.tag)| + |EncodeVarint(|f.value|)|;
    assert s[..a] == EncodeVarint(f.tag) && s[a..b] == EncodeVarint(|f.value|) && s[b..] == f.value;
    assert IsFieldAt(s, f, a, b);
  }

  lemma {:induction false} EncodedIsFieldList(fs: seq<Field>)
    requires Sized(fs)
    ensures IsFieldList(EncodeFields(fs), fs)
  {
    if fs != [] {
      EncodedIsField(fs[0]);
      EncodedIsFieldList(fs[1..]);
      var n := |EncodeField(fs[0])|;
      assert EncodeFields(fs)[..n] == EncodeField(fs[0]) && EncodeFields(fs)[n..] == EncodeFields(fs[1..]);
    }
  }

  /** Decoding inverts encoding on every frame. */
  lemma FrameRoundTrip(f: Frame)
    requires Sized(f.fields)
    ensures DecodeFrame(EncodeFrame(f)) == Ok(f)
  {
    EncodedIsVarint(f.flags);
    EncodedIsFieldList(f.fields);
    var s := EncodeFrame(f);
    var n := 2 + |EncodeVarint(f.flags)|;
    assert s[2..n] == EncodeVarint(f.flags) && s[n..] == EncodeFields(f.fields);
    assert IsFrameAt(s, f, n);
    FrameDecodeExact(s, f);
  }

  lemma ConcatShortest(x: Bytes, x': Bytes, y: Bytes, y': Bytes)
    requires ShorterOrSame(x, x') && ShorterOrSame(y, y')
    ensures ShorterOrSame(x + y, x' + y')
  {
  }

  lemma FieldShortest(s: Bytes, f: Field)
    requires IsField(s, f)
    ensures |f.value| < 0x1_0000_0000_0000_0000 && ShorterOrSame(EncodeField(f), s)
  {
    var a: nat, b: nat :| IsFieldAt(s, f, a, b);
    FieldAtShortest(s, f, s[..a], s[a..b], a, b);
  }

  lemma FieldAtShortest(s: Bytes, f: Field, x: Bytes, y: Bytes, a: nat, b: nat)
    requires a <= b <= |s| && x == s[..a] && y == s[a..b] && s[b..] == f.value
    requires IsVarint(x) && Groups(x) == f.tag && IsVarint(y) && Groups(y) == |f.value|
    ensures |f.value| < 0x1_0000_0000_0000_0000 && ShorterOrSame(EncodeField(f), s)
  {
    AcceptedFitsU64(y);
    VarintShortest(x, f.tag);
    VarintShortest(y, |f.value|);
    ConcatShortest(EncodeVarint(f.tag), x, EncodeVarint(|f.value|), y);
    ConcatShortest(EncodeVarint(f.tag) + EncodeVarint(|f.value|), x + y, f.value, f.value);
    assert s == x + y + f.value;
  }

  lemma {:induction false} FieldListShortest(s: Bytes, fs: seq<Field>)
    requires IsFieldList(s, fs)
    ensures Sized(fs) && ShorterOrSame(EncodeFields(fs), s)
    decreases |fs|
  {
    hide IsVarint, Groups, IsField, EncodeVarint;
    if fs != [] {
      var n: nat :| n <= |s| && IsField(s[..n], fs[0]) && IsFieldList(s[n..], fs[1..]);
      FieldShortest(s[..n], fs[0]);
      FieldListShortest(s[n..], fs[1..]);
      ConcatShortest(EncodeField(fs[0]), s[..n], EncodeFields(fs[1..]), s[n..]);
      assert s == s[..n] + s[n..];
      assert forall i :: 1 <= i < |fs| ==> fs[i] == fs[1..][i - 1];
    }
  }

  /** Re-encoding whatever was accepted gives a string that denotes the same frame and is never longer; it is the
      input itself exactly when no varint of the input was padded. */
  lemma FrameReencode(s: Bytes)
    requires DecodeFrame(s).Ok?
    ensures var f := DecodeFrame(s).value;
            && Sized(f.fields)
            && DecodeFrame(EncodeFrame(f)) == Ok(f)
            && |EncodeFrame(f)| <= |s|
            && (EncodeFrame(f) == s <==> |EncodeFrame(f)| == |s|)
            && (EncodeFrame(f) == s <==> FrameUnpadded(s))
  {
    hide FrameUnpadded;
    var f := DecodeFrame(s).value;
    FrameCanonical(s);
    FrameDecodeExact(s, f);
    FrameShortest(s, f);
    FrameRoundTrip(f);
  }

  lemma FrameShortest(s: Bytes, f: Frame)
    requires IsFrame(s, f)
    ensures Sized(f.fields) && ShorterOrSame(EncodeFrame(f), s)
  {
    var n: nat :| IsFrameAt(s, f, n);
    assert s == s[..2] + s[2..n] + s[n..];
    FrameAtShortest(s, f, s[..2], s[2..n], s[n..]);
  }

  lemma FrameAtShortest(s: Bytes, f: Frame, prelude: Bytes, flags: Bytes, fields: Bytes)
    requires prelude == [Byte(MAGIC), Byte(WIRE_VERSION)] && s == prelude + flags + fields
    requires IsVarint(flags) && Groups(flags) == f.flags && IsFieldList(fields, f.fields)
    ensures Sized(f.fields) && ShorterOrSame(EncodeFrame(f), s)
  {
    VarintShortest(flags, f.flags);
    FieldListShortest(fields, f.fields);
    ConcatShortest(prelude, prelude, EncodeVarint(f.flags), flags);
    ConcatShortest(prelude + EncodeVarint(f.flags), prelude + flags, EncodeFields(f.fields), fields);
  }

  // ---------- Padding ----------

  /** The varint a string starts with is unpadded. */
  predicate StartsUnpadded(s: Bytes) {
    match TakeVarint(s)
    case Ok((_, n)) => Unpadded(s[..n])
    case Err(_) => false
  }

  /** The varints a field starts with are both unpadded. */
  predicate FieldUnpadded(s: Bytes) {
    match TakeVarint(s)
    case Ok((_, a)) => StartsUnpadded(s) && StartsUnpadded(s[a..])
    case Err(_) => false
  }

  predicate FieldsUnpadded(s: Bytes) {
    s == [] || match TakeField(s)
               case Ok((_, n)) => FieldUnpadded(s) && FieldsUnpadded(s[n..])
               case Err(_) => false
  }

  /** No varint of the string is padded: not the flags, not a tag, not a length. */
  predicate FrameUnpadded(s: Bytes) {
    |s| >= 2 && match TakeVarint(s[2..])
                case Ok((_, n)) => StartsUnpadded(s[2..]) && FieldsUnpadded(s[2 + n..])
                case Err(_) => false
  }

  lemma TakeVarintCanonical(s: Bytes)
    requires TakeVarint(s).Ok?
    ensures var (v, n) := TakeVarint(s).value;
            && ShorterOrSame(EncodeVarint(v), s[..n])
            && (EncodeVarint(v) == s[..n] <==> StartsUnpadded(s))
  {
    var (v, n) := TakeVarint(s).value;
    TakeVarintExact(s, v, n);
    VarintShortest(s[..n], v);
    VarintCanonical(s[..n]);
  }

  /** Concatenations agree exactly if their parts do, once the parts are known to be no longer. */
  lemma ConcatSame(x: Bytes, x': Bytes, y: Bytes, y': Bytes)
    requires ShorterOrSame(x, x') && ShorterOrSame(y, y')
    ensures x + y == x' + y' <==> x == x' && y == y'
  {
    if x + y == x' + y' {
      assert |x + y| == |x' + y'|;
    }
  }

  lemma FieldCanonical(s: Bytes)
    requires TakeField(s).Ok?
    ensures var (f, n) := TakeField(s).value;
            && ShorterOrSame(EncodeField(f), s[..n])
            && (EncodeField(f) == s[..n] <==> FieldUnpadded(s))
  {
    hide TakeVarint, EncodeVarint;
    var (f, n) := TakeField(s).value;
    var (tag, a) := TakeVarint(s).value;
    var (len, b) := TakeVarint(s[a..]).value;
    TakeVarintCanonical(s);
    TakeVarintCanonical(s[a..]);
    var x, y, x', y' := EncodeVarint(tag), EncodeVarint(len), s[..a], s[a..][..b];
    assert s[..n] == x' + y' + f.value;
    ConcatShortest(x, x', y, y');
    ConcatShortest(x + y, x' + y', f.value, f.value);
    ConcatSame(x, x', y, y');
    ConcatSame(x + y, x' + y', f.value, f.value);
  }

  lemma {:induction false} FieldsCanonical(s: Bytes)
    requires ParseFields(s).Ok?
    ensures var fs := ParseFields(s).value;
            ShorterOrSame(EncodeFields(fs), s) && (EncodeFields(fs) == s <==> FieldsUnpadded(s))
  {
    hide TakeField, EncodeField, FieldUnpadded;
    if s != [] {
      var (f, n) := TakeField(s).value;
      FieldCanonical(s);
      FieldsCanonical(s[n..]);
      var rest := ParseFields(s[n..]).value;
      assert ParseFields(s).value == [f] + rest && ([f] + rest)[1..] == rest;
      assert s == s[..n] + s[n..];
      ConcatShortest(EncodeField(f), s[..n], EncodeFields(rest), s[n..]);
      ConcatSame(EncodeField(f), s[..n], EncodeFields(rest), s[n..]);
    }
  }

  /** Re-encoding an accepted string gives it back exactly if none of its varints is padded. */
  lemma FrameCanonical(s: Bytes)
    requires DecodeFrame(s).Ok?
    ensures EncodeFrame(DecodeFrame(s).value) == s <==> FrameUnpadded(s)
  {
    hide TakeVarint, ParseFields, EncodeFields, EncodeVarint, FieldsUnpadded;
    var (flags, n) := TakeVarint(s[2..]).value;
    var fields := ParseFields(s[2 + n..]).value;
    TakeVarintCanonical(s[2..]);
    FieldsCanonical(s[2 + n..]);
    var prelude := [Byte(MAGIC), Byte(WIRE_VERSION)];
    var x, x', y, y' := EncodeVarint(flags), s[2..][..n], EncodeFields(fields), s[2 + n..];
    assert s == prelude + x' + y';
    ConcatShortest(prelude, prelude, x, x');
    ConcatSame(prelude, prelude, x, x');
    ConcatSame(prelude + x, prelude + x', y, y');
  }

  /** Distinct frames have distinct encodings. */
  lemma EncodeInjective(f: Frame, g: Frame)
    requires Sized(f.fields) && Sized(g.fields) && EncodeFrame(f) == EncodeFrame(g)
    ensures f == g
  {
    FrameRoundTrip(f);
    FrameRoundTrip(g);
  }

  /** Frames whose first values differ in length have distinct encodings, whatever follows. */
  lemma FirstLengthApart(x: seq<Field>, y: seq<Field>)
    requires Sized(x) && Sized(y) && x != [] && y != [] && |x[0].value| != |y[0].value|
    ensures EncodeFrame(Frame(0, x)) != EncodeFrame(Frame(0, y))
  {
    hide EncodeFrame, DecodeFrame;
    FrameRoundTrip(Frame(0, x));
    FrameRoundTrip(Frame(0, y));
  }

  /** A padded flags varint is accepted, and lost on re-encoding. */
  lemma PaddedFrameAccepted()
    ensures var s := [Byte(0xB0), Byte(0x01), Byte(0x80), Byte(0x00)];
            DecodeFrame(s) == Ok(Frame(0, [])) && EncodeFrame(Frame(0, [])) != s
  {
    var s := [Byte(0xB0), Byte(0x01), Byte(0x80), Byte(0x00)];
    PaddedFormAccepted();
    assert s[2..4] == [Byte(0x80), Byte(0)];
    assert s[4..] == [];
    assert IsFrameAt(s, Frame(0, []), 4);
    FrameDecodeExact(s, Frame(0, []));
  }
}
