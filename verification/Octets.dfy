/**
 Symbolic octets: the byte strings every other module works on.

 A string is a sequence of octets. An octet is either a literal byte, whose value everybody knows, or one octet
 of the output of a cryptographic function applied to given arguments. Two outputs are equal only when they come
 from the same function and the same arguments: this is the free-term idealisation of HKDF, X25519, ML-KEM,
 ML-DSA and XChaCha20-Poly1305, and it is made here once. A string of literal bytes is an ordinary byte string.
 */
module Octets {

  type u8 = x: int | 0 <= x < 0x100
  type u32 = x: int | 0 <= x < 0x1_0000_0000
  type u64 = x: int | 0 <= x < 0x1_0000_0000_0000_0000

  /** The cryptographic functions whose outputs occur in strings. */
  datatype Op =
    | Boxed
    | Drawn  // fresh randomness
    | X25519Public
    | X25519Shared
    | RootStep
    | ChainStart
    | NextChain
    | MessageKey
    | SealKey
    | SealNonce
    | Sealed
    | HandshakeRoot
    | KemPublic
    | KemCiphertext
    | KemShared
    | KemReject
    | IdentityPublic
    | Signed

  datatype Octet = Byte(value: u8) | Of(op: Op, args: seq<Octet>, at: nat)

  type Bytes = seq<Octet>

  /** One octet standing for a whole string, so that several arguments fit in one argument list. */
  function Box(s: Bytes): Octet {
    Of(Boxed, s, 0)
  }

  /** `len` octets of the output of `op` on `args`. */
  function Derive(op: Op, args: seq<Octet>, len: nat): (r: Bytes)
    ensures |r| == len
    ensures forall i :: 0 <= i < len ==> r[i] == Of(op, args, i)
  {
    seq(len, i requires 0 <= i < len => Of(op, args, i))
  }

  // ---------- A total order on strings: byte order on literal strings, extended to every string ----------

  function Rank(op: Op): nat {
    match op
    case Boxed => 0
    case X25519Public => 1
    case X25519Shared => 2
    case RootStep => 3
    case ChainStart => 4
    case NextChain => 5
    case MessageKey => 6
    case SealKey => 7
    case SealNonce => 8
    case Sealed => 9
    case HandshakeRoot => 10
    case KemPublic => 11
    case KemCiphertext => 12
    case KemShared => 13
    case KemReject => 14
    case IdentityPublic => 15
    case Signed => 16
    case Drawn => 17
  }

  predicate OctetLess(a: Octet, b: Octet)
    decreases a
  {
    match (a, b)
    case (Byte(x), Byte(y)) => x < y
    case (Byte(_), Of(_, _, _)) => true
    case (Of(_, _, _), Byte(_)) => false
    case (Of(o, s, i), Of(p, t, j)) =>
      if o != p then Rank(o) < Rank(p) else if s != t then Less(s, t) else i < j
  }

  /** Strict lexicographic order. */
  predicate Less(s: Bytes, t: Bytes)
    decreases s
  {
    if s == [] then t != []
    else t != [] && (if s[0] != t[0] then OctetLess(s[0], t[0]) else Less(s[1..], t[1..]))
  }

  lemma {:induction false} OctetLessConnected(a: Octet, b: Octet)
    ensures a != b ==> OctetLess(a, b) != OctetLess(b, a)
    ensures a == b ==> !OctetLess(a, b)
    decreases a
  {
    if a.Of? && b.Of? && a.op == b.op {
      LessConnected(a.args, b.args);
    }
  }

  /** Of two strings, exactly one of equal, less and greater holds. */
  lemma {:induction false} LessConnected(s: Bytes, t: Bytes)
    ensures s != t ==> Less(s, t) != Less(t, s)
    ensures s == t ==> !Less(s, t)
    decreases s
  {
    if s != [] && t != [] {
      OctetLessConnected(s[0], t[0]);
      LessConnected(s[1..], t[1..]);
      assert s == [s[0]] + s[1..] && t == [t[0]] + t[1..];
    }
  }

  lemma {:induction false} OctetLessTransitive(a: Octet, b: Octet, c: Octet)
    requires OctetLess(a, b) && OctetLess(b, c)
    ensures OctetLess(a, c)
    decreases a
  {
    if a.Of? && b.Of? && c.Of? && a.op == b.op == c.op {
      if a.args != b.args && b.args != c.args {
        LessTransitive(a.args, b.args, c.args);
        LessConnected(a.args, b.args);
      }
    }
  }

  lemma {:induction false} LessTransitive(s: Bytes, t: Bytes, u: Bytes)
    requires Less(s, t) && Less(t, u)
    ensures Less(s, u)
    decreases s
  {
    if s != [] {
      if s[0] == t[0] && t[0] == u[0] {
        LessTransitive(s[1..], t[1..], u[1..]);
      } else if s[0] != t[0] && t[0] != u[0] {
        OctetLessTransitive(s[0], t[0], u[0]);
        OctetLessConnected(s[0], t[0]);
      }
    }
  }

  // ---------- Results ----------

  datatype Option<+T> = None | Some(value: T)

  datatype WireError =
    | BadMagic(found: Octet)
    | UnsupportedVersion(found: Octet)
    | UnexpectedEof
    | VarintOverflow
    | MissingField(tag: u64)
    | OpaqueOctet  // a value was needed of an octet that is not a literal byte

  datatype RatchetError = NoSendingChain | NoReceivingChain | TooManySkipped | StoreFull

  datatype Error =
    | Wire(wire: WireError)
    | Aead
    | BadSignature
    | Malformed(what: string)
    | Ratchet(ratchet: RatchetError)

  datatype Result<+T> = Ok(value: T) | Err(error: Error) {
    predicate IsFailure() { Err? }

    function PropagateFailure<U>(): Result<U>
      requires Err?
    {
      Err(error)
    }

    function Extract(): T
      requires Ok?
    {
      value
    }
  }
}
