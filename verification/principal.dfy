/**
 * The `Principal` value type and its six native-backed operations
 * (src/ICAgentFFI/Principal.cs). Each native function is an oracle
 * parameter: it receives the inputs and capacities the wrapper passes and
 * returns the status code and whatever it stored in the output arrays.
 */
module Principals {
  import opened Helper
  import opened Wrappers
  import opened Interop
  import opened Errors

  /**
   * A ledger address: nothing but its bytes. The class hands out its own
   * array through `Bytes`; this value type does not model later writes to it.
   */
  datatype Principal = Principal(bytes: seq<byte>)

  /**
   * What a native call producing principal bytes leaves behind: the status,
   * the bytes it stored into the identifier array, the length it reported
   * and the bytes it stored into the diagnostic array (calls without a
   * diagnostic array leave the last field unread).
   */
  datatype ArrReply = ArrReply(code: int, outArr: seq<byte>, outArrLen: nat, outErrInfo: seq<byte>)

  /** What `principal_to_text` leaves behind: status, text array and diagnostic array. */
  datatype TextReply = TextReply(code: int, outText: seq<byte>, outErrInfo: seq<byte>)

  /**
   * Whether a reported length can be taken from an array of `cap` bytes:
   * `new byte[len]` must be allocatable and `Array.Copy` must find `len` bytes.
   */
  predicate Fits(cap: nat, len: nat) {
    len <= cap && len <= MaxArrayLength
  }

  /**
   * The exception for a length that does not fit: allocation fails first
   * (an unsigned size beyond `int.MaxValue` overflows, one between the array
   * limit and `int.MaxValue` is out of memory), then the copy.
   */
  function LengthFault(len: nat): RuntimeFault {
    if MaxInt32 < len then OverflowException
    else if MaxArrayLength < len then OutOfMemoryException
    else ArgumentException
  }

  /**
   * The internal constructor `Principal(arr, arrLen)`: a fresh array of
   * `arrLen` bytes copied from the front of `arr`.
   */
  function NewPrincipal(arr: seq<byte>, arrLen: nat): (r: Result<Principal, Failure>)
    ensures r.Success? <==> Fits(|arr|, arrLen)
    ensures r.Success? ==> r.value.bytes == arr[..arrLen]
    ensures MaxInt32 < arrLen ==> r == Failure(Fault(OverflowException))
    ensures MaxArrayLength < arrLen <= MaxInt32 ==> r == Failure(Fault(OutOfMemoryException))
    ensures |arr| < arrLen <= MaxArrayLength ==> r == Failure(Fault(ArgumentException))
  {
    if MaxInt32 < arrLen then Failure(Fault(OverflowException))
    else if MaxArrayLength < arrLen then Failure(Fault(OutOfMemoryException))
    else
      match CopyPrefix(arr, arrLen)
      case Success(bytes) => Success(Principal(bytes))
      case Failure(e) => Failure(Fault(e))
  }

  /** The `Ok` arm of every principal-producing call: copy the reported prefix of the identifier array. */
  function Captured(cap: nat, rep: ArrReply): (r: Result<Principal, Failure>)
    ensures r.Success? <==> Fits(cap, rep.outArrLen)
    ensures r.Success? ==> |r.value.bytes| <= cap && r.value.bytes == OutBuffer(cap, rep.outArr)[..rep.outArrLen]
    ensures !Fits(cap, rep.outArrLen) ==> r == Failure(Fault(LengthFault(rep.outArrLen)))
  {
    NewPrincipal(OutBuffer(cap, rep.outArr), rep.outArrLen)
  }

  /** A callee that reports `b` by writing it and its length gets exactly `b` back as a principal. */
  lemma {:induction false} CapturedRoundTrip(cap: nat, rep: ArrReply, b: seq<byte>)
    requires |b| <= cap && |b| <= MaxArrayLength
    requires rep.outArrLen == |b| <= |rep.outArr|
    requires rep.outArr[..|b|] == b
    ensures Captured(cap, rep) == Success(Principal(b))
  {
    var buf := OutBuffer(cap, rep.outArr);
    assert buf[..|b|] == b by {
      forall i | 0 <= i < |b|
        ensures buf[i] == b[i]
      {
        assert buf[i] == rep.outArr[i] == rep.outArr[..|b|][i];
      }
    }
  }

  /** Switch of the three calls without a diagnostic array: `Ok`, `DataOverflow`, anything else. */
  function NarrowSwitch(cap: nat, rep: ArrReply): (r: Result<Principal, Failure>)
    ensures r.Success? <==> rep.code == 0 && Fits(cap, rep.outArrLen)
    ensures r.Success? ==> |r.value.bytes| <= cap && r.value.bytes == OutBuffer(cap, rep.outArr)[..rep.outArrLen]
    ensures rep.code == 0 && !Fits(cap, rep.outArrLen) ==> r == Failure(Fault(LengthFault(rep.outArrLen)))
    ensures rep.code == -1 ==> r == Failure(DataOverflowException(BytesOverflowMessage))
    ensures rep.code != 0 && rep.code != -1 ==> r == Failure(UnknownException(UnknownMessage))
  {
    if rep.code == Ok.Value() then Captured(cap, rep) else Failure(NarrowFailure(rep.code))
  }

  /** Switch of the calls with a diagnostic array: all four codes plus the default. */
  function FullSwitch(cfg: Config, rep: ArrReply): (r: Result<Principal, Failure>)
    ensures r.Success? <==> rep.code == 0 && Fits(cfg.outArrSize, rep.outArrLen)
    ensures r.Success? ==>
      |r.value.bytes| <= cfg.outArrSize && r.value.bytes == OutBuffer(cfg.outArrSize, rep.outArr)[..rep.outArrLen]
    ensures rep.code == 0 && !Fits(cfg.outArrSize, rep.outArrLen) ==>
      r == Failure(Fault(LengthFault(rep.outArrLen)))
    ensures rep.code != 0 ==>
      r == Failure(FullFailure(rep.code, OutBuffer(cfg.outErrInfoSize, rep.outErrInfo), BytesOverflowMessage))
  {
    if rep.code == Ok.Value() then Captured(cfg.outArrSize, rep)
    else Failure(FullFailure(rep.code, OutBuffer(cfg.outErrInfoSize, rep.outErrInfo), BytesOverflowMessage))
  }

  function KindOf<T>(r: Result<T, Failure>): Kind {
    if r.Success? then Succeeded else FailureKind(r.error)
  }

  /**
   * The full switch follows the intended classification for every reply,
   * except for the two runtime faults: an `Ok` whose length cannot be taken,
   * and an `InternalErr` whose diagnostic has no terminator.
   */
  lemma FullSwitchFollowsTaxonomy(cfg: Config, rep: ArrReply)
    ensures KindOf(FullSwitch(cfg, rep)) == Taxonomy(rep.code) <==>
      !(rep.code == 0 && !Fits(cfg.outArrSize, rep.outArrLen))
      && !(rep.code == -2 && NullTerminated !in OutBuffer(cfg.outErrInfoSize, rep.outErrInfo))
  {
  }

  /** `Principal.ManagementCanister()`. */
  function ManagementCanister(cfg: Config, native: nat -> ArrReply): (r: Result<Principal, Failure>)
    ensures var rep := native(cfg.outArrSize);
      && (r.Success? <==> rep.code == 0 && Fits(cfg.outArrSize, rep.outArrLen))
      && (r.Success? ==> r.value.bytes == OutBuffer(cfg.outArrSize, rep.outArr)[..rep.outArrLen])
      && (rep.code == 0 && !Fits(cfg.outArrSize, rep.outArrLen) ==> r == Failure(Fault(LengthFault(rep.outArrLen))))
      && (rep.code == -1 ==> r == Failure(DataOverflowException(BytesOverflowMessage)))
      && (rep.code != 0 && rep.code != -1 ==> r == Failure(UnknownException(UnknownMessage)))
    ensures r.Success? ==> |r.value.bytes| <= cfg.outArrSize
  {
    NarrowSwitch(cfg.outArrSize, native(cfg.outArrSize))
  }

  /** `Principal.SelfAuthenticating(publicKey)`: the key goes to the callee unchanged. */
  function SelfAuthenticating(cfg: Config, publicKey: seq<byte>, native: (nat, seq<byte>) -> ArrReply)
    : (r: Result<Principal, Failure>)
    ensures var rep := native(cfg.outArrSize, publicKey);
      && (r.Success? <==> rep.code == 0 && Fits(cfg.outArrSize, rep.outArrLen))
      && (r.Success? ==> r.value.bytes == OutBuffer(cfg.outArrSize, rep.outArr)[..rep.outArrLen])
      && (rep.code == 0 && !Fits(cfg.outArrSize, rep.outArrLen) ==> r == Failure(Fault(LengthFault(rep.outArrLen))))
      && (rep.code == -1 ==> r == Failure(DataOverflowException(BytesOverflowMessage)))
      && (rep.code != 0 && rep.code != -1 ==> r == Failure(UnknownException(UnknownMessage)))
    ensures r.Success? ==> |r.value.bytes| <= cfg.outArrSize
  {
    NarrowSwitch(cfg.outArrSize, native(cfg.outArrSize, publicKey))
  }

  /** `Principal.Anonymous()`. */
  function Anonymous(cfg: Config, native: nat -> ArrReply): (r: Result<Principal, Failure>)
    ensures var rep := native(cfg.outArrSize);
      && (r.Success? <==> rep.code == 0 && Fits(cfg.outArrSize, rep.outArrLen))
      && (r.Success? ==> r.value.bytes == OutBuffer(cfg.outArrSize, rep.outArr)[..rep.outArrLen])
      && (rep.code == 0 && !Fits(cfg.outArrSize, rep.outArrLen) ==> r == Failure(Fault(LengthFault(rep.outArrLen))))
      && (rep.code == -1 ==> r == Failure(DataOverflowException(BytesOverflowMessage)))
      && (rep.code != 0 && rep.code != -1 ==> r == Failure(UnknownException(UnknownMessage)))
    ensures r.Success? ==> |r.value.bytes| <= cfg.outArrSize
  {
    NarrowSwitch(cfg.outArrSize, native(cfg.outArrSize))
  }

  /** `Principal.FromBytes(bytes)`. */
  function FromBytes(cfg: Config, bytes: seq<byte>, native: (seq<byte>, nat, nat) -> ArrReply)
    : (r: Result<Principal, Failure>)
    ensures var rep := native(bytes, cfg.outArrSize, cfg.outErrInfoSize);
      && (r.Success? <==> rep.code == 0 && Fits(cfg.outArrSize, rep.outArrLen))
      && (r.Success? ==> r.value.bytes == OutBuffer(cfg.outArrSize, rep.outArr)[..rep.outArrLen])
      && (rep.code == 0 && !Fits(cfg.outArrSize, rep.outArrLen) ==> r == Failure(Fault(LengthFault(rep.outArrLen))))
      && (rep.code != 0 ==>
            r == Failure(FullFailure(rep.code, OutBuffer(cfg.outErrInfoSize, rep.outErrInfo), BytesOverflowMessage)))
      && (r.Failure? && r.error.Recoverable() <==> rep.code == -1)
    ensures r.Success? ==> |r.value.bytes| <= cfg.outArrSize
  {
    FullSwitch(cfg, native(bytes, cfg.outArrSize, cfg.outErrInfoSize))
  }

  /** A callee that echoes bytes that fit makes `FromBytes` the identity on them. */
  lemma FromBytesRoundTrip(cfg: Config, b: seq<byte>, native: (seq<byte>, nat, nat) -> ArrReply)
    requires |b| <= cfg.outArrSize && |b| <= MaxArrayLength
    requires native(b, cfg.outArrSize, cfg.outErrInfoSize).code == 0
    requires native(b, cfg.outArrSize, cfg.outErrInfoSize).outArrLen == |b| <= |native(b, cfg.outArrSize, cfg.outErrInfoSize).outArr|
    requires native(b, cfg.outArrSize, cfg.outErrInfoSize).outArr[..|b|] == b
    ensures FromBytes(cfg, b, native) == Success(Principal(b))
  {
    CapturedRoundTrip(cfg.outArrSize, native(b, cfg.outArrSize, cfg.outErrInfoSize), b);
  }

  /**
   * A terminated diagnostic reaches the caller of `FromBytes` intact, after
   * "Internal: ", whatever the callee left behind the terminator.
   */
  lemma FromBytesReportsDiagnostic(
    cfg: Config, b: seq<byte>, native: (seq<byte>, nat, nat) -> ArrReply, msg: seq<byte>, rest: seq<byte>)
    requires native(b, cfg.outArrSize, cfg.outErrInfoSize).code == -2
    requires native(b, cfg.outArrSize, cfg.outErrInfoSize).outErrInfo == msg + [NullTerminated] + rest
    requires NullTerminated !in msg && |msg| < cfg.outErrInfoSize
    ensures FromBytes(cfg, b, native) == Failure(InternalErrorException(InternalPrefix + Ascii(msg)))
  {
    DecodeWritten(cfg.outErrInfoSize, msg, rest);
  }

  /** `Principal.FromText(text)`. */
  function FromText(cfg: Config, text: string, native: (string, nat, nat) -> ArrReply)
    : (r: Result<Principal, Failure>)
    ensures var rep := native(text, cfg.outArrSize, cfg.outErrInfoSize);
      && (r.Success? <==> rep.code == 0 && Fits(cfg.outArrSize, rep.outArrLen))
      && (r.Success? ==> r.value.bytes == OutBuffer(cfg.outArrSize, rep.outArr)[..rep.outArrLen])
      && (rep.code == 0 && !Fits(cfg.outArrSize, rep.outArrLen) ==> r == Failure(Fault(LengthFault(rep.outArrLen))))
      && (rep.code != 0 ==>
            r == Failure(FullFailure(rep.code, OutBuffer(cfg.outErrInfoSize, rep.outErrInfo), BytesOverflowMessage)))
      && (r.Failure? && r.error.Recoverable() <==> rep.code == -1)
    ensures r.Success? ==> |r.value.bytes| <= cfg.outArrSize
  {
    FullSwitch(cfg, native(text, cfg.outArrSize, cfg.outErrInfoSize))
  }

  /**
   * `principal.ToString()`: on `Ok` the text array up to its first zero
   * byte, decoded as ASCII; the text has no length out-parameter, so a
   * missing terminator makes `GetString` throw.
   */
  function ToString(cfg: Config, p: Principal, native: (seq<byte>, nat, nat) -> TextReply)
    : (r: Result<string, Failure>)
    ensures var rep := native(p.bytes, cfg.outTextSize, cfg.outErrInfoSize);
      var buf := OutBuffer(cfg.outTextSize, rep.outText);
      && (r.Success? <==> rep.code == 0 && NullTerminated in buf)
      && (r.Success? ==>
            && |r.value| < |buf|
            && buf[|r.value|] == NullTerminated
            && NullTerminated !in buf[..|r.value|]
            && r.value == Ascii(buf[..|r.value|]))
      && (rep.code == 0 && NullTerminated !in buf ==> r == Failure(Fault(ArgumentOutOfRangeException)))
      && (rep.code != 0 ==>
            r == Failure(FullFailure(rep.code, OutBuffer(cfg.outErrInfoSize, rep.outErrInfo), TextOverflowMessage)))
      && (rep.code == -1 ==> r == Failure(DataOverflowException(TextOverflowMessage)))
      && (r.Failure? && r.error.Recoverable() <==> rep.code == -1)
    ensures r.Success? ==> |r.value| < cfg.outTextSize
  {
    var rep := native(p.bytes, cfg.outTextSize, cfg.outErrInfoSize);
    if rep.code == Ok.Value() then
      match DecodeTerminated(OutBuffer(cfg.outTextSize, rep.outText))
      case Success(text) => Success(text)
      case Failure(e) => Failure(Fault(e))
    else
      Failure(FullFailure(rep.code, OutBuffer(cfg.outErrInfoSize, rep.outErrInfo), TextOverflowMessage))
  }

  /**
   * Round trip through text. If `principal_to_text` writes `t` and a
   * terminator (followed by anything), and `principal_from_text` parses the
   * decoded string back to the principal's bytes, then the managed wrappers
   * give back the principal.
   */
  lemma TextRoundTrip(
    cfg: Config, p: Principal, t: seq<byte>, rest: seq<byte>,
    toText: (seq<byte>, nat, nat) -> TextReply, fromText: (string, nat, nat) -> ArrReply)
    requires NullTerminated !in t && |t| < cfg.outTextSize
    requires toText(p.bytes, cfg.outTextSize, cfg.outErrInfoSize).code == 0
    requires toText(p.bytes, cfg.outTextSize, cfg.outErrInfoSize).outText == t + [NullTerminated] + rest
    requires |p.bytes| <= cfg.outArrSize && |p.bytes| <= MaxArrayLength
    requires fromText(Ascii(t), cfg.outArrSize, cfg.outErrInfoSize) == ArrReply(0, p.bytes, |p.bytes|, [])
    ensures ToString(cfg, p, toText) == Success(Ascii(t))
    ensures FromText(cfg, Ascii(t), fromText) == Success(p)
  {
    DecodeWritten(cfg.outTextSize, t, rest);
    CapturedRoundTrip(cfg.outArrSize, fromText(Ascii(t), cfg.outArrSize, cfg.outErrInfoSize), p.bytes);
  }

  /** `Enumerable.SequenceEqual` on two byte arrays. */
  function SequenceEqual(a: seq<byte>, b: seq<byte>): (r: bool)
    ensures r <==> a == b
  {
    if |a| != |b| then false
    else if |a| == 0 then true
    else
      assert a == [a[0]] + a[1..] && b == [b[0]] + b[1..];
      a[0] == b[0] && SequenceEqual(a[1..], b[1..])
  }

  /** `Equals(Principal? principal)`; `None` is a null reference. */
  function Equals(p: Principal, other: Option<Principal>): (r: bool)
    ensures r <==> other.Some? && other.value.bytes == p.bytes
  {
    if other.None? then false else SequenceEqual(p.bytes, other.value.bytes)
  }

  /** An argument of static type `object`. */
  datatype Object = Null | OfPrincipal(principal: Principal) | OfOtherType

  /** `Equals(object? obj) => Equals(obj as Principal)`. */
  function EqualsObject(p: Principal, obj: Object): (r: bool)
    ensures r <==> obj.OfPrincipal? && obj.principal.bytes == p.bytes
  {
    var asPrincipal := if obj.OfPrincipal? then Some(obj.principal) else None;
    Equals(p, asPrincipal)
  }

  /** Equality is reflexive, symmetric and transitive. */
  lemma EqualsIsEquivalence(p: Principal, q: Principal, s: Principal)
    ensures Equals(p, Some(p))
    ensures Equals(p, Some(q)) <==> Equals(q, Some(p))
    ensures Equals(p, Some(q)) && Equals(q, Some(s)) ==> Equals(p, Some(s))
  {
  }

  function Pow256(n: nat): (r: nat)
    ensures r > 0
  {
    if n == 0 then 1 else 256 * Pow256(n - 1)
  }

  /** Unsigned little-endian value of a byte sequence. */
  function LittleEndian(bs: seq<byte>): (v: nat)
    ensures v < Pow256(|bs|)
  {
    if |bs| == 0 then 0 else bs[0] as nat + 256 * LittleEndian(bs[1..])
  }

  /**
   * `new BigInteger(bytes)`: little-endian two's complement, the top bit of
   * the last byte being the sign.
   */
  function BigIntegerOf(bs: seq<byte>): (v: int)
    ensures v < 0 <==> |bs| > 0 && bs[|bs| - 1] >= 0x80
  {
    if |bs| > 0 && bs[|bs| - 1] >= 0x80 then LittleEndian(bs) - Pow256(|bs|) else LittleEndian(bs)
  }

  /**
   * `GetHashCode()`: the hash of the integer the bytes denote, so a zero
   * byte that only sign-extends a non-negative value changes nothing.
   * `bigIntegerHash` stands for `BigInteger.GetHashCode`.
   */
  function GetHashCode(p: Principal, bigIntegerHash: int -> int): (h: int)
    ensures |p.bytes| == 0 || p.bytes[|p.bytes| - 1] < 0x80 ==>
      h == bigIntegerHash(BigIntegerOf(p.bytes + [0]))
  {
    LittleEndianTrailingZero(p.bytes);
    bigIntegerHash(BigIntegerOf(p.bytes))
  }

  /**
   * The hash reads the bytes as two's complement: a last byte with its top
   * bit set makes the integer negative, and a zero byte after it makes it
   * positive again, so the two principals hash apart under the identity hash.
   */
  lemma SignBitSeparatesHash()
    ensures GetHashCode(Principal([0x80]), x => x) == -128
    ensures GetHashCode(Principal([0x80, 0]), x => x) == 128
  {
    var one: seq<byte> := [0x80];
    var two: seq<byte> := [0x80, 0];
    assert one[1..] == [] && two[1..] == [0] && two[1..][1..] == [];
  }

  /** Equal principals hash equally, for every integer hash. */
  lemma HashRespectsEquals(p: Principal, q: Principal, bigIntegerHash: int -> int)
    requires Equals(p, Some(q))
    ensures GetHashCode(p, bigIntegerHash) == GetHashCode(q, bigIntegerHash)
  {
  }

  /** A trailing zero byte adds nothing to the little-endian value. */
  lemma {:induction false} LittleEndianTrailingZero(bs: seq<byte>)
    ensures LittleEndian(bs + [0]) == LittleEndian(bs)
  {
    if |bs| == 0 {
      var z: seq<byte> := [0];
      assert z[1..] == [];
    } else {
      assert (bs + [0])[1..] == bs[1..] + [0];
      LittleEndianTrailingZero(bs[1..]);
    }
  }

  /**
   * A zero byte after a non-negative value is sign extension: the integer,
   * and so the hash, stay the same although the principals differ.
   */
  lemma SignExtensionKeepsHash(bs: seq<byte>, bigIntegerHash: int -> int)
    requires |bs| == 0 || bs[|bs| - 1] < 0x80
    ensures !Equals(Principal(bs), Some(Principal(bs + [0])))
    ensures GetHashCode(Principal(bs), bigIntegerHash) == GetHashCode(Principal(bs + [0]), bigIntegerHash)
  {
  }
}
