/**
 * `Identity`: a variant tag fixed at construction plus the pair of native
 * references the library hands back (src/ICAgentFFI/Identity.cs).
 */
module Identities {
  import opened Helper
  import opened Wrappers
  import opened Interop
  import opened Errors
  import P = Principals

  /** The `IdentityType` enum. */
  datatype IdentityType = Anonymous | Basic | Secp256K1 {

    function Value(): (v: int)
      ensures 0 <= v <= 2
      ensures v == 0 <==> this == Anonymous
      ensures v == 1 <==> this == Basic
    {
      match this
      case Anonymous => 0
      case Basic => 1
      case Secp256K1 => 2
    }
  }

  /** The two-element `IntPtr[]` the native side fills; its contents are opaque here. */
  datatype Handle = Handle(first: int, second: int)

  /**
   * An identity. Both fields are set once by the private constructor and the
   * class has no operation that changes them, so a value never moves between
   * variants.
   */
  datatype Identity = Identity(fptr: Handle, kind: IdentityType)

  /** What a native identity factory leaves behind: status, handle pair, diagnostic array. */
  datatype HandleReply = HandleReply(code: int, outFptr: Handle, outErrInfo: seq<byte>)

  /**
   * `Identity.Anonymous()`: the status `identity_anonymous` returns is
   * discarded, so the result is an anonymous identity whatever the code.
   */
  function AnonymousIdentity(native: () -> HandleReply): (id: Identity)
    ensures id.kind == Anonymous
    ensures id.fptr == native().outFptr
  {
    Identity(native().outFptr, Anonymous)
  }

  /** Two anonymous identities over the same handle agree, whatever the two status codes were. */
  lemma AnonymousIgnoresStatus(n1: () -> HandleReply, n2: () -> HandleReply)
    requires n1().outFptr == n2().outFptr
    requires n1().code != n2().code
    ensures AnonymousIdentity(n1) == AnonymousIdentity(n2)
  {
  }

  /**
   * `Identity.BasicRandom()`: a `Basic` identity on `Ok`, otherwise the
   * five-way switch (its overflow message still names principal bytes).
   */
  function BasicRandom(cfg: Config, native: nat -> HandleReply): (r: Result<Identity, Failure>)
    ensures var rep := native(cfg.outErrInfoSize);
      && (r.Success? <==> rep.code == 0)
      && (r.Success? ==> r.value.kind == Basic && r.value.fptr == rep.outFptr)
      && (rep.code != 0 ==>
            r == Failure(FullFailure(rep.code, OutBuffer(cfg.outErrInfoSize, rep.outErrInfo), BytesOverflowMessage)))
      && (r.Failure? && r.error.Recoverable() <==> rep.code == -1)
      && (r.Failure? && r.error.Fault? ==>
            rep.code == -2 && NullTerminated !in OutBuffer(cfg.outErrInfoSize, rep.outErrInfo))
  {
    var rep := native(cfg.outErrInfoSize);
    if rep.code == Ok.Value() then Success(Identity(rep.outFptr, Basic))
    else Failure(FullFailure(rep.code, OutBuffer(cfg.outErrInfoSize, rep.outErrInfo), BytesOverflowMessage))
  }

  /**
   * A terminated diagnostic reaches the caller of `BasicRandom` intact,
   * after "Internal: ", whatever the callee left behind the terminator.
   */
  lemma BasicRandomReportsDiagnostic(cfg: Config, native: nat -> HandleReply, msg: seq<byte>, rest: seq<byte>)
    requires native(cfg.outErrInfoSize).code == -2
    requires native(cfg.outErrInfoSize).outErrInfo == msg + [NullTerminated] + rest
    requires NullTerminated !in msg && |msg| < cfg.outErrInfoSize
    ensures BasicRandom(cfg, native) == Failure(InternalErrorException(InternalPrefix + Ascii(msg)))
  {
    DecodeWritten(cfg.outErrInfoSize, msg, rest);
  }

  /**
   * A diagnostic the callee wrote without a terminator of its own, shorter
   * than the diagnostic array, is ended by the array's zero fill and also
   * reaches the caller intact.
   */
  lemma BasicRandomZeroFilledDiagnostic(cfg: Config, native: nat -> HandleReply, msg: seq<byte>)
    requires native(cfg.outErrInfoSize).code == -2
    requires native(cfg.outErrInfoSize).outErrInfo == msg
    requires NullTerminated !in msg && |msg| < cfg.outErrInfoSize
    ensures BasicRandom(cfg, native) == Failure(InternalErrorException(InternalPrefix + Ascii(msg)))
  {
    DecodeZeroFilled(cfg.outErrInfoSize, msg);
  }

  /**
   * `identity.Sender()`: the principal the native side derives from the
   * handle, through the five-way switch.
   */
  function Sender(cfg: Config, id: Identity, native: (Handle, nat, nat) -> P.ArrReply)
    : (r: Result<P.Principal, Failure>)
    ensures var rep := native(id.fptr, cfg.outArrSize, cfg.outErrInfoSize);
      && (r.Success? <==> rep.code == 0 && P.Fits(cfg.outArrSize, rep.outArrLen))
      && (r.Success? ==> r.value.bytes == OutBuffer(cfg.outArrSize, rep.outArr)[..rep.outArrLen])
      && (rep.code == 0 && !P.Fits(cfg.outArrSize, rep.outArrLen) ==>
            r == Failure(Fault(P.LengthFault(rep.outArrLen))))
      && (rep.code != 0 ==>
            r == Failure(FullFailure(rep.code, OutBuffer(cfg.outErrInfoSize, rep.outErrInfo), BytesOverflowMessage)))
      && (r.Failure? && r.error.Recoverable() <==> rep.code == -1)
      && (r.Failure? && r.error.Fault? ==>
            (rep.code == 0 && !P.Fits(cfg.outArrSize, rep.outArrLen))
            || (rep.code == -2 && NullTerminated !in OutBuffer(cfg.outErrInfoSize, rep.outErrInfo)))
    ensures r.Success? ==> |r.value.bytes| <= cfg.outArrSize
  {
    P.FullSwitch(cfg, native(id.fptr, cfg.outArrSize, cfg.outErrInfoSize))
  }

  /**
   * The same `InternalErr` reply with a terminated diagnostic is an internal
   * error for `Sender` but an unknown one for `Principal.Anonymous`, which
   * does not recognise that code.
   */
  lemma SenderAnonymousAsymmetry(
    cfg: Config, id: Identity, msg: seq<byte>,
    senderNative: (Handle, nat, nat) -> P.ArrReply, anonymousNative: nat -> P.ArrReply)
    requires NullTerminated !in msg && |msg| < cfg.outErrInfoSize
    requires senderNative(id.fptr, cfg.outArrSize, cfg.outErrInfoSize).code == -2
    requires senderNative(id.fptr, cfg.outArrSize, cfg.outErrInfoSize).outErrInfo == msg + [NullTerminated]
    requires anonymousNative(cfg.outArrSize).code == -2
    ensures Sender(cfg, id, senderNative) == Failure(InternalErrorException(InternalPrefix + Ascii(msg)))
    ensures P.Anonymous(cfg, anonymousNative) == Failure(UnknownException(UnknownMessage))
  {
    DecodeWritten(cfg.outErrInfoSize, msg, []);
    assert msg + [NullTerminated] + [] == msg + [NullTerminated];
  }
}
