/**
 * The exceptions the wrappers throw (src/ICAgentFFI/Principal.cs, end of
 * file) and the two status switches every wrapper uses to pick one.
 */
module Errors {
  import opened Helper
  import opened Interop

  /** Every exception a wrapper can end in: the library's four kinds or a runtime fault. */
  datatype Failure =
    | DataOverflowException(message: string)
    | InternalErrorException(message: string)
    | ErrInfoOverflowException(message: string)
    | UnknownException(message: string)
    | Fault(fault: RuntimeFault)
  {
    /** Only an overflowing primary output can be cured by retrying with more capacity. */
    predicate Recoverable() {
      DataOverflowException?
    }
  }

  const BytesOverflowMessage := "Data Overflow: Unable to take off the data of principal bytes."
  const TextOverflowMessage := "Data Overflow: Unable to take off the data of principal text."
  const ErrInfoOverflowMessage := "ErrInfo Overflow: Unable to take off the data of error."
  const UnknownMessage := "Unknown: The StateCode returned is unexpected."
  const InternalPrefix := "Internal: "

  /** Outcome classes of a boundary call, messages aside. */
  datatype Kind = Succeeded | Overflow | Internal | InfoOverflow | Unknown | RuntimeError

  function FailureKind(f: Failure): Kind {
    match f
    case DataOverflowException(_) => Overflow
    case InternalErrorException(_) => Internal
    case ErrInfoOverflowException(_) => InfoOverflow
    case UnknownException(_) => Unknown
    case Fault(_) => RuntimeError
  }

  /**
   * The intended classification: each of the four defined codes has its own
   * kind, and every other integer is a protocol violation.
   */
  function Taxonomy(code: int): Kind {
    if code == 0 then Succeeded
    else if code == -1 then Overflow
    else if code == -2 then Internal
    else if code == -3 then InfoOverflow
    else Unknown
  }

  /**
   * The `InternalErr` arm: the diagnostic up to its first zero byte, after
   * "Internal: ". A diagnostic array without a terminator makes
   * `GetString` throw instead.
   */
  function InternalError(errBuf: seq<byte>): (f: Failure)
    ensures f.InternalErrorException? <==> NullTerminated in errBuf
    ensures !f.InternalErrorException? ==> f == Fault(ArgumentOutOfRangeException)
    ensures f.InternalErrorException? ==>
      exists n :: 0 <= n < |errBuf| && errBuf[n] == NullTerminated && NullTerminated !in errBuf[..n]
        && f.message == InternalPrefix + Ascii(errBuf[..n])
  {
    match DecodeTerminated(errBuf)
    case Success(msg) => InternalErrorException(InternalPrefix + msg)
    case Failure(e) => Fault(e)
  }

  /**
   * The five-way switch of `FromBytes`, `FromText`, `ToString`,
   * `BasicRandom` and `Sender`, for every status but `Ok`.
   */
  function FullFailure(code: int, errBuf: seq<byte>, overflowMessage: string): (f: Failure)
    requires code != 0
    ensures f.Recoverable() <==> code == -1
    ensures code == -1 ==> f == DataOverflowException(overflowMessage)
    ensures code == -2 ==> f == InternalError(errBuf)
    ensures code == -3 ==> f == ErrInfoOverflowException(ErrInfoOverflowMessage)
    ensures Classify(code).None? ==> f == UnknownException(UnknownMessage)
    ensures FailureKind(f) == Taxonomy(code)
      || (code == -2 && NullTerminated !in errBuf && f == Fault(ArgumentOutOfRangeException))
  {
    match Classify(code)
    case Some(DataOverflow) => DataOverflowException(overflowMessage)
    case Some(InternalErr) => InternalError(errBuf)
    case Some(ErrInfoOverflow) => ErrInfoOverflowException(ErrInfoOverflowMessage)
    case _ => UnknownException(UnknownMessage)
  }

  /**
   * The three-way switch of `ManagementCanister`, `SelfAuthenticating` and
   * `Principal.Anonymous`, for every status but `Ok`: only `DataOverflow`
   * is recognised and everything else, the defined codes included, is unknown.
   */
  function NarrowFailure(code: int): (f: Failure)
    requires code != 0
    ensures f.Recoverable() <==> code == -1
    ensures !f.Recoverable() ==> f == UnknownException(UnknownMessage)
  {
    if code == DataOverflow.Value() then DataOverflowException(BytesOverflowMessage)
    else UnknownException(UnknownMessage)
  }

  /** The narrow switch agrees with the taxonomy exactly off `InternalErr` and `ErrInfoOverflow`. */
  lemma NarrowDeviatesFromTaxonomy(code: int)
    requires code != 0
    ensures FailureKind(NarrowFailure(code)) == Taxonomy(code) <==> code != -2 && code != -3
  {
  }

  /** An unknown code is never reported as something a caller could retry. */
  lemma UnknownIsNeverRecoverable(code: int, errBuf: seq<byte>, overflowMessage: string)
    requires Classify(code).None?
    ensures FullFailure(code, errBuf, overflowMessage) == UnknownException(UnknownMessage)
    ensures NarrowFailure(code) == UnknownException(UnknownMessage)
  {
  }
}
