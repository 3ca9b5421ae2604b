/**
 * Status codes and buffer capacities shared by every native call
 * (src/ICAgentFFI/Helper.cs).
 */
module Helper {
  import opened Wrappers

  /** A .NET `byte`. */
  newtype byte = x: int | 0 <= x < 0x100

  /** The closed set of status codes the native library promises to return. */
  datatype StateCode = Ok | DataOverflow | InternalErr | ErrInfoOverflow {

    /** The integer the enum member stands for on the wire. */
    function Value(): (c: int)
      ensures -3 <= c <= 0
      ensures c == 0 <==> this == Ok
    {
      match this
      case Ok => 0
      case DataOverflow => -1
      case InternalErr => -2
      case ErrInfoOverflow => -3
    }
  }

  /**
   * Reads a raw status integer as a `StateCode`. A C# enum can hold any
   * integer, so a code outside the four members yields `None` and falls into
   * the `default` arm of every switch.
   */
  function Classify(code: int): (r: Option<StateCode>)
    ensures r.Some? <==> -3 <= code <= 0
    ensures r.Some? ==> r.value.Value() == code
  {
    if code == 0 then Some(Ok)
    else if code == -1 then Some(DataOverflow)
    else if code == -2 then Some(InternalErr)
    else if code == -3 then Some(ErrInfoOverflow)
    else None
  }

  /** Every member is recovered from its own value, so the four values are pairwise distinct. */
  lemma ClassifyValue(s: StateCode)
    ensures Classify(s.Value()) == Some(s)
    ensures forall t: StateCode :: t.Value() == s.Value() ==> t == s
  {
  }

  /** The terminator that ends diagnostic and text output. */
  const NullTerminated: byte := 0

  /**
   * Capacities of the output arrays a call allocates: identifier bytes,
   * principal text and diagnostic text. The source fixes them as constants;
   * here they are an explicit value passed to each operation.
   */
  datatype Config = Config(outArrSize: nat, outTextSize: nat, outErrInfoSize: nat)

  const Default: Config := Config(32, 128, 256)

  /** The default capacities are positive and the identifier array fits a self-authenticating principal. */
  lemma DefaultCapacities()
    ensures Default.outArrSize > 0 && Default.outTextSize > 0 && Default.outErrInfoSize > 0
    ensures Default.outArrSize >= 29
  {
  }
}
