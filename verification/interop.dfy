/**
 * The .NET runtime behaviour the managed wrappers rely on when they read a
 * native call's output: zero-initialised arrays, `Array.IndexOf`,
 * `Encoding.ASCII.GetString` and `Array.Copy`.
 */
module Interop {
  import opened Helper
  import opened Wrappers

  /** `n` zero bytes. */
  function Zeros(n: nat): (z: seq<byte>)
    ensures |z| == n
    ensures forall i :: 0 <= i < n ==> z[i] == 0
  {
    seq(n, _ => 0)
  }

  /**
   * The contents of `new byte[cap]` after the callee stored `written` from
   * index 0. The array starts zeroed and the callee cannot reach past its
   * end, so the caller sees exactly `cap` bytes.
   */
  function OutBuffer(cap: nat, written: seq<byte>): (buf: seq<byte>)
    ensures |buf| == cap
    ensures |written| <= cap ==> buf[..|written|] == written
    ensures forall i :: 0 <= i < cap && i < |written| ==> buf[i] == written[i]
    ensures forall i :: |written| <= i < cap ==> buf[i] == 0
  {
    if cap <= |written| then written[..cap] else written + Zeros(cap - |written|)
  }

  /** `Array.IndexOf(s, b)`: the first position holding `b`, or -1. */
  function IndexOf(s: seq<byte>, b: byte): (i: int)
    ensures -1 <= i < |s|
    ensures i == -1 <==> b !in s
    ensures 0 <= i ==> s[i] == b && forall k :: 0 <= k < i ==> s[k] != b
  {
    if |s| == 0 then -1
    else if s[0] == b then 0
    else
      var j := IndexOf(s[1..], b);
      if j == -1 then -1 else j + 1
  }

  /** One byte through the ASCII decoder: bytes above 0x7F become '?'. */
  function AsciiChar(b: byte): (c: char)
    ensures b < 0x80 ==> c as int == b as int
    ensures 0x80 <= b ==> c == '?'
  {
    if b < 0x80 then (b as int) as char else '?'
  }

  /** `Encoding.ASCII.GetString` over a whole byte range. */
  function Ascii(bs: seq<byte>): (s: string)
    ensures |s| == |bs|
    ensures forall i :: 0 <= i < |bs| ==> s[i] == AsciiChar(bs[i])
  {
    seq(|bs|, i requires 0 <= i < |bs| => AsciiChar(bs[i]))
  }

  /** ASCII decoding loses nothing on bytes below 0x80. */
  lemma AsciiInjective(a: seq<byte>, b: seq<byte>)
    requires forall i :: 0 <= i < |a| ==> a[i] < 0x80
    requires forall i :: 0 <= i < |b| ==> b[i] < 0x80
    requires Ascii(a) == Ascii(b)
    ensures a == b
  {
    assert |a| == |Ascii(a)| == |b|;
    forall i | 0 <= i < |a|
      ensures a[i] == b[i]
    {
      assert AsciiChar(a[i]) == Ascii(a)[i] == Ascii(b)[i] == AsciiChar(b[i]);
    }
  }

  /** The exceptions the runtime itself throws on the paths modelled here. */
  datatype RuntimeFault =
    | ArgumentException            // Array.Copy asked for more bytes than the source holds
    | ArgumentOutOfRangeException  // Encoding.GetString given a negative count
    | OutOfMemoryException         // `new byte[n]` with `n` past the array limit but within `int`
    | OverflowException            // `new byte[n]` with an unsigned `n` beyond `int.MaxValue`

  /** The longest byte array the runtime will allocate (`Array.MaxLength`). */
  const MaxArrayLength: nat := 0x7FFF_FFC7

  /** `int.MaxValue`: an unsigned array size above it does not convert to a native size. */
  const MaxInt32: nat := 0x7FFF_FFFF

  /**
   * `len = Array.IndexOf(buf, NullTerminated); Encoding.ASCII.GetString(buf, 0, len)`.
   * Without a terminator `len` is -1 and `GetString` throws.
   */
  function DecodeTerminated(buf: seq<byte>): (r: Result<string, RuntimeFault>)
    ensures r.Failure? <==> NullTerminated !in buf
    ensures r.Failure? ==> r.error == ArgumentOutOfRangeException
    ensures r.Success? ==>
      && |r.value| < |buf|
      && buf[|r.value|] == NullTerminated
      && NullTerminated !in buf[..|r.value|]
      && r.value == Ascii(buf[..|r.value|])
  {
    var len := IndexOf(buf, NullTerminated);
    if len < 0 then Failure(ArgumentOutOfRangeException) else Success(Ascii(buf[..len]))
  }

  /**
   * A message without zero bytes, written with its terminator into an array
   * large enough for both, decodes back to exactly that message whatever the
   * callee left after the terminator.
   */
  lemma {:induction false} DecodeWritten(cap: nat, msg: seq<byte>, rest: seq<byte>)
    requires NullTerminated !in msg
    requires |msg| < cap
    ensures DecodeTerminated(OutBuffer(cap, msg + [NullTerminated] + rest)) == Success(Ascii(msg))
  {
    var written := msg + [NullTerminated] + rest;
    var buf := OutBuffer(cap, written);
    assert buf[|msg|] == written[|msg|] == NullTerminated;
    assert buf[..|msg|] == msg by {
      forall i | 0 <= i < |msg|
        ensures buf[i] == msg[i]
      {
        assert buf[i] == written[i];
      }
    }
  }

  /**
   * A message without zero bytes that is shorter than its array needs no
   * terminator of its own: the zero fill behind it ends it.
   */
  lemma DecodeZeroFilled(cap: nat, msg: seq<byte>)
    requires NullTerminated !in msg
    requires |msg| < cap
    ensures DecodeTerminated(OutBuffer(cap, msg)) == Success(Ascii(msg))
  {
    var buf := OutBuffer(cap, msg);
    assert buf[|msg|] == NullTerminated;
    assert buf[..|msg|] == msg;
  }

  /** `Array.Copy(arr, new byte[len], len)`: the first `len` bytes, or a fault when `arr` is shorter. */
  function CopyPrefix(arr: seq<byte>, len: nat): (r: Result<seq<byte>, RuntimeFault>)
    ensures r.Success? <==> len <= |arr|
    ensures r.Success? ==> |r.value| == len && r.value <= arr
    ensures r.Failure? ==> r.error == ArgumentException
  {
    if len <= |arr| then Success(arr[..len]) else Failure(ArgumentException)
  }
}
