/**
 * The concrete cases the repository's tests assert, with each native reply
 * the tests rely on taken as a hypothesis about the oracle.
 */
module Scenarios {
  import opened Helper
  import opened Wrappers
  import opened Errors
  import opened Principals
  import I = Identities

  const AnonymousBytes: seq<byte> := [0x04]

  /** The management canister is the empty principal and differs from the anonymous one. */
  lemma EqualShouldWork(anonymousNative: nat -> ArrReply, managementNative: nat -> ArrReply)
    requires anonymousNative(Default.outArrSize) == ArrReply(0, AnonymousBytes, 1, [])
    requires managementNative(Default.outArrSize) == ArrReply(0, [], 0, [])
    ensures Anonymous(Default, anonymousNative) == Success(Principal(AnonymousBytes))
    ensures ManagementCanister(Default, managementNative) == Success(Principal([]))
    ensures Equals(Principal(AnonymousBytes), Some(Principal(AnonymousBytes)))
    ensures !Equals(Principal(AnonymousBytes), Some(Principal([])))
  {
  }

  const TestPublicKey: seq<byte> := [
    0xff, 0xee, 0xdd, 0xcc, 0xbb, 0xaa, 0x99, 0x88, 0x77, 0x66, 0x55, 0x44, 0x33, 0x22,
    0x11, 0x00, 0xff, 0xee, 0xdd, 0xcc, 0xbb, 0xaa, 0x99, 0x88, 0x77, 0x66, 0x55, 0x44,
    0x33, 0x22, 0x11, 0x00]

  const TestSelfAuthenticating: seq<byte> := [
    0x2f, 0x8e, 0x47, 0x38, 0xf9, 0xd7, 0x68, 0x16, 0x82, 0x99, 0x85, 0x41, 0x52, 0x67,
    0x86, 0x38, 0x07, 0xd3, 0x7d, 0x20, 0x6a, 0xd9, 0x0f, 0xea, 0x72, 0xbf, 0x9d, 0xcf,
    0x02]

  /**
   * The 29-byte self-authenticating principal of the test key fits the
   * default identifier array and comes back whole, ending in the 0x02 tag.
   */
  lemma SelfAuthenticatingVector(native: (nat, seq<byte>) -> ArrReply)
    requires native(Default.outArrSize, TestPublicKey) == ArrReply(0, TestSelfAuthenticating, 29, [])
    ensures SelfAuthenticating(Default, TestPublicKey, native) == Success(Principal(TestSelfAuthenticating))
    ensures TestSelfAuthenticating[|TestSelfAuthenticating| - 1] == 0x02
  {
  }

  /** "2vxsx-fae" as the callee writes it. */
  const AnonymousTextBytes: seq<byte> := [0x32, 0x76, 0x78, 0x73, 0x78, 0x2d, 0x66, 0x61, 0x65]

  /**
   * The anonymous principal, built from its bytes as the test builds it,
   * prints as "2vxsx-fae", and that text parses back to it.
   */
  lemma AnonymousText(
    fromBytes: (seq<byte>, nat, nat) -> ArrReply,
    toText: (seq<byte>, nat, nat) -> TextReply, fromText: (string, nat, nat) -> ArrReply)
    requires fromBytes(AnonymousBytes, Default.outArrSize, Default.outErrInfoSize) == ArrReply(0, AnonymousBytes, 1, [])
    requires toText(AnonymousBytes, Default.outTextSize, Default.outErrInfoSize)
      == TextReply(0, AnonymousTextBytes + [NullTerminated], [])
    requires fromText("2vxsx-fae", Default.outArrSize, Default.outErrInfoSize) == ArrReply(0, AnonymousBytes, 1, [])
    ensures FromBytes(Default, AnonymousBytes, fromBytes) == Success(Principal(AnonymousBytes))
    ensures ToString(Default, FromBytes(Default, AnonymousBytes, fromBytes).value, toText) == Success("2vxsx-fae")
    ensures FromText(Default, "2vxsx-fae", fromText) == Success(Principal(AnonymousBytes))
  {
    FromBytesRoundTrip(Default, AnonymousBytes, fromBytes);
    assert Interop.Ascii(AnonymousTextBytes) == "2vxsx-fae";
    assert AnonymousTextBytes + [NullTerminated] + [] == AnonymousTextBytes + [NullTerminated];
    TextRoundTrip(Default, Principal(AnonymousBytes), AnonymousTextBytes, [], toText, fromText);
  }

  /**
   * With no room in the identifier array, an overflowing callee is reported
   * as an overflow by each derivation the tests shrink; with no room in the
   * text array, the same holds for `ToString`.
   */
  lemma ZeroCapacityOverflows(
    key: seq<byte>, bytes: seq<byte>, text: string, p: Principal,
    anonymousNative: nat -> ArrReply, selfAuthNative: (nat, seq<byte>) -> ArrReply,
    fromBytesNative: (seq<byte>, nat, nat) -> ArrReply, fromTextNative: (string, nat, nat) -> ArrReply,
    toTextNative: (seq<byte>, nat, nat) -> TextReply)
    requires anonymousNative(0).code == -1 && selfAuthNative(0, key).code == -1
    requires fromBytesNative(bytes, 0, Default.outErrInfoSize).code == -1
    requires fromTextNative(text, 0, Default.outErrInfoSize).code == -1
    requires toTextNative(p.bytes, 0, Default.outErrInfoSize).code == -1
    ensures var cfg := Config(0, Default.outTextSize, Default.outErrInfoSize);
      && Anonymous(cfg, anonymousNative) == Failure(DataOverflowException(BytesOverflowMessage))
      && SelfAuthenticating(cfg, key, selfAuthNative) == Failure(DataOverflowException(BytesOverflowMessage))
      && FromBytes(cfg, bytes, fromBytesNative) == Failure(DataOverflowException(BytesOverflowMessage))
      && FromText(cfg, text, fromTextNative) == Failure(DataOverflowException(BytesOverflowMessage))
    ensures ToString(Config(Default.outArrSize, 0, Default.outErrInfoSize), p, toTextNative)
      == Failure(DataOverflowException(TextOverflowMessage))
  {
  }

  /** The sender of an anonymous identity equals `Principal.Anonymous()`. */
  lemma AnonymousIdentitySender(
    identityNative: () -> I.HandleReply,
    senderNative: (I.Handle, nat, nat) -> ArrReply, anonymousNative: nat -> ArrReply)
    requires senderNative(identityNative().outFptr, Default.outArrSize, Default.outErrInfoSize)
      == ArrReply(0, AnonymousBytes, 1, [])
    requires anonymousNative(Default.outArrSize) == ArrReply(0, AnonymousBytes, 1, [])
    ensures I.AnonymousIdentity(identityNative).kind == I.Anonymous
    ensures var s := I.Sender(Default, I.AnonymousIdentity(identityNative), senderNative);
      var a := Anonymous(Default, anonymousNative);
      s.Success? && a.Success? && Equals(s.value, Some(a.value))
  {
  }

  /** `BasicRandom()` on `Ok` yields a `Basic` identity. */
  lemma BasicRandomShouldWork(native: nat -> I.HandleReply)
    requires native(Default.outErrInfoSize).code == 0
    ensures I.BasicRandom(Default, native).Success?
    ensures I.BasicRandom(Default, native).value.kind == I.Basic
  {
  }
}
