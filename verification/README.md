# ICAgentFFI managed boundary, modelled in Dafny

This project models the managed (C#) side of the ICAgentFFI binding to a
native Internet Computer agent library. Every wrapper follows one calling
convention. It allocates fixed-capacity output arrays, calls a native function
that fills them and reports an actual length, and translates the integer
`StateCode` it gets back. `Ok` builds a value from the reported prefix.
`InternalErr` decodes an ASCII diagnostic up to its first zero byte. Every
other code becomes a typed exception. On top of this sit two values:

- `Principal`: a byte sequence fixed by the constructor. Equality is
  element-wise on the bytes, and the hash depends on the bytes only. The
  `Bytes` property returns the internal array itself, so a caller could still
  overwrite it; the model treats the bytes as a value.
- `Identity`: a variant tag (Anonymous, Basic, Secp256K1) fixed at
  construction, plus an opaque pair of native references.

Each native function is an oracle parameter of the wrapper that calls it. The
oracle is a total function from the inputs and capacities the wrapper passes
to a reply record: the status code, the bytes stored in each output array, and
the reported length. The managed array is modelled as `new byte[cap]`: it
starts zeroed, and the callee fills it from index 0 (`Interop.OutBuffer`).
Capacities are an explicit `Config` value rather than global constants.
Exceptions are the `Errors.Failure` datatype. Besides the library's four
kinds, it has the four runtime exceptions the wrappers can hit:

- `new byte[len]` with the unsigned reported length throws `OverflowException`
  when the length is above `int.MaxValue` (0x7FFFFFFF).
- `new byte[len]` throws `OutOfMemoryException` when the reported length is
  past the runtime's array limit (`Array.MaxLength`, 0x7FFFFFC7) but not above
  `int.MaxValue`.
- `Array.Copy` throws `ArgumentException` when the reported length exceeds the
  array.
- `Encoding.ASCII.GetString` throws `ArgumentOutOfRangeException` when no zero
  terminator is present, because `Array.IndexOf` then returns -1.

Modules: `Wrappers` (Option/Result), `Helper` (status codes, capacities),
`Interop` (the .NET array, search and ASCII behaviour the wrappers rely on),
`Errors` (exceptions and the two status switches), `Principals`, `Identities`,
and `Scenarios` (the repository's test cases, with the native replies they
rely on stated as hypotheses).

Notes on the code:

- The capacities are `const` in `Helper.cs`. Some tests still assign them, so
  the model takes them as a parameter.
- `ManagementCanister`, `SelfAuthenticating` and `Principal.Anonymous`
  recognise only `Ok` and `DataOverflow`. `InternalErr` and `ErrInfoOverflow`
  from these calls become `UnknownException`, not their own kinds.
- A diagnostic or text array without a terminator makes `GetString` throw
  `ArgumentOutOfRangeException` instead of returning the text (`ToString` on
  `Ok`) or throwing the library's `InternalErrorException`.
- `Identity.Anonymous()` discards the native status altogether.

## Model

| member | source | states |
|---|---|---|
| Helper.Classify | src/ICAgentFFI/Helper.cs:3-9 | A raw status is one of the four enum members exactly when it lies in -3..0, and then that member's value is the raw status; anything else reaches the `default` arm |
| Helper.StateCode.Value | src/ICAgentFFI/Helper.cs:3-9 | Each status code's value lies in -3..0, and only `Ok` has value 0 |
| Helper.ClassifyValue | src/ICAgentFFI/Helper.cs:3-9 | Each member is recovered from its value, so Ok=0, DataOverflow=-1, InternalErr=-2 and ErrInfoOverflow=-3 are pairwise distinct |
| Helper.DefaultCapacities | src/ICAgentFFI/Helper.cs:15-17 | The default capacities 32, 128 and 256 are positive, and the identifier capacity admits a 29-byte principal |
| Interop.OutBuffer | src/ICAgentFFI/Principal.cs:19-26 | The output array seen after the call has exactly the capacity passed. It holds what the callee wrote, and zeros after that |
| Interop.IndexOf | src/ICAgentFFI/Principal.cs:100 | `Array.IndexOf` gives -1 iff the byte is absent, and otherwise the first position holding it |
| Interop.AsciiChar | src/ICAgentFFI/Principal.cs:101 | A byte below 0x80 decodes to the character with that code, and every other byte decodes to '?' |
| Interop.Ascii | src/ICAgentFFI/Principal.cs:101 | `Encoding.ASCII.GetString` yields one character per byte, each decoded as AsciiChar |
| Interop.DecodeTerminated | src/ICAgentFFI/Principal.cs:100-101 | Decoding fails iff the array has no zero byte. Otherwise it gives the ASCII text of the prefix before the first zero, which itself holds no zero and is shorter than the array |
| Interop.DecodeZeroFilled | src/ICAgentFFI/Identity.cs:40-52 | A zero-free message shorter than its zero-initialised array decodes back to exactly that message without a terminator of its own |
| Interop.DecodeWritten | src/ICAgentFFI/Principal.cs:99-102 | A zero-free message written with its terminator into an array that fits both decodes back to exactly that message, whatever follows the terminator |
| Interop.AsciiInjective | src/ICAgentFFI/Principal.cs:101 | On bytes below 0x80, ASCII decoding loses no information |
| Interop.CopyPrefix | src/ICAgentFFI/Principal.cs:12-13 | `Array.Copy` succeeds iff the length is at most the source array's, and then yields a prefix of that length |
| Errors.InternalError | src/ICAgentFFI/Principal.cs:99-102 | `InternalErr` yields `InternalErrorException` iff the diagnostic array holds a zero. The message is "Internal: " plus the zero-free prefix before the first zero. Otherwise `ArgumentOutOfRangeException` is thrown |
| Errors.FullFailure | src/ICAgentFFI/Principal.cs:97-106 | For every non-Ok code of the five-way switch: DataOverflow gives the overflow exception with the caller's message, and is the only recoverable failure. InternalErr gives `InternalError` of the diagnostic array. ErrInfoOverflow gives its exception and message. Any code outside the enum gives UnknownException with its message. Every kind matches the intended classification, except InternalErr without a terminator |
| Errors.NarrowFailure | src/ICAgentFFI/Principal.cs:27-30 | The three-way switch throws DataOverflowException iff the code is -1, and UnknownException for every other non-Ok code |
| Errors.NarrowDeviatesFromTaxonomy | src/ICAgentFFI/Principal.cs:23-31 | The three-way switch agrees with the error taxonomy exactly when the code is neither InternalErr nor ErrInfoOverflow |
| Errors.UnknownIsNeverRecoverable | src/ICAgentFFI/Principal.cs:105-106 | A code outside the enum is an UnknownException in both switches, never an overflow |
| Principals.NewPrincipal | src/ICAgentFFI/Principal.cs:10-15 | The constructor succeeds iff `arrLen` is at most `arr.Length` and allocatable, and then the bytes are `arr[..arrLen]`. A length above `int.MaxValue` makes `new byte[arrLen]` throw OverflowException, and one between the array limit and `int.MaxValue` makes it throw OutOfMemoryException. A shorter source makes `Array.Copy` throw ArgumentException |
| Principals.Captured | src/ICAgentFFI/Principal.cs:25-26 | The Ok arm succeeds iff the reported length fits the capacity, and yields the reported prefix of the output array. A length that does not fit gives the allocation or copy fault |
| Principals.CapturedRoundTrip | src/ICAgentFFI/Principal.cs:10-15 | A callee that writes `b`, reports `|b|` and fits the capacity gets back exactly `Principal(b)` |
| Principals.NarrowSwitch | src/ICAgentFFI/Principal.cs:23-31 | Ok with a fitting length gives the reported prefix, and Ok with any other length gives the allocation or copy fault. DataOverflow gives DataOverflowException. Every other code, InternalErr and ErrInfoOverflow included, gives UnknownException |
| Principals.FullSwitch | src/ICAgentFFI/Principal.cs:93-107 | Ok with a fitting length gives the reported prefix, bounded by the capacity. Ok with any other length gives the allocation or copy fault. Every other code gives the five-way switch's failure, read from the diagnostic array |
| Principals.FullSwitchFollowsTaxonomy | src/ICAgentFFI/Principal.cs:93-107 | For every reply, the outcome kind equals the intended kind for the code. The only exceptions are an Ok length that cannot be taken and an unterminated InternalErr diagnostic, both in both directions |
| Principals.ManagementCanister | src/ICAgentFFI/Principal.cs:17-32 | Success iff Ok with a fitting length, and the bytes are then the reported prefix of the identifier array. Ok with any other length gives the allocation or copy fault. DataOverflow gives the principal-bytes overflow exception. Every other code gives UnknownException |
| Principals.SelfAuthenticating | src/ICAgentFFI/Principal.cs:34-55 | Same contract as ManagementCanister. The public key is passed to the callee together with the identifier capacity |
| Principals.Anonymous | src/ICAgentFFI/Principal.cs:57-76 | Same contract as ManagementCanister: only Ok and DataOverflow are recognised, and everything else is UnknownException |
| Principals.FromBytes | src/ICAgentFFI/Principal.cs:78-108 | Success iff Ok with a fitting length, and the bytes are then the reported prefix, within the capacity. Ok with any other length gives the allocation or copy fault. Every other code gives the five-way switch's failure on the diagnostic array. A failure is recoverable iff the code is DataOverflow |
| Principals.FromBytesRoundTrip | src/ICAgentFFI/Principal.cs:78-108 | If the callee echoes bytes that fit, `FromBytes(b).Bytes == b` |
| Principals.FromBytesReportsDiagnostic | src/ICAgentFFI/Principal.cs:99-102 | On InternalErr with a terminated diagnostic, followed by anything, FromBytes throws InternalErrorException with "Internal: " plus exactly that diagnostic |
| Principals.FromText | src/ICAgentFFI/Principal.cs:110-139 | Same contract as FromBytes, for a text input |
| Principals.ToString | src/ICAgentFFI/Principal.cs:141-176 | Success iff Ok and the text array holds a zero. The text is then the ASCII of the zero-free prefix before the first zero, and is shorter than the text capacity. Ok without a terminator gives ArgumentOutOfRangeException. Every other code gives the five-way switch's failure, DataOverflow with the principal-text message |
| Principals.TextRoundTrip | src/ICAgentFFI/Principal.cs:157-161 | If to-text writes a text that fits, then a terminator, then anything, and from-text parses the decoded string back, then `ToString` returns that text and `FromText` of it returns the same principal |
| Principals.SequenceEqual | src/ICAgentFFI/Principal.cs:186 | `Enumerable.SequenceEqual` holds iff the two byte sequences are equal |
| Principals.Equals | src/ICAgentFFI/Principal.cs:178-187 | `Equals(null)` is false. Otherwise Equals holds iff the byte sequences are equal |
| Principals.EqualsObject | src/ICAgentFFI/Principal.cs:189 | Equals on an `object` holds iff it is a principal with the same bytes. Null and other types are unequal |
| Principals.EqualsIsEquivalence | src/ICAgentFFI/Principal.cs:178-187 | Equality is reflexive, symmetric and transitive |
| Principals.BigIntegerOf | src/ICAgentFFI/Principal.cs:193 | `new BigInteger(bytes)` is negative iff the last byte has its top bit set |
| Principals.GetHashCode | src/ICAgentFFI/Principal.cs:191-194 | Appending a zero byte that only sign-extends a non-negative value leaves the hash unchanged, so the hash sees an integer rather than the byte sequence |
| Principals.SignBitSeparatesHash | src/ICAgentFFI/Principal.cs:191-194 | The hashed integer is the two's-complement reading: under the identity hash {0x80} hashes to -128 and {0x80, 0x00} to 128 |
| Principals.HashRespectsEquals | src/ICAgentFFI/Principal.cs:191-194 | Equal principals have equal hashes, for every BigInteger hash function |
| Principals.LittleEndianTrailingZero | src/ICAgentFFI/Principal.cs:193 | Appending a zero byte leaves the little-endian value unchanged |
| Principals.SignExtensionKeepsHash | src/ICAgentFFI/Principal.cs:191-194 | The hash is coarser than equality. Bytes `b` and `b + [0]` (b empty or ending below 0x80) are unequal principals with equal hashes, e.g. the management canister and {0x00} |
| Identities.AnonymousIdentity | src/ICAgentFFI/Identity.cs:25-32 | Always an Anonymous identity holding the handle the callee wrote, whatever status it returned |
| Identities.AnonymousIgnoresStatus | src/ICAgentFFI/Identity.cs:25-32 | Two calls that return the same handle with different status codes give the same identity |
| Identities.IdentityType.Value | src/ICAgentFFI/Identity.cs:173-177 | The enum values are Anonymous=0, Basic=1 and Secp256K1=2, each value naming one variant only |
| Identities.BasicRandom | src/ICAgentFFI/Identity.cs:37-59 | Success iff Ok, and then the identity is Basic and holds the callee's handle. Every non-Ok code gives exactly the five-way switch's exception and message, read from the zero-padded diagnostic array, with the principal-bytes overflow message for DataOverflow. A failure is recoverable iff DataOverflow. A runtime fault arises only on InternalErr when the diagnostic array holds no zero byte |
| Identities.BasicRandomReportsDiagnostic | src/ICAgentFFI/Identity.cs:50-53 | On InternalErr with a terminated diagnostic, followed by anything, the exception message is "Internal: " plus exactly that diagnostic |
| Identities.BasicRandomZeroFilledDiagnostic | src/ICAgentFFI/Identity.cs:40-53 | On InternalErr with a zero-free diagnostic shorter than the array and no terminator of its own, the zero fill of `new byte[OutErrInfoSize]` ends it and the exception message is "Internal: " plus exactly that diagnostic |
| Identities.Sender | src/ICAgentFFI/Identity.cs:61-90 | Success iff Ok with a fitting length, and the principal's bytes are then `outArr[..outArrLen]` with `outArrLen <= OutArrSize`. Every other code gives the five-way failure, InternalErr included. A failure is recoverable iff DataOverflow. A runtime fault arises only from an Ok length that cannot be taken or an unterminated InternalErr diagnostic |
| Identities.SenderAnonymousAsymmetry | src/ICAgentFFI/Identity.cs:81-84 | The same InternalErr reply gives InternalErrorException with the decoded message from `Sender`, but UnknownException from `Principal.Anonymous` |
| Scenarios.EqualShouldWork | tests/ICAgentFFI.Tests/PrincipalTest.cs:150-161 | With the test replies: Anonymous is {0x04}, ManagementCanister is {}, two anonymous principals are equal, and anonymous differs from management canister |
| Scenarios.SelfAuthenticatingVector | tests/ICAgentFFI.Tests/PrincipalTest.cs:17-39 | The test key's 29-byte principal fits the default capacity, comes back whole, and ends in the 0x02 tag |
| Scenarios.AnonymousText | tests/ICAgentFFI.Tests/PrincipalTest.cs:101-136 | `FromBytes({0x04})` gives the principal {0x04}, its `ToString` is "2vxsx-fae", and `FromText("2vxsx-fae")` is {0x04} |
| Scenarios.ZeroCapacityOverflows | tests/ICAgentFFI.Tests/PrincipalTest.cs:41-148 | With identifier capacity 0 and overflowing callees, Anonymous, SelfAuthenticating, FromBytes and FromText throw the principal-bytes overflow exception. With text capacity 0, ToString throws the principal-text one |
| Scenarios.AnonymousIdentitySender | tests/ICAgentFFI.Tests/IdentityTest.cs:5-12 | An anonymous identity's sender equals `Principal.Anonymous()` when both calls report {0x04} |
| Scenarios.BasicRandomShouldWork | tests/ICAgentFFI.Tests/IdentityTest.cs:14-20 | `BasicRandom()` on Ok gives an identity of type Basic |

## Left out

- The native functions (`FromRust.*`): the self-authenticating hash, the textual principal format and key generation are oracle parameters. Only the test vectors are assumed about them, and only as lemma hypotheses.
- `~Identity` / `identity_free`: release is driven by the garbage collector's finaliser and has no sequential meaning here.
- `identity_sign` and the `*_from_pem*` imports: they are declared, but no managed wrapper calls them.
- `Secp256k1Random`: Identity.cs declares the `identity_secp256k1_random` import but no managed wrapper; the test that calls it does not compile against this code. The `Secp256K1` variant exists only as a tag.
- src/ICAgentFFI/Agent/HttpAgent.cs is not part of this model. It is a network constructor with no logic of its own.
- The Candid value tests: the value system they exercise is not part of this model.
- Tests that assign `Config` capacities, call `Config.Reset()` or reflect on a private field: capacity is a `Config` parameter instead.
- 32-bit widths: lengths and capacities are `nat`, which includes every `UInt32` the callee can report. Lengths above `int.MaxValue` are modelled as the overflow fault and lengths between the array limit and `int.MaxValue` as the out-of-memory fault.
- Capacities are assumed allocatable. The source's 32, 128 and 256 are far below the array limit. An allocation that fails for lack of memory below that limit is not modelled.
- `BigInteger.GetHashCode`: the concrete integer hash is a parameter. Only the `BigInteger(byte[])` value it hashes is modelled.
- The reference-equality shortcut and the `GetType` check in `Equals`: values have no object identity, and the only constructor is internal with no subclass declared. Both shortcuts agree with element-wise comparison.
- Messages of the runtime exceptions: `OverflowException`, `OutOfMemoryException`, `ArgumentException` and `ArgumentOutOfRangeException` carry no message here.
- Marshalling of the `string` passed to `principal_from_text`: the oracle receives the Dafny string unchanged.
- Writes past an array's end by a misbehaving callee: they corrupt the managed heap, which a value model cannot express; the model assumes the callee stays within the capacity it is passed.
- Aliasing of `Principal.Bytes`: the property returns the internal array, so a caller can overwrite it and change what `Equals` and `GetHashCode` answer later. Principals are values here, so such writes have no counterpart.
- Null arguments: a null `publicKey` or `bytes` throws NullReferenceException when the wrapper reads its length. The model's sequences cannot be null.
