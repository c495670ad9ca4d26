# A verified model of the SMO framework's core algorithms

This project models, in Dafny 4.11, the algorithmic core of the SMO framework (secure mesh orchestration) and
proves what its parts promise, for every input, every run or every reachable state.

| part | files | central results |
|---|---|---|
| Shamir secret sharing over GF(2^8) | `GF256`, `Polynomial`, `Shamir` | the hand-written field arithmetic is a field; any M distinct shares give the secret back; M-1 shares say nothing about it; a changed share byte always shows |
| Execution graphs and the compiler back end | `TaskGraph`, `CycleCheck`, `DepthSearch`, `FinalValidator`, `GraphBuilder` | Kahn's loop decides acyclicity; the memoised search finds longest paths and ends exactly off cycles; exactly which validations return and which instruction lists compile |
| CBOR and the bootstrap messages | `ByteStrings`, `Cbor`, `ContextValues`, `BootstrapRequests`, `BootstrapSnapshots`, `BootstrapSnapshotCodec`, `SnapshotMessages`, `SnapshotRefusals`, `BootstrapResponses`, `ResponseMessages` | prefix-free round trips at any nesting, `skip` agrees with decoding, map entries commute, and exactly which snapshots survive a round trip |
| Certificates and trust | `Certificates`, `Hex`, `CertificateChains`, `IntermediateCas` | unambiguous signing bytes; chain checking as a property of links; after every run of CA operations every listed CA is anchored in the root key |
| Access policy | `PolicyEngine` | the sort-and-scan decides an order-free rule; exactly when its effect depends on ties |
| Node registry | `DisplayNames`, `NodeRegistry` | enrolment is all or nothing; over every run no name has two owners |
| WebAssembly emitter | `Leb128`, `WasmModules`, `WasmEmitter` | variable-length integers are inverted by the grammar's own decoders and are shortest; the module splits into its six sections in one way only |
| Seed selection | `SeedSelection` | the number of picks that choose an entry is its weight; exactly when the draws are fair |

Results carry the source's numeric error codes (`Results.Result` in `Common`). Code that changes a buffer, a position, a
list or a table is an imperative method or a class proved against a specification function; the laws are lemmas about
those functions. Randomness (`Rng`, the drawn number of the seed choice), the clock, the signer and the order in which an
unstable sort or a hash map leaves equal elements are parameters, so each theorem holds for all of them.

## Where the code and its documentation or intent differ

The model follows the code.

- A comment in `core/crypto/shamir.cpp` names the modulus x^8 + x^4 + x^3 + x + 1; the constant 0x1D makes it
  x^8 + x^4 + x^3 + x^2 + 1. The field laws are proved for the constant.
- The loops of `shamir_split` count a `uint8_t` up to `N`. They end exactly when `N < 255` (`Shamir.CounterExits`), so
  `Shamir.Split` requires that of calls whose arguments are valid.
- `Decoder::skip` drops the error of the head it reads for the major types 0, 1 and 7 and looks at neither simple values
  nor map keys, so it passes items that do not decode (`ContextValues.SkipAcceptsMore`). What decodes is exactly what skip
  passes and is plain besides (`ContextValues.DecodesIffPlainSkip`).
- A seed with an empty region is written as three entries under a head that announces four. A snapshot with such a seed
  never decodes (`BootstrapSnapshots.DecodeWithoutRegion`), and the bootstrap handler builds all its seeds that way
  (`BootstrapResponses.HandlerResponseUndecodable`). `schema_version` is not sent. The exact condition for a round trip is
  `BootstrapSnapshots.SnapshotRoundTrip`.
- `certificate.hpp` asks for a self-signed last certificate; the code compares the last issuer with the root key
  (`IntermediateCas.LastNeedNotBeSelfSigned`).
- `verify_with_intermediates` looks at validity times, not at the status of a CA; revoking a CA changes its status only
  (`IntermediateCas.RevocationNotSeen`, `IntermediateCas.RevokedCaAccepted`).
- With `reject_cycles` switched off, `validate` can recurse for ever. It returns exactly when no listed task reaches a cycle
  or a task that is too deep is listed before the first that does (`FinalValidator.ValidateEnds`), so the order of the same
  tasks can decide (`FinalValidator.OrderDecides`).
- `Optimizer::optimize` collects the referenced ids and never uses them; it prunes nodes without an id.
- `forbidden_roles` are loaded into a policy rule and never consulted (`PolicyEngine.ForbiddenRolesIgnored`,
  `PolicyEngine.ForbiddenRolePermitted`).
- `release_alias` also frees the alias that guards a display name. `NodeRegistry.ReleaseKeepsInvIff` says when a release is
  harmless and `NodeRegistry.ReleasedNameIsTaken` what happens otherwise.

## Model

| member | source | states |
|---|---|---|
| GF256.GfMul | core/crypto/shamir.cpp:15-29 | The shift-and-reduce loop computes the product for which the field laws below hold |
| GF256.MulComm | core/crypto/shamir.cpp:15-29 | The product commutes |
| GF256.MulAssoc | core/crypto/shamir.cpp:15-29 | The product associates |
| GF256.MulAdd | core/crypto/shamir.cpp:15-29 | The product distributes over XOR on both sides |
| GF256.MulOne | core/crypto/shamir.cpp:15-29 | 1 is neutral on both sides |
| GF256.SmallerMultiple | core/crypto/shamir.cpp:15-29 | Irreducibility of the modulus: every element above 1 has a smaller nonzero multiple |
| GF256.Invertible | core/crypto/shamir.cpp:15-29 | Every nonzero element has an inverse |
| GF256.PowersOfX | core/crypto/shamir.cpp:15-29 | The powers of x up to x^8 = 0x1D as bytes; with the laws above they fix every product |
| GF256.NoZeroDivisors | core/crypto/shamir.cpp:15-29 | A product of nonzero elements is nonzero |
| GF256.PowAdd | core/crypto/shamir.cpp:36-47 | Powers add their exponents |
| GF256.GfPow | core/crypto/shamir.cpp:36-47 | Square-and-multiply is repeated multiplication for every integer exponent; a non-positive one gives 1 |
| GF256.FrobeniusFixes | core/crypto/shamir.cpp:36-47 | Squaring eight times is the identity on all 256 elements |
| GF256.PowFrobenius | core/crypto/shamir.cpp:36-47 | a^256 == a for every element |
| GF256.InvLaw | core/crypto/shamir.cpp:49-53 | a^254 is the inverse of every nonzero a, and 0 for 0 |
| GF256.GfInv | core/crypto/shamir.cpp:49-53 | Returns the multiplicative inverse, 0 for 0 |
| GF256.GfDiv | core/crypto/shamir.cpp:55-58 | Times the divisor the quotient is the dividend; division by 0 gives 0 |
| Polynomial.UniqueInterpolation | core/crypto/shamir.cpp:108-136 | Two polynomials of the same size that agree on that many distinct points are equal |
| Polynomial.InterpolantFits | core/crypto/shamir.cpp:108-136 | Some polynomial of size n takes any n values on any n distinct points |
| Polynomial.Interpolation | core/crypto/shamir.cpp:172-203 | Lagrange's weights at 0 give back the constant term of every polynomial with at most as many coefficients as points |
| Shamir.CounterExits | core/crypto/shamir.cpp:98-125 | The 8-bit loops over 1..N end exactly when N is below 255 |
| Shamir.EvaluateAt | core/crypto/shamir.cpp:124-135 | The running powers of x evaluate the coefficient polynomial |
| Shamir.FillPosition | core/crypto/shamir.cpp:108-139 | One round of the byte loop puts the value of that byte's polynomial in every share |
| Shamir.Split | core/crypto/shamir.cpp:86-142 | The error codes of bad arguments, for N == 255 too, else N shares with indices 1..N holding every byte polynomial's value |
| Shamir.SplitOutcome | core/crypto/shamir.cpp:86-142 | Split accepts exactly 32 bytes with 1 <= M <= N, else 163 or 164; share k has index k + 1, and each of its 32 bytes is the value there of a polynomial with the secret byte first and M - 1 drawn coefficients |
| Shamir.CheckShares | core/crypto/shamir.cpp:153-160 | The first bad share decides the error code |
| Shamir.NoShareErrors | core/crypto/shamir.cpp:153-160 | No error exactly when every share has a nonzero index and a 32-byte value |
| Shamir.HasDuplicateIndex | core/crypto/shamir.cpp:162-170 | Finds a repeated index exactly when there is one |
| Shamir.LagrangeCoefficient | core/crypto/shamir.cpp:182-197 | The coefficient loop computes Lagrange's weight at 0 |
| Shamir.RecoverByte | core/crypto/shamir.cpp:176-203 | One byte of the result is the interpolated value at 0 |
| Shamir.Recover | core/crypto/shamir.cpp:144-206 | All error codes in the source's order, else interpolation at 0 of the first M shares |
| Shamir.RecoverAcceptsIff | core/crypto/shamir.cpp:144-170 | Recovery is accepted if and only if 1 <= M <= count <= 255, every share has 32 bytes and a nonzero index, and all indices differ, also those of shares that are not used |
| Shamir.RecoverCodes | core/crypto/shamir.cpp:144-170 | Which refusal carries which of the codes 166 to 171; among unusable shares the first decides |
| Shamir.RecoverMeaning | core/crypto/shamir.cpp:172-206 | Byte p of the result is the constant term of any polynomial of size M through the first M shares |
| Shamir.RecoverPolynomial | core/crypto/shamir.cpp:172-206 | Such a polynomial exists for every accepted call |
| Shamir.SplitThenRecover | core/crypto/shamir.cpp:86-206 | Any list of at least M' >= M shares of a split with distinct indices, in any order, recovers the secret under threshold M', for all coefficients and 1 <= M <= N <= 254 |
| Shamir.ExactlyOneExplanation | core/crypto/shamir.cpp:108-136 | For any secret byte and any values on nonzero distinct indices exactly one coefficient vector produces them |
| Shamir.SharesHideSecret | core/crypto/shamir.cpp:86-142 | Any M-1 shares of one secret are also the shares of any other secret under other random coefficients |
| Shamir.TamperingChangesSecret | core/crypto/shamir.cpp:172-206 | Changing one byte of a share that recovery uses always changes that byte of the result |
| TaskGraph.AcyclicIffOrdered | compiler/validator/final.cpp:9-52 | No path returns to its start exactly when a topological order of all ids exists |
| TaskGraph.StuckSetHasCycle | compiler/validator/final.cpp:39-51 | A nonempty set in which every id has a predecessor in the set holds a cycle |
| CycleCheck.EdgeIffArc | compiler/validator/final.cpp:20-29 | The edge list has exactly the dependency relation, whatever repeats |
| CycleCheck.BuildMaps | compiler/validator/final.cpp:11-29 | Adjacency lists and in-degrees count every edge, for duplicate ids and repeated edges too |
| CycleCheck.InitialQueue | compiler/validator/final.cpp:31-36 | The queue starts with exactly the ids of in-degree 0, each once |
| CycleCheck.DrainStep | compiler/validator/final.cpp:42-49 | Each decrement keeps the in-degrees equal to the edges from unvisited ids |
| CycleCheck.Verdict | compiler/validator/final.cpp:51 | With the queue empty, as many ids were visited as known exactly when all dependencies are declared and the graph is acyclic |
| CycleCheck.HasCycle | compiler/validator/final.cpp:9-52 | False exactly when every dependency is a declared task and no path returns to its start |
| DepthSearch.MaxDepth | compiler/validator/final.cpp:54-73 | From any task that reaches no cycle the search returns the number of arcs of a longest path, leaves only longest lengths in the memo, and does what the cut-off recursion does |
| DepthSearch.LongestIff | compiler/validator/final.cpp:54-73 | A longest path from a task exists exactly when it reaches no cycle |
| DepthSearch.SearchFinds | compiler/validator/final.cpp:54-73 | Whenever the recursion ends, with any correct memo, it has found the longest path and keeps the memo correct |
| DepthSearch.SearchEnds | compiler/validator/final.cpp:54-73 | The recursion ends if and only if no cycle can be reached from where it starts |
| FinalValidator.BuildAdjacency | compiler/validator/final.cpp:92-104 | The second pass rebuilds the same adjacency lists |
| FinalValidator.Validate | compiler/validator/final.cpp:75-117 | On every call that returns: empty, too many, cyclic or undeclared, and too deep graphs get codes 10 to 13 in that order; exactly the others pass unchanged |
| FinalValidator.ValidateOutcome | compiler/validator/final.cpp:75-117 | The verdict on every graph in terms of its nodes and paths, with the codes 10 to 13 in their order |
| FinalValidator.ValidateEnds | compiler/validator/final.cpp:75-117 | A call returns if and only if one of the first checks decides it, or before every listed task that reaches a cycle comes one that reaches none and is too deep; and it returns the specified result |
| FinalValidator.OrderDecides | compiler/validator/final.cpp:106-114 | With the cycle check off and the same four tasks, one order never returns and the other returns 13 |
| FinalValidator.LongestBounds | compiler/validator/final.cpp:109-113 | Comparing a longest length with the limit is asking whether some path from that task exceeds it |
| GraphBuilder.TaskIdInjective | compiler/graph/builder.cpp:15-29 | Numbered task ids are distinct |
| GraphBuilder.AppendBlock | compiler/graph/builder.cpp:15-29 | A block's Call and Seq instructions become the next nodes, numbered across blocks |
| GraphBuilder.Build | compiler/graph/builder.cpp:8-33 | The graph has one node for each Call or Seq, a Seq depending on its predecessor |
| GraphBuilder.BuiltShape | compiler/graph/builder.cpp:15-29 | Ids are distinct and every dependency is the previous node |
| GraphBuilder.BuiltFrom | compiler/graph/builder.cpp:8-33 | Strictly increasing positions match the nodes with exactly the Call and Seq instructions of the program; node k is named t and the decimal digits of k + 1, carries the annotation or {} for an empty one, and depends on its predecessor exactly when it is a Seq after the first |
| GraphBuilder.Optimize | compiler/optimizer/optimizer.cpp:6-29 | The pruning loop keeps the nodes with an id, in order |
| GraphBuilder.PruneIdentity | compiler/optimizer/optimizer.cpp:19-26 | Pruning changes a graph exactly when some node has no id |
| GraphBuilder.PrunePicks | compiler/optimizer/optimizer.cpp:19-26 | Pruning keeps exactly the nodes with an id, in order and as often as they occur |
| GraphBuilder.BuiltSurvivesPruning | compiler/optimizer/optimizer.cpp:19-26 | A built graph passes the optimizer unchanged |
| GraphBuilder.BuiltOrder | compiler/graph/builder.cpp:15-29 | A built graph declares all its dependencies and is acyclic |
| GraphBuilder.DepthIsRun | compiler/graph/builder.cpp:15-29 | A built graph is too deep exactly when some run of consecutive Seq tasks after the first task is longer than the limit |
| GraphBuilder.BackEndAccepts | compiler/validator/final.cpp:75-117 | Build, optimize and validate accept exactly 1 to 1024 tasks without a run of 65 Seq, and return the built graph; else code 10, 11 or 13 |
| GraphBuilder.Compile | compiler/graph/builder.cpp:8-33 | The three procedures in a row accept exactly those instruction lists, with those codes |
| Cbor.HeadRoundTrip | core/bootstrap/cbor.cpp:10-149 | A head is read back, whatever follows, for every major type and 64-bit argument |
| Cbor.HeadIsShortest | core/bootstrap/cbor.cpp:10-47 | No head that decodes to an argument is shorter than the one written (section 3.9 of RFC 7049) |
| Cbor.HeadLayout | core/bootstrap/cbor.cpp:10-47 | The bytes of a head for every major type and 64-bit value, size class by size class |
| Cbor.HeadOutcome | core/bootstrap/cbor.cpp:104-149 | Reading a head from any bytes: number, codes 700 and 701, and the position left behind |
| Cbor.ReadOutcomes | core/bootstrap/cbor.cpp:158-252 | Every typed read in terms of its head: accepted values, wrap-around of integers, each code and position |
| Cbor.TypedRoundTrip | core/bootstrap/cbor.cpp:158-252 | A typed read of a head of its type returns the argument |
| Cbor.WrongType | core/bootstrap/cbor.cpp:158-252 | A typed read of another type fails with its own code, past the head |
| Cbor.BlobRoundTrip | core/bootstrap/cbor.cpp:188-226 | Byte and text strings are read back and the position is left at what follows |
| Cbor.Encoder.EncodeHead | core/bootstrap/cbor.cpp:10-47 | Appends the shortest head |
| Cbor.Encoder.EncodeInt | core/bootstrap/cbor.cpp:56-66 | Appends major type 0 or 1 by sign, down to the smallest 64-bit integer |
| Cbor.Encoder.EncodeBytes | core/bootstrap/cbor.cpp:68-72 | Appends the length head and the bytes |
| Cbor.Decoder.DecodeHead | core/bootstrap/cbor.cpp:104-149 | Result and new position, on any bytes, are those of the head reader that inverts heads |
| Cbor.Decoder.DecodeInt | core/bootstrap/cbor.cpp:171-186 | Both integer types with the source's range behaviour, on any bytes |
| Cbor.Decoder.DecodeBytes | core/bootstrap/cbor.cpp:188-206 | Wrong type, truncated content and success, with the position of each |
| Cbor.Decoder.DecodeString | core/bootstrap/cbor.cpp:208-226 | The same for text strings |
| Cbor.Decoder.DecodeUint | core/bootstrap/cbor.cpp:158-169 | Wrong type, head error and success, with the position of each |
| Cbor.Decoder.DecodeArraySize | core/bootstrap/cbor.cpp:228-239 | Wrong type, head error and success, with the position of each |
| Cbor.Decoder.DecodeMapSize | core/bootstrap/cbor.cpp:241-252 | Wrong type, head error and success, with the position of each |
| Cbor.Decoder.Skip | core/bootstrap/cbor.cpp:254-313 | Ends on any bytes and stops where the item reader stops, at any nesting |
| Cbor.SkipOutcome | core/bootstrap/cbor.cpp:254-313 | Skip on any bytes: what it passes, that an array of n passes n items and a map 2n, and that the first failing item decides |
| ContextValues.RoundTrip | core/cbor/context_value.cpp:11-210 | An encoded value anywhere in any data is read back and the position is left right after it, at any nesting |
| ContextValues.DecodeInvertsEncode | core/cbor/context_value.cpp:80-210 | Decoding an encoding followed by any trailer returns the value and stops at the trailer |
| ContextValues.PrefixFree | core/cbor/context_value.cpp:11-76 | No encoding is a prefix of another value's encoding |
| ContextValues.EncodeLayout | core/cbor/context_value.cpp:11-76 | The bytes of a value, constructor by constructor |
| ContextValues.ScalarOutcome | core/cbor/context_value.cpp:80-210 | Decoding any bytes that do not start an array or map: value, code and position by leading byte |
| ContextValues.ArrayOutcome | core/cbor/context_value.cpp:163-181 | An array decodes to its values in order; the first that fails gives code and position |
| ContextValues.InsertedFirst | core/cbor/context_value.cpp:190-205 | Inserting pairs one by one keeps the first value of every key, in key order |
| ContextValues.MapOutcome | core/cbor/context_value.cpp:183-207 | A map decodes to the first value of every key in key order; a bad key or value gives code and position |
| ContextValues.EmplaceSorted | core/cbor/context_value.cpp:190-205 | Inserting keeps the map ordered and all its entries, and a key already present leaves the map as it was |
| ContextValues.DecodedIsWellFormed | core/cbor/context_value.cpp:80-210 | Whatever decodes, from any bytes, is a value that encodes and round-trips |
| ContextValues.SkipFollowsDecode | core/bootstrap/cbor.cpp:254-313 | On any bytes that decode, skip succeeds and stops where decoding stops |
| ContextValues.SkipExact | core/bootstrap/cbor.cpp:254-313 | Skip moves over exactly one encoded value |
| ContextValues.DecodesIffPlainSkip | core/bootstrap/cbor.cpp:254-313 | On any bytes decoding succeeds if and only if skip does and the bytes it walks have complete integer heads, only decodable simple values and text keys, at every nesting |
| ContextValues.SkipAcceptsMore | core/bootstrap/cbor.cpp:254-313 | Four inputs that skip passes and decoding refuses: a cut integer head, the same inside an array, an unassigned simple value, a numeric map key |
| ContextValues.EncodeValue | core/cbor/context_value.cpp:11-76 | Appends the encoding for which the round trip holds |
| ContextValues.EncodeFloat | core/cbor/context_value.cpp:28-44 | Appends 0xFB and the 64 bits of the double, most significant byte first |
| ContextValues.DecodeFloat | core/cbor/context_value.cpp:108-126 | Rebuilds the 64 bits, or fails on a short input |
| ContextValues.DecodeArray | core/cbor/context_value.cpp:163-181 | Element by element, stopping at the first error |
| ContextValues.DecodeMap | core/cbor/context_value.cpp:183-207 | Key by key into the ordered map, stopping at the first error |
| ContextValues.DecodeValue | core/cbor/context_value.cpp:80-210 | Result and position on any bytes are those of the reader that inverts the encoding |
| BootstrapRequests.DecodeMessage | core/bootstrap/bootstrap_protocol.cpp:48-109 | Decoding any list of entries, known or not, is applying the known ones in order |
| BootstrapRequests.RequestMeaning | core/bootstrap/bootstrap_protocol.cpp:48-109 | Every field of a decoded request is its last setting or the default of a new request; without a node id the code is 900 |
| BootstrapRequests.RequestLayout | core/bootstrap/bootstrap_protocol.cpp:30-46 | The bytes of an encoded request, entry by entry |
| BootstrapRequests.BadKeyRefused | core/bootstrap/bootstrap_protocol.cpp:56-60 | After any good entries a missing entry gives 700 and a key that is no number 702 |
| BootstrapRequests.BadValueRefused | core/bootstrap/bootstrap_protocol.cpp:61-100 | After any good entries a value of the wrong type under a known key gives 702, 704 or 705, an unskippable one under an unknown key 708 |
| BootstrapRequests.NoMapRefused | core/bootstrap/bootstrap_protocol.cpp:48-55 | Empty input gives 700, any other type 707 |
| BootstrapRequests.ApplyAllSameKnown | core/bootstrap/bootstrap_protocol.cpp:56-101 | Entry lists with the same known entries, each key once, in any order, give the same request |
| BootstrapRequests.LastDecides | core/bootstrap/bootstrap_protocol.cpp:56-101 | The last entry that sets a field decides it; a nonce of the wrong length sets nothing |
| BootstrapRequests.SameEffectIff | core/bootstrap/bootstrap_protocol.cpp:56-101 | Two entry lists act alike on every request if and only if their last settings of every field agree |
| BootstrapRequests.UnknownKeysIgnored | core/bootstrap/bootstrap_protocol.cpp:94-99 | Dropping the unknown entries changes nothing, however often known keys repeat |
| BootstrapRequests.OrderAndUnknownKeysDoNotMatter | core/bootstrap/bootstrap_protocol.cpp:48-109 | Messages whose last settings of every known field agree decode alike, whatever the order, the unknown keys with their values, the repeated keys and the trailer |
| BootstrapRequests.RequestRoundTrip | README.md:215 | Any reordering and extension of a request's own entries decodes to that request, or to the error for an empty node id |
| BootstrapRequests.EncodeRequest | core/bootstrap/bootstrap_protocol.cpp:30-46 | Writes the request's entries as one map |
| BootstrapRequests.DecodeField | core/bootstrap/bootstrap_protocol.cpp:61-100 | One known key sets one field, an unknown one is skipped |
| BootstrapRequests.DecodeRequest | core/bootstrap/bootstrap_protocol.cpp:48-109 | Result on any bytes, with the source's error codes |
| BootstrapSnapshots.AuthorityRun | core/bootstrap/bootstrap_snapshot.cpp:43-89 | The entry of an authority is read back in place |
| BootstrapSnapshots.HealthRun | core/bootstrap/bootstrap_snapshot.cpp:93-139 | The health entry is read back in place |
| BootstrapSnapshots.SeedsRun | core/bootstrap/bootstrap_snapshot.cpp:292-349 | A seed list with regions is read back in order |
| BootstrapSnapshots.FieldRun | core/bootstrap/bootstrap_snapshot.cpp:244-422 | Reading the payload written for a key sets that field and no other, negative 64-bit numbers sent as unsigned included |
| BootstrapSnapshots.FieldsRun | core/bootstrap/bootstrap_snapshot.cpp:235-430 | Reading a run of entries sets that run of fields |
| BootstrapSnapshots.SeedsDerail | core/bootstrap/bootstrap_snapshot.cpp:292-349 | Past a seed without a region the seed loop is off the rails: what it leaves can never end in a decoded snapshot |
| BootstrapSnapshots.DecodeWithRegions | core/bootstrap/bootstrap_snapshot.cpp:143-430 | With all regions present decoding gives the snapshot with schema version 1, or the error for an empty mesh id |
| BootstrapSnapshots.DecodeWithoutRegion | core/bootstrap/bootstrap_snapshot.cpp:143-430 | With any region missing decoding fails, whatever the other fields hold |
| BootstrapSnapshots.SnapshotRoundTrip | core/bootstrap/bootstrap_snapshot.cpp:143-430 | A snapshot survives encoding and decoding if and only if its schema version is 1, its mesh id is not empty and every seed has a region |
| SnapshotMessages.MessageMeaning | core/bootstrap/bootstrap_snapshot.cpp:235-430 | A message of any entries, known or not, repeated or not, decodes field by field to the last setting or the default, with lists added up; without a mesh id the code is 900 |
| SnapshotMessages.UnknownKeysDoNotMatter | core/bootstrap/bootstrap_snapshot.cpp:416-430 | Entries with other keys change nothing, whatever skippable values they hold and wherever they stand |
| SnapshotMessages.EntriesRun | core/bootstrap/bootstrap_snapshot.cpp:244-422 | Reading any entries has the effect of setting them one by one, also before further entries |
| SnapshotMessages.AuthorityMap | core/bootstrap/bootstrap_snapshot.cpp:52-89 | A map of authority entries, with unknown keys among them, decodes to the last node id and endpoint |
| SnapshotMessages.HealthMap | core/bootstrap/bootstrap_snapshot.cpp:102-139 | A map of health entries, with unknown keys among them, decodes to the last level and whether the last number is nonzero |
| SnapshotMessages.SeedList | core/bootstrap/bootstrap_snapshot.cpp:292-349 | A list of seed maps of any entries decodes to one seed for each |
| SnapshotMessages.SeedLayout | core/bootstrap/bootstrap_snapshot.cpp:175-194 | The bytes of a seed: a head of four and three or four entries |
| SnapshotMessages.SnapshotLayout | core/bootstrap/bootstrap_snapshot.cpp:143-233 | The bytes of an encoded snapshot: fourteen entries in key order |
| SnapshotRefusals.BadKeyRefused | core/bootstrap/bootstrap_snapshot.cpp:244-250 | After any good entries a missing entry gives 700 and a key that is no number 702 |
| SnapshotRefusals.BadValueRefused | core/bootstrap/bootstrap_snapshot.cpp:246-421 | After any good entries a value of the wrong type gives the code of its key: 702, 704, 705, 706, 707, or 708 under an unknown one |
| SnapshotRefusals.NoMapRefused | core/bootstrap/bootstrap_snapshot.cpp:235-243 | Empty input gives 700, any other type 707 |
| SnapshotRefusals.AuthorityValueRefused | core/bootstrap/bootstrap_snapshot.cpp:52-89 | In an authority map a bad value after good entries gives 705, an unskippable one under an unknown key 708 |
| SnapshotRefusals.AuthorityKeyRefused | core/bootstrap/bootstrap_snapshot.cpp:52-89 | In an authority map a key that is no number gives 702 |
| SnapshotRefusals.HealthValueRefused | core/bootstrap/bootstrap_snapshot.cpp:102-139 | In a health map a bad value after good entries gives 705 or 702, an unskippable one under an unknown key 708 |
| SnapshotRefusals.HealthKeyRefused | core/bootstrap/bootstrap_snapshot.cpp:102-139 | In a health map a key that is no number gives 702 |
| SnapshotRefusals.AuthoritiesRefused | core/bootstrap/bootstrap_snapshot.cpp:43-89 | The first authority that fails decides the code of the list |
| SnapshotRefusals.OpcodesRefused | core/bootstrap/bootstrap_snapshot.cpp:235-430 | The first opcode that is no number decides the code of the list |
| SnapshotRefusals.ListDecides | core/bootstrap/bootstrap_snapshot.cpp:235-430 | A failing list of authorities or opcodes fails the message with its code |
| SnapshotRefusals.HealthDecides | core/bootstrap/bootstrap_snapshot.cpp:235-430 | A failing health map fails the message with its code |
| SnapshotRefusals.SeedsEndAtBadMap | core/bootstrap/bootstrap_snapshot.cpp:292-349 | A seed that is no map adds a default seed, ends the list behind its head, and is no error |
| SnapshotRefusals.SeedEndsAtBadKey | core/bootstrap/bootstrap_snapshot.cpp:305-345 | A seed key that is no number ends that seed with what was read so far |
| BootstrapSnapshotCodec.EncodeAuthority | core/bootstrap/bootstrap_snapshot.cpp:43-50 | Appends the bytes that AuthorityRun reads back |
| BootstrapSnapshotCodec.EncodeHealth | core/bootstrap/bootstrap_snapshot.cpp:93-100 | Appends the bytes that HealthRun reads back |
| BootstrapSnapshotCodec.EncodeSeeds | core/bootstrap/bootstrap_snapshot.cpp:175-194 | Appends the seed array, each under a head of four, without an empty region |
| BootstrapSnapshotCodec.EncodeSnapshot | core/bootstrap/bootstrap_snapshot.cpp:143-233 | Produces the encoding the round-trip theorem is about |
| BootstrapSnapshotCodec.DecodeAuthority | core/bootstrap/bootstrap_snapshot.cpp:52-89 | Result and position on any bytes |
| BootstrapSnapshotCodec.DecodeHealth | core/bootstrap/bootstrap_snapshot.cpp:102-139 | Result and position on any bytes |
| BootstrapSnapshotCodec.DecodeSeedField | core/bootstrap/bootstrap_snapshot.cpp:305-345 | A seed's field errors are swallowed and leave the position where the failed read left it |
| BootstrapSnapshotCodec.DecodeSeeds | core/bootstrap/bootstrap_snapshot.cpp:292-349 | The seed loop on any bytes |
| BootstrapSnapshotCodec.DecodeField | core/bootstrap/bootstrap_snapshot.cpp:246-421 | One entry of the outer map on any bytes |
| BootstrapSnapshotCodec.DecodeSnapshot | core/bootstrap/bootstrap_snapshot.cpp:235-430 | Result on any bytes, with the source's error codes |
| BootstrapResponses.DecodeEncoded | core/bootstrap/bootstrap_protocol.cpp:113-178 | Decoding an encoded response is decoding its snapshot and keeping all other fields |
| BootstrapResponses.ResponseRoundTrip | core/bootstrap/bootstrap_protocol.cpp:113-178 | A response survives if and only if its snapshot does |
| ResponseMessages.ResponseMeaning | core/bootstrap/bootstrap_protocol.cpp:127-178 | A message of any good entries decodes to the last version, nonce of eight bytes and snapshot, or their defaults |
| ResponseMessages.UnknownKeysDoNotMatter | core/bootstrap/bootstrap_protocol.cpp:127-178 | Entries with other keys change nothing |
| ResponseMessages.ResponseLayout | core/bootstrap/bootstrap_protocol.cpp:113-125 | An encoded response is the message of its three entries |
| ResponseMessages.BadSnapshotRefused | core/bootstrap/bootstrap_protocol.cpp:127-178 | A nested snapshot that does not decode fails the response with its code |
| ResponseMessages.BadValueRefused | core/bootstrap/bootstrap_protocol.cpp:127-178 | A value of the wrong type after good entries gives 702, 704 or 708 |
| ResponseMessages.BadKeyRefused | core/bootstrap/bootstrap_protocol.cpp:127-178 | A missing entry gives 700, a key that is no number 702 |
| ResponseMessages.NoMapRefused | core/bootstrap/bootstrap_protocol.cpp:127-133 | Empty input gives 700, any other type 707 |
| BootstrapResponses.HandlerResponseUndecodable | core/bootstrap/bootstrap_protocol.cpp:247-255 | A response whose seeds were built by the handler from a nonempty endpoint list never decodes |
| BootstrapResponses.OneEndpointFails | core/bootstrap/bootstrap_protocol.cpp:247-255 | A concrete response of that kind, with one endpoint, is within all field widths and does not decode |
| BootstrapResponses.EncodeResponse | core/bootstrap/bootstrap_protocol.cpp:113-125 | Produces the encoding the round-trip theorem is about |
| BootstrapResponses.DecodeResponse | core/bootstrap/bootstrap_protocol.cpp:127-178 | Result on any bytes, with the source's error codes |
| Certificates.ReadAllBack | core/certificate/certificate.cpp:23-74 | A list of numbers and length-prefixed strings is read back in place when every length fits 32 bits |
| Certificates.ReadAllOnlyIfFits | core/certificate/certificate.cpp:23-74 | And only then: a longer string is never read back |
| Certificates.WriteAllInjective | core/certificate/certificate.cpp:23-41 | Lists of the same shape with equal bytes, or one a prefix of the other, are equal |
| Certificates.CertificateRoundTrip | core/certificate/certificate.cpp:102-167 | A certificate survives full serialisation if and only if every field and the signature are shorter than 2^32 |
| Certificates.UnsignedRoundTrip | core/certificate/certificate.cpp:124-167 | A body without signature decodes to the certificate with an empty one |
| Certificates.CertificateAcceptedIff | core/certificate/certificate.cpp:124-167 | Bytes decode to a certificate if and only if they are its unsigned body or start with its full serialisation; everything else gets 203 |
| Certificates.BodyInjective | core/certificate/certificate.cpp:102-122 | Certificates with the same signing bytes agree in every signed field |
| Certificates.BodyLayout | core/certificate/certificate.cpp:102-122 | The signed and the full bytes, field by field |
| Certificates.SigningRequestRoundTrip | core/certificate/certificate.cpp:326-383 | A signing request survives if and only if its fields and signature are shorter than 2^32 |
| Certificates.RequestAcceptedIff | core/certificate/certificate.cpp:346-383 | Bytes decode to a signing request if and only if they start with its serialisation; everything else gets 209 |
| Certificates.RequestLayout | core/certificate/certificate.cpp:326-344 | The signed and the full bytes of a request, field by field |
| Certificates.CsrBodyInjective | core/certificate/certificate.cpp:326-344 | Requests with the same signing bytes agree in every signed field |
| Certificates.AppendBytes | core/certificate/certificate.cpp:37-41 | Appends the length modulo 2^32, big-endian, and all the bytes |
| Certificates.ReadItemAt | core/certificate/certificate.cpp:43-73 | Bounds checks, value and new offset of each kind of read |
| Certificates.Serialize | core/certificate/certificate.cpp:102-115 | The signing bytes BodyInjective is about |
| Certificates.SerializeFull | core/certificate/certificate.cpp:117-122 | The signing bytes and the signature |
| Certificates.DeserializeCertificate | core/certificate/certificate.cpp:124-167 | Result on any bytes; a body without signature has an empty one, a broken signature is an error |
| Certificates.SerializeRequest | core/certificate/certificate.cpp:326-344 | The bytes SigningRequestRoundTrip is about |
| Certificates.DeserializeRequest | core/certificate/certificate.cpp:346-383 | Result on any bytes |
| Hex.BytesToHex | core/types.hpp:20-28 | The loop writes two lower-case digits per byte, the high half first |
| Hex.HexInjective | core/types.hpp:20-28 | Different byte strings have different hex strings |
| CertificateChains.VerifyChain | core/certificate/certificate.cpp:189-240 | The scan's result with the source's error codes for an empty chain, a missing verifier, a bad signature and a broken link |
| CertificateChains.VerifyAcceptsIff | core/certificate/certificate.cpp:189-240 | Acceptance by fields: every signature verifies over the body, every issuer is the next subject, the last issuer is the root key |
| CertificateChains.IntermediatesAcceptIff | core/certificate/certificate.cpp:244-310 | With intermediates the last issuer may also be the subject of one whose validity times hold, both bounds included |
| CertificateChains.VerifyCodes | core/certificate/certificate.cpp:189-310 | The code of every refusal; the first failing certificate decides, its signature before its link |
| CertificateChains.AcceptsIffLinked | core/certificate/certificate.cpp:189-240 | A chain is accepted exactly when every signature is valid, every issuer is the next subject, and the last issuer is trusted |
| CertificateChains.Splice | core/certificate/certificate.cpp:189-240 | A + B verifies to a key if and only if A verifies to B's first subject and B to the key |
| CertificateChains.TrustedIssuers | core/certificate/certificate.cpp:257-268 | The hex-keyed map holds exactly the root key and the subjects of the intermediates valid at their clock reading |
| CertificateChains.VerifyChainWithIntermediates | core/certificate/certificate.cpp:244-310 | Looking issuers up by hex string is membership in that key set |
| CertificateChains.NoIntermediates | core/certificate/certificate.cpp:189-310 | Without intermediates the two checks return the same result, errors included |
| IntermediateCas.MeshAuthority.AddIntermediateCa | core/authority/authority.cpp:968-1033 | The code of every refusal, and the list grows by the CA exactly on success |
| IntermediateCas.MeshAuthority.RevokeIntermediateCa | core/authority/authority.cpp:1060-1081 | The first CA of that id is marked revoked, or code 242 and no change |
| IntermediateCas.AddAcceptsIff | core/authority/authority.cpp:968-1033 | An addition succeeds if and only if the certificate verifies and its issuer is the root key or a listed CA whose status is active; codes 100, 240 and 241 |
| IntermediateCas.RunGrowsIff | core/authority/authority.cpp:968-1033 | After any run an addition grows the list exactly under the root key or a CA active at that moment |
| IntermediateCas.RevokedKeyAddsNothing | core/authority/authority.cpp:968-1081 | Once no CA with a key is active, additions under that key get 241 and change nothing until a CA with that key is added again |
| IntermediateCas.RevokeExact | core/authority/authority.cpp:1060-1081 | Revoking marks the first CA with the id and nothing else |
| IntermediateCas.NewAnchored | core/authority/authority.cpp:968-1033 | An accepted CA has a chain of listed, earlier CAs that verifies against the root key |
| IntermediateCas.RevokeKeepsCertificates | core/authority/authority.cpp:1060-1081 | Revocation changes no certificate and no position |
| IntermediateCas.EveryRunAnchored | core/authority/authority.cpp:968-1081 | After every run from an empty list each listed CA has a chain of listed certificates, issuers strictly earlier, that plain verification accepts against the root key |
| IntermediateCas.AcceptedChainsExtend | core/certificate/certificate.cpp:244-310 | A chain accepted with intermediates from the list extends by listed certificates to one that plain verification accepts |
| IntermediateCas.RevocationNotSeen | core/certificate/certificate.cpp:261-268 | Verification with the listed certificates returns the same before and after any revocation |
| IntermediateCas.RevokedCaAccepted | core/certificate/certificate.cpp:261-268 | A concrete run: a CA is added and revoked, and a chain that ends at its key is accepted |
| IntermediateCas.LastNeedNotBeSelfSigned | core/certificate/certificate.cpp:226-236 | A concrete accepted chain whose last certificate is not self-signed |
| PolicyEngine.EvaluateRules | core/acl/policy_engine.cpp:142-313 | The scan over any order the sort may leave decides as the order-free rule does |
| PolicyEngine.PermitsIffRule | core/acl/policy_engine.cpp:142-323 | Permit exactly when no rule passes its gates and fails its trust bounds, and some matching non-deny rule ranks above the lowest priority and above every matching deny rule |
| PolicyEngine.GatesMeaning | core/acl/policy_engine.cpp:165-323 | When a rule is gated, vetoes or matches, in terms of the fields of rule and session |
| PolicyEngine.VerdictMeaning | core/acl/policy_engine.cpp:142-323 | The verdict over any rules by fields: no passed rule with missed trust bounds, and an allow rule in force above every deny rule in force |
| PolicyEngine.PermitHasSource | core/acl/policy_engine.cpp:286-302 | A permit comes from a listed rule the session meets in every respect, with its effect and words |
| PolicyEngine.UnmetRuleIsIgnored | core/acl/policy_engine.cpp:165-323 | A rule of which any one gate or certification is missed can be removed without changing the decision |
| PolicyEngine.TrustVetoes | core/acl/policy_engine.cpp:223-260 | A rule passed with a trust score outside its bounds denies, whatever else is listed |
| PolicyEngine.VetoReason | core/acl/policy_engine.cpp:223-260 | The first such rule gives the reason, the lower bound before the upper |
| PolicyEngine.LoneRule | core/acl/policy_engine.cpp:142-323 | The decision and reason of a single rule |
| PolicyEngine.VerdictIsOrderFree | core/acl/policy_engine.cpp:148-159 | The verdict is the same for every ordering of the rules, sorted or not |
| PolicyEngine.AddingDenyNeverPermits | core/acl/policy_engine.cpp:262-312 | One more deny rule, anywhere, never turns a denial into a permit |
| PolicyEngine.PermitIsTop | core/acl/policy_engine.cpp:286-302 | A permit carries effect and reason of a matching non-deny rule that no other outranks |
| PolicyEngine.DenialReason | core/acl/policy_engine.cpp:223-313 | A denial names a trust failure, or a top matching deny rule, or finds none above the lowest priority |
| PolicyEngine.EffectIsOrderFree | core/acl/policy_engine.cpp:157-158 | The effect is the same for every order the sort may leave if and only if all top matching non-deny rules carry the same effect |
| PolicyEngine.TopCanDecide | core/acl/policy_engine.cpp:157-158 | For each such rule there is a sorted order in which it decides |
| PolicyEngine.ForbiddenRolesIgnored | core/acl/policy_engine.cpp:165-284 | Dropping all forbidden roles from all rules changes no decision |
| PolicyEngine.ForbiddenRolePermitted | core/acl/policy_engine.cpp:165-302 | A rule that forbids a role permits a session that holds it |
| DisplayNames.NormalizeName | core/authority/registry.cpp:44-66 | The index loops trim both ends and lower-case; the result is in normal form |
| DisplayNames.NormalizeKeeps | core/authority/registry.cpp:44-66 | Normalisation cuts exactly the characters 32 and 9 to 13 at both ends and raises 65 to 90 by 32, by character code |
| DisplayNames.NormalizeIdempotent | core/authority/registry.cpp:44-66 | Exactly the names in normal form are left alone, and every result is one |
| DisplayNames.NormalizeIgnoresPadding | core/authority/registry.cpp:44-66 | White space around a name never tells two names apart |
| DisplayNames.NormalizeIgnoresCase | core/authority/registry.cpp:60-64 | Nor does the case of letters |
| NodeRegistry.Registry.EnrollNode | core/authority/registry.cpp:251-390 | Three inserts or none: success exactly when no unique column stands in the way, else code 220 and the tables as before |
| NodeRegistry.Registry.RegisterAlias | core/authority/registry.cpp:532-565 | 404 for an unknown node, 220 for a taken alias, else one new row; failures change nothing |
| NodeRegistry.Registry.ReleaseAlias | core/authority/registry.cpp:567-580 | The normalised alias is gone and nothing else |
| NodeRegistry.EnrollExact | core/authority/registry.cpp:251-390 | An enrolment adds exactly these three rows when every unique value is new, and nothing otherwise |
| NodeRegistry.AliasExact | core/authority/registry.cpp:532-580 | An alias is added exactly for a known node and a free name; a release removes the name and nothing else |
| NodeRegistry.Registry.InsertNode | core/authority/registry.cpp:72-83 | The primary key and the unique display name |
| NodeRegistry.Registry.InsertCertificate | core/authority/registry.cpp:90-105 | The unique fingerprint and the foreign key |
| NodeRegistry.Registry.InsertAlias | core/authority/registry.cpp:84-89 | The primary key and the foreign key |
| NodeRegistry.EveryRun | core/authority/registry.cpp:251-565 | After every run of enrolments and aliases from empty tables: display names are aliases of the same node, aliases and certificates refer to nodes, all names are normalised, and no name has two owners |
| NodeRegistry.RunKeeps | core/authority/registry.cpp:251-565 | And no run takes a name away from its owner |
| NodeRegistry.InvSingleOwner | core/authority/registry.cpp:68-131 | The table invariant leaves each name at most one owner, a registered node |
| NodeRegistry.FreeNames | core/authority/registry.cpp:251-365 | Under the invariant enrolment succeeds exactly when node and fingerprint are new and nobody owns the normalised name |
| NodeRegistry.ReleaseKeepsInvIff | core/authority/registry.cpp:567-580 | A release keeps the invariant if and only if the name is nobody's display name |
| NodeRegistry.ReleasedNameIsTaken | core/authority/registry.cpp:532-580 | After releasing a display name any other node can take it, and it has two owners |
| Leb128.UlebRoundTrip | compiler/wasm/wasm_emitter.cpp:129-137 | The uN decoder of section 5.2.2 of the WebAssembly Core Specification 1.0 reads back every value of its width, whatever follows |
| Leb128.UlebShortest | compiler/wasm/wasm_emitter.cpp:129-137 | No byte string that decodes to a value is shorter than the one written |
| Leb128.UlebLength | compiler/wasm/wasm_emitter.cpp:129-137 | k bytes are enough exactly for the values below 2^(7k) |
| Leb128.UlebSplits | compiler/wasm/wasm_emitter.cpp:129-137 | The unsigned form is prefix-free for values of any size |
| Leb128.SlebRoundTrip | compiler/wasm/wasm_emitter.cpp:139-150 | The sN decoder reads back every signed value of its width, whatever follows |
| Leb128.SlebShortest | compiler/wasm/wasm_emitter.cpp:139-150 | No byte string that decodes to a signed value is shorter than the one written |
| Leb128.SlebLength | compiler/wasm/wasm_emitter.cpp:139-150 | k bytes are enough exactly for the signed values of 7k bits |
| Leb128.TenBytes | compiler/wasm/wasm_emitter.cpp:129-150 | A 64-bit value never takes more than ten bytes |
| Leb128.Samples | compiler/wasm/wasm_emitter.cpp:129-150 | The bytes of sample values around the sign bit and over several groups |
| Leb128.Buffer.WriteUleb | compiler/wasm/wasm_emitter.cpp:129-137 | The loop appends that unsigned form |
| Leb128.Buffer.WriteSleb | compiler/wasm/wasm_emitter.cpp:139-150 | The loop with its sign-bit test appends that signed form |
| WasmModules.BlobRoundTrip | compiler/wasm/wasm_emitter.cpp:162-166 | Length-prefixed bytes are read back, whatever follows, if and only if the length fits a u32 |
| WasmModules.ModuleParses | compiler/wasm/wasm_emitter.cpp:98-127 | A header and framed sections parse into exactly those sections if and only if every payload size fits a u32 |
| WasmModules.SplitIsUnique | compiler/wasm/wasm_emitter.cpp:162-166 | No module is the framing of two section lists, whatever the payload sizes |
| WasmModules.VectorRoundTrip | compiler/wasm/wasm_emitter.cpp:168-212 | A counted vector of readable elements is read back up to the end of its payload |
| WasmEmitter.Emitter.WriteSection | compiler/wasm/wasm_emitter.cpp:162-166 | Appends one frame |
| WasmEmitter.Emitter.EmitTypeSection | compiler/wasm/wasm_emitter.cpp:168-212 | Appends all signatures, imports first, and records the index of every local function |
| WasmEmitter.Emitter.EmitFunctionSection | compiler/wasm/wasm_emitter.cpp:243-274 | Appends the indices of the local functions in order under their true count |
| WasmEmitter.Emitter.EmitCodeSection | compiler/wasm/wasm_emitter.cpp:338-393 | Appends the bodies in the same order under the same count |
| WasmEmitter.Emitter.Emit | compiler/wasm/wasm_emitter.cpp:98-127 | The module is the header and six sections with strictly increasing ids, whatever an earlier call left |
| WasmEmitter.EmittedSplits | compiler/wasm/wasm_emitter.cpp:98-166 | The emitted module parses into its six sections if and only if their sizes fit a u32 |
| WasmEmitter.EmittedLayout | compiler/wasm/wasm_emitter.cpp:98-166 | The emitted bytes: the eight header bytes and the sections 1, 2, 3, 5, 7, 10, each behind its size |
| WasmEmitter.TypeLayout | compiler/wasm/wasm_emitter.cpp:168-212 | The bytes of the type section: count, import types, then the signature of each local function |
| WasmEmitter.FunctionLayout | compiler/wasm/wasm_emitter.cpp:243-274 | The bytes of the function section: count and the consecutive 32-bit indices after the imports |
| WasmEmitter.CodeLayout | compiler/wasm/wasm_emitter.cpp:338-393 | The bytes of the code section: the same count and every body behind its size, in order |
| WasmEmitter.CountsAgree | compiler/wasm/wasm_emitter.cpp:243-393 | Function and code section declare the same count; the indices are read back one for each local function, and the bodies if and only if each size fits a u32 |
| WasmEmitter.IndicesNameSignatures | compiler/wasm/wasm_emitter.cpp:168-274 | A local function's index, followed into the parsed type section, finds that function's own signature |
| SeedSelection.SelectBest | core/discovery/seed_store.cpp:105-128 | 404 for an empty list, the first entry when nothing has weight, else the entry whose stretch of the running total covers the pick; the fallback after the loop is not reached |
| SeedSelection.ExactlyOne | core/discovery/seed_store.cpp:119-127 | The stretches partition the picks below the total, so an entry without weight is never chosen |
| SeedSelection.PickCount | core/discovery/seed_store.cpp:113-127 | As many picks choose an entry as its weight says |
| SeedSelection.Reachable | core/discovery/seed_store.cpp:118-127 | With a generator of bounded range an entry can be chosen if and only if it has weight and its stretch starts inside the range |
| SeedSelection.DrawCount | core/discovery/seed_store.cpp:118-127 | How many of the generator's draws choose an entry: its weight for every full round of the total, and its overlap with the draws left over |
| SeedSelection.FairIff | core/discovery/seed_store.cpp:118-127 | The draws are proportional to the weights for every entry if and only if the total divides the generator's range or one entry has all the weight |

## Left out

- The command line tools, sockets, servers and clients (`cmd/`, the enrolment server, the bootstrap client), the benchmarks and all file and disk effects.
- SQLite, OpenSSL, Argon2, AEAD and hash implementations: tables are maps that honour the declared keys, and a signature is a predicate.
- Failures of SQLite itself (codes 900 and 904), text cut at an embedded NUL, and `validate_display_name`, which enrolment does not call.
- `register_node` and the certificate, enrolment and revocation tables' other operations: `register_node` replaces rows and bypasses the shared namespace, so the naming theorems are about enrolments and aliases (releases have their own theorems).
- WebAssembly instruction selection, local allocation, and the contents of the import, memory and export sections, which are parameters of the emitted module.
- The policy engine's cache (never read), YAML loading, `where` expressions (always true), the diagnostic lists and metadata of its result, and trust scores that are NaN.
- Authority key rotation, `mesh.json`, the registry writes that accompany adding or revoking a CA, and fields of a CA record that no check reads.
- Discovery, gossip, membership, Merkle trees, version vectors, governance and the Raft log.
- The `ContractInput` and `ContractResult` codecs, the schema registry, ABI and contract JSON lookups, and the serialisation of a single Shamir share: easy beside what they are built from.
- Graph hashes, timestamps, the unused `max_width` limit and the 32-bit width of depths in the compiler.
- Wrap-around of `pos + n` and of `2 * size` in the CBOR decoder, of 64-bit weight totals, and failed memory allocation.
- Doubles are 64-bit patterns; trust scores are reals.
